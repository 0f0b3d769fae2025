/** UTF-8 as defined by the syntax of section 4 of RFC 3629, which is what
    Rust's `String::from_utf8` accepts: no overlong forms, no surrogates,
    nothing above U+10FFFF. */
module Utf8 {
  import opened Errors

  /** An octet. */
  type byte = b: int | 0 <= b < 256

  /** UTF8-tail = %x80-BF */
  predicate IsTail(b: byte) {
    0x80 <= b <= 0xBF
  }

  /** The range the octet after `lead` must fall in, for the lead octets of
      three- and four-octet characters (RFC 3629, section 4: UTF8-3, UTF8-4). */
  predicate SecondOk(lead: byte, b: byte) {
    if lead == 0xE0 then 0xA0 <= b <= 0xBF
    else if lead == 0xED then 0x80 <= b <= 0x9F
    else if lead == 0xF0 then 0x90 <= b <= 0xBF
    else if lead == 0xF4 then 0x80 <= b <= 0x8F
    else IsTail(b)
  }

  /** The length of the UTF8-char that lead octet `b` starts, or 0 when `b`
      cannot start one (a tail octet, C0, C1, F5 to FF). */
  function LeadLength(b: byte): (n: nat)
    ensures n <= 4
  {
    if b <= 0x7F then 1
    else if 0xC2 <= b <= 0xDF then 2
    else if 0xE0 <= b <= 0xEF then 3
    else if 0xF0 <= b <= 0xF4 then 4
    else 0
  }

  /** The octets at `i` up to `n` after a lead octet are in range: the
      first one as `SecondOk` says, the others UTF8-tails. */
  predicate TailsOk(s: seq<byte>, i: nat, n: nat)
    requires 1 <= i <= n <= |s|
    decreases n - i
  {
    i == n || ((if i == 1 then SecondOk(s[0], s[i]) else IsTail(s[i])) && TailsOk(s, i + 1, n))
  }

  /** The number of octets of the UTF8-char that `s` starts with, or 0 when
      `s` does not start with one. */
  function CharLength(s: seq<byte>): (n: nat)
    ensures n <= 4 && n <= |s|
  {
    if |s| == 0 then 0
    else
      var n := LeadLength(s[0]);
      if 0 < n <= |s| && TailsOk(s, 1, n) then n else 0
  }

  /** The grammar of RFC 3629, section 4, for one UTF8-char of `n` octets at
      the front of `s`, written out alternative by alternative. */
  predicate ValidCharAt(s: seq<byte>, n: nat) {
    && n <= |s|
    && (|| (n == 1 && s[0] <= 0x7F)
        || (n == 2 && 0xC2 <= s[0] <= 0xDF && IsTail(s[1]))
        || (n == 3 && s[0] == 0xE0 && 0xA0 <= s[1] <= 0xBF && IsTail(s[2]))
        || (n == 3 && 0xE1 <= s[0] <= 0xEC && IsTail(s[1]) && IsTail(s[2]))
        || (n == 3 && s[0] == 0xED && 0x80 <= s[1] <= 0x9F && IsTail(s[2]))
        || (n == 3 && 0xEE <= s[0] <= 0xEF && IsTail(s[1]) && IsTail(s[2]))
        || (n == 4 && s[0] == 0xF0 && 0x90 <= s[1] <= 0xBF && IsTail(s[2]) && IsTail(s[3]))
        || (n == 4 && 0xF1 <= s[0] <= 0xF3 && IsTail(s[1]) && IsTail(s[2]) && IsTail(s[3]))
        || (n == 4 && s[0] == 0xF4 && 0x80 <= s[1] <= 0x8F && IsTail(s[2]) && IsTail(s[3])))
  }

  /** UTF8-octets = *( UTF8-char ) */
  predicate WellFormed(s: seq<byte>)
    decreases |s|
  {
    |s| == 0 || (CharLength(s) > 0 && WellFormed(s[CharLength(s)..]))
  }

  /** A Unicode scalar value: a code point that is not a surrogate. */
  predicate IsScalar(n: int) {
    0 <= n < 0xD800 || 0xE000 <= n < 0x11_0000
  }

  /** The payload bits of a lead octet: what follows its length marker. */
  function LeadBits(b: byte): int {
    if b <= 0x7F then b
    else if b <= 0xDF then b - 0xC0
    else if b <= 0xEF then b - 0xE0
    else b - 0xF0
  }

  /** Appends the six payload bits of continuation octet `tail` to `high`. */
  function Join(high: int, tail: byte): int {
    high * 0x40 + (tail - 0x80)
  }

  /** The number the first `n` octets of `s` spell: the lead octet's
      payload bits, then six bits per continuation octet. */
  function CodePoint(s: seq<byte>, n: nat): int
    requires 1 <= n <= |s|
    decreases n
  {
    if n == 1 then LeadBits(s[0]) else Join(CodePoint(s, n - 1), s[n - 1])
  }

  /** The character encoded by the UTF8-char at the front of `s`. */
  function DecodeChar(s: seq<byte>): (c: char)
    requires CharLength(s) > 0
  {
    CodePointIsScalar(s);
    CodePoint(s, CharLength(s)) as char
  }

  /** The text a well-formed octet sequence encodes. */
  function Decode(s: seq<byte>): (t: string)
    requires WellFormed(s)
    ensures |t| <= |s|
    decreases |s|
  {
    if |s| == 0 then [] else [DecodeChar(s)] + Decode(s[CharLength(s)..])
  }

  /** The shortest UTF-8 form of one character: its bits split into
      groups of six from the low end, behind a lead octet that gives the
      length. */
  function EncodeChar(c: char): (r: seq<byte>)
    ensures 1 <= |r| <= 4
  {
    var n := c as int;
    var n1, n2 := n / 0x40, n / 0x40 / 0x40;
    var n3 := n2 / 0x40;
    if n < 0x80 then
      [n]
    else if n < 0x800 then
      [0xC0 + n1, Tail(n)]
    else if n < 0x1_0000 then
      [0xE0 + n2, Tail(n1), Tail(n)]
    else
      [0xF0 + n3, Tail(n2), Tail(n1), Tail(n)]
  }

  /** The continuation octet carrying the low six bits of `n`. */
  function Tail(n: int): byte {
    0x80 + n % 0x40
  }

  function Encode(t: string): (r: seq<byte>)
    ensures |t| <= |r|
  {
    if |t| == 0 then [] else EncodeChar(t[0]) + Encode(t[1..])
  }

  /** The length of the longest well-formed prefix of `s`. */
  function ValidPrefixLength(s: seq<byte>): (v: nat)
    ensures v <= |s|
    decreases |s|
  {
    if |s| == 0 || CharLength(s) == 0 then 0
    else CharLength(s) + ValidPrefixLength(s[CharLength(s)..])
  }

  /** `String::from_utf8`: the text of a well-formed sequence, or an error
      that says where the first ill-formed character starts. On failure no
      text is returned at all. */
  function FromUtf8(s: seq<byte>): (r: Result<string>)
    ensures r.Ok? <==> WellFormed(s)
    ensures r.Ok? ==> Encode(r.value) == s
    ensures r.Err? ==> r.error.InvalidUtf8?
    ensures r.Err? ==> var v := r.error.validUpTo;
      v < |s| && WellFormed(s[..v]) && CharLength(s[v..]) == 0
  {
    ValidPrefix(s);
    if WellFormed(s) then
      DecodeEncode(s);
      Ok(Decode(s))
    else
      Err(InvalidUtf8(ValidPrefixLength(s)))
  }

  // ---------------------------------------------------------------------
  // One character

  /** The octets of a UTF8-char of length `n`, unfolded. */
  lemma CharOctets(s: seq<byte>)
    requires CharLength(s) > 0
    ensures var n := CharLength(s);
      && n == LeadLength(s[0])
      && (n >= 2 ==> SecondOk(s[0], s[1]))
      && (n >= 3 ==> IsTail(s[2]))
      && (n >= 4 ==> IsTail(s[3]))
  {
    var n := CharLength(s);
    if n >= 2 {
      assert TailsOk(s, 1, n);
    }
    if n >= 3 {
      assert TailsOk(s, 2, n);
    }
    if n >= 4 {
      assert TailsOk(s, 3, n);
    }
  }

  /** The number a UTF8-char spells is a Unicode scalar value: the grammar
      excludes surrogates and everything above U+10FFFF. */
  lemma CodePointIsScalar(s: seq<byte>)
    requires CharLength(s) > 0
    ensures IsScalar(CodePoint(s, CharLength(s)))
  {
    CharOctets(s);
  }

  /** `CharLength` recognises exactly the alternatives of the grammar. */
  lemma CharLengthGrammar(s: seq<byte>, n: nat)
    requires n > 0
    ensures CharLength(s) == n <==> ValidCharAt(s, n)
  {
    if CharLength(s) > 0 {
      CharOctets(s);
    }
    if ValidCharAt(s, n) && n >= 2 {
      if n == 4 {
        assert TailsOk(s, 3, 4) && TailsOk(s, 2, 4);
      }
      if n == 3 {
        assert TailsOk(s, 2, 3);
      }
      assert TailsOk(s, 1, n);
    }
  }

  lemma {:induction false} TailsOkPrefix(s: seq<byte>, t: seq<byte>, i: nat, n: nat)
    requires 1 <= i <= n <= |s|
    ensures TailsOk(s + t, i, n) == TailsOk(s, i, n)
    decreases n - i
  {
    if i < n {
      TailsOkPrefix(s, t, i + 1, n);
      assert (s + t)[i] == s[i] && (s + t)[0] == s[0];
    }
  }

  lemma {:induction false} CodePointPrefix(s: seq<byte>, t: seq<byte>, n: nat)
    requires 1 <= n <= |s|
    ensures CodePoint(s + t, n) == CodePoint(s, n)
    decreases n
  {
    if n > 1 {
      CodePointPrefix(s, t, n - 1);
      assert (s + t)[n - 1] == s[n - 1];
    } else {
      assert (s + t)[0] == s[0];
    }
  }

  /** Whatever follows a UTF8-char does not change how it is read. */
  lemma CharLengthPrefix(s: seq<byte>, t: seq<byte>)
    requires CharLength(s) > 0
    ensures CharLength(s + t) == CharLength(s)
    ensures DecodeChar(s + t) == DecodeChar(s)
  {
    var n := CharLength(s);
    assert (s + t)[0] == s[0];
    TailsOkPrefix(s, t, 1, n);
    CodePointPrefix(s, t, n);
  }

  /** Euclidean division by 64 undoes `Join`. */
  lemma JoinSplits(high: int, tail: byte)
    requires IsTail(tail)
    ensures Join(high, tail) / 0x40 == high
    ensures Tail(Join(high, tail)) == tail
  {
  }

  /** `Join` undoes splitting off the low six bits. */
  lemma SplitJoins(n: int)
    ensures IsTail(Tail(n))
    ensures Join(n / 0x40, Tail(n)) == n
  {
  }

  /** Encoding a character yields one UTF8-char that spells its value. */
  lemma EncodeCharSpells(c: char)
    ensures CharLength(EncodeChar(c)) == |EncodeChar(c)|
    ensures CodePoint(EncodeChar(c), |EncodeChar(c)|) == c as int
  {
    var e := EncodeChar(c);
    var n := c as int;
    var n1, n2 := n / 0x40, n / 0x40 / 0x40;
    SplitJoins(n);
    SplitJoins(n1);
    SplitJoins(n2);
    var k := |e|;
    assert LeadLength(e[0]) == k;
    if k == 4 {
      assert TailsOk(e, 3, 4) && TailsOk(e, 2, 4);
      assert CodePoint(e, 2) == n2;
      assert CodePoint(e, 3) == n1;
    }
    if k == 3 {
      assert TailsOk(e, 2, 3);
      assert CodePoint(e, 2) == n1;
    }
    assert TailsOk(e, 1, k);
  }

  /** Encoding a character yields exactly one UTF8-char which reads back as
      that character, whatever follows it. */
  lemma EncodeCharDecodes(c: char, t: seq<byte>)
    ensures CharLength(EncodeChar(c) + t) == |EncodeChar(c)|
    ensures DecodeChar(EncodeChar(c) + t) == c
  {
    EncodeCharSpells(c);
    CharLengthPrefix(EncodeChar(c), t);
  }

  /** A UTF8-char is the encoding of the character it decodes to. */
  lemma DecodeCharEncodes(s: seq<byte>)
    requires CharLength(s) > 0
    ensures EncodeChar(DecodeChar(s)) == s[..CharLength(s)]
  {
    var n := CharLength(s);
    CharOctets(s);
    var b0: int := s[0];
    if n == 2 {
      JoinSplits(LeadBits(s[0]), s[1]);
    } else if n == 3 {
      var j1 := Join(LeadBits(s[0]), s[1]);
      assert CodePoint(s, 2) == j1;
      JoinSplits(LeadBits(s[0]), s[1]);
      JoinSplits(j1, s[2]);
    } else if n == 4 {
      var j1 := Join(LeadBits(s[0]), s[1]);
      var j2 := Join(j1, s[2]);
      assert CodePoint(s, 2) == j1 && CodePoint(s, 3) == j2;
      JoinSplits(LeadBits(s[0]), s[1]);
      JoinSplits(j1, s[2]);
      JoinSplits(j2, s[3]);
    }
  }

  // ---------------------------------------------------------------------
  // Whole sequences

  /** Every text has a well-formed encoding that decodes back to it. */
  lemma {:induction false} EncodeWellFormed(t: string)
    ensures WellFormed(Encode(t))
    ensures Decode(Encode(t)) == t
  {
    if |t| > 0 {
      var e, rest := EncodeChar(t[0]), Encode(t[1..]);
      EncodeWellFormed(t[1..]);
      EncodeCharDecodes(t[0], rest);
      assert (e + rest)[|e|..] == rest;
    }
  }

  /** Every well-formed sequence is the encoding of its decoded text. */
  lemma {:induction false} DecodeEncode(s: seq<byte>)
    requires WellFormed(s)
    ensures Encode(Decode(s)) == s
    decreases |s|
  {
    if |s| > 0 {
      var n := CharLength(s);
      var rest := s[n..];
      DecodeFirst(s);
      var c, tail := DecodeChar(s), Decode(rest);
      calc {
        Encode(Decode(s));
        Encode([c] + tail);
        { EncodeFirst(c, tail); }
        EncodeChar(c) + Encode(tail);
        { DecodeEncode(rest); DecodeCharEncodes(s); }
        s[..n] + rest;
        s;
      }
    }
  }

  /** A non-empty well-formed sequence is one character, then a well-formed
      rest. */
  lemma DecodeFirst(s: seq<byte>)
    requires WellFormed(s) && |s| > 0
    ensures CharLength(s) > 0 && WellFormed(s[CharLength(s)..])
    ensures Decode(s) == [DecodeChar(s)] + Decode(s[CharLength(s)..])
  {
  }

  lemma EncodeFirst(c: char, t: string)
    ensures Encode([c] + t) == EncodeChar(c) + Encode(t)
  {
    var ct := [c] + t;
    assert ct[0] == c && ct[1..] == t;
  }

  /** The first UTF8-char of `s`, taken on its own, is still one. */
  lemma CharLengthTake(s: seq<byte>)
    requires CharLength(s) > 0
    ensures CharLength(s[..CharLength(s)]) == CharLength(s)
  {
    var n := CharLength(s);
    var p := s[..n];
    assert p + s[n..] == s;
    TailsOkPrefix(p, s[n..], 1, n);
  }

  /** The longest well-formed prefix is well-formed, no character starts
      right after it, and it is the whole sequence exactly when the sequence
      is well-formed. */
  lemma ValidPrefix(s: seq<byte>)
    ensures WellFormed(s[..ValidPrefixLength(s)])
    ensures ValidPrefixLength(s) < |s| ==> CharLength(s[ValidPrefixLength(s)..]) == 0
    ensures ValidPrefixLength(s) == |s| <==> WellFormed(s)
  {
    ValidPrefixWellFormed(s);
    ValidPrefixStops(s);
    ValidPrefixWhole(s);
  }

  lemma {:induction false} ValidPrefixWellFormed(s: seq<byte>)
    ensures WellFormed(s[..ValidPrefixLength(s)])
    decreases |s|
  {
    if |s| == 0 || CharLength(s) == 0 {
      assert s[..0] == [];
    } else {
      var n := CharLength(s);
      var rest := s[n..];
      ValidPrefixWellFormed(rest);
      var v := ValidPrefixLength(rest);
      assert s[..n] + rest[..v] == s[..n + v];
      CharLengthTake(s);
      WellFormedCons(s[..n], rest[..v]);
    }
  }

  lemma {:induction false} ValidPrefixStops(s: seq<byte>)
    ensures ValidPrefixLength(s) < |s| ==> CharLength(s[ValidPrefixLength(s)..]) == 0
    decreases |s|
  {
    if |s| > 0 && CharLength(s) > 0 {
      var n := CharLength(s);
      var rest := s[n..];
      ValidPrefixStops(rest);
      assert s[n + ValidPrefixLength(rest)..] == rest[ValidPrefixLength(rest)..];
    }
  }

  lemma {:induction false} ValidPrefixWhole(s: seq<byte>)
    ensures ValidPrefixLength(s) == |s| <==> WellFormed(s)
    decreases |s|
  {
    if |s| > 0 && CharLength(s) > 0 {
      ValidPrefixWhole(s[CharLength(s)..]);
    }
  }

  /** One UTF8-char followed by a well-formed sequence is well-formed. */
  lemma WellFormedCons(c: seq<byte>, rest: seq<byte>)
    requires CharLength(c) == |c| > 0
    requires WellFormed(rest)
    ensures WellFormed(c + rest)
  {
    CharLengthPrefix(c, rest);
    assert (c + rest)[|c|..] == rest;
  }

  /** Concatenating well-formed sequences gives a well-formed sequence whose
      text is the concatenation of the texts. */
  lemma AppendWellFormed(a: seq<byte>, b: seq<byte>)
    requires WellFormed(a) && WellFormed(b)
    ensures WellFormed(a + b)
    ensures Decode(a + b) == Decode(a) + Decode(b)
  {
    AppendWellFormedOnly(a, b);
    AppendDecode(a, b);
  }

  lemma {:induction false} AppendWellFormedOnly(a: seq<byte>, b: seq<byte>)
    requires WellFormed(a) && WellFormed(b)
    ensures WellFormed(a + b)
    decreases |a|
  {
    if |a| == 0 {
      assert a + b == b;
    } else {
      var n := CharLength(a);
      AppendWellFormedOnly(a[n..], b);
      CharLengthPrefix(a, b);
      assert (a + b)[n..] == a[n..] + b;
    }
  }

  lemma {:induction false} AppendDecode(a: seq<byte>, b: seq<byte>)
    requires WellFormed(a) && WellFormed(b) && WellFormed(a + b)
    ensures Decode(a + b) == Decode(a) + Decode(b)
    decreases |a|
  {
    if |a| == 0 {
      assert a + b == b;
    } else {
      var rest := a[CharLength(a)..];
      DecodeFirst(a);
      AppendWellFormedOnly(rest, b);
      DecodeAppendFirst(a, b);
      AppendDecode(rest, b);
      ConsAppend(DecodeChar(a), Decode(rest), Decode(b));
    }
  }

  lemma ConsAppend(c: char, x: string, y: string)
    ensures [c] + (x + y) == ([c] + x) + y
  {
  }

  /** The first character of a + b is that of a, and the rest follows it. */
  lemma DecodeAppendFirst(a: seq<byte>, b: seq<byte>)
    requires CharLength(a) > 0 && WellFormed(a + b)
    requires WellFormed(a[CharLength(a)..] + b)
    ensures Decode(a + b) == [DecodeChar(a)] + Decode(a[CharLength(a)..] + b)
  {
    var n := CharLength(a);
    CharLengthPrefix(a, b);
    assert (a + b)[n..] == a[n..] + b;
    DecodeFirst(a + b);
  }

  /** What follows a well-formed prefix of a well-formed sequence is itself
      well-formed: character boundaries do not depend on what comes later. */
  lemma {:induction false} SuffixWellFormed(a: seq<byte>, b: seq<byte>)
    requires WellFormed(a) && WellFormed(a + b)
    ensures WellFormed(b)
    decreases |a|
  {
    if |a| == 0 {
      assert a + b == b;
    } else {
      var n := CharLength(a);
      CharLengthPrefix(a, b);
      assert (a + b)[n..] == a[n..] + b;
      SuffixWellFormed(a[n..], b);
    }
  }

  /** A character below U+0080 is encoded as the single octet of its value. */
  lemma EncodeAscii(c: char)
    requires (c as int) < 0x80
    ensures Encode([c]) == [c as int]
  {
    assert [c][1..] == [];
  }

  /** Encoding distributes over concatenation. */
  lemma {:induction false} EncodeAppend(a: string, b: string)
    ensures Encode(a + b) == Encode(a) + Encode(b)
    decreases |a|
  {
    if |a| > 0 {
      var ab := a + b;
      assert ab[0] == a[0];
      assert ab[1..] == a[1..] + b;
      EncodeAppend(a[1..], b);
      assert Encode(ab) == EncodeChar(ab[0]) + Encode(ab[1..]);
    } else {
      assert a + b == b;
    }
  }
}
