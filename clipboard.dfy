/** `load_clipboard_content` once the offers are collected: the scan for the
    plain UTF-8 text type, the transfer request, the read loop and the
    decode. */
module Clipboard {
  import opened Errors
  import opened Utf8
  import opened Offers
  import opened Transfer

  /** The only content type that is ever retrieved. */
  const TextMime := "text/plain;charset=utf-8"

  /** The requests toward the server and the kernel on the path that found
      the text type, in the order they are made. */
  datatype Request =
    | CreatePipe
    | Receive(offer: OfferId, mimeType: string)
    | Roundtrip
    | CloseWriter

  /** What the selected path issues when its roundtrip succeeds. */
  function TransferRequests(offer: OfferId): seq<Request> {
    [CreatePipe, Receive(offer, TextMime), Roundtrip, CloseWriter]
  }

  /** `String::from_utf8` applied to what the read loop ended with. */
  function DecodeOutcome(read: Result<seq<byte>>): Result<string> {
    match read
    case Err(e) => Err(e)
    case Ok(bytes) => FromUtf8(bytes)
  }

  /** The `for` loop over a snapshot of the map, in the map's unspecified
      order. `roundtrip` is the error of the roundtrip after `receive`, if it
      fails; `rs` are the results of the reads of the pipe. */
  method SelectAndFetch(offers: map<string, OfferId>, roundtrip: Option<string>, rs: seq<ReadResult>)
    returns (r: Result<string>, requests: seq<Request>)
    requires WellBehaved(rs)
    ensures TextMime !in offers ==> r == Err(NoSuitableData) && requests == []
    ensures TextMime in offers && roundtrip.Some? ==>
      && r == Err(RoundtripFailed(roundtrip.value))
      && requests == TransferRequests(offers[TextMime])[..3]
    ensures TextMime in offers && roundtrip.None? ==>
      && r == DecodeOutcome(ReadOutcome(rs))
      && requests == TransferRequests(offers[TextMime])
  {
    requests := [];
    var remaining := offers.Keys;
    while remaining != {}
      invariant remaining <= offers.Keys
      invariant TextMime in offers ==> TextMime in remaining
      invariant requests == []
      decreases remaining
    {
      var mime :| mime in remaining;
      remaining := remaining - {mime};
      var offer := offers[mime];
      if mime == TextMime {
        requests := requests + [CreatePipe];
        requests := requests + [Receive(offer, mime)];
        requests := requests + [Roundtrip];
        if roundtrip.Some? {
          return Err(RoundtripFailed(roundtrip.value)), requests;
        }
        requests := requests + [CloseWriter];
        var read := ReadToEnd(rs);
        match read {
          case Err(e) =>
            return Err(e), requests;
          case Ok(bytes) =>
            return FromUtf8(bytes), requests;
        }
      }
    }
    r := Err(NoSuitableData);
  }

  /** The clipboard read from the events delivered to the filter onward:
      the text is fetched exactly when some offer advertised the text type
      after it was announced, and then from the offer that advertised it
      last. */
  method LoadClipboardContent(events: seq<Event>, roundtrip: Option<string>, rs: seq<ReadResult>)
    returns (r: Result<string>, requests: seq<Request>)
    requires WellBehaved(rs)
    ensures (forall j :: !Registers(events, j, TextMime)) ==> r == Err(NoSuitableData) && requests == []
    ensures (exists j :: Registers(events, j, TextMime)) ==>
      |requests| >= 3 && exists j :: LastRegisters(events, j, TextMime) && requests[..3] == TransferRequests(events[j].target)[..3]
    ensures (exists j :: Registers(events, j, TextMime)) && roundtrip.Some? ==>
      r == Err(RoundtripFailed(roundtrip.value)) && |requests| == 3
    ensures (exists j :: Registers(events, j, TextMime)) && roundtrip.None? ==>
      r == DecodeOutcome(ReadOutcome(rs)) && |requests| == 4 && requests[3] == CloseWriter
  {
    var offers := GetOffers(events);
    assert TextMime in offers <==> exists j :: Registers(events, j, TextMime);
    r, requests := SelectAndFetch(offers, roundtrip, rs);
    if TextMime in offers {
      ghost var j :| LastRegisters(events, j, TextMime) && offers[TextMime] == events[j].target;
      assert requests[..3] == TransferRequests(events[j].target)[..3];
    }
  }

  // ---------------------------------------------------------------------
  // The outcome of a transfer

  /** A read error gives that error and no text; otherwise the outcome is a
      text exactly when the accumulated bytes are well-formed UTF-8, and the
      text encodes back to exactly those bytes. */
  lemma FetchOutcome(rs: seq<ReadResult>)
    requires WellBehaved(rs)
    ensures ReadOutcome(rs).Err? ==> DecodeOutcome(ReadOutcome(rs)) == Err(ReadOutcome(rs).error)
    ensures DecodeOutcome(ReadOutcome(rs)).Ok? <==> ReadOutcome(rs).Ok? && WellFormed(ReadOutcome(rs).value)
    ensures DecodeOutcome(ReadOutcome(rs)).Ok? ==> Encode(DecodeOutcome(ReadOutcome(rs)).value) == ReadOutcome(rs).value
  {
  }

  /** A read error is reported as "Error when reading: " and its text. */
  lemma ReadErrorMessage(rs: seq<ReadResult>)
    requires WellBehaved(rs) && rs[FirstStop(rs)].ReadErr?
    ensures DecodeOutcome(ReadOutcome(rs)).Err?
    ensures Message(DecodeOutcome(ReadOutcome(rs)).error) == Some("Error when reading: " + rs[FirstStop(rs)].reason)
  {
  }

  /** Nothing written to the pipe: the empty text. */
  lemma EmptyClipboard(rs: seq<ReadResult>)
    requires WellBehaved(rs) && rs[0] == ReadOk([])
    ensures DecodeOutcome(ReadOutcome(rs)) == Ok("")
  {
    EmptyTransfer(rs);
    assert WellFormed([]);
    assert Decode([]) == "";
  }

  /** `n` NUL characters. */
  function Nuls(n: nat): (t: string)
    ensures |t| == n
  {
    seq(n, _ => '\0')
  }

  lemma {:induction false} ZerosDecode(n: nat)
    ensures WellFormed(Zeros(n)) && Decode(Zeros(n)) == Nuls(n)
  {
    if n > 0 {
      ZerosDecode(n - 1);
      assert Zeros(n)[1..] == Zeros(n - 1);
      assert Nuls(n) == ['\0'] + Nuls(n - 1);
    }
  }

  /** One read that delivers the whole buffer-sized-or-smaller payload. */
  lemma SingleRead(data: seq<byte>)
    requires 0 < |data| <= BufSize
    ensures WellBehaved([ReadOk(data), ReadOk([])])
    ensures ReadOutcome([ReadOk(data), ReadOk([])]) == Ok(data + Zeros(BufSize - |data|))
  {
    var rs := [ReadOk(data), ReadOk([])];
    assert rs[1].Stops();
    assert FirstStop(rs) == 1;
    var chunks := Payloads(rs[..1]);
    assert chunks == [data];
    assert chunks[..0] == [];
    assert Zeros(BufSize)[|data|..] == Zeros(BufSize - |data|);
    assert Accumulated(chunks) == BufferAfter(chunks);
  }

  /** A text sent in one read comes back followed by NUL characters up to
      the buffer's length, not as itself. */
  lemma SingleReadText(t: string)
    requires 0 < |Encode(t)| <= BufSize
    ensures WellBehaved([ReadOk(Encode(t)), ReadOk([])])
    ensures DecodeOutcome(ReadOutcome([ReadOk(Encode(t)), ReadOk([])])) == Ok(t + Nuls(BufSize - |Encode(t)|))
  {
    var e := Encode(t);
    SingleRead(e);
    EncodeWellFormed(t);
    ZerosDecode(BufSize - |e|);
    AppendWellFormed(e, Zeros(BufSize - |e|));
  }

  /** A full read followed by a shorter one: the second block is the new
      bytes followed by the stale tail of the first read. */
  lemma FullThenShort(e: seq<byte>, x: seq<byte>)
    requires |e| == BufSize && 0 < |x| <= BufSize
    ensures WellBehaved([ReadOk(e), ReadOk(x), ReadOk([])])
    ensures ReadOutcome([ReadOk(e), ReadOk(x), ReadOk([])]) == Ok(e + (x + e[|x|..]))
    ensures Flatten(Payloads([ReadOk(e), ReadOk(x)])) == e + x
  {
    var rs := [ReadOk(e), ReadOk(x), ReadOk([])];
    assert rs[2].Stops();
    assert FirstStop(rs) == 2;
    var chunks := Payloads(rs[..2]);
    assert chunks == [e, x] && chunks == Payloads([ReadOk(e), ReadOk(x)]);
    var first: seq<seq<byte>> := [e];
    assert chunks[..1] == first && first[..0] == [];
    assert BufferAfter(first) == e;
    assert BufferAfter(chunks) == x + e[|x|..];
    assert Accumulated(first) == e;
    assert Flatten(first) == e;
  }

  /** A full first read followed by a one-byte read: a text that was sent
      intact is rejected when the octet after the first one of its encoding
      is a continuation octet, because that octet is appended again right
      behind the new byte. */
  lemma StaleBytesRejectText(t: string, c: char)
    requires |Encode(t)| == BufSize && IsTail(Encode(t)[1])
    requires (c as int) < 0x80
    ensures WellBehaved([ReadOk(Encode(t)), ReadOk(Encode([c])), ReadOk([])])
    ensures Flatten(Payloads([ReadOk(Encode(t)), ReadOk(Encode([c]))])) == Encode(t + [c])
    ensures WellFormed(Encode(t + [c]))
    ensures DecodeOutcome(ReadOutcome([ReadOk(Encode(t)), ReadOk(Encode([c])), ReadOk([])])).Err?
  {
    var e, x := Encode(t), Encode([c]);
    EncodeAscii(c);
    FullThenShort(e, x);
    EncodeAppend(t, [c]);
    EncodeWellFormed(t + [c]);
    EncodeWellFormed(t);
    var block := x + e[1..];
    StaleBlockIllFormed(e, c as int);
    assert !WellFormed(e + block) by {
      if WellFormed(e + block) {
        SuffixWellFormed(e, block);
      }
    }
  }

  /** An ASCII byte followed by what follows the first octet of a sequence
      whose second octet is a continuation octet is not well-formed. */
  lemma StaleBlockIllFormed(e: seq<byte>, b: byte)
    requires |e| >= 2 && IsTail(e[1]) && b < 0x80
    ensures !WellFormed([b] + e[1..])
  {
    var block := [b] + e[1..];
    assert block[1..] == e[1..];
    assert CharLength(block) == 1;
    assert CharLength(e[1..]) == 0;
  }

  /** Texts the previous lemma applies to exist: 2048 copies of U+00E9,
      encoded C3 A9 each, fill the buffer exactly. */
  lemma StaleBytesExample()
    ensures var t := seq(2048, _ => '\U{E9}');
      && |Encode(t)| == BufSize && IsTail(Encode(t)[1])
      && WellBehaved([ReadOk(Encode(t)), ReadOk(Encode("A")), ReadOk([])])
      && DecodeOutcome(ReadOutcome([ReadOk(Encode(t)), ReadOk(Encode("A")), ReadOk([])])).Err?
  {
    var t := seq(2048, _ => '\U{E9}');
    RepeatLength('\U{E9}', 2048);
    assert t[0] == '\U{E9}';
    assert Encode(t)[..2] == EncodeChar(t[0]) == [0xC3, 0xA9];
    StaleBytesRejectText(t, 'A');
  }

  /** `n` copies of a character encode to `n` copies of its UTF8-char. */
  lemma {:induction false} RepeatLength(c: char, n: nat)
    ensures |Encode(seq(n, _ => c))| == n * |EncodeChar(c)|
  {
    if n > 0 {
      RepeatLength(c, n - 1);
      assert seq(n, _ => c)[1..] == seq(n - 1, _ => c);
    }
  }
}
