/** The read loop of `load_clipboard_content`: chunks are read from the
    transfer pipe into a reused 4096-byte buffer, and after every non-empty
    read the WHOLE buffer is appended to the result, not just the bytes that
    read delivered. */
module Transfer {
  import opened Errors
  import opened Utf8

  /** The length of `buf`. */
  const BufSize := 4096

  /** What one `read` of the pipe returns. */
  datatype ReadResult =
    /** `Ok(size)`, with the `size` bytes it wrote to the front of `buf`. */
    | ReadOk(data: seq<byte>)
    /** `Err(errno)`, with the errno's text. */
    | ReadErr(reason: string)
  {
    /** The loop ends at this result: a zero-length read or an error. */
    predicate Stops() {
      ReadErr? || |data| == 0
    }

    /** The bytes delivered, none for an error. */
    function Bytes(): seq<byte> {
      if ReadOk? then data else []
    }
  }

  /** What the loop can be handed: no read delivers more than the buffer
      holds, and the results reach one that ends the loop (otherwise the
      source blocks in `read` for ever). */
  predicate WellBehaved(rs: seq<ReadResult>) {
    && (forall i :: 0 <= i < |rs| ==> |rs[i].Bytes()| <= BufSize)
    && exists i :: 0 <= i < |rs| && rs[i].Stops()
  }

  /** The position of the result that ends the loop. */
  function FirstStop(rs: seq<ReadResult>): (t: nat)
    requires exists i :: 0 <= i < |rs| && rs[i].Stops()
    ensures t < |rs| && rs[t].Stops()
    ensures forall j :: 0 <= j < t ==> !rs[j].Stops()
  {
    if rs[0].Stops() then 0
    else
      var i :| 0 <= i < |rs| && rs[i].Stops();
      assert rs[1..][i - 1] == rs[i];
      1 + FirstStop(rs[1..])
  }

  /** `[0; n]` */
  function Zeros(n: nat): (z: seq<byte>)
    ensures |z| == n
    ensures forall i :: 0 <= i < n ==> z[i] == 0
  {
    seq(n, _ => 0)
  }

  /** The buffer after a read of `data` into `buf`. */
  function Overlay(buf: seq<byte>, data: seq<byte>): (r: seq<byte>)
    requires |data| <= |buf|
    ensures |r| == |buf|
    ensures r[..|data|] == data
    ensures forall i :: 0 <= i < |data| ==> r[i] == data[i]
    ensures forall i :: |data| <= i < |buf| ==> r[i] == buf[i]
  {
    data + buf[|data|..]
  }

  predicate AllFit(chunks: seq<seq<byte>>) {
    forall k :: 0 <= k < |chunks| ==> |chunks[k]| <= BufSize
  }

  /** The buffer after the rs `chunks`, starting from zeros. */
  function BufferAfter(chunks: seq<seq<byte>>): (b: seq<byte>)
    requires AllFit(chunks)
    ensures |b| == BufSize
    decreases |chunks|
  {
    if chunks == [] then Zeros(BufSize)
    else Overlay(BufferAfter(chunks[..|chunks| - 1]), chunks[|chunks| - 1])
  }

  /** `result` after the rs `chunks`: a copy of the whole buffer per read. */
  function Accumulated(chunks: seq<seq<byte>>): seq<byte>
    requires AllFit(chunks)
    decreases |chunks|
  {
    if chunks == [] then []
    else Accumulated(chunks[..|chunks| - 1]) + BufferAfter(chunks)
  }

  /** The bytes that the rs delivered, one sequence per read. */
  function Payloads(rs: seq<ReadResult>): (chunks: seq<seq<byte>>)
    ensures |chunks| == |rs|
    ensures forall k :: 0 <= k < |rs| ==> chunks[k] == rs[k].Bytes()
  {
    seq(|rs|, k requires 0 <= k < |rs| => rs[k].Bytes())
  }

  /** What the read loop ends with: the error of the result that stopped it,
      or everything accumulated from the rs before it. */
  function ReadOutcome(rs: seq<ReadResult>): Result<seq<byte>>
    requires WellBehaved(rs)
  {
    var t := FirstStop(rs);
    if rs[t].ReadErr? then Err(ReadFailed(rs[t].reason))
    else Ok(Accumulated(Payloads(rs[..t])))
  }

  /** The effect of a `read` that delivered `data` on `buf`. */
  method ReadInto(buf: array<byte>, data: seq<byte>)
    requires |data| <= buf.Length
    modifies buf
    ensures buf[..] == Overlay(old(buf[..]), data)
  {
    forall i | 0 <= i < |data| {
      buf[i] := data[i];
    }
  }

  /** The `loop` over `read`: stops at a zero-length read, aborts on an
      error. */
  method ReadToEnd(rs: seq<ReadResult>) returns (r: Result<seq<byte>>)
    requires WellBehaved(rs)
    ensures r == ReadOutcome(rs)
  {
    var buf := new byte[BufSize](_ => 0);
    var result: seq<byte> := [];
    var i := 0;
    ghost var t := FirstStop(rs);
    ghost var chunks: seq<seq<byte>> := [];
    assert Payloads(rs[..0]) == [];
    while true
      invariant 0 <= i <= t
      invariant buf.Length == BufSize
      invariant chunks == Payloads(rs[..i])
      invariant AllFit(chunks)
      invariant buf[..] == BufferAfter(chunks)
      invariant result == Accumulated(chunks)
      decreases t - i
    {
      match rs[i] {
        case ReadOk(data) =>
          if |data| > 0 {
            assert i < t by {
              assert !rs[i].Stops() && rs[t].Stops();
            }
            ReadInto(buf, data);
            LoopStep(chunks, data);
            result := result + buf[..];
          } else {
            break;
          }
        case ReadErr(reason) =>
          return Err(ReadFailed(reason));
      }
      PayloadsStep(rs, i);
      chunks := chunks + [rs[i].Bytes()];
      i := i + 1;
    }
    r := Ok(result);
  }

  /** One more read extends the buffer and the result as the loop body does. */
  lemma LoopStep(chunks: seq<seq<byte>>, data: seq<byte>)
    requires AllFit(chunks) && |data| <= BufSize
    ensures AllFit(chunks + [data])
    ensures BufferAfter(chunks + [data]) == Overlay(BufferAfter(chunks), data)
    ensures Accumulated(chunks + [data]) == Accumulated(chunks) + Overlay(BufferAfter(chunks), data)
  {
    assert (chunks + [data])[..|chunks|] == chunks;
  }

  lemma PayloadsStep(rs: seq<ReadResult>, i: nat)
    requires i < |rs|
    ensures Payloads(rs[..i + 1]) == Payloads(rs[..i]) + [rs[i].Bytes()]
  {
  }

  // ---------------------------------------------------------------------
  // What the accumulated bytes are

  function Flatten(chunks: seq<seq<byte>>): seq<byte>
    decreases |chunks|
  {
    if chunks == [] then [] else Flatten(chunks[..|chunks| - 1]) + chunks[|chunks| - 1]
  }

  /** Every non-empty read grows the result by exactly one buffer. */
  lemma {:induction false} AccumulatedLength(chunks: seq<seq<byte>>)
    requires AllFit(chunks)
    ensures |Accumulated(chunks)| == BufSize * |chunks|
    decreases |chunks|
  {
    if chunks != [] {
      AccumulatedLength(chunks[..|chunks| - 1]);
    }
  }

  /** Block `k` of the result is the buffer as it was right after read `k`. */
  lemma {:induction false} AccumulatedBlock(chunks: seq<seq<byte>>, k: nat)
    requires AllFit(chunks) && k < |chunks|
    ensures |Accumulated(chunks)| == BufSize * |chunks|
    ensures Accumulated(chunks)[BufSize * k .. BufSize * (k + 1)] == BufferAfter(chunks[..k + 1])
    decreases |chunks|
  {
    var n := |chunks| - 1;
    var init := chunks[..n];
    AccumulatedLength(chunks);
    if k == n {
      assert chunks[..k + 1] == chunks;
      AccumulatedLast(chunks);
    } else {
      AccumulatedBlock(init, k);
      AccumulatedEarlier(chunks, k);
      assert init[..k + 1] == chunks[..k + 1];
    }
  }

  /** The last block is the buffer after the last read. */
  lemma AccumulatedLast(chunks: seq<seq<byte>>)
    requires AllFit(chunks) && chunks != []
    ensures |Accumulated(chunks)| == BufSize * |chunks|
    ensures Accumulated(chunks)[BufSize * (|chunks| - 1) .. BufSize * |chunks|] == BufferAfter(chunks)
  {
    var init := chunks[..|chunks| - 1];
    AccumulatedLength(init);
    SliceRight(Accumulated(init), BufferAfter(chunks));
  }

  /** An earlier block is not touched by the last read. */
  lemma AccumulatedEarlier(chunks: seq<seq<byte>>, k: nat)
    requires AllFit(chunks) && k < |chunks| - 1
    ensures AllFit(chunks[..|chunks| - 1])
    ensures |Accumulated(chunks[..|chunks| - 1])| == BufSize * (|chunks| - 1)
    ensures Accumulated(chunks)[BufSize * k .. BufSize * (k + 1)] ==
      Accumulated(chunks[..|chunks| - 1])[BufSize * k .. BufSize * (k + 1)]
  {
    var init := chunks[..|chunks| - 1];
    AccumulatedLength(init);
    SliceLeft(Accumulated(init), BufferAfter(chunks), BufSize * k, BufSize * (k + 1));
  }

  lemma SliceLeft(x: seq<byte>, y: seq<byte>, lo: nat, hi: nat)
    requires lo <= hi <= |x|
    ensures (x + y)[lo..hi] == x[lo..hi]
  {
  }

  lemma SliceRight(x: seq<byte>, y: seq<byte>)
    ensures (x + y)[|x|..|x| + |y|] == y
  {
  }

  /** Byte `j` of the buffer is the byte at `j` of the latest read that
      reached that far, or the initial zero if none did. */
  lemma {:induction false} BufferAfterAt(chunks: seq<seq<byte>>, j: nat)
    requires AllFit(chunks) && j < BufSize
    ensures (forall l :: 0 <= l < |chunks| ==> |chunks[l]| <= j) ==> BufferAfter(chunks)[j] == 0
    ensures forall l :: (0 <= l < |chunks| && j < |chunks[l]| &&
      (forall l' :: l < l' < |chunks| ==> |chunks[l']| <= j)) ==> BufferAfter(chunks)[j] == chunks[l][j]
    decreases |chunks|
  {
    if chunks != [] {
      var n := |chunks| - 1;
      var init, last := chunks[..n], chunks[n];
      assert AllFit(init);
      var before := BufferAfter(init);
      assert BufferAfter(chunks) == Overlay(before, last);
      if |last| <= j {
        assert BufferAfter(chunks)[j] == before[j];
        BufferAfterAt(init, j);
        assert forall l :: 0 <= l < n ==> init[l] == chunks[l];
      } else {
        assert BufferAfter(chunks)[j] == last[j];
      }
    }
  }

  /** Each appended block starts with the bytes just read; every later byte
      of it is left over from the latest earlier read that reached it, or is
      an initial zero. */
  lemma BlockContents(chunks: seq<seq<byte>>, k: nat, j: nat)
    requires AllFit(chunks) && k < |chunks| && j < BufSize
    ensures |Accumulated(chunks)| == BufSize * |chunks|
    ensures Accumulated(chunks)[BufSize * k .. BufSize * k + |chunks[k]|] == chunks[k]
    ensures |chunks[k]| <= j && (forall l :: 0 <= l < k ==> |chunks[l]| <= j) ==>
      Accumulated(chunks)[BufSize * k + j] == 0
    ensures forall l :: (0 <= l < k && j < |chunks[l]| &&
      (forall l' :: l < l' <= k ==> |chunks[l']| <= j)) ==> Accumulated(chunks)[BufSize * k + j] == chunks[l][j]
  {
    BlockBytes(chunks, k, j);
    if |chunks[k]| <= j && (forall l :: 0 <= l < k ==> |chunks[l]| <= j) {
      BlockZero(chunks, k, j);
    }
    forall l | 0 <= l < k && j < |chunks[l]| && (forall l' :: l < l' <= k ==> |chunks[l']| <= j)
      ensures Accumulated(chunks)[BufSize * k + j] == chunks[l][j]
    {
      BlockLeftover(chunks, k, j, l);
    }
  }

  lemma BlockZero(chunks: seq<seq<byte>>, k: nat, j: nat)
    requires AllFit(chunks) && k < |chunks| && j < BufSize
    requires forall l :: 0 <= l <= k ==> |chunks[l]| <= j
    ensures |Accumulated(chunks)| == BufSize * |chunks|
    ensures Accumulated(chunks)[BufSize * k + j] == 0
  {
    BlockBytes(chunks, k, j);
    var done := chunks[..k + 1];
    assert forall l :: 0 <= l <= k ==> done[l] == chunks[l];
    BufferAfterAt(done, j);
  }

  lemma BlockLeftover(chunks: seq<seq<byte>>, k: nat, j: nat, l: nat)
    requires AllFit(chunks) && l < k < |chunks| && j < BufSize
    requires j < |chunks[l]| && forall l' :: l < l' <= k ==> |chunks[l']| <= j
    ensures |Accumulated(chunks)| == BufSize * |chunks|
    ensures Accumulated(chunks)[BufSize * k + j] == chunks[l][j]
  {
    BlockBytes(chunks, k, j);
    var done := chunks[..k + 1];
    assert forall l' :: 0 <= l' <= k ==> done[l'] == chunks[l'];
    BufferAfterAt(done, j);
  }

  /** Block `k` of the result, byte by byte, and its front. */
  lemma BlockBytes(chunks: seq<seq<byte>>, k: nat, j: nat)
    requires AllFit(chunks) && k < |chunks| && j < BufSize
    ensures |Accumulated(chunks)| == BufSize * |chunks|
    ensures Accumulated(chunks)[BufSize * k + j] == BufferAfter(chunks[..k + 1])[j]
    ensures Accumulated(chunks)[BufSize * k .. BufSize * k + |chunks[k]|] == chunks[k]
  {
    AccumulatedBlock(chunks, k);
    var done := chunks[..k + 1];
    assert done[k] == chunks[k];
    SliceOfSlice(Accumulated(chunks), BufSize * k, BufSize * (k + 1), |chunks[k]|, j);
  }

  lemma SliceOfSlice(x: seq<byte>, lo: nat, hi: nat, m: nat, j: nat)
    requires lo + m <= hi <= |x| && lo + j < hi
    ensures x[lo..lo + m] == x[lo..hi][..m]
    ensures x[lo + j] == x[lo..hi][j]
  {
  }

  /** The bytes delivered never exceed one buffer per read, and they fill
      it exactly when every read is full. */
  lemma {:induction false} FlattenLength(chunks: seq<seq<byte>>)
    requires AllFit(chunks)
    ensures |Flatten(chunks)| <= BufSize * |chunks|
    ensures |Flatten(chunks)| == BufSize * |chunks| <==> forall k :: 0 <= k < |chunks| ==> |chunks[k]| == BufSize
    decreases |chunks|
  {
    if chunks != [] {
      var n := |chunks| - 1;
      FlattenLength(chunks[..n]);
      assert forall k :: 0 <= k < n ==> chunks[..n][k] == chunks[k];
    }
  }

  /** The result is the byte-exact concatenation of what was read only when
      every read filled the whole buffer. */
  lemma {:induction false} ByteExactIff(chunks: seq<seq<byte>>)
    requires AllFit(chunks)
    ensures Accumulated(chunks) == Flatten(chunks) <==> forall k :: 0 <= k < |chunks| ==> |chunks[k]| == BufSize
    decreases |chunks|
  {
    AccumulatedLength(chunks);
    FlattenLength(chunks);
    if chunks != [] && forall k :: 0 <= k < |chunks| ==> |chunks[k]| == BufSize {
      var n := |chunks| - 1;
      ByteExactIff(chunks[..n]);
      assert forall k :: 0 <= k < n ==> chunks[..n][k] == chunks[k];
      assert BufferAfter(chunks) == chunks[n];
    }
  }

  /** A single 1-byte transfer yields a whole buffer: the byte and 4095 zeros. */
  lemma ShortReadPadded(b: byte)
    ensures WellBehaved([ReadOk([b]), ReadOk([])])
    ensures ReadOutcome([ReadOk([b]), ReadOk([])]) == Ok([b] + Zeros(BufSize - 1))
    ensures Flatten([[b]]) == [b]
  {
    var rs := [ReadOk([b]), ReadOk([])];
    assert rs[1].Stops();
    assert FirstStop(rs) == 1;
    var chunks := Payloads(rs[..1]);
    assert chunks == [[b]];
    assert chunks[..0] == [];
    assert Zeros(BufSize)[1..] == Zeros(BufSize - 1);
    assert BufferAfter(chunks) == [b] + Zeros(BufSize - 1);
    assert Accumulated(chunks) == BufferAfter(chunks);
    assert [[b]][..0] == [];
  }

  // ---------------------------------------------------------------------
  // The outcome of the loop

  /** An error ends the loop with that error; otherwise the result holds one
      buffer per non-empty read before the zero-length one. */
  lemma ReadOutcomeShape(rs: seq<ReadResult>)
    requires WellBehaved(rs)
    ensures ReadOutcome(rs).Err? <==> rs[FirstStop(rs)].ReadErr?
    ensures ReadOutcome(rs).Err? ==> ReadOutcome(rs) == Err(ReadFailed(rs[FirstStop(rs)].reason))
    ensures ReadOutcome(rs).Ok? ==> |ReadOutcome(rs).value| == BufSize * FirstStop(rs)
    ensures forall j :: 0 <= j < FirstStop(rs) ==> rs[j].ReadOk? && |rs[j].data| > 0
  {
    var t := FirstStop(rs);
    AccumulatedLength(Payloads(rs[..t]));
  }

  /** Reads of 4096, 4096 and 10 bytes deliver 8202 bytes, yet the result
      holds three whole buffers. */
  lemma ThreeReads(a: seq<byte>, b: seq<byte>, c: seq<byte>)
    requires |a| == BufSize && |b| == BufSize && |c| == 10
    ensures WellBehaved([ReadOk(a), ReadOk(b), ReadOk(c), ReadOk([])])
    ensures |Flatten(Payloads([ReadOk(a), ReadOk(b), ReadOk(c)]))| == 8202
    ensures ReadOutcome([ReadOk(a), ReadOk(b), ReadOk(c), ReadOk([])]).Ok?
    ensures |ReadOutcome([ReadOk(a), ReadOk(b), ReadOk(c), ReadOk([])]).value| == 12288
  {
    var rs := [ReadOk(a), ReadOk(b), ReadOk(c), ReadOk([])];
    assert rs[3].Stops();
    assert FirstStop(rs) == 3;
    ReadOutcomeShape(rs);
    var chunks := Payloads([ReadOk(a), ReadOk(b), ReadOk(c)]);
    assert chunks == [a, b, c];
    var two: seq<seq<byte>> := [a, b];
    var one: seq<seq<byte>> := [a];
    assert chunks[..2] == two && two[..1] == one && one[..0] == [];
    assert |Flatten(one)| == BufSize;
  }

  /** A zero-length first read leaves the result empty. */
  lemma EmptyTransfer(rs: seq<ReadResult>)
    requires WellBehaved(rs) && rs[0] == ReadOk([])
    ensures ReadOutcome(rs) == Ok([])
  {
    assert FirstStop(rs) == 0;
  }
}
