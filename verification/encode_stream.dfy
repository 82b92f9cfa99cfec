/** The streaming loop of an encode job: each chunk the backend yields is
    written to the encoder's standard input, its length is added to the
    running byte total, and only then is the stop flag checked. */
module EncodeStream {
  import opened Base

  type Chunk = seq<byte>

  /** Summed length of a sequence of chunks. */
  function TotalLength(cs: seq<Chunk>): nat {
    if |cs| == 0 then 0 else TotalLength(cs[..|cs| - 1]) + |cs[|cs| - 1]|
  }

  /** The bytes a sequence of chunks carries, in order. */
  function Concat(cs: seq<Chunk>): seq<byte> {
    if |cs| == 0 then [] else Concat(cs[..|cs| - 1]) + cs[|cs| - 1]
  }

  /** The running byte total after each chunk of `cs`, in order. */
  function RunningTotals(cs: seq<Chunk>): seq<nat> {
    if |cs| == 0 then [] else RunningTotals(cs[..|cs| - 1]) + [TotalLength(cs)]
  }

  /** Whether the check that follows chunk `k` sees the stop flag set, when
      `stopAt` is the index of the first check that sees it. Once seen it
      stays seen: the only reset of the flag runs after the streaming block
      has returned. */
  predicate FlagSeen(stopAt: Option<nat>, k: nat) {
    stopAt.Some? && stopAt.value <= k
  }

  /** The streaming block of an encode job. `totals` holds the running
      byte total after each write, the value the progress display is
      computed from. */
  method Stream(chunks: seq<Chunk>, stopAt: Option<nat>)
    returns (written: seq<Chunk>, total: nat, totals: seq<nat>)
    ensures written <= chunks
    ensures stopAt.None? || stopAt.value + 1 >= |chunks| ==> written == chunks
    ensures stopAt.Some? && stopAt.value < |chunks| ==> written == chunks[..stopAt.value + 1]
    ensures total == TotalLength(written)
    ensures totals == RunningTotals(written)
  {
    written := [];
    total := 0;
    totals := [];
    var i := 0;
    while i < |chunks|
      invariant 0 <= i <= |chunks|
      invariant written == chunks[..i]
      invariant stopAt.None? || stopAt.value >= i
      invariant total == TotalLength(written)
      invariant totals == RunningTotals(written)
    {
      var data := chunks[i];
      var before := written;
      written := written + [data];
      total := total + |data|;
      totals := totals + [total];
      assert written[..|written| - 1] == before;
      assert written == chunks[..i + 1];
      if FlagSeen(stopAt, i) {
        return;
      }
      i := i + 1;
    }
    assert chunks[..i] == chunks;
  }

  /** The running totals are the summed lengths of the successive
      prefixes: one per chunk, never decreasing. */
  lemma {:induction false} RunningTotalsSpec(cs: seq<Chunk>)
    ensures |RunningTotals(cs)| == |cs|
    ensures forall n :: 0 < n <= |cs| ==> RunningTotals(cs)[n - 1] == TotalLength(cs[..n])
    ensures forall j, k :: 0 <= j <= k < |cs| ==> RunningTotals(cs)[j] <= RunningTotals(cs)[k]
    decreases |cs|
  {
    if |cs| > 0 {
      var init := cs[..|cs| - 1];
      var rt := RunningTotals(cs);
      RunningTotalsSpec(init);
      assert rt == RunningTotals(init) + [TotalLength(cs)];
      forall n | 0 < n <= |cs|
        ensures rt[n - 1] == TotalLength(cs[..n])
      {
        if n < |cs| {
          assert init[..n] == cs[..n];
        } else {
          assert cs[..n] == cs;
        }
      }
      if |init| > 0 {
        assert init[..|init|] == init;
        assert rt[|init| - 1] == TotalLength(init) <= rt[|cs| - 1];
      }
    }
  }

  lemma {:induction false} ConcatLength(cs: seq<Chunk>)
    ensures |Concat(cs)| == TotalLength(cs)
    decreases |cs|
  {
    if |cs| > 0 {
      ConcatLength(cs[..|cs| - 1]);
    }
  }

  /** The bytes of a prefix of the chunks are a prefix of the bytes of all
      of them. */
  lemma {:induction false} ConcatPrefix(cs: seq<Chunk>, n: nat)
    requires n <= |cs|
    ensures Concat(cs[..n]) <= Concat(cs)
    decreases |cs|
  {
    if n < |cs| {
      assert cs[..|cs| - 1][..n] == cs[..n];
      ConcatPrefix(cs[..|cs| - 1], n);
    } else {
      assert cs[..n] == cs;
    }
  }

  /** What the encoder receives is exactly the first `total` bytes of the
      recording, where `total` is the running byte total. */
  lemma EncoderInput(chunks: seq<Chunk>, written: seq<Chunk>)
    requires written <= chunks
    ensures Concat(written) <= Concat(chunks)
    ensures |Concat(written)| == TotalLength(written)
  {
    assert chunks[..|written|] == written;
    ConcatPrefix(chunks, |written|);
    ConcatLength(written);
  }

  /** An encode that is never stopped, of a recording whose chunks carry
      `size` bytes in all, writes the whole recording and ends with its
      running total at `size`, the point where the progress display
      reaches 100%. */
  method CompleteStreamReachesSize(chunks: seq<Chunk>, size: nat)
    returns (written: seq<Chunk>, total: nat)
    requires TotalLength(chunks) == size
    ensures written == chunks
    ensures total == size
    ensures Concat(written) == Concat(chunks) && |Concat(written)| == size
  {
    var totals;
    written, total, totals := Stream(chunks, None);
    ConcatLength(written);
  }
}
