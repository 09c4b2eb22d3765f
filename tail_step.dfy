/** The tail bookkeeping shared by the Rust buffers, lines 98-113 of
    src/features.rs and of src/audio.rs: after the extractor has produced
    the frames past the overlap, `fill` works out how many samples to keep
    (`TailPlan`, on the integers) and keeps them.

    Once the overlap is saturated the code takes the new tail from the chunk
    alone, which needs the chunk to be at least as long as the tail; a short
    chunk makes the slice start negative and the buffer panics.
    `RefillAsWritten` is the code as it stands and `SaturatedFillPanics`
    exhibits the panic; `Refill` takes the tail from the old tail followed by
    the chunk in both cases, and `PlanMatchesAppend` proves it never panics
    and keeps the same bookkeeping as the C++ buffer. */
module TailStep {
  import opened Seqs
  import opened Mel
  import opened Buffer

  /** The new tail and overlap count, or a panic (a `usize` subtraction
      below zero or a slice that starts before the vector). */
  datatype Outcome = Kept(prev: seq<real>, overlapFrames: nat) | Panics

  /** The tail length and overlap count lines 98-107 compute, or the panic
      of a `usize` subtraction below zero. */
  datatype Plan = Plan(tailLength: nat, overlapFrames: nat) | Underflow

  /** The frames `slice_to_end(overlapFrames)` leaves of an extraction that
      yields exactly the final frames of `prevLen + samplesLen` samples. */
  function NewFrames(e: Extractor, prevLen: nat, samplesLen: nat, overlapFrames: nat): (r: nat)
    requires e.hopLength > 0
    ensures r + overlapFrames >= e.FrameCount(prevLen + samplesLen)
    ensures r > 0 ==> r + overlapFrames == e.FrameCount(prevLen + samplesLen)
  {
    var f := e.FrameCount(prevLen + samplesLen);
    if f >= overlapFrames then f - overlapFrames else 0
  }

  /** Lines 98-107: `newFrames` frames came out past the skip of
      `overlapFrames`. Below the required overlap the overlap grows by the
      new frames (capped) and the tail grows with it; once saturated the
      overlap stays put. */
  function TailPlan(prevLen: nat, samplesLen: nat, overlapFrames: nat, newFrames: nat,
                    hop: nat, required: nat): (r: Plan)
    ensures r.Plan? ==> overlapFrames <= r.overlapFrames
    ensures r.Plan? && overlapFrames <= required ==> r.overlapFrames <= required
    ensures r.Plan? && overlapFrames < required ==> r.overlapFrames == Min(overlapFrames + newFrames, required)
  {
    var n0 := prevLen + samplesLen - newFrames * hop;
    if n0 < 0 then Underflow
    else if overlapFrames < required then
      var n1 := n0 - overlapFrames * hop;
      if n1 < 0 then Underflow
      else
        var overlap := Min(overlapFrames + newFrames, required);
        Plan(n1 + overlap * hop, overlap)
    else Plan(n0, overlapFrames)
  }

  /** Lines 98-113 as written: below the required overlap the tail is cut
      from the old tail followed by the chunk, once saturated from the chunk
      alone. */
  function RefillAsWritten(prev: seq<real>, samples: seq<real>, overlapFrames: nat, newFrames: nat,
                           hop: nat, required: nat): (r: Outcome)
    ensures r.Kept? ==> IsSuffix(r.prev, prev + samples)
    ensures r.Kept? ==> TailPlan(|prev|, |samples|, overlapFrames, newFrames, hop, required)
                        == Plan(|r.prev|, r.overlapFrames)
  {
    match TailPlan(|prev|, |samples|, overlapFrames, newFrames, hop, required)
    case Underflow => Panics
    case Plan(n, overlap) =>
      var source := if overlapFrames < required then prev + samples else samples;
      if n > |source| then Panics
      else
        assert (prev + samples)[|prev + samples| - n..] == source[|source| - n..];
        Kept(source[|source| - n..], overlap)
  }

  /** The same with the tail always cut from the old tail followed by the
      chunk. */
  function Refill(prev: seq<real>, samples: seq<real>, overlapFrames: nat, newFrames: nat,
                  hop: nat, required: nat): (r: Outcome)
    ensures r.Kept? ==> IsSuffix(r.prev, prev + samples)
    ensures r.Kept? ==> TailPlan(|prev|, |samples|, overlapFrames, newFrames, hop, required)
                        == Plan(|r.prev|, r.overlapFrames)
  {
    match TailPlan(|prev|, |samples|, overlapFrames, newFrames, hop, required)
    case Underflow => Panics
    case Plan(n, overlap) =>
      if n > |prev| + |samples| then Panics else Kept(Suffix(prev + samples, n), overlap)
  }

  /** From any consistent state, the plan never underflows and gives the
      tail length, overlap and frame count the C++ `append` gives: the Rust
      and C++ buffers keep the same bookkeeping. */
  lemma PlanMatchesAppend(e: Extractor, total: nat, prevLen: nat, c: nat, overlapFrames: nat, frames: nat)
    requires e.Ok() && Consistent(e, total, Tally(prevLen, overlapFrames, frames))
    ensures var newFrames := NewFrames(e, prevLen, c, overlapFrames);
      var after := AppendTally(e, Tally(prevLen, overlapFrames, frames), c);
      && TailPlan(prevLen, c, overlapFrames, newFrames, e.hopLength, e.RequiredOverlapFrames())
         == Plan(after.prevLen, after.overlapFrames)
      && after.prevLen <= prevLen + c
      && after.frames == frames + newFrames
  {
    var t := Tally(prevLen, overlapFrames, frames);
    AppendKeepsConsistent(e, total, t, c);
    var hop := e.hopLength;
    var required := e.RequiredOverlapFrames();
    var f := e.FrameCount(total);
    var nFrames := e.FrameCount(prevLen + c);
    var newFrames := NewFrames(e, prevLen, c, overlapFrames);
    var after := AppendTally(e, t, c);
    var x := nFrames * hop;
    var y := overlapFrames * hop;
    var z := after.overlapFrames * hop;
    assert x <= prevLen + c;
    assert nFrames >= overlapFrames;
    assert newFrames == nFrames - overlapFrames;
    MulSub(nFrames, overlapFrames, hop);
    MulLe(overlapFrames, nFrames, hop);
    assert after.overlapFrames == Min(nFrames, required);
    MulLe(after.overlapFrames, nFrames, hop);
    assert after.prevLen == z + (prevLen + c - x);
    assert overlapFrames == Min(f, required);
    var n0 := prevLen + c - newFrames * hop;
    assert n0 == prevLen + c - x + y;
    if overlapFrames < required {
      assert Min(overlapFrames + newFrames, required) == after.overlapFrames;
    } else {
      assert after.overlapFrames == overlapFrames;
    }
  }

  /** The plan's state after one chunk is consistent with the longer stream:
      the Rust buffer keeps the invariant of the C++ one. */
  lemma PlanKeepsConsistent(e: Extractor, total: nat, t: Tally, c: nat)
    requires e.Ok() && Consistent(e, total, t)
    ensures var newFrames := NewFrames(e, t.prevLen, c, t.overlapFrames);
      var plan := TailPlan(t.prevLen, c, t.overlapFrames, newFrames, e.hopLength, e.RequiredOverlapFrames());
      && plan.Plan?
      && plan.tailLength <= t.prevLen + c
      && Consistent(e, total + c, Tally(plan.tailLength, plan.overlapFrames, t.frames + newFrames))
  {
    AppendKeepsConsistent(e, total, t, c);
    PlanMatchesAppend(e, total, t.prevLen, c, t.overlapFrames, t.frames);
  }

  /** `PlanKeepsConsistent` for a total and a tally reached by other
      means. */
  lemma PlanConsistentAfter(e: Extractor, total: nat, t: Tally, c: nat, total': nat, t': Tally)
    requires e.Ok() && Consistent(e, total, t) && total' == total + c
    requires var newFrames := NewFrames(e, t.prevLen, c, t.overlapFrames);
      var plan := TailPlan(t.prevLen, c, t.overlapFrames, newFrames, e.hopLength, e.RequiredOverlapFrames());
      plan.Plan? && t' == Tally(plan.tailLength, plan.overlapFrames, t.frames + newFrames)
    ensures Consistent(e, total', t')
  {
    PlanKeepsConsistent(e, total, t, c);
  }

  /** Whenever the plan fits the samples at hand, the corrected step keeps
      the last `tailLength` of them. */
  lemma RefillFollowsPlan(prev: seq<real>, samples: seq<real>, overlapFrames: nat, newFrames: nat,
                          hop: nat, required: nat, tailLength: nat, overlap: nat)
    requires TailPlan(|prev|, |samples|, overlapFrames, newFrames, hop, required) == Plan(tailLength, overlap)
    requires tailLength <= |prev| + |samples|
    ensures Refill(prev, samples, overlapFrames, newFrames, hop, required)
            == Kept(Suffix(prev + samples, tailLength), overlap)
  {
  }

  /** Every chunk, in order, as one sample sequence. */
  function Concat(chunks: seq<seq<real>>): (r: seq<real>)
    ensures chunks == [] ==> r == []
  {
    if chunks == [] then [] else Concat(chunks[..|chunks| - 1]) + chunks[|chunks| - 1]
  }

  lemma ConcatStep(chunks: seq<seq<real>>, k: nat)
    requires k < |chunks|
    ensures Concat(chunks[..k + 1]) == Concat(chunks[..k]) + chunks[k]
  {
    assert chunks[..k + 1][..k] == chunks[..k];
  }

  /** The stream has delivered the first chunks of `pending0` on top of
      `stream0`, and `pending` is what it still holds. */
  ghost predicate Delivered(pending0: seq<seq<real>>, stream0: seq<real>, pending: seq<seq<real>>, stream: seq<real>) {
    && |pending| <= |pending0|
    && pending == pending0[|pending0| - |pending|..]
    && stream == stream0 + Concat(pending0[..|pending0| - |pending|])
  }

  lemma DeliveredStep(pending0: seq<seq<real>>, stream0: seq<real>, pending: seq<seq<real>>, stream: seq<real>)
    requires Delivered(pending0, stream0, pending, stream) && pending != []
    ensures Delivered(pending0, stream0, pending[1..], stream + pending[0])
  {
    var k := |pending0| - |pending|;
    ConcatStep(pending0, k);
    assert pending0[|pending0| - |pending[1..]|..] == pending[1..];
  }

  /** The panic, at the default sizes (hop 160, window 400, overlap 2): a
      first chunk of 400 samples saturates the overlap and keeps all 400
      samples; a second chunk of 160 yields one new frame and a tail of 400
      samples, which the chunk alone cannot supply. The corrected step keeps
      the last 240 samples of the first chunk and the whole second one. */
  lemma SaturatedFillPanics(f: (seq<real>, Wrappers.Option<seq<real>>, Wrappers.Option<nat>, bool) -> seq<Frame>,
                            a: seq<real>, b: seq<real>)
    requires |a| == 400 && |b| == 160
    ensures var e := Extractor(N_MELS, N_FFT, HOP_LENGTH, f);
      && e.Ok() && e.RequiredOverlapFrames() == 2
      && NewFrames(e, 0, 400, 0) == 2
      && RefillAsWritten([], a, 0, 2, 160, 2) == Kept(a, 2)
      && Consistent(e, 400, Tally(400, 2, 2))
      && NewFrames(e, 400, 160, 2) == 1
      && RefillAsWritten(a, b, 2, 1, 160, 2) == Panics
      && Refill(a, b, 2, 1, 160, 2) == Kept(a[160..] + b, 2)
  {
    assert [] + a == a;
    assert (a + b)[|a + b| - 400..] == a[160..] + b;
  }
}
