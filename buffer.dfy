/** The causal streaming feature buffer of src/sys/buffer.cpp and
    src/sys/buffer.h. Audio arrives in chunks of any size; `append` extracts
    frames from the kept tail `prev` and the new samples, keeps the frames
    that can no longer change, and keeps as the new tail exactly the samples
    later frames still need.

    The integer bookkeeping is stated once as `AppendTally` over a `Tally`;
    `Consistent` says what a tally must be after a stream of a given length,
    and `ChunkInvariance` proves that every way of cutting the stream into
    chunks gives the frames a single append of the whole stream gives. The
    class keeps its fields consistent with the samples appended so far. */
module Buffer {
  import opened Seqs
  import opened Wrappers
  import opened Mel
  import opened FB = Features
  import opened Vectors

  function Min(a: nat, b: nat): (r: nat)
    ensures r <= a && r <= b && (r == a || r == b)
  {
    if a <= b then a else b
  }

  ghost predicate IsSuffix<T>(p: seq<T>, s: seq<T>) {
    |p| <= |s| && s[|s| - |p|..] == p
  }

  /** A tail kept from the old tail and a chunk is a suffix of the stream
      once the chunk is appended to it. */
  lemma SuffixCarries<T>(oldPrev: seq<T>, samples: seq<T>, stream: seq<T>, n: nat)
    requires IsSuffix(oldPrev, stream) && n <= |oldPrev| + |samples|
    ensures IsSuffix(Suffix(oldPrev + samples, n), oldPrev + samples)
    ensures IsSuffix(Suffix(oldPrev + samples, n), stream + samples)
  {
    var s := stream + samples;
    assert s[|s| - |oldPrev + samples|..] == oldPrev + samples;
  }

  // ---------------------------------------------------------------------------
  // The bookkeeping of `append`.

  /** The integer state of the buffer: the tail length, the number of
      leading extracted frames to skip next time, and the frames produced so
      far (buffered or consumed). */
  datatype Tally = Tally(prevLen: nat, overlapFrames: nat, frames: nat)

  /** Lines 55-65 of buffer.cpp on the integers, for a chunk of `c` samples
      and an extractor that yields at least the final frames. The new tail
      fits in the old tail and the chunk, the overlap never exceeds the
      required overlap, and no frame is taken back. */
  function AppendTally(e: Extractor, t: Tally, c: nat): (r: Tally)
    requires e.Ok()
    ensures r.prevLen <= t.prevLen + c
    ensures r.overlapFrames <= e.RequiredOverlapFrames()
    ensures r.frames >= t.frames
  {
    var hop := e.hopLength;
    var nSamples := t.prevLen + c;
    var nFrames := e.FrameCount(nSamples);
    FrameCountFits(e, nSamples);
    var overlap := Min(nFrames, e.RequiredOverlapFrames());
    MulLe(overlap, nFrames, hop);
    Tally(overlap * hop + (nSamples - nFrames * hop), overlap,
          t.frames + (if nFrames >= t.overlapFrames then nFrames - t.overlapFrames else 0))
  }

  /** What the tally is after `total` samples: every final frame produced
      once, the overlap capped at the required overlap, and the tail starting
      at the first hop of the overlap frames. */
  ghost predicate Consistent(e: Extractor, total: nat, t: Tally)
    requires e.Ok()
  {
    var f := e.FrameCount(total);
    && t.overlapFrames == Min(f, e.RequiredOverlapFrames())
    && t.prevLen + (f - t.overlapFrames) * e.hopLength == total
    && t.frames == f
  }

  /** One append keeps the tally consistent: the frames recomputed from the
      tail are exactly the skipped overlap frames, and the tail never has
      fewer samples than the hops it has to give up (no underflow). */
  lemma AppendKeepsConsistent(e: Extractor, total: nat, t: Tally, c: nat)
    requires e.Ok() && Consistent(e, total, t)
    ensures e.FrameCount(t.prevLen + c) >= t.overlapFrames
    ensures e.FrameCount(t.prevLen + c) * e.hopLength <= t.prevLen + c
    ensures Consistent(e, total + c, AppendTally(e, t, c))
  {
    var hop := e.hopLength;
    var f := e.FrameCount(total);
    var f2 := e.FrameCount(total + c);
    var k: nat := f - t.overlapFrames;
    var nSamples := t.prevLen + c;
    assert nSamples == (total + c) - k * hop;
    FrameCountDropHops(e, total + c, k);
    FrameCountMonotone(e, total, total + c);
    FrameCountFits(e, nSamples);
    var nFrames := e.FrameCount(nSamples);
    assert nFrames == f2 - k;
    var r := AppendTally(e, t, c);
    assert r.overlapFrames == Min(f2, e.RequiredOverlapFrames());
    MulSub(f2, k, hop);
    MulSub(f2, r.overlapFrames, hop);
    MulSub(nFrames, r.overlapFrames, hop);
  }

  /** `AppendKeepsConsistent` for a total and a tally reached by other
      means. */
  lemma ConsistentAfter(e: Extractor, total: nat, t: Tally, c: nat, total': nat, t': Tally)
    requires e.Ok() && Consistent(e, total, t)
    requires total' == total + c && t' == AppendTally(e, t, c)
    ensures e.FrameCount(t.prevLen + c) >= t.overlapFrames
    ensures Consistent(e, total', t')
  {
    AppendKeepsConsistent(e, total, t, c);
  }

  /** Lines 55-66 of buffer.cpp: the frames the tail and the chunk make,
      the overlap kept for the next append and the length `n` of the new
      tail. The sizes are `AppendTally`'s, and the tail fits in the samples
      at hand. */
  method StepSizes(e: Extractor, prevLen: nat, c: nat, overlapFrames: nat, ghost t: Tally)
    returns (nFrames: nat, overlap: nat, n: nat)
    requires e.Ok() && t.prevLen == prevLen && t.overlapFrames == overlapFrames
    ensures nFrames == e.FrameCount(prevLen + c) && n <= prevLen + c
    ensures AppendTally(e, t, c)
            == Tally(n, overlap, t.frames + (if nFrames >= overlapFrames then nFrames - overlapFrames else 0))
  {
    var hop := e.hopLength;
    var nSamples := prevLen + c;
    nFrames := 0;
    if nSamples + hop > e.nFFT / 2 {
      nFrames := (nSamples + hop - e.nFFT / 2) / hop;
    }
    FrameCountFits(e, nSamples);
    var nTail: nat := nSamples - nFrames * hop;
    overlap := Min(nFrames, e.RequiredOverlapFrames());
    MulLe(overlap, nFrames, hop);
    n := overlap * hop + nTail;
  }

  function Sum(chunks: seq<nat>): nat {
    if chunks == [] then 0 else Sum(chunks[..|chunks| - 1]) + chunks[|chunks| - 1]
  }

  /** The tally after appending `chunks` in order to a new buffer. */
  function Run(e: Extractor, chunks: seq<nat>): Tally
    requires e.Ok()
  {
    if chunks == [] then Tally(0, 0, 0)
    else AppendTally(e, Run(e, chunks[..|chunks| - 1]), chunks[|chunks| - 1])
  }

  /** Frame-count chunk invariance: however the stream is cut into chunks,
      the buffer ends up with the frames of the whole stream, the same
      overlap and the same tail length. */
  lemma {:induction false} ChunkInvariance(e: Extractor, chunks: seq<nat>)
    requires e.Ok()
    ensures Consistent(e, Sum(chunks), Run(e, chunks))
    ensures Run(e, chunks).frames == e.FrameCount(Sum(chunks))
  {
    if chunks != [] {
      var front := chunks[..|chunks| - 1];
      ChunkInvariance(e, front);
      AppendKeepsConsistent(e, Sum(front), Run(e, front), chunks[|chunks| - 1]);
    }
  }

  /** The default sizes, chunks of 400, 4000 and 10000 samples: 89 frames,
      as for one chunk of 14400. */
  lemma DefaultChunks(f: (seq<real>, Option<seq<real>>, Option<nat>, bool) -> seq<Frame>)
    ensures var e := Extractor(N_MELS, N_FFT, HOP_LENGTH, f);
      Run(e, [400, 4000, 10000]).frames == 89 == Run(e, [14400]).frames
  {
    var e := Extractor(N_MELS, N_FFT, HOP_LENGTH, f);
    ChunkInvariance(e, [400, 4000, 10000]);
    ChunkInvariance(e, [14400]);
    assert Sum([400, 4000, 10000]) == 14400 by {
      assert [400, 4000, 10000][..2] == [400, 4000];
      assert [400, 4000][..1] == [400];
      assert [400][..0] == [];
    }
    assert [14400][..0] == [];
  }

  /** With a hop longer than half a window the tail length of line 60 would
      be negative (a wrap-around of the unsigned subtraction): 250 samples,
      window 400 and hop 300 give one frame of 300 samples. */
  lemma TailUnderflowsWithLongHop(f: (seq<real>, Option<seq<real>>, Option<nat>, bool) -> seq<Frame>)
    ensures var e := Extractor(N_MELS, 400, 300, f);
      !e.Ok() && e.FrameCount(250) * e.hopLength > 250
  {
  }

  // ---------------------------------------------------------------------------
  // The buffer.

  /** Lines 66-79 of buffer.cpp: the new tail is the last `n` samples of the
      old tail followed by the chunk. When the chunk alone is long enough the
      tail is resized and overwritten from the chunk; otherwise the needed
      end of the old tail is moved to the front, the vector is resized and
      the chunk is copied behind it. The third branch, which would insert
      the chunk, cannot be reached: `n` never exceeds the samples at hand. */
  method KeepTail(prev: seq<real>, samples: seq<real>, n: nat) returns (r: seq<real>)
    requires n <= |prev| + |samples|
    ensures r == Suffix(prev + samples, n)
  {
    SuffixOfJoin(prev, samples, n);
    if n <= |samples| {
      r := OverwriteTail(prev, samples, n);
    } else {
      var m: nat := n - |samples|;
      if m <= |prev| {
        r := ShiftTail(prev, samples, m);
      } else {
        assert false;
      }
    }
  }

  /** Lines 68-69: resize the tail to `n` and copy the last `n` samples of
      the chunk over it. */
  method OverwriteTail(prev: seq<real>, samples: seq<real>, n: nat) returns (r: seq<real>)
    requires n <= |samples|
    ensures r == Suffix(samples, n)
  {
    var v := FromSeq(prev);
    v := Resize(v, n);
    CopyFrom(v, 0, samples[|samples| - n..]);
    r := v[..];
  }

  /** Lines 73-75: move the last `m` samples of the tail to its front,
      resize it to `m` plus the chunk and copy the chunk in behind. */
  method ShiftTail(prev: seq<real>, samples: seq<real>, m: nat) returns (r: seq<real>)
    requires m <= |prev|
    ensures r == Suffix(prev, m) + samples
  {
    var v := FromSeq(prev);
    CopyWithin(v, |prev| - m, |prev|, 0);
    assert v[..m] == Suffix(prev, m);
    v := Resize(v, m + |samples|);
    assert v[..m] == Suffix(prev, m);
    CopyFrom(v, m, samples);
    r := v[..];
  }

  class FeatureBuffer {
    const extractor: Extractor
    const maxOverlapFrames: nat
    var buffer: seq<Frame>
    var prev: seq<real>
    var overlapFrames: nat
    /** Every sample appended so far. */
    ghost var stream: seq<real>
    /** The frames `consume` has removed so far. */
    ghost var consumed: nat

    ghost function State(): Tally
      reads this
    {
      Tally(|prev|, overlapFrames, consumed + |buffer|)
    }

    ghost predicate Valid()
      reads this
    {
      && extractor.Ok()
      && extractor.ExtractsAtLeast()
      && maxOverlapFrames == extractor.RequiredOverlapFrames()
      && Consistent(extractor, |stream|, State())
      && IsSuffix(prev, stream)
    }

    /** `FeatureBuffer(logMel)`: nothing buffered, no tail, no overlap. */
    constructor (logMel: Extractor)
      requires logMel.Ok() && logMel.ExtractsAtLeast()
      ensures Valid()
      ensures extractor == logMel && buffer == [] && prev == [] && overlapFrames == 0
      ensures maxOverlapFrames == logMel.RequiredOverlapFrames() && stream == []
    {
      extractor := logMel;
      buffer := [];
      prev := [];
      overlapFrames := 0;
      maxOverlapFrames := (logMel.nFFT / 2 + logMel.hopLength - 1) / logMel.hopLength;
      stream := [];
      consumed := 0;
    }

    /** The path constructor with its default sizes: 128 mels, a 400-sample
        window and a 160-sample hop. */
    constructor WithDefaults(extract: (seq<real>, Option<seq<real>>, Option<nat>, bool) -> seq<Frame>)
      requires Extractor(N_MELS, N_FFT, HOP_LENGTH, extract).ExtractsAtLeast()
      ensures Valid() && extractor == Extractor(N_MELS, N_FFT, HOP_LENGTH, extract)
      ensures buffer == [] && prev == [] && overlapFrames == 0 && maxOverlapFrames == 2
    {
      var logMel := Extractor(N_MELS, N_FFT, HOP_LENGTH, extract);
      extractor := logMel;
      buffer := [];
      prev := [];
      overlapFrames := 0;
      maxOverlapFrames := (logMel.nFFT / 2 + logMel.hopLength - 1) / logMel.hopLength;
      stream := [];
      consumed := 0;
    }

    /** `len()`: the buffered frames. In a valid buffer, those are the final
        frames of the samples appended so far that were not consumed. */
    function Len(): (r: nat)
      reads this
      ensures Valid() ==> r + consumed == extractor.FrameCount(|stream|)
    {
      |buffer|
    }

    /** `isEmpty()`: no frame buffered and a tail no longer than the overlap
        hops. In a valid buffer, that is exactly when nothing is buffered and
        every sample appended so far lies in a hop of a final frame. */
    predicate IsEmpty(): (r: bool)
      reads this
      ensures Valid() ==>
        (r <==> |buffer| == 0 && |stream| == extractor.FrameCount(|stream|) * extractor.hopLength)
    {
      EmptyIsAllFramed();
      |buffer| == 0 && |prev| <= overlapFrames * extractor.hopLength
    }

    /** The step of `IsEmpty`'s contract: the tail is the overlap hops plus
        the samples past the last final frame. */
    lemma EmptyIsAllFramed()
      ensures Valid() ==>
        (|prev| <= overlapFrames * extractor.hopLength
         <==> |stream| == extractor.FrameCount(|stream|) * extractor.hopLength)
    {
      if Valid() {
        var f := extractor.FrameCount(|stream|);
        var hop := extractor.hopLength;
        FrameCountFits(extractor, |stream|);
        assert (f - overlapFrames) * hop == f * hop - overlapFrames * hop;
      }
    }

    /** `getFeatures(amt)`: the first `amt` buffered frames when there are
        enough; otherwise every buffered frame, then frames extracted from
        the tail alone, less the overlap frames when there is a tail. The
        extractor gets `(amt - len) * hop` in the position of its `skip`
        argument, as the call is written. */
    function GetFeatures(amt: nat): (r: seq<Frame>)
      reads this
      ensures |buffer| >= amt ==> |r| == amt && r == buffer[..amt]
      ensures |buffer| < amt ==> |r| >= |buffer| && r[..|buffer|] == buffer
    {
      if |buffer| >= amt then buffer[..amt]
      else
        var padTo := (amt - |buffer|) * extractor.hopLength;
        var features := extractor.extract(prev, None, Some(padTo), false);
        var kept := if |prev| > 0 then Slice(features, overlapFrames, |features|) else features;
        buffer + kept
    }

    /** `features(amt)`: `getFeatures(amt)` as a `Features` block, nothing
        changed. */
    method FeaturesOf(amt: nat) returns (f: Features)
      ensures f == FB.Features(extractor.nMels, GetFeatures(amt))
    {
      f := FB.Features(extractor.nMels, GetFeatures(amt));
    }

    /** `append(samples)`: the frames of the tail and the chunk past the
        overlap, up to the final ones, are buffered; the overlap and the tail
        move on as `AppendTally` says, and the tail is the end of the old
        tail followed by the chunk. */
    method Append(samples: seq<real>)
      requires Valid()
      modifies this
      ensures Valid()
      ensures stream == old(stream) + samples && consumed == old(consumed)
      ensures State() == AppendTally(extractor, old(State()), |samples|)
      ensures buffer == old(buffer) + Slice(extractor.extract(old(prev), Some(samples), None, false),
                                            old(overlapFrames), extractor.FrameCount(|old(prev)| + |samples|))
      ensures IsSuffix(prev, old(prev) + samples)
    {
      ghost var t := State();
      ConsistentAfter(extractor, |stream|, t, |samples|, |stream| + |samples|, AppendTally(extractor, t, |samples|));
      var nFrames, overlap, n := StepSizes(extractor, |prev|, |samples|, overlapFrames, t);

      var extracted := extractor.extract(prev, Some(samples), None, false);
      var features := Slice(extracted, overlapFrames, nFrames);
      assert |features| == nFrames - t.overlapFrames;
      buffer := buffer + features;

      overlapFrames := overlap;
      var kept := KeepTail(prev, samples, n);
      assert IsSuffix(kept, prev + samples) && IsSuffix(kept, stream + samples) by {
        SuffixCarries(prev, samples, stream, n);
      }
      prev := kept;
      stream := stream + samples;
      assert State() == AppendTally(extractor, t, |samples|);
      ConsistentAfter(extractor, |old(stream)|, t, |samples|, |stream|, State());
    }

    /** The rust-slice overload forwards the same samples. */
    method AppendSlice(samples: seq<real>)
      requires Valid()
      modifies this
      ensures Valid()
      ensures stream == old(stream) + samples && consumed == old(consumed)
      ensures State() == AppendTally(extractor, old(State()), |samples|)
      ensures buffer == old(buffer) + Slice(extractor.extract(old(prev), Some(samples), None, false),
                                            old(overlapFrames), extractor.FrameCount(|old(prev)| + |samples|))
      ensures IsSuffix(prev, old(prev) + samples)
    {
      Append(samples);
    }

    /** `consume(amt)`: drop the first `amt` buffered frames (all of them
        when there are fewer), keeping the rest in order. */
    method Consume(amt: nat)
      requires Valid()
      modifies this
      ensures Valid()
      ensures buffer == Slice(old(buffer), amt, |old(buffer)|)
      ensures amt <= |old(buffer)| ==> buffer == old(buffer)[amt..]
      ensures prev == old(prev) && overlapFrames == old(overlapFrames) && stream == old(stream)
    {
      consumed := consumed + Min(amt, |buffer|);
      buffer := Slice(buffer, amt, |buffer|);
    }
  }
}
