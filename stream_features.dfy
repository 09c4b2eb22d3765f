/** The Rust streaming `FeatureBuffer` of src/features.rs. It pulls chunks
    from an audio stream, keeps the frames that are final in a `Features`
    block, and counts consumed frames in `offset`.

    The stream is modelled as the finite sequence of chunks it will still
    yield (`pending`); `next().await` takes the first of them and yields
    `None` once they are exhausted. `fill` calls `extract` and
    `extract_final` with two arguments where src/sys/mel.rs:86-98 declares
    three; the missing `skip` is read as none, so the extractor is called as
    `extract(prev, Some(samples), None, false)` for a chunk and with an empty
    second part and `true` at the end of the stream. `fill` keeps its tail
    with the corrected step `TailStep.Refill`; the step as written panics on
    short chunks once the overlap is saturated (`TailStep.SaturatedFillPanics`). */
module StreamFeatures {
  import opened Seqs
  import opened Wrappers
  import opened Mel
  import opened FB = Features
  import opened Buffer
  import opened TailStep

  const MILLIS_PER_FRAME: nat := 10

  /** `extract(prev, samples)?.slice_to_end(overlapFrames)`. */
  function Extracted(e: Extractor, prev: seq<real>, samples: seq<real>, overlapFrames: nat): (r: Features)
    requires e.hopLength > 0
    ensures r.width == e.nMels
    ensures e.ExtractsExactly() ==> r.Len() == NewFrames(e, |prev|, |samples|, overlapFrames)
  {
    FB.Features(e.nMels, e.extract(prev, Some(samples), None, false)).SliceToEnd(overlapFrames)
  }

  /** A frame offset in milliseconds, at MILLIS_PER_FRAME per frame. It is
      the unit `consume_millis` reads back: consuming it consumes exactly
      `frames` frames. */
  function OffsetMillis(frames: nat): (r: nat)
    ensures r / MILLIS_PER_FRAME == frames && r % MILLIS_PER_FRAME == 0
  {
    frames * MILLIS_PER_FRAME
  }

  class FeatureBuffer {
    const extractor: Extractor
    /** The chunks the stream has still to yield. */
    var pending: seq<seq<real>>
    var prev: seq<real>
    var overlapFrames: nat
    var features: Features
    var offset: nat
    var eof: bool
    /** Every sample the stream has yielded so far. */
    ghost var stream: seq<real>
    /** The frames `consume` has actually removed. */
    ghost var consumed: nat

    ghost predicate Valid()
      reads this
    {
      && extractor.Ok()
      && extractor.ExtractsExactly()
      && features.width == extractor.nMels
      && consumed <= offset
      && (eof ==> pending == [])
      && Consistent(extractor, |stream|, Tally(|prev|, overlapFrames, consumed + features.Len()))
    }

    /** `new(extractor, stream)`: nothing read, nothing buffered. */
    constructor (e: Extractor, chunks: seq<seq<real>>)
      requires e.Ok() && e.ExtractsExactly()
      ensures Valid()
      ensures extractor == e && pending == chunks && prev == [] && overlapFrames == 0
      ensures features == FB.Features(e.nMels, []) && offset == 0 && !eof && stream == []
    {
      extractor := e;
      pending := chunks;
      prev := [];
      overlapFrames := 0;
      features := FB.Features(e.nMels, []);
      offset := 0;
      eof := false;
      stream := [];
      consumed := 0;
    }

    /** `len()`: the consumed frames plus the buffered ones. In a valid
        buffer that is the number of final frames of every sample yielded
        so far, plus whatever `consume` was asked to drop beyond the
        buffered frames. */
    function Len(): (r: nat)
      reads this
      ensures Valid() ==> r == extractor.FrameCount(|stream|) + (offset - consumed)
    {
      offset + features.Len()
    }

    /** `offset()`: the frame offset plus MILLIS_PER_FRAME, as written. It is
        never the frame offset in milliseconds: it adds MILLIS_PER_FRAME where
        a conversion would multiply by it. */
    function Offset(): (r: nat)
      reads this
      ensures r != offset * MILLIS_PER_FRAME
    {
      offset + MILLIS_PER_FRAME
    }

    /** Read back at `consume_millis`'s rate, `offset()` as written stands for
        `offset / 10 + 1` frames, which is the number of frames consumed only
        when exactly one was. */
    lemma OffsetMisreadsFrames()
      ensures Offset() / MILLIS_PER_FRAME == offset / MILLIS_PER_FRAME + 1
      ensures Offset() / MILLIS_PER_FRAME == offset <==> offset == 1
    {
      var q := offset / MILLIS_PER_FRAME;
      assert offset == q * MILLIS_PER_FRAME + offset % MILLIS_PER_FRAME;
      assert Offset() == (q + 1) * MILLIS_PER_FRAME + offset % MILLIS_PER_FRAME;
    }

    method Fill()
      requires Valid()
      modifies this
      ensures Valid()
      ensures offset == old(offset) && consumed == old(consumed)
      ensures old(pending) == [] ==>
        && eof && pending == [] && stream == old(stream)
        && prev == old(prev) && overlapFrames == old(overlapFrames) && features == old(features)
      ensures old(pending) != [] ==>
        && pending == old(pending)[1..] && eof == old(eof)
        && stream == old(stream) + old(pending)[0]
        && features == old(features).Join(Extracted(extractor, old(prev), old(pending)[0], old(overlapFrames)))
        && Refill(old(prev), old(pending)[0], old(overlapFrames),
                  NewFrames(extractor, |old(prev)|, |old(pending)[0]|, old(overlapFrames)),
                  extractor.hopLength, extractor.RequiredOverlapFrames())
           == Kept(prev, overlapFrames)
    {
      if pending == [] {
        // The final frames are extracted and joined, but the joined block is
        // dropped: the buffered frames stay as they were.
        eof := true;
        return;
      }
      var samples := pending[0];
      pending := pending[1..];
      Append(samples);
    }

    /** Lines 93-117 of src/features.rs for one chunk from the stream: the
        frames past the overlap are joined on, and the tail becomes the last
        `TailPlan` samples of the old tail followed by the chunk. */
    method Append(samples: seq<real>)
      requires Valid()
      modifies this
      ensures Valid()
      ensures offset == old(offset) && consumed == old(consumed)
      ensures pending == old(pending) && eof == old(eof) && stream == old(stream) + samples
      ensures features == old(features).Join(Extracted(extractor, old(prev), samples, old(overlapFrames)))
      ensures Refill(old(prev), samples, old(overlapFrames),
                     NewFrames(extractor, |old(prev)|, |samples|, old(overlapFrames)),
                     extractor.hopLength, extractor.RequiredOverlapFrames())
              == Kept(prev, overlapFrames)
    {
      ghost var before := Tally(|prev|, overlapFrames, consumed + features.Len());
      ghost var total := |stream|;
      PlanKeepsConsistent(extractor, |stream|, before, |samples|);
      var extracted := Extracted(extractor, prev, samples, overlapFrames);
      var plan := TailPlan(|prev|, |samples|, overlapFrames, extracted.Len(),
                           extractor.hopLength, extractor.RequiredOverlapFrames());
      RefillFollowsPlan(prev, samples, overlapFrames, extracted.Len(), extractor.hopLength,
                        extractor.RequiredOverlapFrames(), plan.tailLength, plan.overlapFrames);
      prev := Suffix(prev + samples, plan.tailLength);
      overlapFrames := plan.overlapFrames;
      features := features.Join(extracted);
      stream := stream + samples;
      PlanConsistentAfter(extractor, total, before, |samples|, |stream|,
                          Tally(|prev|, overlapFrames, consumed + features.Len()));
    }

    /** `features(chunkSize)`: fill until `chunkSize` frames are buffered or
        the stream ends, then hand out the first `chunkSize` frames without
        consuming them; at the end of the stream, the buffered frames padded
        to `chunkSize`, or `None` when nothing is buffered. */
    method FeaturesOf(chunkSize: nat) returns (r: Option<Features>)
      requires Valid()
      modifies this
      ensures Valid()
      ensures offset == old(offset) && consumed == old(consumed)
      ensures Delivered(old(pending), old(stream), pending, stream)
      ensures old(features).frames <= features.frames
      ensures features.Len() >= chunkSize ==> r == Some(features.Slice(0, chunkSize))
      ensures features.Len() < chunkSize ==>
        && eof && pending == []
        && r == (if features.Len() == 0 then None else Some(features.Pad(chunkSize - features.Len())))
      ensures r.Some? ==> r.value.Len() == chunkSize && r.value.width == extractor.nMels
    {
      while true
        invariant Valid()
        invariant offset == old(offset) && consumed == old(consumed)
        invariant Delivered(old(pending), old(stream), pending, stream)
        invariant old(features).frames <= features.frames
        decreases |pending|, if eof then 0 else 1
      {
        if features.Len() >= chunkSize {
          return Some(features.Slice(0, chunkSize));
        }
        if eof {
          if features.Len() == 0 {
            return None;
          } else {
            return Some(features.Pad(chunkSize - features.Len()));
          }
        }
        if pending != [] {
          DeliveredStep(old(pending), old(stream), pending, stream);
        }
        Fill();
      }
    }

    /** `consume(n)`: drop the first `n` buffered frames and count them in
        `offset`. */
    method Consume(n: nat)
      requires Valid()
      modifies this
      ensures Valid()
      ensures features == old(features).SliceToEnd(n) && offset == old(offset) + n
      ensures n <= old(features).Len() ==> Len() == old(Len())
      ensures prev == old(prev) && overlapFrames == old(overlapFrames) && eof == old(eof)
      ensures pending == old(pending) && stream == old(stream)
    {
      consumed := consumed + Min(n, features.Len());
      features := features.SliceToEnd(n);
      offset := offset + n;
    }

    /** `consume_millis(millis)`: consume the whole frames `millis` spans. */
    method ConsumeMillis(millis: nat)
      requires Valid()
      modifies this
      ensures Valid()
      ensures features == old(features).SliceToEnd(millis / MILLIS_PER_FRAME)
      ensures offset == old(offset) + millis / MILLIS_PER_FRAME
      ensures prev == old(prev) && overlapFrames == old(overlapFrames) && eof == old(eof)
      ensures pending == old(pending) && stream == old(stream)
    {
      Consume(millis / MILLIS_PER_FRAME);
    }
  }
}
