/** The Rust streaming `Audio` of src/audio.rs: the same bookkeeping as the
    `FeatureBuffer` of src/features.rs, but the extractor skips the overlap
    frames itself, `fill` reports whether the stream had a chunk, and at the
    end of the stream `chunk` extracts the last frames on demand instead of
    padding.

    src/audio.rs calls `extract(prev, samples, skip, n)` with four arguments,
    where the Rust wrapper in src/sys/mel.rs declares three; the meaning of
    the fourth is not fixed by the source. The model takes that call as its
    own function value and assumes only that, with `n == 0`, it yields the
    final frames past the first `skip` (`SkipsExactly`). */
module Audio {
  import opened Seqs
  import opened Wrappers
  import opened Mel
  import opened FB = Features
  import opened Buffer
  import opened TailStep
  import opened StreamFeatures

  /** `extract(first, second, skip, n)` as src/audio.rs calls it. */
  type SkippingExtract = (seq<real>, seq<real>, nat, nat) -> seq<Frame>

  /** With `n == 0`, the call yields the final frames of `first ++ second`
      from index `skip` on. */
  ghost predicate SkipsExactly(e: Extractor, x: SkippingExtract)
    requires e.hopLength > 0
  {
    forall a: seq<real>, b: seq<real>, skip: nat {:trigger x(a, b, skip, 0)} ::
      |x(a, b, skip, 0)| == NewFrames(e, |a|, |b|, skip)
  }

  class Audio {
    const extractor: Extractor
    const extractSkipping: SkippingExtract
    /** The chunks the stream has still to yield. */
    var pending: seq<seq<real>>
    var prev: seq<real>
    var overlapFrames: nat
    var features: Features
    var offset: nat
    var eof: bool
    /** Every sample the stream has yielded so far. */
    ghost var stream: seq<real>
    /** The frames `consume` has actually removed. */
    ghost var consumed: nat

    ghost predicate Valid()
      reads this
    {
      && extractor.Ok()
      && SkipsExactly(extractor, extractSkipping)
      && features.width == extractor.nMels
      && consumed <= offset
      && (eof ==> pending == [])
      && Consistent(extractor, |stream|, Tally(|prev|, overlapFrames, consumed + features.Len()))
    }

    /** `new(extractor, stream)`: nothing read, nothing buffered. */
    constructor (e: Extractor, x: SkippingExtract, chunks: seq<seq<real>>)
      requires e.Ok() && SkipsExactly(e, x)
      ensures Valid()
      ensures extractor == e && extractSkipping == x && pending == chunks
      ensures prev == [] && overlapFrames == 0
      ensures features == FB.Features(e.nMels, []) && offset == 0 && !eof && stream == []
    {
      extractor := e;
      extractSkipping := x;
      pending := chunks;
      prev := [];
      overlapFrames := 0;
      features := FB.Features(e.nMels, []);
      offset := 0;
      eof := false;
      stream := [];
      consumed := 0;
    }

    /** `len()`: the consumed frames plus the buffered ones. In a valid
        buffer that is the number of final frames of every sample heard so
        far, plus whatever `consume` was asked to drop beyond the buffered
        frames. */
    function Len(): (r: nat)
      reads this
      ensures Valid() ==> r == extractor.FrameCount(|stream|) + (offset - consumed)
    {
      offset + features.Len()
    }

    /** `offset()`: the frame offset plus MILLIS_PER_FRAME, as written. */
    function Offset(): (r: nat)
      reads this
      ensures r != offset * MILLIS_PER_FRAME
    {
      offset + MILLIS_PER_FRAME
    }

    /** Read back at `consume_millis`'s rate, `offset()` as written stands for
        `offset / 10 + 1` frames, which is the number of frames consumed only
        when exactly one was. */
    lemma OffsetMisreadsFrames()
      ensures Offset() / MILLIS_PER_FRAME == offset / MILLIS_PER_FRAME + 1
      ensures Offset() / MILLIS_PER_FRAME == offset <==> offset == 1
    {
      var q := offset / MILLIS_PER_FRAME;
      assert offset == q * MILLIS_PER_FRAME + offset % MILLIS_PER_FRAME;
      assert Offset() == (q + 1) * MILLIS_PER_FRAME + offset % MILLIS_PER_FRAME;
    }

    /** The frames `extract(prev, [], overlapFrames, n)` adds at the end of
        the stream. */
    function Final(n: nat): (r: Features)
      reads this
      ensures r.width == extractor.nMels
    {
      FB.Features(extractor.nMels, extractSkipping(prev, [], overlapFrames, n))
    }

    /** `features(n)`: the first `n` buffered frames when there are enough,
        otherwise all of them followed by the frames extracted from the tail;
        nothing changes. */
    function FeaturesOf(n: nat): (r: Features)
      requires Valid()
      reads this
      ensures r.width == extractor.nMels
      ensures features.Len() >= n ==> r.Len() == n && r.frames == features.frames[..n]
      ensures features.Len() < n ==> features.frames <= r.frames && r.frames[features.Len()..] == Final(n - features.Len()).frames
    {
      if features.Len() >= n then features.Slice(0, n) else features.Join(Final(n - features.Len()))
    }

    /** `fill()`: take the next chunk, join the frames past the overlap and
        keep the tail by the corrected step; `false`, with nothing changed,
        once the stream is exhausted. */
    method Fill() returns (more: bool)
      requires Valid()
      modifies this
      ensures Valid()
      ensures more <==> old(pending) != []
      ensures offset == old(offset) && consumed == old(consumed) && eof == old(eof)
      ensures !more ==>
        && pending == old(pending) && stream == old(stream)
        && prev == old(prev) && overlapFrames == old(overlapFrames) && features == old(features)
      ensures more ==>
        && pending == old(pending)[1..]
        && stream == old(stream) + old(pending)[0]
        && features == old(features).Join(
             FB.Features(extractor.nMels, extractSkipping(old(prev), old(pending)[0], old(overlapFrames), 0)))
        && Refill(old(prev), old(pending)[0], old(overlapFrames),
                  NewFrames(extractor, |old(prev)|, |old(pending)[0]|, old(overlapFrames)),
                  extractor.hopLength, extractor.RequiredOverlapFrames())
           == Kept(prev, overlapFrames)
    {
      if pending == [] {
        return false;
      }
      var samples := pending[0];
      pending := pending[1..];
      Append(samples);
      return true;
    }

    /** Lines 91-115 for one chunk from the stream: the frames past the
        overlap are joined on, and the tail becomes the last `TailPlan`
        samples of the old tail followed by the chunk. */
    method Append(samples: seq<real>)
      requires Valid()
      modifies this
      ensures Valid()
      ensures offset == old(offset) && consumed == old(consumed)
      ensures pending == old(pending) && eof == old(eof) && stream == old(stream) + samples
      ensures features == old(features).Join(
        FB.Features(extractor.nMels, extractSkipping(old(prev), samples, old(overlapFrames), 0)))
      ensures Refill(old(prev), samples, old(overlapFrames),
                     NewFrames(extractor, |old(prev)|, |samples|, old(overlapFrames)),
                     extractor.hopLength, extractor.RequiredOverlapFrames())
              == Kept(prev, overlapFrames)
    {
      ghost var before := Tally(|prev|, overlapFrames, consumed + features.Len());
      ghost var total := |stream|;
      PlanKeepsConsistent(extractor, |stream|, before, |samples|);
      var extracted := FB.Features(extractor.nMels, extractSkipping(prev, samples, overlapFrames, 0));
      var plan := TailPlan(|prev|, |samples|, overlapFrames, extracted.Len(),
                           extractor.hopLength, extractor.RequiredOverlapFrames());
      RefillFollowsPlan(prev, samples, overlapFrames, extracted.Len(), extractor.hopLength,
                        extractor.RequiredOverlapFrames(), plan.tailLength, plan.overlapFrames);
      prev := Suffix(prev + samples, plan.tailLength);
      overlapFrames := plan.overlapFrames;
      features := features.Join(extracted);
      stream := stream + samples;
      PlanConsistentAfter(extractor, total, before, |samples|, |stream|,
                          Tally(|prev|, overlapFrames, consumed + features.Len()));
    }

    /** `chunk(chunkSize)`: fill until `chunkSize` frames are buffered and
        hand out the first `chunkSize` of them; when the stream runs out,
        mark the end and hand out the buffered frames followed by the frames
        extracted from the tail. After the end, an empty buffer yields
        `None`. The buffered frames are never consumed here. */
    method Chunk(chunkSize: nat) returns (r: Option<Features>)
      requires Valid()
      modifies this
      ensures Valid()
      ensures offset == old(offset) && consumed == old(consumed)
      ensures Delivered(old(pending), old(stream), pending, stream)
      ensures old(features).frames <= features.frames
      ensures features.Len() >= chunkSize ==> r == Some(features.Slice(0, chunkSize))
      ensures features.Len() < chunkSize ==> eof && pending == []
      ensures r == None <==> features.Len() < chunkSize && old(eof) && features.Len() == 0
      ensures r.Some? ==> r.value == FeaturesOf(chunkSize)
    {
      while true
        invariant Valid()
        invariant offset == old(offset) && consumed == old(consumed) && eof == old(eof)
        invariant Delivered(old(pending), old(stream), pending, stream)
        invariant old(features).frames <= features.frames
        invariant old(eof) ==> features == old(features)
        decreases |pending|
      {
        if features.Len() >= chunkSize {
          return Some(features.Slice(0, chunkSize));
        }
        if eof && features.Len() == 0 {
          return None;
        }
        ghost var pending0, stream0 := pending, stream;
        var more := Fill();
        if !more {
          var n := chunkSize - features.Len();
          var rest := Final(n);
          eof := true;
          return Some(features.Join(rest));
        }
        DeliveredStep(old(pending), old(stream), pending0, stream0);
      }
    }

    /** `consume(n)`: drop the first `n` buffered frames and count them in
        `offset`. */
    method Consume(n: nat)
      requires Valid()
      modifies this
      ensures Valid()
      ensures features == old(features).SliceToEnd(n) && offset == old(offset) + n
      ensures n <= old(features).Len() ==> Len() == old(Len())
      ensures prev == old(prev) && overlapFrames == old(overlapFrames) && eof == old(eof)
      ensures pending == old(pending) && stream == old(stream)
    {
      consumed := consumed + Min(n, features.Len());
      features := features.SliceToEnd(n);
      offset := offset + n;
    }

    /** `consume_millis(millis)`: consume the whole frames `millis` spans. */
    method ConsumeMillis(millis: nat)
      requires Valid()
      modifies this
      ensures Valid()
      ensures features == old(features).SliceToEnd(millis / MILLIS_PER_FRAME)
      ensures offset == old(offset) + millis / MILLIS_PER_FRAME
      ensures prev == old(prev) && overlapFrames == old(overlapFrames) && eof == old(eof)
      ensures pending == old(pending) && stream == old(stream)
    {
      Consume(millis / MILLIS_PER_FRAME);
    }
  }
}
