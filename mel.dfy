/** The spectrogram extractor as the feature buffers see it (src/sys/mel.h,
    src/sys/mel.rs): its three sizes, an uninterpreted `extract`, and the
    integer arithmetic of frames and hops that the buffers build on. */
module Mel {
  import opened Wrappers

  /** One frame of log-mel features, one value per mel bin. */
  type Frame = seq<real>

  const N_MELS: nat := 128
  const N_FFT: nat := 400
  const HOP_LENGTH: nat := 160

  /** `LogMelSpectrogram`. `extract(first, second, skip, padding)` turns the
      samples `first ++ second` into frames (already transposed to one frame
      per row); the numerics behind it are not modelled. */
  datatype Extractor = Extractor(
    nMels: nat,
    nFFT: nat,
    hopLength: nat,
    extract: (seq<real>, Option<seq<real>>, Option<nat>, bool) -> seq<Frame>)
  {
    /** A hop that is positive and at most half a window: the buffers divide
        by the hop, and their tail length stays non-negative only then. */
    predicate Ok() {
      0 < hopLength <= nFFT / 2
    }

    /** The frames whose window reaches past the start of the first hop
        still to come may change when more samples arrive; this many of them
        are recomputed on every append (ceiling of nFFT/2 over the hop). */
    function RequiredOverlapFrames(): nat
      requires hopLength > 0
    {
      (nFFT / 2 + hopLength - 1) / hopLength
    }

    /** The number of frames that are final after `nSamples` samples. */
    function FrameCount(nSamples: nat): nat
      requires hopLength > 0
    {
      if nSamples + hopLength > nFFT / 2 then (nSamples + hopLength - nFFT / 2) / hopLength else 0
    }

    /** The extractor yields at least the final frames of its input. */
    ghost predicate ExtractsAtLeast()
      requires hopLength > 0
    {
      forall a: seq<real>, b: seq<real> {:trigger extract(a, Some(b), None, false)} ::
        |extract(a, Some(b), None, false)| >= FrameCount(|a| + |b|)
    }

    /** The extractor yields exactly the final frames of its input. */
    ghost predicate ExtractsExactly()
      requires hopLength > 0
    {
      forall a: seq<real>, b: seq<real> {:trigger extract(a, Some(b), None, false)} ::
        |extract(a, Some(b), None, false)| == FrameCount(|a| + |b|)
    }
  }

  // ---------------------------------------------------------------------------
  // Division facts.

  lemma DivBounds(a: int, d: int, q: int)
    requires d > 0 && q * d <= a < q * d + d
    ensures a / d == q
  {
    var r := a / d;
    assert a == r * d + a % d;
    if r < q {
      MulLe(r + 1, q, d);
    } else if r > q {
      MulLe(q + 1, r, d);
    }
  }

  lemma MulLe(x: int, y: int, d: int)
    requires x <= y && d > 0
    ensures x * d <= y * d
  {
  }

  lemma MulSub(x: int, y: int, d: int)
    ensures (x - y) * d == x * d - y * d
  {
  }

  lemma DivShift(a: int, k: int, d: int)
    requires d > 0
    ensures (a + k * d) / d == a / d + k
  {
    var q := a / d;
    assert a == q * d + a % d;
    assert (q + k) * d == q * d + k * d;
    DivBounds(a + k * d, d, q + k);
  }

  lemma DivMonotone(a: int, b: int, d: int)
    requires d > 0 && a <= b
    ensures a / d <= b / d
  {
    var q := a / d;
    var r := b / d;
    assert a == q * d + a % d;
    assert b == r * d + b % d;
    if r < q {
      MulLe(r + 1, q, d);
    }
  }

  lemma DivTimes(a: int, d: int)
    requires d > 0 && a >= 0
    ensures (a / d) * d <= a && a < (a / d) * d + d && a / d >= 0
  {
    assert a == (a / d) * d + a % d;
  }

  // ---------------------------------------------------------------------------
  // Frame arithmetic.

  /** With the default sizes (400, 160), two frames are recomputed. */
  lemma DefaultOverlapIsTwo(f: (seq<real>, Option<seq<real>>, Option<nat>, bool) -> seq<Frame>)
    ensures Extractor(N_MELS, N_FFT, HOP_LENGTH, f).RequiredOverlapFrames() == 2
  {
  }

  /** The overlap is the ceiling of half a window over the hop: that many
      hops cover half a window, one fewer do not. */
  lemma RequiredOverlapIsCeiling(e: Extractor)
    requires e.hopLength > 0
    ensures var m := e.RequiredOverlapFrames();
      m * e.hopLength >= e.nFFT / 2 && (m - 1) * e.hopLength < e.nFFT / 2
  {
    var d := e.hopLength;
    var a := e.nFFT / 2 + d - 1;
    DivTimes(a, d);
    var m := a / d;
    assert (m - 1) * d == m * d - d;
  }

  /** More samples never give fewer final frames. */
  lemma FrameCountMonotone(e: Extractor, x: nat, y: nat)
    requires e.hopLength > 0 && x <= y
    ensures e.FrameCount(x) <= e.FrameCount(y)
  {
    var d := e.hopLength;
    var h := e.nFFT / 2;
    if x + d > h {
      DivMonotone(x + d - h, y + d - h, d);
    }
  }

  /** The final frames never reach past the samples: the hops they cover fit
      in the input. */
  lemma FrameCountFits(e: Extractor, x: nat)
    requires e.Ok()
    ensures e.FrameCount(x) * e.hopLength <= x
  {
    var d := e.hopLength;
    var h := e.nFFT / 2;
    if x + d > h {
      DivTimes(x + d - h, d);
    }
  }

  /** Dropping `k` whole hops from the front drops `k` final frames, down to
      none. This is why recomputing a fixed number of overlap frames from a
      hop-aligned tail gives the same frames as extracting everything. */
  lemma FrameCountDropHops(e: Extractor, x: nat, k: nat)
    requires e.hopLength > 0 && k * e.hopLength <= x
    ensures e.FrameCount(x - k * e.hopLength) == if e.FrameCount(x) >= k then e.FrameCount(x) - k else 0
  {
    var d := e.hopLength;
    var h := e.nFFT / 2;
    var y := x - k * d;
    if y + d > h {
      DivShift(y + d - h, k, d);
      assert y + d - h + k * d == x + d - h;
      DivTimes(y + d - h, d);
    } else if x + d > h {
      assert x + d - h <= k * d;
      DivMonotone(x + d - h, k * d, d);
      DivShift(0, k, d);
    }
  }
}
