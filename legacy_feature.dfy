/** The earlier C++ `FeatureBuffer` of cpp/feature.cpp: a fixed-size tail of
    `mNPrevHops` whole hops, rotated in place on every append, and a row
    buffer that `consume` cuts from the front.

    The file as written does not compile (a condition without parentheses,
    `std::vector<const float>`, a member declared under another name and
    `consume` declared to return a tensor but defined as `void`); the model
    takes the evident meaning of each line. `extract(prev, samples)` is the
    extractor's call with no skip and no padding. */
module LegacyFeature {
  import opened Seqs
  import opened Wrappers
  import opened Mel
  import opened Vectors

  /** `mNPrevHops`: the hops needed to cover a whole window (ceiling of
      nFFT over the hop, the full window and not half of it). */
  function PrevHops(e: Extractor): (r: nat)
    requires e.hopLength > 0
    ensures (r - 1) * e.hopLength < e.nFFT <= r * e.hopLength
  {
    var q := (e.nFFT + e.hopLength - 1) / e.hopLength;
    DivBounds(e.nFFT + e.hopLength - 1, e.hopLength, q);
    q
  }

  /** At the default sizes the tail is three hops, 480 samples. */
  lemma DefaultPrevHops(f: (seq<real>, Option<seq<real>>, Option<nat>, bool) -> seq<Frame>)
    ensures var e := Extractor(N_MELS, N_FFT, HOP_LENGTH, f);
      PrevHops(e) == 3 && PrevHops(e) * e.hopLength == 480
  {
    var e := Extractor(N_MELS, N_FFT, HOP_LENGTH, f);
    DivBounds(N_FFT + HOP_LENGTH - 1, HOP_LENGTH, 3);
  }

  /** The tail after one append: the last `n` samples of the old tail
      followed by the chunk, where a tail shorter than `n` is first replaced
      by `n` zeros. */
  function Rotated(prev: seq<real>, samples: seq<real>, n: nat): (r: seq<real>)
    requires |prev| == 0 || |prev| == n
    ensures |r| == n
    ensures |samples| >= n ==> r == Suffix(samples, n)
    ensures |samples| < n ==> r[n - |samples|..] == samples
  {
    var base := if |prev| < n then Zeros(n) else prev;
    SuffixOfJoin(base, samples, n);
    Suffix(base + samples, n)
  }

  /** Lines 20-34 of cpp/feature.cpp on a vector: a long chunk is copied
      over the front of the (grown) tail; a short one shifts the tail left by
      its length and is copied in behind. */
  method Rotate(prev: seq<real>, samples: seq<real>, n: nat) returns (r: seq<real>)
    requires |prev| == 0 || |prev| == n
    ensures r == Rotated(prev, samples, n)
  {
    if |samples| >= n {
      r := CopyLast(prev, samples, n);
    } else if |prev| < n {
      r := ShiftIn(Zeros(n), samples);
    } else {
      r := ShiftIn(prev, samples);
    }
  }

  /** Lines 21-26: grow the tail to `n` if it is shorter and copy the last
      `n` samples of the chunk over its front. */
  method CopyLast(prev: seq<real>, samples: seq<real>, n: nat) returns (r: seq<real>)
    requires |prev| <= n <= |samples|
    ensures r == Suffix(samples, n)
  {
    var v := FromSeq(prev);
    if v.Length < n {
      v := Resize(v, n);
    }
    CopyFrom(v, 0, samples[|samples| - n..]);
    r := v[..];
  }

  /** Lines 31-33: shift the tail left by the chunk's length and copy the
      chunk in behind. */
  method ShiftIn(prev: seq<real>, samples: seq<real>) returns (r: seq<real>)
    requires |samples| <= |prev|
    ensures r == prev[|samples|..] + samples
  {
    var v := FromSeq(prev);
    var s := |samples|;
    CopyWithin(v, s, v.Length, 0);
    assert v[..v.Length - s] == prev[s..];
    CopyFrom(v, v.Length - s, samples);
    r := v[..];
  }

  /** The tail of a stream: its last `n` samples, counting `n` zeros before
      the first sample. */
  function Window(stream: seq<real>, n: nat): (r: seq<real>)
    ensures |r| == n
  {
    Suffix(Zeros(n) + stream, n)
  }

  /** Rotating a chunk into the window of a stream gives the window of the
      longer stream: after any appends the tail is the last `n` samples
      heard, zeros standing in for the samples before the first. */
  lemma {:induction false} RotatedWindow(stream: seq<real>, samples: seq<real>, n: nat)
    ensures Rotated(Window(stream, n), samples, n) == Window(stream + samples, n)
  {
    var z := Zeros(n);
    SuffixOfJoin(z + stream, samples, n);
    SuffixOfJoin(Window(stream, n), samples, n);
    assert z + stream + samples == z + (stream + samples);
    if |samples| < n {
      assert Suffix(Window(stream, n), n - |samples|) == Suffix(z + stream, n - |samples|);
    }
  }

  /** The first append to a fresh buffer starts from the window of nothing. */
  lemma EmptyRotated(samples: seq<real>, n: nat)
    ensures Rotated([], samples, n) == Window(samples, n)
  {
    assert Window([], n) == Zeros(n);
    RotatedWindow([], samples, n);
    if n > 0 {
      assert Rotated([], samples, n) == Rotated(Zeros(n), samples, n);
    }
  }

  /** Whether the buffer is fresh or has a window, one append leaves the
      window of the longer stream. */
  lemma WindowAdvances(prev: seq<real>, stream: seq<real>, samples: seq<real>, n: nat)
    requires (prev == [] && stream == []) || prev == Window(stream, n)
    ensures |prev| == 0 || |prev| == n
    ensures Rotated(prev, samples, n) == Window(stream + samples, n)
  {
    if prev == Window(stream, n) {
      RotatedWindow(stream, samples, n);
    } else {
      assert prev == [] && stream + samples == samples;
      EmptyRotated(samples, n);
    }
  }

  /** The index a tensor slice bound `i` stands for in a dimension of
      length `len`: negative bounds count from the end, and both ends are
      clamped to the dimension. */
  function TorchIndex(i: int, len: nat): (r: nat)
    ensures r <= len
    ensures i >= 0 ==> r == Clamp(i, len)
    ensures i < 0 ==> r == (if i + len >= 0 then i + len else 0)
  {
    if i >= 0 then Clamp(i, len) else if i + len >= 0 then i + len else 0
  }

  /** The default `chunkSize` of the constructor. */
  const DEFAULT_CHUNK_SIZE: int := 3000

  class FeatureBuffer {
    const extractor: Extractor
    const chunkSize: int
    const prevHops: nat
    /** The rows not yet consumed. */
    var buffer: seq<Frame>
    var prev: seq<real>
    /** Every sample appended so far. */
    ghost var stream: seq<real>

    /** The tail length `mNPrevHops * hopLength`. */
    function TailLength(): nat
      reads this
    {
      prevHops * extractor.hopLength
    }

    ghost predicate Valid()
      reads this
    {
      && extractor.hopLength > 0
      && prevHops == PrevHops(extractor)
      && ((prev == [] && stream == []) || prev == Window(stream, TailLength()))
    }

    /** `FeatureBuffer(logMel, chunkSize)`: no rows, no tail. */
    constructor (logMel: Extractor, chunkSize: int)
      requires logMel.hopLength > 0
      ensures Valid()
      ensures extractor == logMel && this.chunkSize == chunkSize && prevHops == PrevHops(logMel)
      ensures buffer == [] && prev == [] && stream == []
    {
      extractor := logMel;
      this.chunkSize := chunkSize;
      prevHops := PrevHops(logMel);
      buffer := [];
      prev := [];
      stream := [];
    }

    /** `FeatureBuffer(logMel)`: the constructor with its default chunk size
        of 3000 rows. */
    constructor WithDefaultChunkSize(logMel: Extractor)
      requires logMel.hopLength > 0
      ensures Valid()
      ensures extractor == logMel && chunkSize == DEFAULT_CHUNK_SIZE && prevHops == PrevHops(logMel)
      ensures buffer == [] && prev == [] && stream == []
    {
      extractor := logMel;
      chunkSize := DEFAULT_CHUNK_SIZE;
      prevHops := PrevHops(logMel);
      buffer := [];
      prev := [];
      stream := [];
    }

    /** `chunk()`: the first `chunkSize` rows (a negative size counts from
        the end), without consuming them. */
    function Chunk(): (r: seq<Frame>)
      reads this
      ensures r <= buffer
      ensures chunkSize >= 0 ==> |r| == Clamp(chunkSize, |buffer|)
    {
      buffer[..TorchIndex(chunkSize, |buffer|)]
    }

    /** `append(samples)`: the rows past the first `mNPrevHops` of what the
        tail and the chunk yield are added, and the tail becomes the last
        `TailLength()` samples heard. */
    method Append(samples: seq<real>)
      requires Valid()
      modifies this
      ensures Valid()
      ensures stream == old(stream) + samples
      ensures buffer == old(buffer) + Slice(extractor.extract(old(prev), Some(samples), None, false), prevHops,
                                            |extractor.extract(old(prev), Some(samples), None, false)|)
      ensures prev == Window(stream, TailLength())
    {
      var extracted := extractor.extract(prev, Some(samples), None, false);
      buffer := buffer + Slice(extracted, prevHops, |extracted|);
      var n := prevHops * extractor.hopLength;
      WindowAdvances(prev, stream, samples, n);
      prev := Rotate(prev, samples, n);
      stream := stream + samples;
    }

    /** `consume(amt)`: drop the first `amt` rows (a negative amount counts
        from the end); the order of the rest is kept. */
    method Consume(amt: int)
      requires Valid()
      modifies this
      ensures Valid()
      ensures buffer == old(buffer)[TorchIndex(amt, |old(buffer)|)..]
      ensures amt >= 0 ==> |buffer| == |old(buffer)| - Clamp(amt, |old(buffer)|)
      ensures prev == old(prev) && stream == old(stream)
    {
      buffer := buffer[TorchIndex(amt, |buffer|)..];
    }
  }
}
