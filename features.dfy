/** `Features` (src/sys/features.h): a block of frames, one per row, each
    `width` values wide. Every operation builds a new block and leaves the
    receiver as it was, so the type is a value. */
module Features {
  import opened Seqs
  import opened Mel

  /** The constant `pad` fills new frames with. */
  const PAD_VALUE: real := -1.5

  function PadFrame(width: nat): (f: Frame)
    ensures |f| == width && forall i :: 0 <= i < width ==> f[i] == PAD_VALUE
  {
    if width == 0 then [] else PadFrame(width - 1) + [PAD_VALUE]
  }

  function PadFrames(n: nat, width: nat): (r: seq<Frame>)
    ensures |r| == n && forall k :: 0 <= k < n ==> r[k] == PadFrame(width)
  {
    if n == 0 then [] else PadFrames(n - 1, width) + [PadFrame(width)]
  }

  datatype Features = Features(width: nat, frames: seq<Frame>)
  {
    /** `len()`: the size of the frame dimension. */
    function Len(): nat {
      |frames|
    }

    /** `slice(start, end)`: frames [start, end), clamped to the block. */
    function Slice(start: nat, end: nat): (r: Features)
      ensures r.width == width
      ensures start <= end <= Len() ==> r.Len() == end - start && r.frames == frames[start..end]
    {
      Features(width, Seqs.Slice(frames, start, end))
    }

    /** `slice_to_end(start)`: frames from `start` on. */
    function SliceToEnd(start: nat): (r: Features)
      ensures r.width == width
      ensures r.Len() == if start <= Len() then Len() - start else 0
      ensures start <= Len() ==> r.frames == frames[start..]
    {
      Features(width, Seqs.Slice(frames, start, |frames|))
    }

    /** `pad(p)`: `p` frames of PAD_VALUE after the existing ones. */
    function Pad(p: nat): (r: Features)
      ensures r.width == width && r.Len() == Len() + p
      ensures r.frames[..Len()] == frames
      ensures forall k :: Len() <= k < r.Len() ==> r.frames[k] == PadFrame(width)
    {
      Features(width, frames + PadFrames(p, width))
    }

    /** `join(other)`: this block's frames, then the other's. Concatenating
        blocks of different widths raises in the tensor library, hence the
        requirement. */
    function Join(other: Features): (r: Features)
      requires other.width == width
      ensures r.width == width && r.Len() == Len() + other.Len()
      ensures r.frames[..Len()] == frames && r.frames[Len()..] == other.frames
    {
      Features(width, frames + other.frames)
    }
  }

  /** Cutting a block at `k` and joining the pieces gives the block back. */
  lemma SliceJoinSliceToEnd(f: Features, k: nat)
    requires k <= f.Len()
    ensures f.Slice(0, k).Join(f.SliceToEnd(k)) == f
  {
    assert f.frames[..k] + f.frames[k..] == f.frames;
  }

  /** The two halves of a join are recovered by slicing at the join point. */
  lemma JoinThenSlice(f: Features, g: Features)
    requires f.width == g.width
    ensures f.Join(g).Slice(0, f.Len()) == f
    ensures f.Join(g).SliceToEnd(f.Len()) == g
  {
  }

  /** Slicing a padded block back to its old length undoes the padding. */
  lemma PadThenSlice(f: Features, p: nat)
    ensures f.Pad(p).Slice(0, f.Len()) == f
  {
  }

  /** Joining is associative. */
  lemma JoinAssociative(f: Features, g: Features, h: Features)
    requires f.width == g.width == h.width
    ensures f.Join(g).Join(h) == f.Join(g.Join(h))
  {
    var left := (f.frames + g.frames) + h.frames;
    var right := f.frames + (g.frames + h.frames);
    assert |left| == |right|;
    forall i | 0 <= i < |left|
      ensures left[i] == right[i]
    {
    }
    assert left == right;
  }

  /** Slicing twice from the front is slicing once by the sum. */
  lemma SliceToEndTwice(f: Features, a: nat, b: nat)
    ensures f.SliceToEnd(a).SliceToEnd(b) == f.SliceToEnd(a + b)
  {
    if a + b <= f.Len() {
      assert f.frames[a..][b..] == f.frames[a + b..];
    }
  }
}
