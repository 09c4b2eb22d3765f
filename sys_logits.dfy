/** The score masks of src/sys/logits.h. Each mask is first stated on one row
    (a function from the row before to the row after), then performed in place
    by the `Logits` view class, which applies it to every beam row the view
    covers. `Logprobs` is the read-only split of a row at the first timestamp. */
module SysLogits {
  import opened Seqs
  import opened Rows
  import opened Vocab
  import opened Wrappers

  // ---------------------------------------------------------------------------
  // The masks, one row at a time.

  /** `suppress_range(begin, end)`: [begin, end) becomes −∞; a missing end
      means the end of the row. */
  function RangeSuppressed(row: Row, begin: nat, end: Option<nat>): (r: Row)
    ensures |r| == |row|
    ensures forall i :: 0 <= i < |row| ==>
      r[i] == (if begin <= i && (end.None? || i < end.value) then NegInf else row[i])
  {
    Fill(row, begin, end.GetOr(|row|), NegInf)
  }

  /** `suppress(id)`: only entry `id` becomes −∞. Selecting an id outside
      the row raises in the tensor library, hence the requirement. */
  function Suppressed(row: Row, id: nat): (r: Row)
    requires id < |row|
    ensures |r| == |row| && r[id] == NegInf
    ensures forall i :: 0 <= i < |row| && i != id ==> r[i] == row[i]
  {
    row[id := NegInf]
  }

  /** `suppress_indices(ids)`: every listed entry becomes −∞. */
  function IndicesSuppressed(row: Row, ids: seq<nat>): (r: Row)
    requires forall k :: 0 <= k < |ids| ==> ids[k] < |row|
    ensures |r| == |row|
    ensures forall i :: 0 <= i < |row| ==> r[i] == (if i in ids then NegInf else row[i])
  {
    if ids == [] then row
    else
      var front := ids[..|ids| - 1];
      assert ids == front + [ids[|ids| - 1]];
      Suppressed(IndicesSuppressed(row, front), ids[|ids| - 1])
  }

  /** `set_transcribe` and `set_eot`: fill the row with −∞, then write 0 at
      the forced token. */
  function Forced(row: Row, id: nat): (r: Row)
    requires id < |row|
    ensures |r| == |row| && r[id] == Fin(0.0)
    ensures forall i :: 0 <= i < |row| && i != id ==> r[i] == NegInf
  {
    Fill(row, 0, |row|, NegInf)[id := Fin(0.0)]
  }

  function TranscribeForced(row: Row): (r: Row)
    requires TRANSCRIBE < |row|
    ensures |r| == |row| && r[TRANSCRIBE] == Fin(0.0)
    ensures forall i :: 0 <= i < |row| && i != TRANSCRIBE ==> r[i] == NegInf
  {
    Forced(row, TRANSCRIBE)
  }

  function EotForced(row: Row): (r: Row)
    requires END_OF_TEXT < |row|
    ensures |r| == |row| && r[END_OF_TEXT] == Fin(0.0)
    ensures forall i :: 0 <= i < |row| && i != END_OF_TEXT ==> r[i] == NegInf
  {
    Forced(row, END_OF_TEXT)
  }

  function NoTimestampsSuppressed(row: Row): (r: Row)
    requires NO_TIMESTAMPS < |row|
    ensures |r| == |row| && r[NO_TIMESTAMPS] == NegInf
    ensures forall i :: 0 <= i < |row| && i != NO_TIMESTAMPS ==> r[i] == row[i]
  {
    Suppressed(row, NO_TIMESTAMPS)
  }

  /** Only the language tags may stay finite, and they keep their scores. */
  function NonLanguagesSuppressed(row: Row): (r: Row)
    ensures |r| == |row|
    ensures forall i :: 0 <= i < |row| ==>
      r[i] == (if START_OF_LANGUAGE <= i < END_OF_LANGUAGE then row[i] else NegInf)
  {
    RangeSuppressed(RangeSuppressed(row, 0, Some(START_OF_LANGUAGE)), END_OF_LANGUAGE, None)
  }

  function EotSuppressed(row: Row): (r: Row)
    requires END_OF_TEXT < |row|
    ensures |r| == |row| && r[END_OF_TEXT] == NegInf
    ensures forall i :: 0 <= i < |row| && i != END_OF_TEXT ==> r[i] == row[i]
  {
    Suppressed(row, END_OF_TEXT)
  }

  /** Everything but END_OF_TEXT becomes −∞; END_OF_TEXT is left as it was
      (it is not forced to 0, unlike `Forced`). */
  function NonEotSuppressed(row: Row): (r: Row)
    ensures |r| == |row|
    ensures forall i :: 0 <= i < |row| ==> r[i] == (if i == END_OF_TEXT then row[i] else NegInf)
  {
    RangeSuppressed(RangeSuppressed(row, 0, Some(END_OF_TEXT)), END_OF_TEXT + 1, None)
  }

  /** `suppress_timestamps(end)`: the timestamps below `end` (all of them
      when `end` is missing) become −∞; everything else is unchanged. */
  function TimestampsSuppressed(row: Row, end: Option<nat>): (r: Row)
    ensures |r| == |row|
    ensures forall i :: 0 <= i < |row| ==>
      r[i] == (if START_OF_TIMESTAMP <= i && (end.None? || i < end.value) then NegInf else row[i])
  {
    RangeSuppressed(row, START_OF_TIMESTAMP, end)
  }

  /** Every id below the first timestamp becomes −∞. */
  function NonTimestampsSuppressed(row: Row): (r: Row)
    ensures |r| == |row|
    ensures forall i :: 0 <= i < |row| ==> r[i] == (if i < START_OF_TIMESTAMP then NegInf else row[i])
  {
    RangeSuppressed(row, 0, Some(START_OF_TIMESTAMP))
  }

  /** Ordinary text, the ids below END_OF_TEXT, becomes −∞. */
  function TextSuppressed(row: Row): (r: Row)
    ensures |r| == |row|
    ensures forall i :: 0 <= i < |row| ==> r[i] == (if i < END_OF_TEXT then NegInf else row[i])
  {
    RangeSuppressed(row, 0, Some(END_OF_TEXT))
  }

  /** SPACE and END_OF_TEXT become −∞. */
  function BlankSuppressed(row: Row): (r: Row)
    requires END_OF_TEXT < |row|
    ensures |r| == |row|
    ensures forall i :: 0 <= i < |row| ==>
      r[i] == (if i == SPACE || i == END_OF_TEXT then NegInf else row[i])
  {
    IndicesSuppressed(row, [SPACE, END_OF_TEXT])
  }

  // ---------------------------------------------------------------------------
  // Algebra of the masks.

  /** Suppressing a range twice is suppressing it once. */
  lemma RangeSuppressedIdempotent(row: Row, begin: nat, end: Option<nat>)
    ensures RangeSuppressed(RangeSuppressed(row, begin, end), begin, end) == RangeSuppressed(row, begin, end)
  {
    var once := RangeSuppressed(row, begin, end);
    assert RangeSuppressed(once, begin, end) == Fill(once, begin, end.GetOr(|row|), NegInf);
    FillIdempotent(row, begin, end.GetOr(|row|), NegInf);
  }

  /** A timestamp bound no higher than the previous one adds nothing:
      suppressing below `e1` and then below `e2 <= e1` is suppressing below `e1`. */
  lemma TimestampsSuppressedAbsorbs(row: Row, e1: nat, e2: nat)
    requires e2 <= e1
    ensures TimestampsSuppressed(TimestampsSuppressed(row, Some(e1)), Some(e2)) == TimestampsSuppressed(row, Some(e1))
  {
    var a := TimestampsSuppressed(TimestampsSuppressed(row, Some(e1)), Some(e2));
    var b := TimestampsSuppressed(row, Some(e1));
    assert forall i :: 0 <= i < |row| ==> a[i] == b[i];
  }

  /** After any of the masks below the first timestamp, the timestamp range
      is exactly as before; after a timestamp mask, the ids below the first
      timestamp are exactly as before. The two halves of the row are masked
      independently. */
  lemma MasksKeepTheOtherHalf(row: Row, end: Option<nat>)
    ensures Timestamps(NonTimestampsSuppressed(row)) == Timestamps(row)
    ensures Timestamps(TextSuppressed(row)) == Timestamps(row)
    ensures NonTimestamps(TimestampsSuppressed(row, end)) == NonTimestamps(row)
  {
    var k := Clamp(START_OF_TIMESTAMP, |row|);
    var a := NonTimestampsSuppressed(row);
    var b := TextSuppressed(row);
    assert forall i :: k <= i < |row| ==> a[i] == row[i] && b[i] == row[i];
    assert a[k..] == row[k..];
    assert b[k..] == row[k..];
    TimestampMaskKeepsText(row, end);
  }

  /** The last part of `MasksKeepTheOtherHalf`: a timestamp mask leaves
      the ids below the first timestamp as they were. */
  lemma TimestampMaskKeepsText(row: Row, end: Option<nat>)
    ensures NonTimestamps(TimestampsSuppressed(row, end)) == NonTimestamps(row)
  {
    var k := Clamp(START_OF_TIMESTAMP, |row|);
    var c := TimestampsSuppressed(row, end);
    assert forall i :: 0 <= i < k ==> c[i] == row[i];
    assert c[..k] == row[..k];
  }

  // ---------------------------------------------------------------------------
  // Logprobs: the split of a row at the first timestamp.

  /** `Logprobs::timestamps()`: the row from START_OF_TIMESTAMP on. */
  function Timestamps(row: Row): (r: Row)
    ensures |r| == |row| - Clamp(START_OF_TIMESTAMP, |row|)
    ensures forall k :: 0 <= k < |r| ==> r[k] == row[START_OF_TIMESTAMP + k]
  {
    row[Clamp(START_OF_TIMESTAMP, |row|)..]
  }

  /** `Logprobs::non_timestamps()`: the row below START_OF_TIMESTAMP. */
  function NonTimestamps(row: Row): (r: Row)
    ensures |r| == Clamp(START_OF_TIMESTAMP, |row|)
    ensures forall k :: 0 <= k < |r| ==> r[k] == row[k]
  {
    row[..Clamp(START_OF_TIMESTAMP, |row|)]
  }

  /** The two views partition the row: the non-timestamp part covers the ids
      below START_OF_TIMESTAMP, the timestamp part the ids from it on, so they
      share no id and, put back together, give the row. */
  lemma LogprobsPartition(row: Row)
    ensures NonTimestamps(row) + Timestamps(row) == row
    ensures |NonTimestamps(row)| + |Timestamps(row)| == |row|
    ensures |row| >= START_OF_TIMESTAMP ==> |NonTimestamps(row)| == START_OF_TIMESTAMP
  {
    var k := Clamp(START_OF_TIMESTAMP, |row|);
    assert row[..k] + row[k..] == row;
  }

  // ---------------------------------------------------------------------------
  // The in-place masks.

  /** A `Logits` object is a view of a score tensor: the whole tensor (rows
      [0, beams)) or, after `beam(b)`, the single row b. Writes through any
      view change the shared array. */
  class Logits {
    const tensor: array<Row>
    const lo: nat
    const hi: nat

    ghost predicate Valid() {
      lo <= hi <= tensor.Length
    }

    ghost predicate Whole() {
      lo == 0 && hi == tensor.Length
    }

    /** Every row of the view reaches index `id`. */
    ghost predicate Covers(id: nat)
      reads tensor
    {
      forall b :: lo <= b < hi && b < tensor.Length ==> id < |tensor[b]|
    }

    /** `Logits(logits)`: a view of the whole tensor. */
    constructor (t: array<Row>)
      ensures tensor == t && lo == 0 && hi == t.Length
      ensures Valid() && Whole()
    {
      tensor := t;
      lo := 0;
      hi := t.Length;
    }

    /** `Logits(tensor)` on the row `beam(b)` selects: a view of row b only. */
    constructor Row(t: array<Row>, b: nat)
      requires b < t.Length
      ensures tensor == t && lo == b && hi == b + 1 && Valid()
    {
      tensor := t;
      lo := b;
      hi := b + 1;
    }

    /** `beam(b)`: a view of row b of the same tensor. It indexes the leading
        dimensions, so it applies to the whole tensor only. */
    method Beam(b: nat) returns (v: Logits)
      requires Valid() && Whole() && b < tensor.Length
      ensures fresh(v) && v.Valid()
      ensures v.tensor == tensor && v.lo == b && v.hi == b + 1
    {
      v := new Logits.Row(tensor, b);
    }

    method SuppressRange(begin: nat, end: Option<nat>)
      requires Valid()
      modifies tensor
      ensures forall b :: 0 <= b < tensor.Length ==>
        tensor[b] == (if lo <= b < hi then RangeSuppressed(old(tensor[b]), begin, end) else old(tensor[b]))
    {
      forall b | lo <= b < hi {
        tensor[b] := RangeSuppressed(tensor[b], begin, end);
      }
    }

    method Suppress(id: nat)
      requires Valid() && Covers(id)
      modifies tensor
      ensures forall b :: 0 <= b < tensor.Length ==>
        tensor[b] == (if lo <= b < hi then Suppressed(old(tensor[b]), id) else old(tensor[b]))
    {
      forall b | lo <= b < hi {
        tensor[b] := Suppressed(tensor[b], id);
      }
    }

    method SuppressIndices(ids: seq<nat>)
      requires Valid()
      requires forall b, k :: lo <= b < hi && b < tensor.Length && 0 <= k < |ids| ==> ids[k] < |tensor[b]|
      modifies tensor
      ensures forall b :: 0 <= b < tensor.Length ==>
        tensor[b] == (if lo <= b < hi then IndicesSuppressed(old(tensor[b]), ids) else old(tensor[b]))
    {
      forall b | lo <= b < hi {
        tensor[b] := IndicesSuppressed(tensor[b], ids);
      }
    }

    /** `fill_(NEG_INF)` on the view, then `select(-1, id).fill_(0)`. */
    method Force(id: nat)
      requires Valid() && Covers(id)
      modifies tensor
      ensures forall b :: 0 <= b < tensor.Length ==>
        tensor[b] == (if lo <= b < hi then Forced(old(tensor[b]), id) else old(tensor[b]))
    {
      forall b | lo <= b < hi {
        tensor[b] := Fill(tensor[b], 0, |tensor[b]|, NegInf);
      }
      forall b | lo <= b < hi {
        tensor[b] := tensor[b][id := Fin(0.0)];
      }
    }

    method SetTranscribe()
      requires Valid() && Covers(TRANSCRIBE)
      modifies tensor
      ensures forall b :: 0 <= b < tensor.Length ==>
        tensor[b] == (if lo <= b < hi then TranscribeForced(old(tensor[b])) else old(tensor[b]))
    {
      Force(TRANSCRIBE);
    }

    method SetEot()
      requires Valid() && Covers(END_OF_TEXT)
      modifies tensor
      ensures forall b :: 0 <= b < tensor.Length ==>
        tensor[b] == (if lo <= b < hi then EotForced(old(tensor[b])) else old(tensor[b]))
    {
      Force(END_OF_TEXT);
    }

    method SuppressNoTimestamps()
      requires Valid() && Covers(NO_TIMESTAMPS)
      modifies tensor
      ensures forall b :: 0 <= b < tensor.Length ==>
        tensor[b] == (if lo <= b < hi then NoTimestampsSuppressed(old(tensor[b])) else old(tensor[b]))
    {
      Suppress(NO_TIMESTAMPS);
    }

    method SuppressNonLanguages()
      requires Valid()
      modifies tensor
      ensures forall b :: 0 <= b < tensor.Length ==>
        tensor[b] == (if lo <= b < hi then NonLanguagesSuppressed(old(tensor[b])) else old(tensor[b]))
    {
      SuppressRange(0, Some(START_OF_LANGUAGE));
      SuppressRange(END_OF_LANGUAGE, None);
    }

    method SuppressEot()
      requires Valid() && Covers(END_OF_TEXT)
      modifies tensor
      ensures forall b :: 0 <= b < tensor.Length ==>
        tensor[b] == (if lo <= b < hi then EotSuppressed(old(tensor[b])) else old(tensor[b]))
    {
      Suppress(END_OF_TEXT);
    }

    method SuppressNonEot()
      requires Valid()
      modifies tensor
      ensures forall b :: 0 <= b < tensor.Length ==>
        tensor[b] == (if lo <= b < hi then NonEotSuppressed(old(tensor[b])) else old(tensor[b]))
    {
      SuppressRange(0, Some(END_OF_TEXT));
      SuppressRange(END_OF_TEXT + 1, None);
    }

    method SuppressTimestamps(end: Option<nat>)
      requires Valid()
      modifies tensor
      ensures forall b :: 0 <= b < tensor.Length ==>
        tensor[b] == (if lo <= b < hi then TimestampsSuppressed(old(tensor[b]), end) else old(tensor[b]))
    {
      SuppressRange(START_OF_TIMESTAMP, end);
    }

    method SuppressNonTimestamps()
      requires Valid()
      modifies tensor
      ensures forall b :: 0 <= b < tensor.Length ==>
        tensor[b] == (if lo <= b < hi then NonTimestampsSuppressed(old(tensor[b])) else old(tensor[b]))
    {
      SuppressRange(0, Some(START_OF_TIMESTAMP));
    }

    method SuppressText()
      requires Valid()
      modifies tensor
      ensures forall b :: 0 <= b < tensor.Length ==>
        tensor[b] == (if lo <= b < hi then TextSuppressed(old(tensor[b])) else old(tensor[b]))
    {
      SuppressRange(0, Some(END_OF_TEXT));
    }

    method SuppressBlank()
      requires Valid() && Covers(END_OF_TEXT)
      modifies tensor
      ensures forall b :: 0 <= b < tensor.Length ==>
        tensor[b] == (if lo <= b < hi then BlankSuppressed(old(tensor[b])) else old(tensor[b]))
    {
      SuppressIndices([SPACE, END_OF_TEXT]);
    }
  }
}
