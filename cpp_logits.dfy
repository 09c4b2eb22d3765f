/** The older score-mask library of cpp/logits.h, with its token constants
    from cpp/token.h. `Logits` views the whole [1, beams, vocab] tensor,
    `BeamLogits` one beam row of it; both write through to the same tensor.
    As in `SysLogits`, each mask is stated on one row first. */
module CppLogits {
  import opened Seqs
  import opened Rows
  import opened Wrappers

  // cpp/token.h. NO_TIMESTAMPS is 50363 here, one below the 50364 of the
  // newer vocabulary; there is no SPACE.
  const END_OF_TEXT: int := 50257
  const BEGIN_OF_LANGUAGE: int := 50259
  const END_OF_LANGUAGE: int := 50359
  const TRANSCRIBE: int := 50360
  const NO_TIMESTAMPS: int := 50363
  const BEGIN_OF_TIMESTAMP: int := 50365

  // ---------------------------------------------------------------------------
  // Writes on one row.

  /** `put(id, v)`: entry `id` takes `v`. Indexing past the row raises in the
      tensor library, hence the requirement. */
  function WithEntry(row: Row, id: nat, v: Score): (r: Row)
    requires id < |row|
    ensures |r| == |row| && r[id] == v
    ensures forall i :: 0 <= i < |row| && i != id ==> r[i] == row[i]
  {
    row[id := v]
  }

  /** `putRange(begin, end, v)` and, with `end` missing, `putRange(begin, v)`:
      [begin, end) takes `v`, clamped to the row. */
  function WithRange(row: Row, begin: nat, end: Option<nat>, v: Score): (r: Row)
    ensures |r| == |row|
    ensures forall i :: 0 <= i < |row| ==>
      r[i] == (if begin <= i && (end.None? || i < end.value) then v else row[i])
  {
    Fill(row, begin, end.GetOr(|row|), v)
  }

  // ---------------------------------------------------------------------------
  // The masks on one beam row.

  function NoTimestampsSuppressed(row: Row): (r: Row)
    requires NO_TIMESTAMPS < |row|
    ensures |r| == |row| && r[NO_TIMESTAMPS] == NegInf
    ensures forall i :: 0 <= i < |row| && i != NO_TIMESTAMPS ==> r[i] == row[i]
  {
    WithEntry(row, NO_TIMESTAMPS, NegInf)
  }

  function EndOfTextSuppressed(row: Row): (r: Row)
    requires END_OF_TEXT < |row|
    ensures |r| == |row| && r[END_OF_TEXT] == NegInf
    ensures forall i :: 0 <= i < |row| && i != END_OF_TEXT ==> r[i] == row[i]
  {
    WithEntry(row, END_OF_TEXT, NegInf)
  }

  function NonLanguageSuppressed(row: Row): (r: Row)
    ensures |r| == |row|
    ensures forall i :: 0 <= i < |row| ==>
      r[i] == (if BEGIN_OF_LANGUAGE <= i < END_OF_LANGUAGE then row[i] else NegInf)
  {
    WithRange(WithRange(row, 0, Some(BEGIN_OF_LANGUAGE), NegInf), END_OF_LANGUAGE, None, NegInf)
  }

  function TextSuppressed(row: Row): (r: Row)
    ensures |r| == |row|
    ensures forall i :: 0 <= i < |row| ==> r[i] == (if i < END_OF_TEXT then NegInf else row[i])
  {
    WithRange(row, 0, Some(END_OF_TEXT), NegInf)
  }

  /** `suppressTimestamps()` (end missing) and `suppressTimestamps(end)`. */
  function TimestampsSuppressed(row: Row, end: Option<nat>): (r: Row)
    ensures |r| == |row|
    ensures forall i :: 0 <= i < |row| ==>
      r[i] == (if BEGIN_OF_TIMESTAMP <= i && (end.None? || i < end.value) then NegInf else row[i])
  {
    WithRange(row, BEGIN_OF_TIMESTAMP, end, NegInf)
  }

  function NonTimestampSuppressed(row: Row): (r: Row)
    ensures |r| == |row|
    ensures forall i :: 0 <= i < |row| ==> r[i] == (if i < BEGIN_OF_TIMESTAMP then NegInf else row[i])
  {
    WithRange(row, 0, Some(BEGIN_OF_TIMESTAMP), NegInf)
  }

  /** Everything but END_OF_TEXT becomes −∞; END_OF_TEXT keeps its score. */
  function NonEndOfTextSuppressed(row: Row): (r: Row)
    ensures |r| == |row|
    ensures forall i :: 0 <= i < |row| ==> r[i] == (if i == END_OF_TEXT then row[i] else NegInf)
  {
    WithRange(WithRange(row, 0, Some(END_OF_TEXT), NegInf), END_OF_TEXT + 1, None, NegInf)
  }

  /** After `suppressNonEndOfText` a row has at most one finite entry, and
      that one is END_OF_TEXT. */
  lemma NonEndOfTextLeavesAtMostOne(row: Row)
    requires END_OF_TEXT < |row|
    ensures CountFinite(NonEndOfTextSuppressed(row)) == (if row[END_OF_TEXT].Fin? then 1 else 0)
  {
    var r := NonEndOfTextSuppressed(row);
    if row[END_OF_TEXT].Fin? {
      CountFiniteSingle(r, END_OF_TEXT);
    } else {
      CountFiniteNone(r);
    }
  }

  /** The text mask and the timestamp mask touch disjoint ranges, so they
      commute. */
  lemma TextAndTimestampMasksCommute(row: Row, end: Option<nat>)
    ensures TextSuppressed(TimestampsSuppressed(row, end)) == TimestampsSuppressed(TextSuppressed(row), end)
  {
    var a := TextSuppressed(TimestampsSuppressed(row, end));
    var b := TimestampsSuppressed(TextSuppressed(row), end);
    assert forall i :: 0 <= i < |row| ==> a[i] == b[i];
  }

  // ---------------------------------------------------------------------------
  // BeamLogprobs: the split of a beam row.

  /** `BeamTensor::slice(start, end)` along the row: missing bounds are the
      ends of the row. */
  function SliceRow(row: Row, start: Option<nat>, end: Option<nat>): (r: Row)
  {
    Slice(row, start.GetOr(0), end.GetOr(|row|))
  }

  function Timestamps(row: Row): (r: Row)
  {
    SliceRow(row, Some(BEGIN_OF_TIMESTAMP), None)
  }

  function NonTimestamps(row: Row): (r: Row)
  {
    SliceRow(row, Some(0), Some(BEGIN_OF_TIMESTAMP))
  }

  /** `nonTimestamps()` holds the ids below BEGIN_OF_TIMESTAMP and
      `timestamps()` the ids from it on: together, in that order, they are
      the row, and neither holds an id of the other. */
  lemma BeamLogprobsPartition(row: Row)
    ensures NonTimestamps(row) + Timestamps(row) == row
    ensures |NonTimestamps(row)| == Clamp(BEGIN_OF_TIMESTAMP, |row|)
    ensures forall k :: 0 <= k < |Timestamps(row)| ==> Timestamps(row)[k] == row[BEGIN_OF_TIMESTAMP + k]
  {
    var k := Clamp(BEGIN_OF_TIMESTAMP, |row|);
    var front := NonTimestamps(row);
    var back := Timestamps(row);
    assert |front| == k && |back| == |row| - k;
    assert forall i :: 0 <= i < |row| ==> (front + back)[i] == row[i] by {
      forall i | 0 <= i < |row|
        ensures (front + back)[i] == row[i]
      {
        if i < k {
          assert (front + back)[i] == front[i];
        } else {
          assert (front + back)[i] == back[i - k];
        }
      }
    }
  }

  // ---------------------------------------------------------------------------
  // The in-place views.

  /** `BeamLogits`: the view of row `beam` of a tensor. */
  class BeamLogits {
    const tensor: array<Row>
    const beam: nat

    ghost predicate Valid() {
      beam < tensor.Length
    }

    /** `Logits::beam(b)`. */
    constructor (t: array<Row>, b: nat)
      requires b < t.Length
      ensures tensor == t && beam == b && Valid()
    {
      tensor := t;
      beam := b;
    }

    method Put(id: nat, v: Score)
      requires Valid() && id < |tensor[beam]|
      modifies tensor
      ensures tensor[..] == old(tensor[..])[beam := WithEntry(old(tensor[beam]), id, v)]
    {
      tensor[beam] := WithEntry(tensor[beam], id, v);
    }

    method PutRange(begin: nat, end: Option<nat>, v: Score)
      requires Valid()
      modifies tensor
      ensures tensor[..] == old(tensor[..])[beam := WithRange(old(tensor[beam]), begin, end, v)]
    {
      tensor[beam] := WithRange(tensor[beam], begin, end, v);
    }

    method SuppressNoTimestamps()
      requires Valid() && NO_TIMESTAMPS < |tensor[beam]|
      modifies tensor
      ensures tensor[..] == old(tensor[..])[beam := NoTimestampsSuppressed(old(tensor[beam]))]
    {
      Put(NO_TIMESTAMPS, NegInf);
    }

    method SuppressEndOfText()
      requires Valid() && END_OF_TEXT < |tensor[beam]|
      modifies tensor
      ensures tensor[..] == old(tensor[..])[beam := EndOfTextSuppressed(old(tensor[beam]))]
    {
      Put(END_OF_TEXT, NegInf);
    }

    method SuppressNonLanguage()
      requires Valid()
      modifies tensor
      ensures tensor[..] == old(tensor[..])[beam := NonLanguageSuppressed(old(tensor[beam]))]
    {
      PutRange(0, Some(BEGIN_OF_LANGUAGE), NegInf);
      PutRange(END_OF_LANGUAGE, None, NegInf);
    }

    method SuppressText()
      requires Valid()
      modifies tensor
      ensures tensor[..] == old(tensor[..])[beam := TextSuppressed(old(tensor[beam]))]
    {
      PutRange(0, Some(END_OF_TEXT), NegInf);
    }

    method SuppressTimestamps(end: Option<nat>)
      requires Valid()
      modifies tensor
      ensures tensor[..] == old(tensor[..])[beam := TimestampsSuppressed(old(tensor[beam]), end)]
    {
      PutRange(BEGIN_OF_TIMESTAMP, end, NegInf);
    }

    method SuppressNonTimestamp()
      requires Valid()
      modifies tensor
      ensures tensor[..] == old(tensor[..])[beam := NonTimestampSuppressed(old(tensor[beam]))]
    {
      PutRange(0, Some(BEGIN_OF_TIMESTAMP), NegInf);
    }

    method SuppressNonEndOfText()
      requires Valid()
      modifies tensor
      ensures tensor[..] == old(tensor[..])[beam := NonEndOfTextSuppressed(old(tensor[beam]))]
    {
      PutRange(0, Some(END_OF_TEXT), NegInf);
      PutRange(END_OF_TEXT + 1, None, NegInf);
    }
  }

  /** `Logits` (a `SingleBatchTensor`): the view of every beam row. */
  class Logits {
    const tensor: array<Row>

    constructor (t: array<Row>)
      ensures tensor == t
    {
      tensor := t;
    }

    /** `put(id, v)` writes entry `id` of every beam row. */
    method Put(id: nat, v: Score)
      requires forall b :: 0 <= b < tensor.Length ==> id < |tensor[b]|
      modifies tensor
      ensures forall b :: 0 <= b < tensor.Length ==> tensor[b] == WithEntry(old(tensor[b]), id, v)
    {
      forall b | 0 <= b < tensor.Length {
        tensor[b] := WithEntry(tensor[b], id, v);
      }
    }

    /** `putRange(begin, end, v)` fills [begin, end) of every beam row. */
    method PutRange(begin: nat, end: Option<nat>, v: Score)
      modifies tensor
      ensures forall b :: 0 <= b < tensor.Length ==> tensor[b] == WithRange(old(tensor[b]), begin, end, v)
    {
      forall b | 0 <= b < tensor.Length {
        tensor[b] := WithRange(tensor[b], begin, end, v);
      }
    }

    method SuppressNoTimestamps()
      requires forall b :: 0 <= b < tensor.Length ==> NO_TIMESTAMPS < |tensor[b]|
      modifies tensor
      ensures forall b :: 0 <= b < tensor.Length ==> tensor[b] == NoTimestampsSuppressed(old(tensor[b]))
    {
      Put(NO_TIMESTAMPS, NegInf);
    }

    method SuppressNonLanguage()
      modifies tensor
      ensures forall b :: 0 <= b < tensor.Length ==> tensor[b] == NonLanguageSuppressed(old(tensor[b]))
    {
      PutRange(0, Some(BEGIN_OF_LANGUAGE), NegInf);
      PutRange(END_OF_LANGUAGE, None, NegInf);
    }

    method SuppressNonTimestamp()
      modifies tensor
      ensures forall b :: 0 <= b < tensor.Length ==> tensor[b] == NonTimestampSuppressed(old(tensor[b]))
    {
      PutRange(0, Some(BEGIN_OF_TIMESTAMP), NegInf);
    }

    /** `beam(b)`: a view of row b; writes through it change row b only. */
    method Beam(b: nat) returns (v: BeamLogits)
      requires b < tensor.Length
      ensures fresh(v) && v.Valid() && v.tensor == tensor && v.beam == b
    {
      v := new BeamLogits(tensor, b);
    }
  }
}
