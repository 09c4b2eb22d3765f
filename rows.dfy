/** Scores and score rows. A decode step hands the constraint engine a
    half-precision tensor of next-token scores; the masks only ever write −∞
    (or 0 for a forced token), so a score is either −∞ or a finite value. One
    row holds the scores of one beam over the whole vocabulary. */
module Rows {
  import opened Seqs

  datatype Score = NegInf | Fin(value: real)

  type Row = seq<Score>

  /** A row of `n` copies of `v`. */
  function Repeat(n: nat, v: Score): (r: Row)
    ensures |r| == n && forall i :: 0 <= i < n ==> r[i] == v
  {
    if n == 0 then [] else Repeat(n - 1, v) + [v]
  }

  /** `slice(-1, begin, end).fill_(v)`: the entries with begin <= i < end take
      `v`, the others keep their value; both bounds are clamped to the row. */
  function Fill(row: Row, begin: nat, end: nat, v: Score): (r: Row)
    ensures |r| == |row|
    ensures forall i :: 0 <= i < |row| ==> r[i] == (if begin <= i < end then v else row[i])
  {
    var b := Clamp(begin, |row|);
    var e := Clamp(end, |row|);
    if b >= e then row else row[..b] + Repeat(e - b, v) + row[e..]
  }

  /** Filling a range twice with the same value is filling it once. */
  lemma FillIdempotent(row: Row, begin: nat, end: nat, v: Score)
    ensures Fill(Fill(row, begin, end, v), begin, end, v) == Fill(row, begin, end, v)
  {
    var once := Fill(row, begin, end, v);
    var twice := Fill(once, begin, end, v);
    assert forall i :: 0 <= i < |row| ==> twice[i] == once[i];
  }

  /** Two fills with the same value can be done in either order. */
  lemma FillCommutes(row: Row, b1: nat, e1: nat, b2: nat, e2: nat, v: Score)
    ensures Fill(Fill(row, b1, e1, v), b2, e2, v) == Fill(Fill(row, b2, e2, v), b1, e1, v)
  {
    var x := Fill(Fill(row, b1, e1, v), b2, e2, v);
    var y := Fill(Fill(row, b2, e2, v), b1, e1, v);
    assert forall i :: 0 <= i < |row| ==> x[i] == y[i];
  }

  /** The number of finite entries of a row. */
  function CountFinite(row: Row): (n: nat)
    ensures n <= |row|
  {
    if row == [] then 0 else CountFinite(row[..|row| - 1]) + (if row[|row| - 1].Fin? then 1 else 0)
  }

  /** A row whose only finite entry is at `k` has exactly one finite entry. */
  lemma {:induction false} CountFiniteSingle(row: Row, k: nat)
    requires k < |row| && row[k].Fin?
    requires forall i :: 0 <= i < |row| && i != k ==> row[i] == NegInf
    ensures CountFinite(row) == 1
  {
    var last := |row| - 1;
    if k == last {
      CountFiniteNone(row[..last]);
    } else {
      CountFiniteSingle(row[..last], k);
    }
  }

  lemma {:induction false} CountFiniteNone(row: Row)
    requires forall i :: 0 <= i < |row| ==> row[i] == NegInf
    ensures CountFinite(row) == 0
  {
    if row != [] {
      CountFiniteNone(row[..|row| - 1]);
    }
  }
}
