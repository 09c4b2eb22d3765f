/** The in-place steps `FeatureBuffer::append` performs on its sample tail
    (a `std::vector<float>`): `resize` and `std::copy`, including the copy of
    a range onto an overlapping range further left. */
module Vectors {

  /** `resize(n)`: the first n values, padded with zeros. */
  function Resized(s: seq<real>, n: nat): (r: seq<real>)
    ensures |r| == n
    ensures forall i :: 0 <= i < n ==> r[i] == (if i < |s| then s[i] else 0.0)
  {
    if n <= |s| then s[..n] else s + Zeros(n - |s|)
  }

  function Zeros(n: nat): (r: seq<real>)
    ensures |r| == n && forall i :: 0 <= i < n ==> r[i] == 0.0
  {
    if n == 0 then [] else Zeros(n - 1) + [0.0]
  }

  /** A vector holding `s`. */
  method FromSeq(s: seq<real>) returns (a: array<real>)
    ensures fresh(a) && a[..] == s
  {
    a := new real[|s|](i requires 0 <= i < |s| => s[i]);
  }

  /** `resize(n)` gives a vector of n values: the old ones that fit, then
      zeros. */
  method Resize(a: array<real>, n: nat) returns (b: array<real>)
    ensures fresh(b) && b[..] == Resized(a[..], n)
  {
    b := new real[n];
    var i := 0;
    while i < n
      invariant 0 <= i <= n
      invariant forall j :: 0 <= j < i ==> b[j] == (if j < a.Length then a[j] else 0.0)
    {
      b[i] := if i < a.Length then a[i] else 0.0;
      i := i + 1;
    }
  }

  /** `std::copy(src.begin(), src.end(), dst.begin() + at)`. */
  method CopyFrom(dst: array<real>, at: nat, src: seq<real>)
    requires at + |src| <= dst.Length
    modifies dst
    ensures dst[..] == old(dst[..at]) + src + old(dst[at + |src|..])
  {
    var i := 0;
    while i < |src|
      invariant 0 <= i <= |src|
      invariant forall j :: 0 <= j < dst.Length ==>
        dst[j] == (if at <= j < at + i then src[j - at] else old(dst[j]))
    {
      dst[at + i] := src[i];
      i := i + 1;
    }
    assert dst[..] == old(dst[..at]) + src + old(dst[at + |src|..]);
  }

  /** `std::copy(a.begin() + from, a.begin() + to, a.begin() + at)` with
      `at <= from`: the ranges may overlap, and copying front to back reads
      every value before it is overwritten. */
  method CopyWithin(a: array<real>, from: nat, to: nat, at: nat)
    requires at <= from <= to <= a.Length
    modifies a
    ensures a[..] == old(a[..at]) + old(a[from..to]) + old(a[at + (to - from)..])
  {
    ghost var o := a[..];
    var i := 0;
    while i < to - from
      invariant 0 <= i <= to - from && |o| == a.Length
      invariant forall j :: at <= j < at + i ==> a[j] == o[from + (j - at)]
      invariant forall j :: 0 <= j < a.Length && !(at <= j < at + i) ==> a[j] == o[j]
    {
      assert a[from + i] == o[from + i];
      a[at + i] := a[from + i];
      i := i + 1;
    }
    Shifted(o, a[..], from, to, at);
  }

  /** The values after a front-to-back copy of `o[from..to]` to `at`, as
      three pieces. */
  lemma Shifted(o: seq<real>, s: seq<real>, from: nat, to: nat, at: nat)
    requires at <= from <= to <= |o| == |s|
    requires forall j :: at <= j < at + (to - from) ==> s[j] == o[from + (j - at)]
    requires forall j :: 0 <= j < |s| && !(at <= j < at + (to - from)) ==> s[j] == o[j]
    ensures s == o[..at] + o[from..to] + o[at + (to - from)..]
  {
    var end := at + (to - from);
    var t := o[..at] + o[from..to] + o[end..];
    assert |t| == |s|;
    forall j | 0 <= j < |s|
      ensures s[j] == t[j]
    {
      if j < at {
      } else if j < end {
        assert t[j] == o[from..to][j - at] == o[from + (j - at)];
      } else {
        assert t[j] == o[end..][j - end] == o[j];
      }
    }
  }
}
