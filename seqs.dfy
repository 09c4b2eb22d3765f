/** Slicing as the tensor library does it along one dimension: bounds past
    the end are clamped to the length, and a start past the end gives an
    empty result. */
module Seqs {

  function Clamp(x: nat, n: nat): (r: nat)
    ensures r <= n && (x <= n ==> r == x) && (x > n ==> r == n)
  {
    if x <= n then x else n
  }

  /** `slice(dim, start, end)` along a sequence. */
  function Slice<T>(s: seq<T>, start: nat, end: nat): (r: seq<T>)
    ensures var b := Clamp(start, |s|);
      var e := Clamp(end, |s|);
      && |r| == (if b <= e then e - b else 0)
      && forall k :: 0 <= k < |r| ==> r[k] == s[b + k]
  {
    var b := Clamp(start, |s|);
    var e := Clamp(end, |s|);
    if b <= e then s[b..e] else []
  }

  /** Within bounds the slice is the subsequence. */
  lemma SliceInBounds<T>(s: seq<T>, start: nat, end: nat)
    requires start <= end <= |s|
    ensures Slice(s, start, end) == s[start..end]
  {
  }

  /** The last `n` elements of `s`. */
  function Suffix<T>(s: seq<T>, n: nat): (r: seq<T>)
    requires n <= |s|
    ensures |r| == n && forall k :: 0 <= k < n ==> r[k] == s[|s| - n + k]
  {
    s[|s| - n..]
  }

  /** A suffix of a suffix, and a suffix reaching back past a join. */
  lemma SuffixOfJoin<T>(a: seq<T>, b: seq<T>, n: nat)
    requires n <= |a| + |b|
    ensures n <= |b| ==> Suffix(a + b, n) == Suffix(b, n)
    ensures n > |b| ==> Suffix(a + b, n) == Suffix(a, n - |b|) + b
  {
    var s := a + b;
    if n <= |b| {
      assert forall k :: 0 <= k < n ==> Suffix(s, n)[k] == Suffix(b, n)[k];
    } else {
      var t := Suffix(a, n - |b|) + b;
      assert forall k :: 0 <= k < n ==> Suffix(s, n)[k] == t[k];
    }
  }
}
