/** Sequence helpers shared by the store: the `find`/`findIndex` search and the
    `filter` of JavaScript arrays, stated once and generically. */
module Seqs {

  /** Index of the first element satisfying `p`, or -1 (as `Array.prototype.findIndex`). */
  function FirstIndex<T>(s: seq<T>, p: T -> bool): (r: int)
    ensures -1 <= r < |s|
    ensures r < 0 <==> forall k :: 0 <= k < |s| ==> !p(s[k])
    ensures 0 <= r ==> p(s[r]) && forall k :: 0 <= k < r ==> !p(s[k])
  {
    if |s| == 0 then -1
    else if p(s[0]) then 0
    else
      var r := FirstIndex(s[1..], p);
      if r < 0 then -1 else r + 1
  }

  /** The elements of `s` that satisfy `p`, in their original order (as `Array.prototype.filter`). */
  function Filter<T(!new)>(s: seq<T>, p: T -> bool): (r: seq<T>)
    ensures |r| <= |s|
    ensures |r| == |s| <==> forall k :: 0 <= k < |s| ==> p(s[k])
    ensures forall x :: x in r <==> x in s && p(x)
  {
    if |s| == 0 then []
    else if p(s[0]) then [s[0]] + Filter(s[1..], p)
    else Filter(s[1..], p)
  }

  /** `R` holds between every two elements at distinct positions. */
  ghost predicate Pairwise<T>(s: seq<T>, R: (T, T) -> bool)
  {
    forall i, j :: 0 <= i < |s| && 0 <= j < |s| && i != j ==> R(s[i], s[j])
  }

  /** The linear scan behind `find`/`findIndex`. */
  method FindIndex<T>(s: seq<T>, p: T -> bool) returns (r: int)
    ensures r == FirstIndex(s, p)
  {
    var i := 0;
    while i < |s|
      invariant 0 <= i <= |s|
      invariant forall k :: 0 <= k < i ==> !p(s[k])
    {
      if p(s[i]) {
        return i;
      }
      i := i + 1;
    }
    return -1;
  }

  /** Filtering by a predicate every element satisfies changes nothing. */
  lemma {:induction false} FilterAll<T(!new)>(s: seq<T>, p: T -> bool)
    requires forall k :: 0 <= k < |s| ==> p(s[k])
    ensures Filter(s, p) == s
  {
    if |s| > 0 {
      FilterAll(s[1..], p);
    }
  }

  /** When exactly the element at `k` fails `p`, filtering removes just that element. */
  lemma {:induction false} FilterExceptOne<T(!new)>(s: seq<T>, p: T -> bool, k: int)
    requires 0 <= k < |s| && !p(s[k])
    requires forall j :: 0 <= j < |s| && j != k ==> p(s[j])
    ensures Filter(s, p) == s[..k] + s[k + 1..]
  {
    var t := s[1..];
    if k == 0 {
      assert forall j :: 0 <= j < |t| ==> t[j] == s[j + 1];
      FilterAll(t, p);
    } else {
      assert forall j :: 0 <= j < |t| && j != k - 1 ==> t[j] == s[j + 1];
      FilterExceptOne(t, p, k - 1);
      assert s[..k] == [s[0]] + t[..k - 1];
      assert s[k + 1..] == t[k..];
    }
  }

  /** Filtering keeps every pairwise relation that held before. */
  lemma {:induction false} FilterPairwise<T(!new)>(s: seq<T>, p: T -> bool, R: (T, T) -> bool)
    requires Pairwise(s, R)
    ensures Pairwise(Filter(s, p), R)
  {
    if |s| > 0 {
      var t := s[1..];
      assert Pairwise(t, R) by {
        forall i, j | 0 <= i < |t| && 0 <= j < |t| && i != j
          ensures R(t[i], t[j])
        {
          assert t[i] == s[i + 1] && t[j] == s[j + 1];
        }
      }
      FilterPairwise(t, p, R);
      if p(s[0]) {
        var f := Filter(t, p);
        var r := [s[0]] + f;
        forall i, j | 0 <= i < |r| && 0 <= j < |r| && i != j
          ensures R(r[i], r[j])
        {
          if i == 0 {
            assert r[j] in t;
            var m :| 0 <= m < |t| && t[m] == r[j];
            assert s[m + 1] == r[j];
          } else if j == 0 {
            assert r[i] in t;
            var m :| 0 <= m < |t| && t[m] == r[i];
            assert s[m + 1] == r[i];
          } else {
            assert r[i] == f[i - 1] && r[j] == f[j - 1];
          }
        }
      }
    }
  }

  /** Appending an element related both ways to every element keeps a pairwise relation. */
  lemma PairwiseAppend<T>(s: seq<T>, e: T, R: (T, T) -> bool)
    requires Pairwise(s, R)
    requires forall k :: 0 <= k < |s| ==> R(s[k], e) && R(e, s[k])
    ensures Pairwise(s + [e], R)
  {
    var t := s + [e];
    forall i, j | 0 <= i < |t| && 0 <= j < |t| && i != j
      ensures R(t[i], t[j])
    {
      if i < |s| && j < |s| {
        assert t[i] == s[i] && t[j] == s[j];
      }
    }
  }

  /** Replacing one element by one related both ways to every other element keeps a pairwise relation. */
  lemma PairwiseReplace<T>(s: seq<T>, i: int, e: T, R: (T, T) -> bool)
    requires 0 <= i < |s| && Pairwise(s, R)
    requires forall k :: 0 <= k < |s| && k != i ==> R(s[k], e) && R(e, s[k])
    ensures Pairwise(s[i := e], R)
  {
  }
}
