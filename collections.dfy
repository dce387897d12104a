/**
 * The array operations the in-memory repositories are built from:
 * `find`, `findIndex`, `filter`, and a pairwise-distinctness property.
 */
module Collections {
  import opened Wrappers

  /** `s.findIndex(p)`: the first index satisfying `p`, None for -1. */
  function FindIndex<T>(s: seq<T>, p: T -> bool): (r: Option<nat>)
    ensures r.Some? ==> r.value < |s| && p(s[r.value])
    ensures r.Some? ==> forall k :: 0 <= k < r.value ==> !p(s[k])
    ensures r.None? <==> forall k :: 0 <= k < |s| ==> !p(s[k])
  {
    if s == [] then None
    else if p(s[0]) then Some(0)
    else
      match FindIndex(s[1..], p)
      case None => None
      case Some(k) => Some(k + 1)
  }

  /** `s.find(p) ?? null`: the first element satisfying `p`. */
  function Find<T>(s: seq<T>, p: T -> bool): (r: Option<T>)
    ensures r.Some? ==> r.value in s && p(r.value)
    ensures r.Some? ==> exists k :: 0 <= k < |s| && s[k] == r.value && forall j :: 0 <= j < k ==> !p(s[j])
    ensures r.None? <==> forall k :: 0 <= k < |s| ==> !p(s[k])
  {
    match FindIndex(s, p)
    case None => None
    case Some(k) => Some(s[k])
  }

  /** `s.filter(p)`: the elements satisfying `p`, in order. */
  function Filter<T(!new)>(s: seq<T>, p: T -> bool): (r: seq<T>)
    ensures |r| <= |s|
  {
    if s == [] then []
    else Filter(s[..|s| - 1], p) + (if p(s[|s| - 1]) then [s[|s| - 1]] else [])
  }

  /** Filtering keeps exactly the elements that satisfy `p`. */
  lemma {:induction false} FilterMembers<T(!new)>(s: seq<T>, p: T -> bool)
    ensures forall x :: x in Filter(s, p) <==> x in s && p(x)
  {
    if s != [] {
      var n := |s| - 1;
      FilterMembers(s[..n], p);
      assert s == s[..n] + [s[n]];
    }
  }

  /** Filtering out the one element that fails `p` removes exactly that position. */
  lemma {:induction false} FilterOneOut<T(!new)>(s: seq<T>, p: T -> bool, i: nat)
    requires i < |s| && !p(s[i])
    requires forall k :: 0 <= k < |s| && k != i ==> p(s[k])
    ensures Filter(s, p) == s[..i] + s[i + 1..]
  {
    var n := |s| - 1;
    if i == n {
      FilterAll(s[..n], p);
    } else {
      FilterOneOut(s[..n], p, i);
      assert s[..n][..i] == s[..i];
      assert s[..i] + s[i + 1..] == s[..i] + s[i + 1..n] + [s[n]];
    }
  }

  /** `t` is `s` without position `i`: the elements before `i` stay, those after move down one. */
  lemma RemoveAt<T>(s: seq<T>, i: nat, t: seq<T>)
    requires i < |s| && t == s[..i] + s[i + 1..]
    ensures |t| == |s| - 1
    ensures forall k :: 0 <= k < i ==> t[k] == s[k]
    ensures forall k :: i <= k < |t| ==> t[k] == s[k + 1]
    ensures forall x :: x in t ==> x in s
  {
  }

  /** Filtering with a predicate every element meets changes nothing. */
  lemma {:induction false} FilterAll<T(!new)>(s: seq<T>, p: T -> bool)
    requires forall k :: 0 <= k < |s| ==> p(s[k])
    ensures Filter(s, p) == s
  {
    if s != [] {
      FilterAll(s[..|s| - 1], p);
    }
  }

  /** Every two elements, in order, are related by `R`. */
  ghost predicate Pairwise<T>(s: seq<T>, R: (T, T) -> bool) {
    forall a, b :: 0 <= a < b < |s| ==> R(s[a], s[b])
  }

  lemma PairwiseAppend<T>(s: seq<T>, x: T, R: (T, T) -> bool)
    requires Pairwise(s, R)
    requires forall k :: 0 <= k < |s| ==> R(s[k], x)
    ensures Pairwise(s + [x], R)
  {
  }

  lemma PairwiseReplace<T>(s: seq<T>, i: nat, x: T, R: (T, T) -> bool)
    requires Pairwise(s, R) && i < |s|
    requires forall k :: 0 <= k < i ==> R(s[k], x)
    requires forall k :: i < k < |s| ==> R(x, s[k])
    ensures Pairwise(s[i := x], R)
  {
  }

  lemma PairwiseRemove<T>(s: seq<T>, i: nat, R: (T, T) -> bool)
    requires Pairwise(s, R) && i < |s|
    ensures Pairwise(s[..i] + s[i + 1..], R)
  {
    var t := s[..i] + s[i + 1..];
    forall a, b | 0 <= a < b < |t| ensures R(t[a], t[b]) {
      var a' := if a < i then a else a + 1;
      var b' := if b < i then b else b + 1;
      assert t[a] == s[a'] && t[b] == s[b'];
    }
  }

  /** With distinct keys, at most one element has a given key. */
  lemma PairwiseKeyUnique<T, K>(s: seq<T>, R: (T, T) -> bool, key: T -> K, i: nat, j: nat)
    requires Pairwise(s, R)
    requires forall x, y :: R(x, y) ==> key(x) != key(y)
    requires i < |s| && j < |s| && key(s[i]) == key(s[j])
    ensures i == j
  {
  }
}
