/** Searching and filtering sequences by a predicate. */
module Seqs {
  import opened Wrappers

  /** The index of the first element of `s` that satisfies `p`, if there is one. */
  function FirstWhere<T>(s: seq<T>, p: T -> bool): (r: Option<nat>)
    ensures r.None? <==> forall i :: 0 <= i < |s| ==> !p(s[i])
    ensures r.Some? ==> r.value < |s| && p(s[r.value])
    ensures r.Some? ==> forall i :: 0 <= i < r.value ==> !p(s[i])
  {
    if s == [] then None
    else if p(s[0]) then Some(0)
    else
      match FirstWhere(s[1..], p)
      case None => None
      case Some(k) => Some(k + 1)
  }

  /** An element that satisfies `p` with none before it is the one `FirstWhere` finds. */
  lemma FirstWhereIs<T>(s: seq<T>, p: T -> bool, k: nat)
    requires k < |s| && p(s[k])
    requires forall i :: 0 <= i < k ==> !p(s[i])
    ensures FirstWhere(s, p) == Some(k)
  {
  }

  /** `f` applied to every element of `s`, in order. */
  function Map<T, U>(s: seq<T>, f: T -> U): (r: seq<U>)
    ensures |r| == |s|
    ensures forall i :: 0 <= i < |s| ==> r[i] == f(s[i])
  {
    if s == [] then [] else Map(s[..|s| - 1], f) + [f(s[|s| - 1])]
  }

  /** Mapping one more element at the end. */
  lemma MapSnoc<T, U>(front: seq<T>, last: T, f: T -> U)
    ensures Map(front + [last], f) == Map(front, f) + [f(last)]
  {
    assert (front + [last])[..|front|] == front;
  }

  /** The elements of `s` that satisfy `keep`, in their original order. */
  function Filter<T>(s: seq<T>, keep: T -> bool): (r: seq<T>)
    ensures |r| <= |s|
    ensures forall i :: 0 <= i < |r| ==> r[i] in s && keep(r[i])
    ensures forall i :: 0 <= i < |s| && keep(s[i]) ==> s[i] in r
  {
    if s == [] then []
    else
      var last := s[|s| - 1];
      Filter(s[..|s| - 1], keep) + (if keep(last) then [last] else [])
  }

  /** Filtering one more element at the end. */
  lemma FilterSnoc<T>(front: seq<T>, last: T, keep: T -> bool)
    ensures Filter(front + [last], keep) == Filter(front, keep) + (if keep(last) then [last] else [])
  {
    assert (front + [last])[..|front|] == front;
  }

  /** A sequence all of whose elements are kept is its own filter. */
  lemma {:induction false} FilterKeepsAll<T>(s: seq<T>, keep: T -> bool)
    requires forall i :: 0 <= i < |s| ==> keep(s[i])
    ensures Filter(s, keep) == s
  {
    if s != [] {
      FilterKeepsAll(s[..|s| - 1], keep);
    }
  }

  /** A sequence with exactly one rejected element loses that element and nothing else. */
  lemma {:induction false} FilterDropsOne<T>(s: seq<T>, k: nat, keep: T -> bool)
    requires k < |s| && !keep(s[k])
    requires forall m :: 0 <= m < |s| && m != k ==> keep(s[m])
    ensures Filter(s, keep) == s[..k] + s[k + 1..]
  {
    var front, last := s[..|s| - 1], s[|s| - 1];
    assert s == front + [last];
    FilterSnoc(front, last, keep);
    if k == |s| - 1 {
      FilterKeepsAll(front, keep);
    } else {
      FilterDropsOne(front, k, keep);
      assert s[..k] + s[k + 1..] == front[..k] + front[k + 1..] + [last];
    }
  }
}
