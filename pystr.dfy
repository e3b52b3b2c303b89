/** The parts of Python's `str` that the scraper relies on, over `seq<char>`. */
module PyStr {

  /** `sub` occurs in `s` starting at index `i`. */
  predicate OccursAt(s: string, sub: string, i: int) {
    0 <= i && i + |sub| <= |s| && s[i..i + |sub|] == sub
  }

  /** Python's `sub in s`. */
  predicate Contains(s: string, sub: string) {
    exists i :: 0 <= i <= |s| - |sub| && OccursAt(s, sub, i)
  }

  /** Python's `s.find(sub, start)` for a non-negative `start`: the first index at or
      after `start` where `sub` occurs, or -1. A `start` beyond the end finds nothing. */
  function Find(s: string, sub: string, start: nat): (r: int)
    ensures r == -1 <==> forall i :: start <= i ==> !OccursAt(s, sub, i)
    ensures r != -1 ==> start <= r && OccursAt(s, sub, r)
    ensures r != -1 ==> forall i :: start <= i < r ==> !OccursAt(s, sub, i)
    decreases |s| - start
  {
    if start + |sub| > |s| then -1
    else if s[start..start + |sub|] == sub then assert OccursAt(s, sub, start); start
    else Find(s, sub, start + 1)
  }

  /** `sub in s` is the same test as `s.find(sub) != -1`. */
  lemma FindFromStartIsContains(s: string, sub: string)
    ensures Find(s, sub, 0) != -1 <==> Contains(s, sub)
  {
    var r := Find(s, sub, 0);
    if r != -1 {
      assert OccursAt(s, sub, r);
    }
  }

  /** An occurrence with none before it is what `find` returns. */
  lemma FindIsFirst(s: string, sub: string, k: nat)
    requires OccursAt(s, sub, k)
    requires forall i :: 0 <= i < k ==> !OccursAt(s, sub, i)
    ensures Find(s, sub, 0) == k
  {
  }

  /** An occurrence inside a slice is an occurrence in the whole, shifted by the slice start. */
  lemma OccursInSlice(s: string, sub: string, lo: nat, hi: nat, j: int)
    requires lo <= hi <= |s|
    ensures OccursAt(s[lo..hi], sub, j) ==> OccursAt(s, sub, lo + j)
  {
    if OccursAt(s[lo..hi], sub, j) {
      forall k | 0 <= k < |sub|
        ensures s[lo + j..lo + j + |sub|][k] == sub[k]
      {
        assert s[lo..hi][j..j + |sub|][k] == s[lo..hi][j + k] == s[lo + j + k];
      }
    }
  }

  /** A slice that begins at an occurrence of `sub` and reaches past it starts with `sub`. */
  lemma SliceStartsWith(s: string, sub: string, lo: nat, hi: nat)
    requires OccursAt(s, sub, lo) && lo + |sub| <= hi <= |s|
    ensures sub <= s[lo..hi]
  {
    assert s[lo..hi][..|sub|] == s[lo..lo + |sub|];
  }

  /** A slice that ends with an occurrence of `sub` ends with `sub`. */
  lemma SliceEndsWith(s: string, sub: string, lo: nat, e: nat)
    requires OccursAt(s, sub, e) && lo <= e
    ensures var r := s[lo..e + |sub|]; r[|r| - |sub|..] == sub
  {
    assert s[lo..e + |sub|][e - lo..] == s[e..e + |sub|];
  }

  /** Cut just after the first occurrence found from `lo`, the slice from `lo` holds that
      occurrence as its own first one. */
  lemma SliceFindsFirst(s: string, sub: string, lo: nat, e: nat)
    requires e == Find(s, sub, lo)
    ensures Find(s[lo..e + |sub|], sub, 0) == e - lo
  {
    var r := s[lo..e + |sub|];
    assert r[e - lo..] == s[e..e + |sub|];
    forall j | 0 <= j < e - lo
      ensures !OccursAt(r, sub, j)
    {
      OccursInSlice(s, sub, lo, e + |sub|, j);
    }
    FindIsFirst(r, sub, e - lo);
  }

  /** How Python clamps one bound of a slice of a sequence of length `n`. */
  function SliceBound(i: int, n: nat): (b: nat)
    ensures b <= n
    ensures 0 <= i <= n ==> b == i
  {
    if i < 0 then (if i + n < 0 then 0 else i + n)
    else if i > n then n
    else i
  }

  /** Python's `s[lo:hi]`: both bounds clamped, empty when the start is not before the end. */
  function Slice(s: string, lo: int, hi: int): (r: string)
    ensures 0 <= lo <= hi <= |s| ==> r == s[lo..hi]
    ensures 0 <= hi <= lo ==> r == ""
    ensures |r| <= |s|
  {
    var a := SliceBound(lo, |s|);
    var b := SliceBound(hi, |s|);
    if a < b then s[a..b] else ""
  }
}
