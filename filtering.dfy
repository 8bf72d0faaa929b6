/**
 * JavaScript's `Array.prototype.filter` on sequences, as both frontend
 * helpers use it: the elements that pass the test, in their original order
 * and with their original multiplicities.
 */
module Filtering {
  /** `s.filter(p)`. */
  function Filter<T(==)>(s: seq<T>, p: T -> bool): (r: seq<T>)
    ensures |r| <= |s|
    ensures forall i :: 0 <= i < |r| ==> r[i] in s && p(r[i])
    ensures forall i :: 0 <= i < |s| && p(s[i]) ==> s[i] in r
  {
    if s == [] then []
    else (if p(s[0]) then [s[0]] else []) + Filter(s[1..], p)
  }

  /** `r` is `s` with some elements removed and the rest kept in order. */
  predicate IsSubsequence<T(==)>(r: seq<T>, s: seq<T>)
    decreases |s|
  {
    if r == [] then true
    else if s == [] then false
    else if r[0] == s[0] then IsSubsequence(r[1..], s[1..])
    else IsSubsequence(r, s[1..])
  }

  /** No element occurs twice. */
  predicate Distinct<T(==)>(s: seq<T>)
  {
    forall i, j :: 0 <= i < j < |s| ==> s[i] != s[j]
  }

  /** The filtered sequence keeps the order of the original. */
  lemma {:induction false} FilterIsSubsequence<T>(s: seq<T>, p: T -> bool)
    ensures IsSubsequence(Filter(s, p), s)
    decreases |s|
  {
    if s != [] {
      var rest := Filter(s[1..], p);
      FilterIsSubsequence(s[1..], p);
      if !p(s[0]) {
        assert Filter(s, p) == rest;
        if rest != [] {
          assert p(rest[0]);
        }
      }
    }
  }

  /** Each element passing the test occurs as often as in the original; the others do not occur. */
  lemma {:induction false} FilterCounts<T>(s: seq<T>, p: T -> bool, x: T)
    ensures multiset(Filter(s, p))[x] == if p(x) then multiset(s)[x] else 0
    decreases |s|
  {
    if s != [] {
      FilterCounts(s[1..], p, x);
      assert s == [s[0]] + s[1..];
    }
  }

  /** When every element passes, nothing is removed. */
  lemma {:induction false} FilterKeepsAll<T>(s: seq<T>, p: T -> bool)
    requires forall x :: x in s ==> p(x)
    ensures Filter(s, p) == s
    decreases |s|
  {
    if s != [] {
      FilterKeepsAll(s[1..], p);
      assert s == [s[0]] + s[1..];
    }
  }

  /** An appended element that fails the test is dropped again. */
  lemma {:induction false} FilterDropsLast<T>(s: seq<T>, x: T, p: T -> bool)
    requires !p(x) && forall y :: y in s ==> p(y)
    ensures Filter(s + [x], p) == s
    decreases |s|
  {
    if s == [] {
      assert Filter([x], p) == [] + Filter([], p);
    } else {
      assert (s + [x])[1..] == s[1..] + [x];
      FilterDropsLast(s[1..], x, p);
      assert s == [s[0]] + s[1..];
    }
  }

  /** Filtering keeps a sequence free of repeats. */
  lemma {:induction false} FilterDistinct<T>(s: seq<T>, p: T -> bool)
    requires Distinct(s)
    ensures Distinct(Filter(s, p))
    decreases |s|
  {
    if s != [] {
      assert Distinct(s[1..]) by {
        forall i, j | 0 <= i < j < |s[1..]|
          ensures s[1..][i] != s[1..][j]
        {
          assert s[1..][i] == s[i + 1] && s[1..][j] == s[j + 1];
        }
      }
      FilterDistinct(s[1..], p);
      if p(s[0]) {
        assert s[0] !in s[1..] by {
          forall j | 0 <= j < |s[1..]|
            ensures s[1..][j] != s[0]
          {
            assert s[1..][j] == s[j + 1];
          }
        }
        ConsDistinct(s[0], Filter(s[1..], p));
      }
    }
  }

  lemma ConsDistinct<T>(x: T, s: seq<T>)
    requires Distinct(s) && x !in s
    ensures Distinct([x] + s)
  {
    var t := [x] + s;
    forall i, j | 0 <= i < j < |t|
      ensures t[i] != t[j]
    {
      assert t[j] == s[j - 1];
      if i > 0 {
        assert t[i] == s[i - 1];
      }
    }
  }

  lemma SnocDistinct<T>(s: seq<T>, x: T)
    requires Distinct(s) && x !in s
    ensures Distinct(s + [x])
  {
    var t := s + [x];
    forall i, j | 0 <= i < j < |t|
      ensures t[i] != t[j]
    {
      assert t[i] == s[i];
      if j < |s| {
        assert t[j] == s[j];
      }
    }
  }
}
