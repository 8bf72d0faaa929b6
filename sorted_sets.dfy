/**
 * Ascending, duplicate-free sequences of ids: the iteration order of a
 * `std::set<int>` or of the keys of a `std::map<int, _>`, and the result of
 * `sort` followed by `erase(unique(...))` on a `std::vector<int>`.
 */
module SortedSets {

  predicate StrictlyAscending(s: seq<int>)
  {
    forall i, j :: 0 <= i < j < |s| ==> s[i] < s[j]
  }

  function Elements(s: seq<int>): (r: set<int>)
    ensures forall x :: x in r <==> x in s
  {
    set x | x in s
  }

  lemma ElementsSnoc(s: seq<int>, x: int)
    ensures Elements(s + [x]) == Elements(s) + {x}
  {
    assert forall y :: y in s + [x] <==> y in s || y == x;
  }

  /** A set that is not empty has an element. */
  lemma HasElement(S: set<int>)
    ensures S == {} || exists x :: x in S
  {
    if forall x :: x !in S {
      assert S == {};
    }
  }

  lemma MinExists(S: set<int>)
    requires S != {}
    ensures exists m :: m in S && forall x :: x in S ==> m <= x
  {
    HasElement(S);
    var y :| y in S;
    if S != {y} {
      MinExists(S - {y});
      var m :| m in S - {y} && forall x :: x in S - {y} ==> m <= x;
      var least := if y < m then y else m;
      forall x | x in S
        ensures least <= x
      {
        if x != y {
          assert x in S - {y};
        }
      }
      assert least in S && forall x :: x in S ==> least <= x;
    } else {
      assert forall x :: x in S ==> x == y;
      assert y in S && forall x :: x in S ==> y <= x;
    }
  }

  /** The least element of a non-empty set. */
  function Min(S: set<int>): (m: int)
    requires S != {}
    ensures m in S && forall x :: x in S ==> m <= x
  {
    MinExists(S);
    var m :| m in S && forall x :: x in S ==> m <= x;
    m
  }

  /** The elements of `S` in ascending order, as a `std::set<int>` lists them. */
  function SortedElements(S: set<int>): (r: seq<int>)
    ensures StrictlyAscending(r)
    ensures Elements(r) == S
    decreases S
  {
    if S == {} then []
    else
      var m := Min(S);
      var rest := SortedElements(S - {m});
      ConsAscending(m, rest);
      ElementsCons(m, rest);
      [m] + rest
  }

  lemma ConsAscending(m: int, rest: seq<int>)
    requires StrictlyAscending(rest) && forall x :: x in rest ==> m < x
    ensures StrictlyAscending([m] + rest)
  {
    var r := [m] + rest;
    forall i, j | 0 <= i < j < |r|
      ensures r[i] < r[j]
    {
      assert r[j] == rest[j - 1] && rest[j - 1] in rest;
      if i > 0 {
        assert r[i] == rest[i - 1];
      }
    }
  }

  lemma ElementsCons(m: int, rest: seq<int>)
    ensures Elements([m] + rest) == {m} + Elements(rest)
  {
    assert forall x :: x in [m] + rest <==> x == m || x in rest;
  }

  /** The head of an ascending sequence is its least element. */
  lemma HeadIsLeast(a: seq<int>, x: int)
    requires StrictlyAscending(a) && a != [] && x in a
    ensures a[0] <= x
  {
    var i :| 0 <= i < |a| && a[i] == x;
    if i > 0 {
      assert a[0] < a[i];
    }
  }

  /** Two ascending, duplicate-free sequences with the same elements are equal. */
  lemma {:induction false} AscendingUnique(a: seq<int>, b: seq<int>)
    requires StrictlyAscending(a) && StrictlyAscending(b)
    requires Elements(a) == Elements(b)
    ensures a == b
    decreases |a|
  {
    if a != [] {
      assert a[0] in Elements(a);
    }
    if b != [] {
      assert b[0] in Elements(b);
    }
    if a != [] && b != [] {
      HeadIsLeast(a, b[0]);
      HeadIsLeast(b, a[0]);
      assert Elements(a[1..]) == Elements(b[1..]) by {
        forall x
          ensures x in a[1..] <==> x in b[1..]
        {
          if x in a[1..] {
            var i :| 1 <= i < |a| && a[i] == x;
            assert x != a[0] && x in b;
          }
          if x in b[1..] {
            var i :| 1 <= i < |b| && b[i] == x;
            assert x != b[0] && x in a;
          }
        }
      }
      AscendingUnique(a[1..], b[1..]);
    }
  }

  /** The sorted set of a sequence's elements is the only ascending listing of them. */
  lemma SortedElementsUnique(r: seq<int>)
    requires StrictlyAscending(r)
    ensures r == SortedElements(Elements(r))
  {
    AscendingUnique(r, SortedElements(Elements(r)));
  }
}
