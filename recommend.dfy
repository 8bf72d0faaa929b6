/**
 * What `NovaGraph::getRecommendationsJSON` computes: for each friend of the
 * user, each entry of that friend's list that is neither the user nor
 * already a friend is counted once; the candidates are then ordered by
 * count, highest first.
 */
module Recommendations {
  import opened SortedSets
  import opened Reachability
  import opened Friendships

  /** How many times `x` occurs in `s`. */
  function Occurrences(x: int, s: seq<int>): (n: nat)
    ensures n > 0 <==> x in s
    ensures n <= |s|
  {
    if s == [] then 0
    else Occurrences(x, s[..|s| - 1]) + (if s[|s| - 1] == x then 1 else 0)
  }

  /**
   * How often `c` turns up in the friend lists of the users `fs`, entry by
   * entry, as the nested loop counts it.
   */
  function MutualCount(adj: Adjacency, fs: seq<int>, c: int): (n: nat)
    ensures n > 0 <==> exists f :: f in fs && c in Friends(adj, f)
  {
    if fs == [] then 0
    else
      var n := MutualCount(adj, fs[..|fs| - 1], c) + Occurrences(c, Friends(adj, fs[|fs| - 1]));
      assert forall f :: f in fs <==> f in fs[..|fs| - 1] || f == fs[|fs| - 1];
      n
  }

  /** The user and the user's friends are never recommended. */
  function Excluded(adj: Adjacency, u: int): (r: set<int>)
    ensures forall x :: x in r <==> x == u || x in Friends(adj, u)
  {
    Elements(Friends(adj, u)) + {u}
  }

  /** A recommendation: a user that some friend lists and that is not excluded. */
  ghost predicate IsCandidate(adj: Adjacency, u: int, c: int)
  {
    c !in Excluded(adj, u) && MutualCount(adj, Friends(adj, u), c) > 0
  }

  /** The friends of `fs` whose lists contain `c`, in order. */
  function Mutuals(adj: Adjacency, fs: seq<int>, c: int): (r: seq<int>)
    ensures forall f :: f in r <==> f in fs && c in Friends(adj, f)
  {
    if fs == [] then []
    else
      var last := fs[|fs| - 1];
      var r := Mutuals(adj, fs[..|fs| - 1], c) + (if c in Friends(adj, last) then [last] else []);
      assert forall f :: f in fs <==> f in fs[..|fs| - 1] || f == last;
      r
  }

  /** In a list without repeats an entry occurs once or not at all. */
  lemma {:induction false} OccurrencesOnce(x: int, s: seq<int>)
    requires NoDuplicates(s)
    ensures Occurrences(x, s) == if x in s then 1 else 0
  {
    if s != [] {
      var init := s[..|s| - 1];
      assert NoDuplicates(init) by {
        forall i, j | 0 <= i < j < |init|
          ensures init[i] != init[j]
        {
          assert init[i] == s[i] && init[j] == s[j];
        }
      }
      OccurrencesOnce(x, init);
      if x == s[|s| - 1] {
        forall i | 0 <= i < |init|
          ensures init[i] != x
        {
          assert init[i] == s[i];
        }
      }
    }
  }

  /**
   * One round of the outer counting loop: adding the counts of the next
   * friend's list to the counts over the friends before it gives the counts
   * over both.
   */
  lemma CountStep(adj: Adjacency, fs: seq<int>, i: nat, existing: set<int>, freq: map<int, int>, freq': map<int, int>)
    requires i < |fs|
    requires forall c :: c in freq <==> c !in existing && MutualCount(adj, fs[..i], c) > 0
    requires forall c :: c in freq ==> freq[c] == MutualCount(adj, fs[..i], c)
    requires forall c :: c in freq' <==> c in freq || (c !in existing && c in Friends(adj, fs[i]))
    requires forall c :: c in freq' ==> c !in existing && freq'[c] == (if c in freq then freq[c] else 0) + Occurrences(c, Friends(adj, fs[i]))
    ensures forall c :: c in freq' <==> c !in existing && MutualCount(adj, fs[..i + 1], c) > 0
    ensures forall c :: c in freq' ==> freq'[c] == MutualCount(adj, fs[..i + 1], c)
  {
    assert fs[..i + 1][..i] == fs[..i];
    forall c
      ensures c in freq' <==> c !in existing && MutualCount(adj, fs[..i + 1], c) > 0
      ensures c in freq' ==> freq'[c] == MutualCount(adj, fs[..i + 1], c)
    {
      var here := Occurrences(c, Friends(adj, fs[i]));
      assert MutualCount(adj, fs[..i + 1], c) == MutualCount(adj, fs[..i], c) + here;
      assert here > 0 <==> c in Friends(adj, fs[i]);
    }
  }

  /**
   * On a graph without repeated friends the count is the number of friends
   * in `fs` that list `c`; on a symmetric graph those are exactly the
   * friends `fs` shares with `c`.
   */
  lemma {:induction false} MutualCountIsMutuals(adj: Adjacency, fs: seq<int>, c: int)
    requires Simple(adj)
    ensures MutualCount(adj, fs, c) == |Mutuals(adj, fs, c)|
  {
    if fs != [] {
      var last := fs[|fs| - 1];
      MutualCountIsMutuals(adj, fs[..|fs| - 1], c);
      assert NoDuplicates(Friends(adj, last));
      OccurrencesOnce(c, Friends(adj, last));
    }
  }

  lemma MutualsAreCommonFriends(adj: Adjacency, u: int, c: int)
    requires Symmetric(adj)
    ensures forall f :: f in Mutuals(adj, Friends(adj, u), c) <==> f in Friends(adj, u) && f in Friends(adj, c)
  {
  }

  /** A (candidate id, count) pair. */
  type Entry = (int, int)

  predicate ByCountDescending(s: seq<Entry>)
  {
    forall i, j :: 0 <= i < j < |s| ==> s[i].1 >= s[j].1
  }

  /** `e` placed before the first entry with a smaller count. */
  function InsertByCount(e: Entry, s: seq<Entry>): (r: seq<Entry>)
    requires ByCountDescending(s)
    ensures ByCountDescending(r)
    ensures multiset(r) == multiset(s) + multiset{e}
    ensures forall x :: x in r ==> x == e || x in s
  {
    if s == [] then [e]
    else if e.1 >= s[0].1 then
      assert forall i :: 0 <= i < |s| ==> e.1 >= s[i].1 by {
        forall i | 0 <= i < |s|
          ensures e.1 >= s[i].1
        {
          if i > 0 {
            assert s[0].1 >= s[i].1;
          }
        }
      }
      [e] + s
    else
      var t := InsertByCount(e, s[1..]);
      assert s == [s[0]] + s[1..];
      assert forall x :: x in t ==> s[0].1 >= x.1 by {
        forall x | x in t
          ensures s[0].1 >= x.1
        {
          if x != e {
            var i :| 0 <= i < |s[1..]| && s[1..][i] == x;
            assert s[0].1 >= s[i + 1].1;
          }
        }
      }
      ConsByCount(s[0], t);
      [s[0]] + t
  }

  lemma ConsByCount(e: Entry, t: seq<Entry>)
    requires ByCountDescending(t) && forall x :: x in t ==> e.1 >= x.1
    ensures ByCountDescending([e] + t)
  {
    var r := [e] + t;
    forall i, j | 0 <= i < j < |r|
      ensures r[i].1 >= r[j].1
    {
      assert r[j] == t[j - 1] && t[j - 1] in t;
      if i > 0 {
        assert r[i] == t[i - 1];
      }
    }
  }

  /**
   * `std::sort` with the comparator `a.second > b.second`: some ordering of
   * the entries by count, highest first (the order among equal counts is
   * not specified by `std::sort`; this is one of the allowed ones).
   */
  function SortByCount(s: seq<Entry>): (r: seq<Entry>)
    ensures ByCountDescending(r)
    ensures multiset(r) == multiset(s)
  {
    if s == [] then []
    else
      var r := InsertByCount(s[0], SortByCount(s[1..]));
      assert s == [s[0]] + s[1..];
      r
  }

  /** No id is listed twice. */
  predicate DistinctIds(s: seq<Entry>)
  {
    forall i, j :: 0 <= i < j < |s| ==> s[i].0 != s[j].0
  }

  lemma {:induction false} InsertDistinct(e: Entry, s: seq<Entry>)
    requires ByCountDescending(s) && DistinctIds(s)
    requires forall x :: x in s ==> x.0 != e.0
    ensures DistinctIds(InsertByCount(e, s))
  {
    if s != [] && e.1 < s[0].1 {
      var rest := s[1..];
      assert forall x :: x in rest ==> x in s;
      assert DistinctIds(rest) by {
        forall i, j | 0 <= i < j < |rest|
          ensures rest[i].0 != rest[j].0
        {
          assert rest[i] == s[i + 1] && rest[j] == s[j + 1];
        }
      }
      assert ByCountDescending(rest) by {
        forall i, j | 0 <= i < j < |rest|
          ensures rest[i].1 >= rest[j].1
        {
          assert rest[i] == s[i + 1] && rest[j] == s[j + 1];
        }
      }
      InsertDistinct(e, rest);
      var t := InsertByCount(e, rest);
      assert forall x :: x in rest ==> x.0 != s[0].0 by {
        forall x | x in rest
          ensures x.0 != s[0].0
        {
          var k :| 0 <= k < |rest| && rest[k] == x;
          assert s[k + 1] == x;
        }
      }
      ConsDistinct(s[0], t);
    } else if s != [] {
      ConsDistinct(e, s);
    }
  }

  lemma ConsDistinct(e: Entry, t: seq<Entry>)
    requires DistinctIds(t) && forall x :: x in t ==> x.0 != e.0
    ensures DistinctIds([e] + t)
  {
    var r := [e] + t;
    forall i, j | 0 <= i < j < |r|
      ensures r[i].0 != r[j].0
    {
      assert r[j] == t[j - 1] && t[j - 1] in t;
      if i > 0 {
        assert r[i] == t[i - 1];
      }
    }
  }

  /** Sorting by count keeps the ids distinct. */
  lemma {:induction false} SortDistinct(s: seq<Entry>)
    requires DistinctIds(s)
    ensures DistinctIds(SortByCount(s))
  {
    if s != [] {
      var rest := s[1..];
      assert DistinctIds(rest) by {
        forall i, j | 0 <= i < j < |rest|
          ensures rest[i].0 != rest[j].0
        {
          assert rest[i] == s[i + 1] && rest[j] == s[j + 1];
        }
      }
      SortDistinct(rest);
      var t := SortByCount(rest);
      forall x | x in t
        ensures x.0 != s[0].0
      {
        assert x in multiset(rest);
        var k :| 0 <= k < |rest| && rest[k] == x;
        assert s[k + 1] == x;
      }
      InsertDistinct(s[0], t);
    }
  }

  /**
   * The inner counting loop: every entry of `nbrs` outside `excluded` adds
   * one to its count (a missing count starts at 0, as `operator[]` on the
   * frequency map gives).
   */
  method Tally(nbrs: seq<int>, excluded: set<int>, freq: map<int, int>) returns (freq': map<int, int>)
    requires forall c :: c in freq ==> c !in excluded
    ensures forall c :: c in freq' <==> c in freq || (c !in excluded && c in nbrs)
    ensures forall c :: c in freq' ==> c !in excluded && freq'[c] == (if c in freq then freq[c] else 0) + Occurrences(c, nbrs)
  {
    freq' := freq;
    for j := 0 to |nbrs|
      invariant forall c :: c in freq' <==> c in freq || (c !in excluded && c in nbrs[..j])
      invariant forall c :: c in freq' ==> c !in excluded && freq'[c] == (if c in freq then freq[c] else 0) + Occurrences(c, nbrs[..j])
    {
      var c := nbrs[j];
      assert nbrs[..j + 1][..j] == nbrs[..j];
      assert nbrs[..j + 1] == nbrs[..j] + [c];
      if c !in excluded {
        freq' := freq'[c := (if c in freq' then freq'[c] else 0) + 1];
      }
    }
    assert nbrs[..|nbrs|] == nbrs;
  }

  /** The (id, count) pairs of the frequency map, in the map's ascending key order. */
  method Candidates(freq: map<int, int>) returns (cands: seq<Entry>)
    ensures forall i, j :: 0 <= i < j < |cands| ==> cands[i].0 < cands[j].0
    ensures forall e :: e in cands <==> e.0 in freq && e.1 == freq[e.0]
  {
    var keys := SortedElements(freq.Keys);
    cands := [];
    for i := 0 to |keys|
      invariant |cands| == i
      invariant forall k :: 0 <= k < i ==> cands[k] == (keys[k], freq[keys[k]])
    {
      cands := cands + [(keys[i], freq[keys[i]])];
    }
    forall e: Entry | e.0 in freq && e.1 == freq[e.0]
      ensures e in cands
    {
      var k :| 0 <= k < |keys| && keys[k] == e.0;
      assert cands[k] == e;
    }
  }

  /**
   * The candidate list of the frequency map, sorted by count: each id once,
   * with its count, highest count first.
   */
  method Rank(freq: map<int, int>) returns (ranked: seq<Entry>)
    ensures ByCountDescending(ranked) && DistinctIds(ranked)
    ensures forall i :: 0 <= i < |ranked| ==> ranked[i].0 in freq && ranked[i].1 == freq[ranked[i].0]
    ensures forall c :: c in freq ==> exists i :: 0 <= i < |ranked| && ranked[i].0 == c
  {
    var candidates := Candidates(freq);
    ranked := SortByCount(candidates);
    SortDistinct(candidates);
    forall i | 0 <= i < |ranked|
      ensures ranked[i].0 in freq && ranked[i].1 == freq[ranked[i].0]
    {
      assert ranked[i] in multiset(candidates);
    }
    forall c | c in freq
      ensures exists i :: 0 <= i < |ranked| && ranked[i].0 == c
    {
      assert (c, freq[c]) in multiset(ranked);
      var i :| 0 <= i < |ranked| && ranked[i] == (c, freq[c]);
    }
  }
}
