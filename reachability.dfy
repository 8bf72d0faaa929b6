/**
 * The friendship graph as `NovaGraph::adjList` holds it (id -> friend ids)
 * and what its breadth-first searches compute: the set of users within k
 * steps of a start user, and from it the shortest path length and the BFS
 * layers.  A user missing from the map has no friends (the source's
 * `adjList[x]` reads an empty vector for it).
 */
module Reachability {
  import opened SortedSets

  type Adjacency = map<int, seq<int>>

  /** `adjList[u]`, empty for a user without an entry. */
  function Friends(adj: Adjacency, u: int): seq<int>
  {
    if u in adj then adj[u] else []
  }

  /**
   * The users one friendship away from some user of `R`, collected one
   * user of `R` at a time (`StepIntro` and `StepElim` give its meaning).
   */
  ghost function Step(adj: Adjacency, R: set<int>): set<int>
    decreases R
  {
    if R == {} then {} else
      HasElement(R);
      var x :| x in R;
      Elements(Friends(adj, x)) + Step(adj, R - {x})
  }

  lemma {:induction false} StepIntro(adj: Adjacency, R: set<int>, x: int, y: int)
    requires x in R && y in Friends(adj, x)
    ensures y in Step(adj, R)
    decreases R
  {
    HasElement(R);
    var m :| m in R && Step(adj, R) == Elements(Friends(adj, m)) + Step(adj, R - {m});
    assert y in Elements(Friends(adj, x));
    if x != m {
      StepIntro(adj, R - {m}, x, y);
    }
  }

  lemma {:induction false} StepElim(adj: Adjacency, R: set<int>, y: int)
    requires y in Step(adj, R)
    ensures exists x :: x in R && y in Friends(adj, x)
    decreases R
  {
    HasElement(R);
    var m :| m in R && Step(adj, R) == Elements(Friends(adj, m)) + Step(adj, R - {m});
    if y !in Elements(Friends(adj, m)) {
      StepElim(adj, R - {m}, y);
    }
  }

  /** The users at distance at most `k` from `s`. */
  ghost function Reach(adj: Adjacency, s: int, k: nat): set<int>
  {
    if k == 0 then {s} else Reach(adj, s, k - 1) + Step(adj, Reach(adj, s, k - 1))
  }

  /** `x` is at distance exactly `d` from `s`. */
  ghost predicate InLayer(adj: Adjacency, s: int, x: int, d: int)
  {
    d >= 0 && x in Reach(adj, s, d) && (d == 0 || x !in Reach(adj, s, d - 1))
  }

  /** A walk: each element is a friend of the one before it. */
  ghost predicate IsWalk(adj: Adjacency, p: seq<int>)
  {
    |p| >= 1 && forall i :: 0 <= i < |p| - 1 ==> p[i + 1] in Friends(adj, p[i])
  }

  lemma {:induction false} ReachMonotone(adj: Adjacency, s: int, j: nat, k: nat)
    requires j <= k
    ensures Reach(adj, s, j) <= Reach(adj, s, k)
    decreases k - j
  {
    if j < k {
      ReachMonotone(adj, s, j, k - 1);
    }
  }

  /** Every user within `k` steps is the end of a walk from `s` with at most `k` steps. */
  lemma {:induction false} ReachHasWalk(adj: Adjacency, s: int, k: nat, x: int)
    requires x in Reach(adj, s, k)
    ensures exists p :: IsWalk(adj, p) && p[0] == s && p[|p| - 1] == x && |p| <= k + 1
  {
    if k == 0 {
      assert IsWalk(adj, [s]);
    } else if x in Reach(adj, s, k - 1) {
      ReachHasWalk(adj, s, k - 1, x);
    } else {
      StepElim(adj, Reach(adj, s, k - 1), x);
      var y :| y in Reach(adj, s, k - 1) && x in Friends(adj, y);
      ReachHasWalk(adj, s, k - 1, y);
      var p :| IsWalk(adj, p) && p[0] == s && p[|p| - 1] == y && |p| <= k;
      assert IsWalk(adj, p + [x]);
    }
  }

  /** The end of a walk from `s` with `|p| - 1` steps is within `|p| - 1` steps of `s`. */
  lemma {:induction false} WalkInReach(adj: Adjacency, s: int, p: seq<int>)
    requires IsWalk(adj, p) && p[0] == s
    ensures p[|p| - 1] in Reach(adj, s, |p| - 1)
  {
    if |p| > 1 {
      var q := p[..|p| - 1];
      WalkInReach(adj, s, q);
      StepIntro(adj, Reach(adj, s, |q| - 1), q[|q| - 1], p[|p| - 1]);
    }
  }

  /** The least `k` in `from..cap` with `t` within `k` steps, or -1. */
  ghost function FirstReach(adj: Adjacency, s: int, t: int, from: nat, cap: nat): int
    decreases cap - from
  {
    if from > cap then -1
    else if t in Reach(adj, s, from) then from
    else FirstReach(adj, s, t, from + 1, cap)
  }

  /**
   * Shortest path length from `s` to `t` when it is at most `cap`, and -1
   * when `t` is farther or unreachable.
   */
  ghost function ShortestWithin(adj: Adjacency, s: int, t: int, cap: nat): (r: int)
    ensures r == -1 <==> t !in Reach(adj, s, cap)
    ensures r != -1 ==> 0 <= r <= cap && InLayer(adj, s, t, r)
  {
    FirstReachSpec(adj, s, t, 0, cap);
    FirstReach(adj, s, t, 0, cap)
  }

  lemma {:induction false} FirstReachSpec(adj: Adjacency, s: int, t: int, from: nat, cap: nat)
    requires from == 0 || t !in Reach(adj, s, from - 1)
    ensures FirstReach(adj, s, t, from, cap) == -1 <==> t !in Reach(adj, s, cap) || from > cap
    ensures FirstReach(adj, s, t, from, cap) != -1 ==>
      from <= FirstReach(adj, s, t, from, cap) <= cap && InLayer(adj, s, t, FirstReach(adj, s, t, from, cap))
    decreases cap - from
  {
    if from <= cap {
      if t !in Reach(adj, s, from) {
        FirstReachSpec(adj, s, t, from + 1, cap);
        assert FirstReach(adj, s, t, from, cap) == FirstReach(adj, s, t, from + 1, cap);
        if from < cap {
          ReachMonotone(adj, s, from, cap);
        }
      } else {
        assert FirstReach(adj, s, t, from, cap) == from;
        assert InLayer(adj, s, t, from);
        ReachMonotone(adj, s, from, cap);
      }
    }
  }

  /** The degree `getRelationDegree` promises: 0 for oneself, BFS capped at 3 otherwise. */
  ghost function Degree(adj: Adjacency, s: int, t: int): int
  {
    if s == t then 0
    else if s !in adj then -1
    else ShortestWithin(adj, s, t, 3)
  }

  /** Between two different users the degree is 1, 2, 3 or -1, and 1 exactly for friends. */
  lemma DegreeValues(adj: Adjacency, s: int, t: int)
    requires s != t
    ensures Degree(adj, s, t) in {-1, 1, 2, 3}
    ensures s in adj ==> (Degree(adj, s, t) == 1 <==> t in adj[s])
  {
    var r := Degree(adj, s, t);
    if s in adj {
      assert Reach(adj, s, 0) == {s};
      assert Reach(adj, s, 1) == {s} + Step(adj, {s});
      if t in adj[s] {
        StepIntro(adj, {s}, s, t);
        ReachMonotone(adj, s, 1, 3);
      }
      if t in Step(adj, {s}) {
        StepElim(adj, {s}, t);
      }
    }
  }

  /**
   * A positive degree is the number of steps of a shortest walk: some walk
   * of that many steps reaches `t`, and none shorter does.
   */
  lemma DegreeIsShortestWalk(adj: Adjacency, s: int, t: int, p: seq<int>)
    requires Degree(adj, s, t) > 0
    requires IsWalk(adj, p) && p[0] == s && p[|p| - 1] == t
    ensures |p| - 1 >= Degree(adj, s, t)
    ensures exists w :: IsWalk(adj, w) && w[0] == s && w[|w| - 1] == t && |w| - 1 == Degree(adj, s, t)
  {
    var d := Degree(adj, s, t);
    WalkInReach(adj, s, p);
    NotBeforeLayer(adj, s, t, d, |p| - 1);
    ReachHasWalk(adj, s, d, t);
    var w :| IsWalk(adj, w) && w[0] == s && w[|w| - 1] == t && |w| <= d + 1;
    WalkInReach(adj, s, w);
    NotBeforeLayer(adj, s, t, d, |w| - 1);
  }

  /** A user at distance `d` is not within fewer than `d` steps. */
  lemma NotBeforeLayer(adj: Adjacency, s: int, x: int, d: int, j: nat)
    requires InLayer(adj, s, x, d) && x in Reach(adj, s, j)
    ensures d <= j
  {
    if j < d {
      ReachMonotone(adj, s, j, d - 1);
    }
  }

  lemma LayersDisjoint(adj: Adjacency, s: int, x: int, d: int, e: int)
    requires InLayer(adj, s, x, d) && InLayer(adj, s, x, e)
    ensures d == e
  {
    if d < e {
      ReachMonotone(adj, s, d, e - 1);
    } else if e < d {
      ReachMonotone(adj, s, e, d - 1);
    }
  }

  /** Being in layer `k` is having shortest distance exactly `k`. */
  lemma LayerIsDistance(adj: Adjacency, s: int, x: int, k: nat)
    ensures InLayer(adj, s, x, k) <==> ShortestWithin(adj, s, x, k) == k
  {
    var r := ShortestWithin(adj, s, x, k);
    if InLayer(adj, s, x, k) && r != -1 {
      LayersDisjoint(adj, s, x, r, k);
    }
  }
}
