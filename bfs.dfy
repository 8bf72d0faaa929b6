/**
 * The breadth-first search shared by `NovaGraph::getRelationDegree` and
 * `NovaGraph::getConnectionsByDegreeJSON`: a FIFO queue of (user, depth)
 * pairs and a `visited` set; a popped user at depth below the cap has its
 * unvisited friends marked and queued at depth + 1.
 *
 * `BfsInv` is the loop invariant of both searches; the lemmas below show
 * that one pop (with or without expansion) preserves it, and what it says
 * once the queue is empty.
 */
module Bfs {
  import opened SortedSets
  import opened Reachability

  type Queue = seq<(int, int)>

  /** The users waiting in the queue. */
  function QNodes(q: Queue): (r: set<int>)
    ensures forall i :: 0 <= i < |q| ==> q[i].0 in r
    ensures forall x :: x in r ==> exists i :: 0 <= i < |q| && q[i].0 == x
  {
    set i | 0 <= i < |q| :: q[i].0
  }

  /** Every friend of a finished user closer than `cap` has been visited. */
  ghost predicate Closed(adj: Adjacency, s: int, cap: nat, done: set<int>, visited: set<int>)
  {
    forall x :: x in done && cap >= 1 && x in Reach(adj, s, cap - 1) ==> Elements(Friends(adj, x)) <= visited
  }

  /** Queue depths run from `level` to `level + 1`, never above `cap`, in order. */
  ghost predicate QueueShape(q: Queue, level: nat, cap: nat)
  {
    && (forall i :: 0 <= i < |q| ==> level <= q[i].1 <= level + 1 && q[i].1 <= cap)
    && (forall i, j :: 0 <= i < j < |q| ==> q[i].1 <= q[j].1)
  }

  /**
   * A queue entry at depth `level` or `level + 1` holds a user at exactly
   * that distance (stated per depth, so that only the two layers at hand
   * are mentioned).
   */
  ghost predicate AtDepth(adj: Adjacency, s: int, level: nat, e: (int, int))
  {
    if e.1 == level then InLayer(adj, s, e.0, level) else InLayer(adj, s, e.0, level + 1)
  }

  /** Each queued user sits at its exact distance, and no user is queued twice. */
  ghost predicate QueueLayers(adj: Adjacency, s: int, q: Queue, level: nat)
  {
    && (forall i :: 0 <= i < |q| ==> AtDepth(adj, s, level, q[i]))
    && (forall i, j :: 0 <= i < j < |q| ==> q[i].0 != q[j].0)
  }

  /** The head of the queue is at its exact distance. */
  lemma HeadInLayer(adj: Adjacency, s: int, cap: nat, q: Queue, level: nat)
    requires QueueShape(q, level, cap) && QueueLayers(adj, s, q, level) && q != []
    ensures InLayer(adj, s, q[0].0, q[0].1)
  {
    assert AtDepth(adj, s, level, q[0]);
  }

  /**
   * The loop invariant of both searches: the queue is in shape; `visited`
   * is the finished users (`done`) plus the queued ones; every user closer
   * than `level` is finished; finished users closer than the cap have all
   * their friends visited.
   */
  ghost predicate BfsInv(adj: Adjacency, s: int, cap: nat, q: Queue, visited: set<int>, done: set<int>, level: nat)
  {
    && QueueShape(q, level, cap)
    && QueueLayers(adj, s, q, level)
    && Bookkept(q, visited, done)
    && Progress(adj, s, cap, visited, done, level)
  }

  /** `visited` is the finished users plus the queued ones, and no queued user is finished. */
  ghost predicate Bookkept(q: Queue, visited: set<int>, done: set<int>)
  {
    visited == done + QNodes(q) && done !! QNodes(q)
  }

  /** The search has finished everything below `level` and stays within the cap. */
  ghost predicate Progress(adj: Adjacency, s: int, cap: nat, visited: set<int>, done: set<int>, level: nat)
  {
    && done <= Reach(adj, s, cap)
    && level <= cap
    && (level >= 1 ==> Reach(adj, s, level - 1) <= done)
    && s in visited
    && Closed(adj, s, cap, done, visited)
  }

  lemma BfsInvInit(adj: Adjacency, s: int, cap: nat)
    ensures BfsInv(adj, s, cap, [(s, 0)], {s}, {}, 0)
  {
    var q := [(s, 0)];
    assert q[0].0 == s;
    assert QNodes(q) == {s};
    assert Reach(adj, s, 0) == {s};
  }

  lemma QNodesTail(q: Queue)
    requires q != []
    requires forall i, j :: 0 <= i < j < |q| ==> q[i].0 != q[j].0
    ensures QNodes(q) == QNodes(q[1..]) + {q[0].0}
    ensures q[0].0 !in QNodes(q[1..])
  {
    var t := q[1..];
    forall i | 0 <= i < |t|
      ensures t[i].0 != q[0].0
    {
      assert t[i] == q[i + 1];
    }
    forall x | x in QNodes(q)
      ensures x in QNodes(t) + {q[0].0}
    {
      var i :| 0 <= i < |q| && q[i].0 == x;
      if i > 0 {
        assert t[i - 1] == q[i];
      }
    }
  }

  lemma QNodesAppend(q: Queue, e: (int, int))
    ensures QNodes(q + [e]) == QNodes(q) + {e.0}
  {
    var q' := q + [e];
    assert q'[|q|] == e;
    forall x | x in QNodes(q')
      ensures x in QNodes(q) + {e.0}
    {
      var i :| 0 <= i < |q'| && q'[i].0 == x;
      if i < |q| {
        assert q'[i] == q[i];
      }
    }
    forall i | 0 <= i < |q|
      ensures q'[i] == q[i]
    {
    }
  }

  /** Users closer than the level of the queue's head are finished. */
  lemma HeadLevelFinished(adj: Adjacency, s: int, cap: nat, q: Queue, visited: set<int>, done: set<int>, level: nat)
    requires BfsInv(adj, s, cap, q, visited, done, level)
    requires q != []
    ensures q[0].1 >= 1 ==> Reach(adj, s, q[0].1 - 1) <= done
  {
    if q[0].1 == level + 1 {
      VisitedCoversLevel(adj, s, cap, done, visited, level);
      QueueBeyondLevel(adj, s, q, level);
      FinishedOutsideQueue(Reach(adj, s, level), q, visited, done);
    }
  }

  /** When the head is at `level + 1`, no queued user is within `level` steps. */
  lemma QueueBeyondLevel(adj: Adjacency, s: int, q: Queue, level: nat)
    requires q != [] && q[0].1 == level + 1
    requires forall i :: 0 <= i < |q| ==> AtDepth(adj, s, level, q[i])
    requires forall i, j :: 0 <= i < j < |q| ==> q[i].1 <= q[j].1
    ensures forall i :: 0 <= i < |q| ==> q[i].0 !in Reach(adj, s, level)
  {
    forall i | 0 <= i < |q|
      ensures q[i].0 !in Reach(adj, s, level)
    {
      assert q[0].1 <= q[i].1;
      assert AtDepth(adj, s, level, q[i]);
    }
  }

  /** Visited users that are not queued are finished. */
  lemma FinishedOutsideQueue(S: set<int>, q: Queue, visited: set<int>, done: set<int>)
    requires forall i :: 0 <= i < |q| ==> q[i].0 !in S
    requires Bookkept(q, visited, done)
    requires S <= visited
    ensures S <= done
  {
  }

  /** Everything within `k` steps is visited, when everything closer is finished. */
  lemma VisitedCoversLevel(adj: Adjacency, s: int, cap: nat, done: set<int>, visited: set<int>, k: nat)
    requires k <= cap
    requires s in visited && done <= visited
    requires k >= 1 ==> Reach(adj, s, k - 1) <= done
    requires Closed(adj, s, cap, done, visited)
    ensures Reach(adj, s, k) <= visited
  {
    if k >= 1 {
      var R := Reach(adj, s, k - 1);
      ReachMonotone(adj, s, k - 1, cap - 1);
      assert forall x :: x in R ==> Elements(Friends(adj, x)) <= visited;
      StepWithin(adj, R, visited);
      assert Reach(adj, s, k) == R + Step(adj, R);
    }
  }

  lemma StepWithin(adj: Adjacency, R: set<int>, V: set<int>)
    requires forall x :: x in R ==> Elements(Friends(adj, x)) <= V
    ensures Step(adj, R) <= V
  {
    forall y | y in Step(adj, R)
      ensures y in V
    {
      StepElim(adj, R, y);
      var x :| x in R && y in Friends(adj, x);
      assert y in Elements(Friends(adj, x));
    }
  }

  /** The queue without its head keeps its shape at the head's level. */
  lemma TailShape(adj: Adjacency, s: int, q: Queue, level: nat, cap: nat)
    requires QueueShape(q, level, cap) && QueueLayers(adj, s, q, level) && q != []
    ensures QueueShape(q[1..], q[0].1, cap) && QueueLayers(adj, s, q[1..], q[0].1)
  {
    var t := q[1..];
    forall i | 0 <= i < |t|
      ensures q[0].1 <= t[i].1 <= q[0].1 + 1 && AtDepth(adj, s, q[0].1, t[i])
    {
      assert t[i] == q[i + 1];
      assert q[0].1 <= q[i + 1].1;
      assert AtDepth(adj, s, level, q[i + 1]);
    }
  }

  /** Finishing `u` keeps `Closed` when `u` is beyond the cap or its friends are visited. */
  lemma ClosedAdd(adj: Adjacency, s: int, cap: nat, done: set<int>, visited: set<int>, visited': set<int>, u: int)
    requires Closed(adj, s, cap, done, visited) && visited <= visited'
    requires cap >= 1 && u in Reach(adj, s, cap - 1) ==> Elements(Friends(adj, u)) <= visited'
    ensures Closed(adj, s, cap, done + {u}, visited')
  {
  }

  /** Moving the head of the queue to the finished users keeps the bookkeeping. */
  lemma PopBookkeeping(q: Queue, visited: set<int>, done: set<int>)
    requires q != []
    requires forall i, j :: 0 <= i < j < |q| ==> q[i].0 != q[j].0
    requires Bookkept(q, visited, done)
    ensures Bookkept(q[1..], visited, done + {q[0].0})
  {
    QNodesTail(q);
  }

  /** Popping a user at the cap depth, or beyond it, without expanding it. */
  lemma PopWithoutExpansion(adj: Adjacency, s: int, cap: nat, q: Queue, visited: set<int>, done: set<int>, level: nat)
    requires BfsInv(adj, s, cap, q, visited, done, level)
    requires q != [] && q[0].1 >= cap
    ensures BfsInv(adj, s, cap, q[1..], visited, done + {q[0].0}, q[0].1)
  {
    PopBookkeeping(q, visited, done);
    TailShape(adj, s, q, level, cap);
    HeadInLayer(adj, s, cap, q, level);
    HeadLevelFinished(adj, s, cap, q, visited, done, level);
    FinishAtCap(adj, s, cap, visited, done, level, q[0].0);
  }

  /** Finishing a user at distance `cap` needs no expansion. */
  lemma FinishAtCap(adj: Adjacency, s: int, cap: nat, visited: set<int>, done: set<int>, level: nat, u: int)
    requires Progress(adj, s, cap, visited, done, level)
    requires InLayer(adj, s, u, cap)
    requires cap >= 1 ==> Reach(adj, s, cap - 1) <= done
    ensures Progress(adj, s, cap, visited, done + {u}, cap)
  {
    ClosedAdd(adj, s, cap, done, visited, visited, u);
  }

  /**
   * Popping a user below the cap depth and queueing its unvisited friends
   * (as `VisitNeighbors` does) at depth + 1.
   */
  lemma PopWithExpansion(adj: Adjacency, s: int, cap: nat, q: Queue, visited: set<int>, done: set<int>, level: nat,
                         q': Queue, visited': set<int>)
    requires BfsInv(adj, s, cap, q, visited, done, level)
    requires q != [] && q[0].1 < cap
    requires Expanded(Friends(adj, q[0].0), q[0].1, q[1..], visited, q', visited')
    ensures BfsInv(adj, s, cap, q', visited', done + {q[0].0}, q[0].1)
  {
    var u, d := q[0].0, q[0].1;
    PopBookkeeping(q, visited, done);
    ExpandedBookkeeping(q[1..], d, Friends(adj, u), visited, done + {u}, q', visited');
    ExpandedQueue(adj, s, cap, q, visited, done, level, q', visited');
    HeadInLayer(adj, s, cap, q, level);
    HeadLevelFinished(adj, s, cap, q, visited, done, level);
    FinishExpanded(adj, s, cap, visited, done, level, u, d, visited');
  }

  /** The queue after popping and expanding its head is in shape at the head's depth. */
  lemma ExpandedQueue(adj: Adjacency, s: int, cap: nat, q: Queue, visited: set<int>, done: set<int>, level: nat,
                      q': Queue, visited': set<int>)
    requires BfsInv(adj, s, cap, q, visited, done, level)
    requires q != [] && q[0].1 < cap
    requires Expanded(Friends(adj, q[0].0), q[0].1, q[1..], visited, q', visited')
    ensures QueueShape(q', q[0].1, cap) && QueueLayers(adj, s, q', q[0].1)
  {
    var u, d := q[0].0, q[0].1;
    TailShape(adj, s, q, level, cap);
    QNodesTail(q);
    HeadInLayer(adj, s, cap, q, level);
    HeadLevelFinished(adj, s, cap, q, visited, done, level);
    VisitedCoversLevel(adj, s, cap, done, visited, d);
    QueueAfterExpansion(adj, s, cap, u, d, q[1..], visited, q', visited');
  }

  /** Queueing the unvisited friends keeps the bookkeeping. */
  lemma ExpandedBookkeeping(rest: Queue, d: nat, nbrs: seq<int>, visited: set<int>, done: set<int>, q': Queue, visited': set<int>)
    requires Bookkept(rest, visited, done)
    requires Expanded(nbrs, d, rest, visited, q', visited')
    ensures Bookkept(q', visited', done)
  {
  }

  /** Finishing a user below the cap once its friends are visited. */
  lemma FinishExpanded(adj: Adjacency, s: int, cap: nat, visited: set<int>, done: set<int>, level: nat, u: int, d: nat,
                       visited': set<int>)
    requires Progress(adj, s, cap, visited, done, level)
    requires InLayer(adj, s, u, d) && d < cap
    requires d >= 1 ==> Reach(adj, s, d - 1) <= done
    requires visited' == visited + Elements(Friends(adj, u))
    ensures Progress(adj, s, cap, visited', done + {u}, d)
  {
    ReachMonotone(adj, s, d, cap);
    ClosedAdd(adj, s, cap, done, visited, visited', u);
  }

  /** The queue after `VisitNeighbors` is in shape at the popped user's depth. */
  lemma QueueAfterExpansion(adj: Adjacency, s: int, cap: nat, u: int, d: nat, rest: Queue, visited: set<int>,
                            q': Queue, visited': set<int>)
    requires QueueShape(rest, d, cap) && QueueLayers(adj, s, rest, d) && d < cap
    requires QNodes(rest) <= visited
    requires InLayer(adj, s, u, d) && Reach(adj, s, d) <= visited
    requires Expanded(Friends(adj, u), d, rest, visited, q', visited')
    ensures QueueShape(q', d, cap) && QueueLayers(adj, s, q', d)
  {
    AppendedShape(rest, d, cap, Friends(adj, u), visited, q', visited');
    AppendedDistinct(rest, d, Friends(adj, u), visited, q', visited');
    AppendedLayers(adj, s, u, d, rest, visited, q', visited');
  }

  /** Appending depth `d + 1` entries keeps the queue's shape below the cap. */
  lemma AppendedShape(rest: Queue, d: nat, cap: nat, nbrs: seq<int>, visited: set<int>, q': Queue, visited': set<int>)
    requires QueueShape(rest, d, cap) && d < cap
    requires Expanded(nbrs, d, rest, visited, q', visited')
    ensures QueueShape(q', d, cap)
  {
    forall i | 0 <= i < |rest|
      ensures q'[i] == rest[i]
    {
      assert q'[..|rest|][i] == rest[i];
    }
  }

  /** Appending users not yet visited keeps the queue free of repeats. */
  lemma AppendedDistinct(rest: Queue, d: nat, nbrs: seq<int>, visited: set<int>, q': Queue, visited': set<int>)
    requires forall i, j :: 0 <= i < j < |rest| ==> rest[i].0 != rest[j].0
    requires QNodes(rest) <= visited
    requires Expanded(nbrs, d, rest, visited, q', visited')
    ensures forall i, j :: 0 <= i < j < |q'| ==> q'[i].0 != q'[j].0
  {
    forall i | 0 <= i < |rest|
      ensures q'[i] == rest[i] && q'[i].0 in visited
    {
      assert q'[..|rest|][i] == rest[i];
    }
  }

  /** A friend of a user at distance `d` that is not within `d` steps is at distance `d + 1`. */
  lemma NextLayer(adj: Adjacency, s: int, u: int, d: nat, x: int)
    requires InLayer(adj, s, u, d) && x in Friends(adj, u) && x !in Reach(adj, s, d)
    ensures InLayer(adj, s, x, d + 1)
  {
    StepIntro(adj, Reach(adj, s, d), u, x);
  }

  /** The friends `VisitNeighbors` queues are at distance `d + 1`. */
  lemma AppendedLayers(adj: Adjacency, s: int, u: int, d: nat, rest: Queue, visited: set<int>, q': Queue, visited': set<int>)
    requires InLayer(adj, s, u, d)
    requires Reach(adj, s, d) <= visited
    requires forall i :: 0 <= i < |rest| ==> AtDepth(adj, s, d, rest[i])
    requires Expanded(Friends(adj, u), d, rest, visited, q', visited')
    ensures forall i :: 0 <= i < |q'| ==> AtDepth(adj, s, d, q'[i])
  {
    forall i | 0 <= i < |q'|
      ensures AtDepth(adj, s, d, q'[i])
    {
      if i < |rest| {
        assert q'[..|rest|][i] == rest[i];
      } else {
        NextLayer(adj, s, u, d, q'[i].0);
      }
    }
  }

  /** The postcondition of `VisitNeighbors`. */
  ghost predicate Expanded(nbrs: seq<int>, d: int, q: Queue, visited: set<int>, q': Queue, visited': set<int>)
  {
    && visited' == visited + Elements(nbrs)
    && |q'| >= |q| && q'[..|q|] == q
    && (forall i :: |q| <= i < |q'| ==> q'[i].1 == d + 1 && q'[i].0 in nbrs && q'[i].0 !in visited)
    && (forall i, j :: |q| <= i < j < |q'| ==> q'[i].0 != q'[j].0)
    && QNodes(q') == QNodes(q) + (Elements(nbrs) - visited)
  }

  /**
   * The inner loop of both searches: for each friend in list order, if it is
   * not visited yet, mark it and queue it at depth `d + 1`.
   */
  method VisitNeighbors(nbrs: seq<int>, d: int, q: Queue, visited: set<int>) returns (q': Queue, visited': set<int>)
    ensures Expanded(nbrs, d, q, visited, q', visited')
  {
    q', visited' := q, visited;
    for k := 0 to |nbrs|
      invariant visited' == visited + Elements(nbrs[..k])
      invariant |q'| >= |q| && q'[..|q|] == q
      invariant forall i :: |q| <= i < |q'| ==> q'[i].1 == d + 1 && q'[i].0 in nbrs[..k] && q'[i].0 !in visited
      invariant forall i, j :: |q| <= i < j < |q'| ==> q'[i].0 != q'[j].0
      invariant QNodes(q') == QNodes(q) + (Elements(nbrs[..k]) - visited)
    {
      var neighbor := nbrs[k];
      assert nbrs[..k + 1] == nbrs[..k] + [neighbor];
      ElementsSnoc(nbrs[..k], neighbor);
      if neighbor !in visited' {
        visited' := visited' + {neighbor};
        QNodesAppend(q', (neighbor, d + 1));
        assert (q' + [(neighbor, d + 1)])[..|q|] == q'[..|q|];
        q' := q' + [(neighbor, d + 1)];
      }
    }
    assert nbrs[..|nbrs|] == nbrs;
  }

  /** With the queue empty, everything within `cap` steps is finished. */
  lemma {:induction false} ExhaustedCoversReach(adj: Adjacency, s: int, cap: nat, visited: set<int>, done: set<int>, level: nat, k: nat)
    requires BfsInv(adj, s, cap, [], visited, done, level)
    requires k <= cap
    ensures Reach(adj, s, k) <= done
  {
    if k >= 1 {
      ExhaustedCoversReach(adj, s, cap, visited, done, level, k - 1);
    }
    VisitedCoversLevel(adj, s, cap, done, visited, k);
  }

  /** A user popped at depth `d <= cap` has shortest distance `d` within the cap. */
  lemma PoppedDistance(adj: Adjacency, s: int, t: int, d: nat, cap: nat)
    requires InLayer(adj, s, t, d) && d <= cap
    ensures ShortestWithin(adj, s, t, cap) == d
  {
    ReachMonotone(adj, s, d, cap);
    var r := ShortestWithin(adj, s, t, cap);
    LayersDisjoint(adj, s, t, r, d);
  }
}
