/**
 * `NovaGraph::addFriendship` on the adjacency map, and the shape of the
 * friendship graph it maintains: every friendship is recorded on both
 * sides, nobody is their own friend and no friend is listed twice.
 */
module Friendships {
  import opened Reachability

  /** Every friendship is recorded in both users' lists. */
  ghost predicate Symmetric(adj: Adjacency)
  {
    forall x, y :: y in Friends(adj, x) ==> x in Friends(adj, y)
  }

  predicate NoDuplicates(s: seq<int>)
  {
    forall i, j :: 0 <= i < j < |s| ==> s[i] != s[j]
  }

  /** No self-loops and no repeated friend in any list. */
  ghost predicate Simple(adj: Adjacency)
  {
    forall x :: x !in Friends(adj, x) && NoDuplicates(Friends(adj, x))
  }

  /**
   * `addFriendship(u, v)`: nothing for `u == v` or when `v` is already in
   * `u`'s list; otherwise `v` is appended to `u`'s list and `u` to `v`'s.
   */
  function AddEdge(adj: Adjacency, u: int, v: int): (r: Adjacency)
    ensures u == v || v in Friends(adj, u) ==> r == adj
    ensures u != v ==> v in Friends(r, u)
    ensures u != v && v !in Friends(adj, u) ==> u in Friends(r, v)
    ensures forall x :: x != u && x != v ==> Friends(r, x) == Friends(adj, x)
    ensures forall x :: x in adj ==> x in r
  {
    if u == v || v in Friends(adj, u) then adj
    else
      var r := adj[u := Friends(adj, u) + [v]][v := Friends(adj, v) + [u]];
      assert Friends(r, u) == Friends(adj, u) + [v];
      r
  }

  /** Adding a friendship that is already there changes nothing. */
  lemma AddEdgeIdempotent(adj: Adjacency, u: int, v: int)
    ensures AddEdge(AddEdge(adj, u, v), u, v) == AddEdge(adj, u, v)
  {
  }

  /** The new lists are the old ones with one entry appended (when the friendship is new). */
  lemma AddEdgeAppends(adj: Adjacency, u: int, v: int)
    requires u != v && v !in Friends(adj, u)
    ensures Friends(AddEdge(adj, u, v), u) == Friends(adj, u) + [v]
    ensures Friends(AddEdge(adj, u, v), v) == Friends(adj, v) + [u]
  {
  }

  /** Friendships stay recorded on both sides. */
  lemma AddEdgeSymmetric(adj: Adjacency, u: int, v: int)
    requires Symmetric(adj)
    ensures Symmetric(AddEdge(adj, u, v))
  {
    var r := AddEdge(adj, u, v);
    if u != v && v !in Friends(adj, u) {
      AddEdgeAppends(adj, u, v);
      forall x, y | y in Friends(r, x)
        ensures x in Friends(r, y)
      {
        if (x == u && y == v) || (x == v && y == u) {
        } else {
          assert y in Friends(adj, x);
        }
      }
    }
  }

  /**
   * On a symmetric graph the single membership test keeps every list free
   * of repeats: `v` missing from `u`'s list means `u` is missing from `v`'s.
   */
  lemma AddEdgeSimple(adj: Adjacency, u: int, v: int)
    requires Symmetric(adj) && Simple(adj)
    ensures Simple(AddEdge(adj, u, v))
  {
    var r := AddEdge(adj, u, v);
    if u != v && v !in Friends(adj, u) {
      AddEdgeAppends(adj, u, v);
      assert u !in Friends(adj, v);
      forall x
        ensures x !in Friends(r, x) && NoDuplicates(Friends(r, x))
      {
        assert x !in Friends(adj, x) && NoDuplicates(Friends(adj, x));
        if x == u {
          AppendFresh(Friends(adj, u), v);
        } else if x == v {
          AppendFresh(Friends(adj, v), u);
        }
      }
    }
  }

  lemma AppendFresh(s: seq<int>, e: int)
    requires NoDuplicates(s) && e !in s
    ensures NoDuplicates(s + [e])
  {
    var t := s + [e];
    forall i, j | 0 <= i < j < |t|
      ensures t[i] != t[j]
    {
      assert t[i] == s[i];
      if j < |s| {
        assert t[j] == s[j];
      }
    }
  }

  /**
   * Without symmetry the test is not enough: with `1` listing no friend and
   * `2` already listing `1`, adding the friendship 1-2 lists `1` twice in
   * `2`'s list.
   */
  lemma AddEdgeAsymmetricRepeats()
    ensures Friends(AddEdge(map[1 := [], 2 := [1]], 1, 2), 2) == [1, 1]
  {
  }
}
