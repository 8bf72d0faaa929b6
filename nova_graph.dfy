/**
 * `NovaGraph` (backend/src/Graph.cpp): the backend's in-memory store of
 * users, friendships and communities, with the operations the bridge
 * server calls.
 *
 * The store is a class whose four fields are the source's maps and
 * community counter.  `std::map::operator[]` inserts a default value for a
 * missing key, and the source reads through it in several queries; those
 * reads are modelled by `UserAt` and `FriendListAt`, and every method
 * states how its reads have grown the maps.
 */
module NovaGraphModel {
  import opened Wrappers
  import opened Strings
  import opened Numerals
  import opened SortedSets
  import opened Records
  import opened Persistence
  import opened Reachability
  import opened Bfs
  import opened Friendships
  import opened Recommendations
  import opened Storage
  import opened LineReading

  /** `db` after `userDB[x]` has been read for each `x` of `ids`: unknown ids gain a default user. */
  function WithDefaultUsers(db: map<int, User>, ids: set<int>): (r: map<int, User>)
    ensures r.Keys == db.Keys + ids
    ensures forall x :: x in db ==> r[x] == db[x]
    ensures forall x :: x in r && x !in db ==> r[x] == DefaultUser
  {
    map x | x in db.Keys + ids :: if x in db then db[x] else DefaultUser
  }

  /** `adj` after `adjList[x]` has been read for each `x` of `ids`: unknown ids gain an empty list. */
  function WithEmptyLists(adj: Adjacency, ids: set<int>): (r: Adjacency)
    ensures r.Keys == adj.Keys + ids
    ensures forall x :: x in adj ==> r[x] == adj[x]
    ensures forall x :: x in r && x !in adj ==> r[x] == []
    ensures forall x :: Friends(r, x) == Friends(adj, x)
  {
    map x | x in adj.Keys + ids :: if x in adj then adj[x] else []
  }

  lemma WithDefaultUsersAdd(db: map<int, User>, ids: set<int>, x: int)
    ensures WithDefaultUsers(WithDefaultUsers(db, ids), {x}) == WithDefaultUsers(db, ids + {x})
  {
  }

  lemma WithEmptyListsAdd(adj: Adjacency, ids: set<int>, x: int)
    ensures WithEmptyLists(WithEmptyLists(adj, ids), {x}) == WithEmptyLists(adj, ids + {x})
  {
  }

  /** The users whose lists the connection search reads: those closer than the target degree. */
  ghost function Expandable(adj: Adjacency, s: int, k: int): set<int>
  {
    if k <= 0 then {} else Reach(adj, s, k - 1)
  }

  /** One entry of the recommendation list: the candidate, its name and its count. */
  datatype Recommendation = Recommendation(id: int, name: string, mutualFriends: int)

  function RecommendedIds(recs: seq<Recommendation>): (r: set<int>)
    ensures forall i :: 0 <= i < |recs| ==> recs[i].id in r
    ensures forall x :: x in r ==> exists i :: 0 <= i < |recs| && recs[i].id == x
  {
    set i | 0 <= i < |recs| :: recs[i].id
  }

  /**
   * Naming the ranked entries keeps what the ranking promises: each
   * candidate of the frequency map once, with its count, by non-increasing
   * count.
   */
  lemma NamedRanking(freq: map<int, int>, ranked: seq<Entry>, recs: seq<Recommendation>)
    requires ByCountDescending(ranked) && DistinctIds(ranked)
    requires forall i :: 0 <= i < |ranked| ==> ranked[i].0 in freq && ranked[i].1 == freq[ranked[i].0]
    requires forall c :: c in freq ==> exists i :: 0 <= i < |ranked| && ranked[i].0 == c
    requires |recs| == |ranked|
    requires forall i :: 0 <= i < |ranked| ==> recs[i].id == ranked[i].0 && recs[i].mutualFriends == ranked[i].1
    ensures forall i :: 0 <= i < |recs| ==> recs[i].id in freq && recs[i].mutualFriends == freq[recs[i].id]
    ensures forall c :: c in freq ==> c in RecommendedIds(recs)
    ensures forall i, j :: 0 <= i < j < |recs| ==> recs[i].id != recs[j].id && recs[i].mutualFriends >= recs[j].mutualFriends
  {
    forall c | c in freq
      ensures c in RecommendedIds(recs)
    {
      var i :| 0 <= i < |ranked| && ranked[i].0 == c;
      assert recs[i].id == c;
    }
  }

  class NovaGraph {
    var userDB: map<int, User>
    var adjList: Adjacency
    var communityDB: map<int, Community>
    var nextCommunityId: int

    /** Each community is stored under its own id, and every id is below the next one handed out. */
    ghost predicate Valid()
      reads this
    {
      forall id :: id in communityDB ==> communityDB[id].id == id && id < nextCommunityId
    }

    /** An empty store; community ids start at 100. */
    constructor ()
      ensures Valid()
      ensures userDB == map[] && adjList == map[] && communityDB == map[] && nextCommunityId == 100
    {
      userDB := map[];
      adjList := map[];
      communityDB := map[];
      nextCommunityId := 100;
    }

    // ------------------------------------------------ reads through operator[]

    /** `userDB[id]`: the stored user, or a default user inserted under `id`. */
    method UserAt(id: int) returns (u: User)
      modifies this
      ensures userDB == WithDefaultUsers(old(userDB), {id}) && u == userDB[id]
      ensures id in old(userDB) ==> u == old(userDB)[id]
      ensures adjList == old(adjList) && communityDB == old(communityDB) && nextCommunityId == old(nextCommunityId)
    {
      if id !in userDB {
        userDB := userDB[id := DefaultUser];
      }
      u := userDB[id];
    }

    /** `adjList[id]`: the stored list, or an empty list inserted under `id`. */
    method FriendListAt(id: int) returns (friends: seq<int>)
      modifies this
      ensures adjList == WithEmptyLists(old(adjList), {id}) && friends == Friends(old(adjList), id)
      ensures userDB == old(userDB) && communityDB == old(communityDB) && nextCommunityId == old(nextCommunityId)
    {
      if id !in adjList {
        adjList := adjList[id := []];
      }
      friends := adjList[id];
    }

    /** `userDB[ids[i]]` for each `i` in turn. */
    method UsersAt(ids: seq<int>) returns (users: seq<User>)
      modifies this
      ensures userDB == WithDefaultUsers(old(userDB), Elements(ids))
      ensures |users| == |ids| && forall i :: 0 <= i < |ids| ==> users[i] == userDB[ids[i]]
      ensures adjList == old(adjList) && communityDB == old(communityDB) && nextCommunityId == old(nextCommunityId)
    {
      users := [];
      for i := 0 to |ids|
        invariant userDB == WithDefaultUsers(old(userDB), Elements(ids[..i]))
        invariant |users| == i && forall k :: 0 <= k < i ==> users[k] == userDB[ids[k]]
        invariant adjList == old(adjList) && communityDB == old(communityDB) && nextCommunityId == old(nextCommunityId)
      {
        assert ids[..i + 1] == ids[..i] + [ids[i]];
        ElementsSnoc(ids[..i], ids[i]);
        WithDefaultUsersAdd(old(userDB), Elements(ids[..i]), ids[i]);
        var u := UserAt(ids[i]);
        users := users + [u];
      }
      assert ids[..|ids|] == ids;
    }

    // ------------------------------------------------------- users and friends

    /** `addUser`: registers a new user with karma 0; an existing id is left alone. */
    method AddUser(id: int, name: string)
      modifies this
      ensures id in old(userDB) ==> userDB == old(userDB)
      ensures id !in old(userDB) ==> userDB == old(userDB)[id := User(id, name, 0)]
      ensures adjList == old(adjList) && communityDB == old(communityDB) && nextCommunityId == old(nextCommunityId)
    {
      if id in userDB {
        return;
      }
      userDB := userDB[id := User(id, name, 0)];
    }

    /**
     * `addFriendship`: records the friendship on both sides unless it is a
     * self-friendship or `v` is already in `u`'s list.
     */
    method AddFriendship(u: int, v: int)
      modifies this
      ensures adjList == AddEdge(old(adjList), u, v)
      ensures userDB == old(userDB) && communityDB == old(communityDB) && nextCommunityId == old(nextCommunityId)
    {
      if u == v {
        return;
      }
      var uFriends := Friends(adjList, u);
      if v in uFriends {
        return;
      }
      adjList := adjList[u := uFriends + [v]];
      adjList := adjList[v := Friends(adjList, v) + [u]];
    }

    // ------------------------------------------------------------- communities

    /**
     * `createCommunity`: a new community under the next id, with the tags
     * split at commas, no members and no messages.
     */
    method CreateCommunity(name: string, desc: string, tags: string)
      requires Valid()
      modifies this
      ensures Valid()
      ensures old(nextCommunityId) !in old(communityDB)
      ensures communityDB == old(communityDB)[old(nextCommunityId) :=
        Community(old(nextCommunityId), name, desc, Tokens(tags, ','), {}, [])]
      ensures nextCommunityId == old(nextCommunityId) + 1
      ensures userDB == old(userDB) && adjList == old(adjList)
    {
      var id := nextCommunityId;
      nextCommunityId := nextCommunityId + 1;
      var tagList := Split(tags, ',');
      communityDB := communityDB[id := Community(id, name, desc, tagList, {}, [])];
    }

    /** `joinCommunity`: adds the user to the members of an existing community. */
    method JoinCommunity(userId: int, commId: int)
      requires Valid()
      modifies this
      ensures Valid()
      ensures commId !in old(communityDB) ==> communityDB == old(communityDB)
      ensures commId in old(communityDB) ==>
        communityDB == old(communityDB)[commId := old(communityDB)[commId].(members := old(communityDB)[commId].members + {userId})]
      ensures userDB == old(userDB) && adjList == old(adjList) && nextCommunityId == old(nextCommunityId)
    {
      if commId in communityDB {
        var c := communityDB[commId];
        communityDB := communityDB[commId := c.(members := c.members + {userId})];
      }
    }

    /**
     * `addMessage`: a member's message is appended to the community's chat
     * with no votes, the sender's current name and the time `now` (the
     * source's clock reading).  Messages from non-members and to unknown
     * communities are dropped.
     */
    method AddMessage(commId: int, senderId: int, content: string, now: string)
      requires Valid()
      modifies this
      ensures Valid()
      ensures !(commId in old(communityDB) && senderId in old(communityDB)[commId].members) ==>
        communityDB == old(communityDB) && userDB == old(userDB)
      ensures commId in old(communityDB) && senderId in old(communityDB)[commId].members ==>
        && userDB == WithDefaultUsers(old(userDB), {senderId})
        && var c := old(communityDB)[commId];
           communityDB == old(communityDB)[commId := c.(chatHistory := c.chatHistory +
             [Message(senderId, userDB[senderId].name, content, now, 0)])]
      ensures adjList == old(adjList) && nextCommunityId == old(nextCommunityId)
    {
      if commId in communityDB {
        var c := communityDB[commId];
        if senderId in c.members {
          var sender := UserAt(senderId);
          var m := Message(senderId, sender.name, content, now, 0);
          communityDB := communityDB[commId := c.(chatHistory := c.chatHistory + [m])];
        }
      }
    }

    /**
     * `upvoteMessage`: one more vote on message `msgIndex` of the community
     * and 5 karma for its sender when the sender is a registered user; an
     * unknown community or an index out of range changes nothing.
     */
    method UpvoteMessage(commId: int, msgIndex: int)
      requires Valid()
      modifies this
      ensures Valid()
      ensures !(commId in old(communityDB) && 0 <= msgIndex < |old(communityDB)[commId].chatHistory|) ==>
        communityDB == old(communityDB) && userDB == old(userDB)
      ensures commId in old(communityDB) && 0 <= msgIndex < |old(communityDB)[commId].chatHistory| ==>
        var c := old(communityDB)[commId];
        var m := c.chatHistory[msgIndex];
        && communityDB == old(communityDB)[commId := c.(chatHistory := c.chatHistory[msgIndex := m.(upvotes := m.upvotes + 1)])]
        && userDB == if m.senderId in old(userDB)
                     then old(userDB)[m.senderId := old(userDB)[m.senderId].(karma := old(userDB)[m.senderId].karma + 5)]
                     else old(userDB)
      ensures adjList == old(adjList) && nextCommunityId == old(nextCommunityId)
    {
      if commId in communityDB {
        var c := communityDB[commId];
        if 0 <= msgIndex < |c.chatHistory| {
          var m := c.chatHistory[msgIndex];
          communityDB := communityDB[commId := c.(chatHistory := c.chatHistory[msgIndex := m.(upvotes := m.upvotes + 1)])];
          if m.senderId in userDB {
            var sender := userDB[m.senderId];
            userDB := userDB[m.senderId := sender.(karma := sender.karma + 5)];
          }
        }
      }
    }

    // ------------------------------------------------------- breadth-first searches

    /**
     * `getRelationDegree`: 0 for oneself, -1 when the start user has no
     * friend list, otherwise the length of a shortest friendship path if it
     * is at most 3, and -1 beyond.  The search reads the lists of users
     * within two steps, which may insert empty lists for them.
     */
    method GetRelationDegree(startNode: int, targetNode: int) returns (deg: int)
      modifies this
      ensures deg == Degree(old(adjList), startNode, targetNode)
      ensures forall x :: Friends(adjList, x) == Friends(old(adjList), x)
      ensures old(adjList).Keys <= adjList.Keys <= old(adjList).Keys + Reach(old(adjList), startNode, 2)
      ensures userDB == old(userDB) && communityDB == old(communityDB) && nextCommunityId == old(nextCommunityId)
    {
      if startNode == targetNode {
        return 0;
      }
      if startNode !in adjList {
        return -1;
      }
      ghost var adj := adjList;
      ghost var inner := Expandable(adj, startNode, 3);
      var q: Queue := [(startNode, 0)];
      var visited: set<int> := {startNode};
      ghost var done: set<int> := {};
      ghost var level: nat := 0;
      ghost var expanded: set<int> := {};
      BfsInvInit(adj, startNode, 3);
      while q != []
        invariant BfsInv(adj, startNode, 3, q, visited, done, level)
        invariant targetNode !in done
        invariant adjList == WithEmptyLists(adj, expanded) && expanded == done * inner
        invariant userDB == old(userDB) && communityDB == old(communityDB) && nextCommunityId == old(nextCommunityId)
        decreases Reach(adj, startNode, 3) - done
      {
        var u, d := q[0].0, q[0].1;
        HeadInLayer(adj, startNode, 3, q, level);
        PopShrinks(adj, startNode, 3, q, visited, done, level);
        if u == targetNode {
          PoppedDistance(adj, startNode, targetNode, d, 3);
          return d;
        }
        FinishHead(done, inner, expanded, u);
        if d >= 3 {
          PopWithoutExpansion(adj, startNode, 3, q, visited, done, level);
          OutsideInner(adj, startNode, u, d, 3);
          q, done, level := q[1..], done + {u}, d;
        } else {
          ReachMonotone(adj, startNode, d, 2);
          q, visited := ExpandHead(adj, startNode, 3, q, visited, done, level, expanded);
          done, level, expanded := done + {u}, d, expanded + {u};
        }
      }
      ExhaustedCoversReach(adj, startNode, 3, visited, done, level, 3);
      return -1;
    }

    /**
     * `getConnectionsByDegreeJSON`: for a registered start user, the users
     * at distance exactly `targetDegree`, each once, with the user record
     * that `userDB[id]` yields for them; nothing for an unknown start user.
     * The search reads the lists of the users closer than `targetDegree`.
     */
    method GetConnectionsByDegree(startNode: int, targetDegree: int) returns (ids: seq<int>, users: seq<User>)
      modifies this
      ensures startNode !in old(userDB) ==> ids == [] && adjList == old(adjList)
      ensures startNode in old(userDB) ==>
        && (forall x :: x in ids <==> InLayer(old(adjList), startNode, x, targetDegree))
        && NoDuplicates(ids)
        && adjList == WithEmptyLists(old(adjList), Expandable(old(adjList), startNode, targetDegree))
      ensures userDB == WithDefaultUsers(old(userDB), Elements(ids))
      ensures |users| == |ids| && forall i :: 0 <= i < |ids| ==> users[i] == userDB[ids[i]]
      ensures communityDB == old(communityDB) && nextCommunityId == old(nextCommunityId)
    {
      if startNode !in userDB {
        return [], [];
      }
      ids := SearchLayer(startNode, targetDegree);
      users := UsersAt(ids);
    }

    /** The search loop of `getConnectionsByDegreeJSON`. */
    method SearchLayer(startNode: int, targetDegree: int) returns (ids: seq<int>)
      modifies this
      ensures forall x :: x in ids <==> InLayer(old(adjList), startNode, x, targetDegree)
      ensures NoDuplicates(ids)
      ensures adjList == WithEmptyLists(old(adjList), Expandable(old(adjList), startNode, targetDegree))
      ensures userDB == old(userDB) && communityDB == old(communityDB) && nextCommunityId == old(nextCommunityId)
    {
      ghost var adj := adjList;
      ghost var cap: nat := if targetDegree >= 0 then targetDegree else 0;
      ghost var inner := Expandable(adj, startNode, targetDegree);
      var q: Queue := [(startNode, 0)];
      var visited: set<int> := {startNode};
      ghost var done: set<int> := {};
      ghost var level: nat := 0;
      ghost var expanded: set<int> := {};
      ids := [];
      BfsInvInit(adj, startNode, cap);
      while q != []
        invariant BfsInv(adj, startNode, cap, q, visited, done, level)
        invariant forall x :: x in ids <==> x in done && InLayer(adj, startNode, x, targetDegree)
        invariant NoDuplicates(ids)
        invariant adjList == WithEmptyLists(adj, expanded) && expanded == done * inner
        invariant userDB == old(userDB) && communityDB == old(communityDB) && nextCommunityId == old(nextCommunityId)
        decreases Reach(adj, startNode, cap) - done
      {
        var u, d := q[0].0, q[0].1;
        HeadInLayer(adj, startNode, cap, q, level);
        PopShrinks(adj, startNode, cap, q, visited, done, level);
        FinishHead(done, inner, expanded, u);
        if d == targetDegree {
          PopWithoutExpansion(adj, startNode, cap, q, visited, done, level);
          OutsideInner(adj, startNode, u, d, targetDegree);
          AppendFresh(ids, u);
          ids := ids + [u];
          q, done, level := q[1..], done + {u}, d;
        } else if d > targetDegree {
          PopWithoutExpansion(adj, startNode, cap, q, visited, done, level);
          OutsideInner(adj, startNode, u, d, targetDegree);
          NotInOtherLayer(adj, startNode, u, d, targetDegree);
          q, done, level := q[1..], done + {u}, d;
        } else {
          NotInOtherLayer(adj, startNode, u, d, targetDegree);
          ReachMonotone(adj, startNode, d, targetDegree - 1);
          q, visited := ExpandHead(adj, startNode, cap, q, visited, done, level, expanded);
          done, level, expanded := done + {u}, d, expanded + {u};
        }
      }
      ExhaustedCoversReach(adj, startNode, cap, visited, done, level, cap);
      forall x | InLayer(adj, startNode, x, targetDegree)
        ensures x in done
      {
        ReachMonotone(adj, startNode, targetDegree, cap);
      }
      if targetDegree >= 1 {
        ReachMonotone(adj, startNode, targetDegree - 1, cap);
      }
      assert done * inner == inner;
    }

    // ----------------------------------------------------------- recommendations

    /**
     * `getRecommendationsJSON`: for a user with a friend list, every user
     * that some friend lists and that is neither the user nor a friend,
     * once, with the number of times the friends' lists name it; highest
     * count first, with the name that `userDB[id]` yields.  A user without a
     * friend list gets nothing.  The count reads every friend's list
     * through `adjList[...]`.
     */
    method GetRecommendations(userId: int) returns (recs: seq<Recommendation>)
      modifies this
      ensures userId !in old(adjList) ==> recs == [] && adjList == old(adjList) && userDB == old(userDB)
      ensures userId in old(adjList) ==>
        && (forall i :: 0 <= i < |recs| ==>
              && IsCandidate(old(adjList), userId, recs[i].id)
              && recs[i].mutualFriends == MutualCount(old(adjList), old(adjList)[userId], recs[i].id))
        && (forall c :: IsCandidate(old(adjList), userId, c) ==> c in RecommendedIds(recs))
        && adjList == WithEmptyLists(old(adjList), Elements(old(adjList)[userId]))
        && userDB == WithDefaultUsers(old(userDB), RecommendedIds(recs))
      ensures forall i, j :: 0 <= i < j < |recs| ==> recs[i].id != recs[j].id && recs[i].mutualFriends >= recs[j].mutualFriends
      ensures forall i :: 0 <= i < |recs| ==> recs[i].id in userDB && recs[i].name == userDB[recs[i].id].name
      ensures communityDB == old(communityDB) && nextCommunityId == old(nextCommunityId)
    {
      if userId !in adjList {
        return [];
      }
      var freq := CountMutuals(userId);
      var ranked := Rank(freq);
      recs := NameEntries(ranked);
      NamedRanking(freq, ranked, recs);
    }

    /** The output loop of `getRecommendationsJSON`: each ranked entry with the name `userDB[id]` yields. */
    method NameEntries(ranked: seq<Entry>) returns (recs: seq<Recommendation>)
      modifies this
      ensures |recs| == |ranked|
      ensures forall i :: 0 <= i < |ranked| ==>
        && recs[i].id == ranked[i].0 && recs[i].mutualFriends == ranked[i].1
        && recs[i].id in userDB && recs[i].name == userDB[recs[i].id].name
      ensures userDB == WithDefaultUsers(old(userDB), RecommendedIds(recs))
      ensures adjList == old(adjList) && communityDB == old(communityDB) && nextCommunityId == old(nextCommunityId)
    {
      var ids := seq(|ranked|, i requires 0 <= i < |ranked| => ranked[i].0);
      var users := UsersAt(ids);
      recs := seq(|ranked|, i requires 0 <= i < |ranked| => Recommendation(ranked[i].0, users[i].name, ranked[i].1));
      assert forall i :: 0 <= i < |ids| ==> ids[i] == recs[i].id;
      forall x | x in Elements(ids)
        ensures x in RecommendedIds(recs)
      {
        var i :| 0 <= i < |ids| && ids[i] == x;
      }
    }

    /**
     * The counting loops of `getRecommendationsJSON` for a user with a
     * friend list: the count of every candidate.
     */
    method CountMutuals(userId: int) returns (freq: map<int, int>)
      requires userId in adjList
      modifies this
      ensures forall c :: c in freq <==> IsCandidate(old(adjList), userId, c)
      ensures forall c :: c in freq ==> freq[c] == MutualCount(old(adjList), old(adjList)[userId], c)
      ensures adjList == WithEmptyLists(old(adjList), Elements(old(adjList)[userId]))
      ensures userDB == old(userDB) && communityDB == old(communityDB) && nextCommunityId == old(nextCommunityId)
    {
      ghost var adj := adjList;
      var myFriends := adjList[userId];
      var existing := Elements(myFriends) + {userId};
      assert existing == Excluded(adj, userId);
      freq := map[];
      for i := 0 to |myFriends|
        invariant adjList == WithEmptyLists(adj, Elements(myFriends[..i]))
        invariant forall c :: c in freq <==> c !in existing && MutualCount(adj, myFriends[..i], c) > 0
        invariant forall c :: c in freq ==> freq[c] == MutualCount(adj, myFriends[..i], c)
        invariant userDB == old(userDB) && communityDB == old(communityDB) && nextCommunityId == old(nextCommunityId)
      {
        var f := myFriends[i];
        PrefixSnoc(myFriends, i);
        ElementsSnoc(myFriends[..i], f);
        WithEmptyListsAdd(adj, Elements(myFriends[..i]), f);
        var nbrs := FriendListAt(f);
        var freq' := Tally(nbrs, existing, freq);
        CountStep(adj, myFriends, i, existing, freq, freq');
        freq := freq';
      }
      PrefixAll(myFriends);
    }

    // ------------------------------------------------------------------- views

    /**
     * `getFriendListJSON`: a user's friends sorted ascending without
     * repeats (the stored list is left as it is), each with the user record
     * that `userDB[id]` yields; nothing for a user without a friend list.
     */
    method GetFriendList(id: int) returns (friends: seq<int>, users: seq<User>)
      modifies this
      ensures id !in old(adjList) ==> friends == [] && userDB == old(userDB)
      ensures id in old(adjList) ==> StrictlyAscending(friends) && Elements(friends) == Elements(old(adjList)[id])
      ensures userDB == WithDefaultUsers(old(userDB), Elements(friends))
      ensures |users| == |friends| && forall i :: 0 <= i < |friends| ==> users[i] == userDB[friends[i]]
      ensures adjList == old(adjList) && communityDB == old(communityDB) && nextCommunityId == old(nextCommunityId)
    {
      if id !in adjList {
        return [], [];
      }
      friends := SortedElements(Elements(adjList[id]));
      users := UsersAt(friends);
    }

    // ------------------------------------------------------------ persistence

    /**
     * The users.txt part of `loadData`: each non-empty line with at least
     * two fields stores a user under the id it names, with karma 0 when the
     * karma field is missing or not a number.
     */
    method LoadUsers(lines: seq<string>)
      requires UserLinesReadable(lines)
      modifies this
      ensures userDB == LoadedUsers(old(userDB), lines)
      ensures adjList == old(adjList) && communityDB == old(communityDB) && nextCommunityId == old(nextCommunityId)
    {
      for i := 0 to |lines|
        invariant userDB == LoadedUsers(old(userDB), lines[..i])
        invariant adjList == old(adjList) && communityDB == old(communityDB) && nextCommunityId == old(nextCommunityId)
      {
        PrefixSnoc(lines, i);
        var line := lines[i];
        if line != "" {
          var u := ReadUserLine(line);
          if u.Some? {
            userDB := userDB[u.value.id := u.value];
          }
        }
      }
      PrefixAll(lines);
    }

    /**
     * The graph.txt part of `loadData`: each non-empty line replaces the
     * list of the id it names by its other ids, without the id itself,
     * sorted and without repeats.
     */
    method LoadGraph(lines: seq<string>)
      requires GraphLinesReadable(lines)
      modifies this
      ensures adjList == LoadedGraph(old(adjList), lines)
      ensures userDB == old(userDB) && communityDB == old(communityDB) && nextCommunityId == old(nextCommunityId)
    {
      for i := 0 to |lines|
        invariant adjList == LoadedGraph(old(adjList), lines[..i])
        invariant userDB == old(userDB) && communityDB == old(communityDB) && nextCommunityId == old(nextCommunityId)
      {
        PrefixSnoc(lines, i);
        var line := lines[i];
        if line != "" {
          var id, friends := ReadGraphLine(line);
          adjList := adjList[id := friends];
        }
      }
      PrefixAll(lines);
    }

    /**
     * The communities.txt part of `loadData`: each line with at least four
     * fields stores a community under the id it names, without chat, and
     * moves the next community id past that id.
     */
    method LoadCommunities(lines: seq<string>)
      requires CommunityLinesReadable(lines)
      modifies this
      ensures (communityDB, nextCommunityId) == LoadedCommunities(old(communityDB), old(nextCommunityId), lines)
      ensures old(Valid()) ==> Valid()
      ensures userDB == old(userDB) && adjList == old(adjList)
    {
      for i := 0 to |lines|
        invariant (communityDB, nextCommunityId) == LoadedCommunities(old(communityDB), old(nextCommunityId), lines[..i])
        invariant userDB == old(userDB) && adjList == old(adjList)
      {
        PrefixSnoc(lines, i);
        var line := lines[i];
        if line != "" {
          var c := ReadCommunityLine(line);
          if c.Some? {
            communityDB := communityDB[c.value.id := c.value];
            if c.value.id >= nextCommunityId {
              nextCommunityId := c.value.id + 1;
            }
          }
        }
      }
      PrefixAll(lines);
      if old(Valid()) {
        LoadedCommunitiesKeyed(old(communityDB), old(nextCommunityId), lines);
      }
    }

    /**
     * `loadData`: the three files in turn, each read line by line when it
     * could be opened (`None` for a file that could not).
     */
    method LoadData(usersFile: Option<string>, graphFile: Option<string>, communitiesFile: Option<string>)
      requires usersFile.Some? ==> UserLinesReadable(Tokens(usersFile.value, '\n'))
      requires graphFile.Some? ==> GraphLinesReadable(Tokens(graphFile.value, '\n'))
      requires communitiesFile.Some? ==> CommunityLinesReadable(Tokens(communitiesFile.value, '\n'))
      modifies this
      ensures userDB == if usersFile.Some? then LoadedUsers(old(userDB), Tokens(usersFile.value, '\n')) else old(userDB)
      ensures adjList == if graphFile.Some? then LoadedGraph(old(adjList), Tokens(graphFile.value, '\n')) else old(adjList)
      ensures (communityDB, nextCommunityId) ==
        if communitiesFile.Some?
        then LoadedCommunities(old(communityDB), old(nextCommunityId), Tokens(communitiesFile.value, '\n'))
        else (old(communityDB), old(nextCommunityId))
      ensures old(Valid()) ==> Valid()
    {
      if usersFile.Some? {
        var lines := Split(usersFile.value, '\n');
        LoadUsers(lines);
      }
      if graphFile.Some? {
        var lines := Split(graphFile.value, '\n');
        LoadGraph(lines);
      }
      if communitiesFile.Some? {
        var lines := Split(communitiesFile.value, '\n');
        LoadCommunities(lines);
      }
    }

    /** The users.txt part of `saveData`: one line per user, by ascending id. */
    method SaveUsers() returns (text: string)
      ensures text == FileText(UserLines(userDB))
    {
      var keys := SortedElements(userDB.Keys);
      assert forall i :: 0 <= i < |keys| ==> keys[i] in Elements(keys);
      text := "";
      for i := 0 to |keys|
        invariant text == FileText(UserLinesOf(userDB, keys[..i]))
      {
        var id := keys[i];
        var line := FormatUserLine(id, userDB[id]);
        UserLinesOfSnoc(userDB, keys, i);
        FileTextSnoc(UserLinesOf(userDB, keys[..i]), line);
        text := text + line + "\n";
      }
      PrefixAll(keys);
    }

    /**
     * The graph.txt part of `saveData`: each list is sorted and cleared of
     * repeats in place, then written on one line, by ascending id.
     */
    method SaveGraph() returns (text: string)
      modifies this
      ensures adjList == CleanedGraph(old(adjList))
      ensures text == FileText(GraphLines(adjList))
      ensures userDB == old(userDB) && communityDB == old(communityDB) && nextCommunityId == old(nextCommunityId)
    {
      var lists;
      lists, text := CleanAndWriteGraph(adjList);
      adjList := lists;
    }

    /** The communities.txt part of `saveData`: one line per community, by ascending key; no chat. */
    method SaveCommunities() returns (text: string)
      ensures text == FileText(CommunityLines(communityDB))
    {
      var keys := SortedElements(communityDB.Keys);
      assert forall i :: 0 <= i < |keys| ==> keys[i] in Elements(keys);
      text := "";
      for i := 0 to |keys|
        invariant text == FileText(CommunityLinesOf(communityDB, keys[..i]))
      {
        var line := FormatCommunityLine(communityDB[keys[i]]);
        CommunityLinesOfSnoc(communityDB, keys, i);
        FileTextSnoc(CommunityLinesOf(communityDB, keys[..i]), line);
        text := text + line + "\n";
      }
      PrefixAll(keys);
    }

    /** `saveData`: the texts of users.txt, graph.txt and communities.txt. */
    method SaveData() returns (usersFile: string, graphFile: string, communitiesFile: string)
      modifies this
      ensures adjList == CleanedGraph(old(adjList))
      ensures usersFile == FileText(UserLines(userDB))
      ensures graphFile == FileText(GraphLines(adjList))
      ensures communitiesFile == FileText(CommunityLines(communityDB))
      ensures userDB == old(userDB) && communityDB == old(communityDB) && nextCommunityId == old(nextCommunityId)
    {
      usersFile := SaveUsers();
      graphFile := SaveGraph();
      communitiesFile := SaveCommunities();
    }

    /**
     * The inner loop of both searches: the head's friend list, read through
     * `adjList[...]`, has its unvisited users marked and queued one level
     * deeper.
     */
    method ExpandHead(ghost adj: Adjacency, ghost s: int, ghost cap: nat, q: Queue, visited: set<int>,
                      ghost done: set<int>, ghost level: nat, ghost expanded: set<int>)
      returns (q': Queue, visited': set<int>)
      requires BfsInv(adj, s, cap, q, visited, done, level) && q != [] && q[0].1 < cap
      requires adjList == WithEmptyLists(adj, expanded)
      modifies this
      ensures BfsInv(adj, s, cap, q', visited', done + {q[0].0}, q[0].1)
      ensures adjList == WithEmptyLists(adj, expanded + {q[0].0})
      ensures userDB == old(userDB) && communityDB == old(communityDB) && nextCommunityId == old(nextCommunityId)
    {
      var u, d := q[0].0, q[0].1;
      WithEmptyListsAdd(adj, expanded, u);
      var nbrs := FriendListAt(u);
      q', visited' := VisitNeighbors(nbrs, d, q[1..], visited);
      PopWithExpansion(adj, s, cap, q, visited, done, level, q', visited');
    }
  }

  /**
   * A save followed by a load into a new store (the next run of the
   * backend): users come back with the map key as their id, friend lists
   * come back sorted, without repeats and without self-loops, communities
   * come back without chat, and the community counter restarts just above
   * the largest stored id (or at 100).
   */
  method SaveAndReload(g: NovaGraph) returns (h: NovaGraph)
    requires g.Valid() && UsersPersistable(g.userDB) && GraphPersistable(g.adjList)
    requires forall k :: k in g.communityDB ==> Persistable(g.communityDB[k])
    modifies g
    ensures g.adjList == CleanedGraph(old(g.adjList))
    ensures g.userDB == old(g.userDB) && g.communityDB == old(g.communityDB) && g.nextCommunityId == old(g.nextCommunityId)
    ensures fresh(h) && h.Valid()
    ensures h.userDB == RestoredUsers(g.userDB)
    ensures h.adjList == RestoredGraph(old(g.adjList))
    ensures h.communityDB == RestoredCommunities(g.communityDB)
    ensures NextIdFor(g.communityDB.Keys, h.nextCommunityId)
  {
    var usersFile, graphFile, communitiesFile := g.SaveData();
    UsersFileRoundTrip(g.userDB);
    GraphFileRoundTrip(old(g.adjList));
    CommunitiesFileRoundTrip(g.communityDB);
    h := new NovaGraph();
    h.LoadData(Some(usersFile), Some(graphFile), Some(communitiesFile));
  }

  /** Finishing `u` keeps `expanded` equal to the finished users whose lists are read. */
  lemma FinishHead(done: set<int>, inner: set<int>, expanded: set<int>, u: int)
    requires expanded == done * inner
    ensures u in inner ==> expanded + {u} == (done + {u}) * inner
    ensures u !in inner ==> expanded == (done + {u}) * inner
  {
  }

  /** The head of the queue is an unfinished user within the cap. */
  lemma PopShrinks(adj: Adjacency, s: int, cap: nat, q: Queue, visited: set<int>, done: set<int>, level: nat)
    requires BfsInv(adj, s, cap, q, visited, done, level) && q != []
    ensures q[0].0 in Reach(adj, s, cap) - done
  {
    HeadInLayer(adj, s, cap, q, level);
    assert q[0].1 <= cap;
    ReachMonotone(adj, s, q[0].1, cap);
  }

  /** A user at distance `d` is not closer than `k` when `d >= k`. */
  lemma OutsideInner(adj: Adjacency, s: int, u: int, d: nat, k: int)
    requires InLayer(adj, s, u, d) && d >= k
    ensures u !in Expandable(adj, s, k)
  {
    if k >= 1 && u in Reach(adj, s, k - 1) {
      NotBeforeLayer(adj, s, u, d, k - 1);
    }
  }

  /** A user at distance `d` is at no other distance. */
  lemma NotInOtherLayer(adj: Adjacency, s: int, u: int, d: nat, k: int)
    requires InLayer(adj, s, u, d) && d != k
    ensures !InLayer(adj, s, u, k)
  {
    if InLayer(adj, s, u, k) {
      LayersDisjoint(adj, s, u, d, k);
    }
  }
}
