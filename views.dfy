/**
 * The entries that `getFriendListJSON` and `getConnectionsByDegreeJSON`
 * print for each listed id: the id and the name of the user record that
 * `userDB[id]` yields.  The loops print that record's own `id` field, which
 * for an id without a user is the default record's 0; the recommendation
 * view and `getUserJSON` print the looked-up id itself.
 */
module Views {
  import opened Records
  import opened SortedSets
  import opened Friendships
  import opened Reachability
  import opened NovaGraphModel

  /** The records `userDB[ids[i]]` yields once the reads have inserted defaults. */
  function Looked(db: map<int, User>, ids: seq<int>): (r: seq<User>)
    ensures |r| == |ids|
    ensures forall i :: 0 <= i < |ids| && ids[i] in db ==> r[i] == db[ids[i]]
    ensures forall i :: 0 <= i < |ids| && ids[i] !in db ==> r[i] == DefaultUser
  {
    var withDefaults := WithDefaultUsers(db, set x | x in ids);
    seq(|ids|, i requires 0 <= i < |ids| => withDefaults[ids[i]])
  }

  /** Records read through `userDB[ids[i]]` in turn, from the map before the reads, are `Looked`. */
  lemma ReadRecordsAreLooked(db: map<int, User>, ids: seq<int>, users: seq<User>)
    requires |users| == |ids|
    requires forall i :: 0 <= i < |ids| ==> users[i] == WithDefaultUsers(db, Elements(ids))[ids[i]]
    ensures users == Looked(db, ids)
  {
  }

  /** The (id, name) pairs as the two views print them: each record's own id. */
  function ShownEntries(users: seq<User>): seq<(int, string)>
  {
    seq(|users|, i requires 0 <= i < |users| => (users[i].id, users[i].name))
  }

  /** The (id, name) pairs with the listed id printed, as the recommendation view does. */
  function ListedEntries(ids: seq<int>, users: seq<User>): (r: seq<(int, string)>)
    requires |users| == |ids|
    ensures |r| == |ids|
    ensures forall i :: 0 <= i < |ids| ==> r[i].0 == ids[i] && r[i].1 == users[i].name
  {
    seq(|ids|, i requires 0 <= i < |ids| => (ids[i], users[i].name))
  }

  /**
   * A friend without a user record (a friendship added for an id that was
   * never registered, or a graph.txt line naming one) is printed with id 0
   * instead of its own id.
   */
  lemma UnknownFriendShownAsZero()
    ensures ShownEntries(Looked(map[], [999])) == [(0, "")]
    ensures ListedEntries([999], Looked(map[], [999])) == [(999, "")]
  {
    assert Looked(map[], [999])[0] == DefaultUser;
  }

  /**
   * When every stored user carries its key as its id, the printed ids are
   * the listed ids exactly when every listed id other than 0 has a user.
   */
  lemma ShownEntriesFaithful(db: map<int, User>, ids: seq<int>)
    requires forall k :: k in db ==> db[k].id == k
    ensures ShownEntries(Looked(db, ids)) == ListedEntries(ids, Looked(db, ids)) <==>
            forall i :: 0 <= i < |ids| ==> ids[i] in db || ids[i] == 0
  {
    var users := Looked(db, ids);
    if forall i :: 0 <= i < |ids| ==> ids[i] in db || ids[i] == 0 {
      forall i | 0 <= i < |ids|
        ensures ShownEntries(users)[i] == ListedEntries(ids, users)[i]
      {
      }
    } else {
      var i :| 0 <= i < |ids| && ids[i] !in db && ids[i] != 0;
      assert ShownEntries(users)[i].0 != ListedEntries(ids, users)[i].0;
    }
  }

  /**
   * The entries `getFriendListJSON` prints: the friends in ascending order
   * without repeats, each shown with the id and name of its record.
   */
  method FriendListShown(g: NovaGraph, id: int) returns (friends: seq<int>, shown: seq<(int, string)>)
    modifies g
    ensures id !in old(g.adjList) ==> friends == []
    ensures id in old(g.adjList) ==> StrictlyAscending(friends) && Elements(friends) == Elements(old(g.adjList)[id])
    ensures shown == ShownEntries(Looked(old(g.userDB), friends))
  {
    var users;
    friends, users := g.GetFriendList(id);
    ReadRecordsAreLooked(old(g.userDB), friends, users);
    shown := ShownEntries(users);
  }

  /**
   * The entries `getConnectionsByDegreeJSON` prints: the users at exactly
   * the target distance from a registered start user, each shown with the
   * id and name of its record.
   */
  method ConnectionsShown(g: NovaGraph, startNode: int, targetDegree: int) returns (ids: seq<int>, shown: seq<(int, string)>)
    modifies g
    ensures startNode !in old(g.userDB) ==> ids == []
    ensures startNode in old(g.userDB) ==>
      NoDuplicates(ids) && forall x :: x in ids <==> InLayer(old(g.adjList), startNode, x, targetDegree)
    ensures shown == ShownEntries(Looked(old(g.userDB), ids))
  {
    var users;
    ids, users := g.GetConnectionsByDegree(startNode, targetDegree);
    ReadRecordsAreLooked(old(g.userDB), ids, users);
    shown := ShownEntries(users);
  }

  /**
   * The friend list view as intended: the same friends and records as
   * `getFriendListJSON`, each entry carrying the listed id.
   */
  method FriendListListed(g: NovaGraph, id: int) returns (friends: seq<int>, listed: seq<(int, string)>)
    modifies g
    ensures id !in old(g.adjList) ==> friends == []
    ensures id in old(g.adjList) ==> StrictlyAscending(friends) && Elements(friends) == Elements(old(g.adjList)[id])
    ensures listed == ListedEntries(friends, Looked(old(g.userDB), friends))
  {
    var users;
    friends, users := g.GetFriendList(id);
    ReadRecordsAreLooked(old(g.userDB), friends, users);
    listed := ListedEntries(friends, users);
  }

  /**
   * The connections view as intended: the same users and records as
   * `getConnectionsByDegreeJSON`, each entry carrying the listed id.
   */
  method ConnectionsListed(g: NovaGraph, startNode: int, targetDegree: int) returns (ids: seq<int>, listed: seq<(int, string)>)
    modifies g
    ensures startNode !in old(g.userDB) ==> ids == []
    ensures startNode in old(g.userDB) ==>
      NoDuplicates(ids) && forall x :: x in ids <==> InLayer(old(g.adjList), startNode, x, targetDegree)
    ensures listed == ListedEntries(ids, Looked(old(g.userDB), ids))
  {
    var users;
    ids, users := g.GetConnectionsByDegree(startNode, targetDegree);
    ReadRecordsAreLooked(old(g.userDB), ids, users);
    listed := ListedEntries(ids, users);
  }
}
