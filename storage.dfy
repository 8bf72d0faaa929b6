/**
 * The three data files as whole texts: what `NovaGraph::saveData` writes
 * (one formatted line per map entry, in ascending key order, each followed
 * by a newline) and what `NovaGraph::loadData` makes of a text read line by
 * line (empty lines skipped, each other line applied in turn on top of the
 * maps as they are).  The round-trip lemmas say what survives a save
 * followed by a load into an empty store.
 */
module Storage {
  import opened Wrappers
  import opened Strings
  import opened Numerals
  import opened SortedSets
  import opened Records
  import opened Persistence
  import opened Reachability
  import opened Friendships

  // ------------------------------------------------------------------ files

  /** The text of a file written line by line, each line followed by a newline. */
  function FileText(lines: seq<string>): string
  {
    if lines == [] then "" else lines[0] + "\n" + FileText(lines[1..])
  }

  lemma {:induction false} FileTextSnoc(lines: seq<string>, line: string)
    ensures FileText(lines + [line]) == FileText(lines) + line + "\n"
  {
    if lines != [] {
      assert (lines + [line])[1..] == lines[1..] + [line];
      FileTextSnoc(lines[1..], line);
    }
  }

  /** Reading a written file back with getline gives the lines that were written. */
  lemma {:induction false} FileTextLines(lines: seq<string>)
    requires forall i :: 0 <= i < |lines| ==> '\n' !in lines[i]
    ensures Tokens(FileText(lines), '\n') == lines
  {
    if lines != [] {
      FileTextLines(lines[1..]);
      TokensCons(lines[0], '\n', FileText(lines[1..]));
      assert lines == [lines[0]] + lines[1..];
    }
  }

  /** The entries of `keys` in ascending order are the keys of the map: its iteration order. */
  lemma SortedKeys<V>(m: map<int, V>, i: int)
    requires 0 <= i < |SortedElements(m.Keys)|
    ensures SortedElements(m.Keys)[i] in m
  {
    assert SortedElements(m.Keys)[i] in Elements(SortedElements(m.Keys));
  }

  lemma SplitLast<T>(s: seq<T>)
    requires s != []
    ensures s == s[..|s| - 1] + [s[|s| - 1]]
  {
  }

  // ------------------------------------------------------------------ users

  predicate UserLinesReadable(lines: seq<string>)
  {
    forall i :: 0 <= i < |lines| ==> UserLineReadable(lines[i])
  }

  /** The users after the lines of users.txt are applied in turn to `db`. */
  function LoadedUsers(db: map<int, User>, lines: seq<string>): map<int, User>
    requires UserLinesReadable(lines)
  {
    if lines == [] then db
    else
      var before := LoadedUsers(db, lines[..|lines| - 1]);
      var line := lines[|lines| - 1];
      if line == "" then before
      else match ParseUserLine(line)
        case None => before
        case Some(u) => before[u.id := u]
  }

  /** The lines written for the users under the keys `ks`, in that order. */
  function UserLinesOf(db: map<int, User>, ks: seq<int>): (r: seq<string>)
    requires forall i :: 0 <= i < |ks| ==> ks[i] in db
    ensures |r| == |ks|
  {
    seq(|ks|, i requires 0 <= i < |ks| => FormatUserLine(ks[i], db[ks[i]]))
  }

  lemma UserLinesOfSnoc(db: map<int, User>, ks: seq<int>, i: nat)
    requires i < |ks| && forall j :: 0 <= j < |ks| ==> ks[j] in db
    ensures UserLinesOf(db, ks[..i + 1]) == UserLinesOf(db, ks[..i]) + [FormatUserLine(ks[i], db[ks[i]])]
  {
  }

  /** The lines of users.txt: one per user, by ascending id, the map key as the id. */
  function UserLines(db: map<int, User>): (r: seq<string>)
  {
    var keys := SortedElements(db.Keys);
    assert forall i :: 0 <= i < |keys| ==> keys[i] in Elements(keys);
    UserLinesOf(db, keys)
  }

  /** A user that can be written to users.txt and read back. */
  predicate UserPersistable(id: int, u: User)
  {
    IsInt32(id) && IsInt32(u.karma) && ',' !in u.name && '\n' !in u.name
  }

  predicate UsersPersistable(db: map<int, User>)
  {
    forall k :: k in db ==> UserPersistable(k, db[k])
  }

  /** The users under the keys `K` as read back: the map key becomes the id. */
  function RestoredUsersOn(db: map<int, User>, K: set<int>): map<int, User>
  {
    map k | k in K && k in db :: User(k, db[k].name, db[k].karma)
  }

  lemma RestoredUsersAdd(db: map<int, User>, K: set<int>, k: int)
    requires k in db
    ensures RestoredUsersOn(db, K + {k}) == RestoredUsersOn(db, K)[k := User(k, db[k].name, db[k].karma)]
  {
  }

  /** The users as read back: the map key becomes the id; name and karma are kept. */
  function RestoredUsers(db: map<int, User>): (r: map<int, User>)
    ensures r.Keys == db.Keys
    ensures forall k :: k in r ==> r[k].id == k && r[k].name == db[k].name && r[k].karma == db[k].karma
  {
    RestoredUsersOn(db, db.Keys)
  }

  /** A written user line is one readable line that reads back as the user under its key. */
  lemma UserLineShape(id: int, u: User)
    requires UserPersistable(id, u)
    ensures FormatUserLine(id, u) != "" && '\n' !in FormatUserLine(id, u)
    ensures UserLineReadable(FormatUserLine(id, u))
    ensures ParseUserLine(FormatUserLine(id, u)) == Some(User(id, u.name, u.karma))
  {
    var fields := [IntToString(id), u.name, IntToString(u.karma)];
    IntToStringAvoids(id, '\n');
    IntToStringAvoids(u.karma, '\n');
    JoinChars(fields, ',', '\n');
    UserLineRoundTrip(id, u);
  }

  lemma UserLinesShape(db: map<int, User>, ks: seq<int>)
    requires forall i :: 0 <= i < |ks| ==> ks[i] in db && UserPersistable(ks[i], db[ks[i]])
    ensures forall i :: 0 <= i < |ks| ==> '\n' !in UserLinesOf(db, ks)[i]
    ensures UserLinesReadable(UserLinesOf(db, ks))
  {
    forall i | 0 <= i < |ks|
      ensures '\n' !in UserLinesOf(db, ks)[i] && UserLineReadable(UserLinesOf(db, ks)[i])
    {
      UserLineShape(ks[i], db[ks[i]]);
    }
  }

  /** Loading the lines written for the keys `ks` into an empty store restores those users. */
  lemma {:induction false} LoadUserLines(db: map<int, User>, ks: seq<int>)
    requires forall i :: 0 <= i < |ks| ==> ks[i] in db && UserPersistable(ks[i], db[ks[i]])
    requires UserLinesReadable(UserLinesOf(db, ks))
    ensures LoadedUsers(map[], UserLinesOf(db, ks)) == RestoredUsersOn(db, Elements(ks))
    decreases |ks|
  {
    if ks != [] {
      var init, k := ks[..|ks| - 1], ks[|ks| - 1];
      var lines := UserLinesOf(db, ks);
      assert lines[..|lines| - 1] == UserLinesOf(db, init);
      LoadUserLines(db, init);
      UserLineShape(k, db[k]);
      SplitLast(ks);
      ElementsSnoc(init, k);
      RestoredUsersAdd(db, Elements(init), k);
    }
  }

  /**
   * Saving the users and loading them into an empty store gives every user
   * back under its id, with its name and karma.
   */
  lemma UsersRoundTrip(db: map<int, User>)
    requires UsersPersistable(db)
    ensures forall i :: 0 <= i < |UserLines(db)| ==> '\n' !in UserLines(db)[i]
    ensures UserLinesReadable(UserLines(db))
    ensures LoadedUsers(map[], UserLines(db)) == RestoredUsers(db)
  {
    var keys := SortedElements(db.Keys);
    assert forall i :: 0 <= i < |keys| ==> keys[i] in Elements(keys);
    UserLinesShape(db, keys);
    LoadUserLines(db, keys);
  }

  // ------------------------------------------------------------------ graph

  predicate GraphLinesReadable(lines: seq<string>)
  {
    forall i :: 0 <= i < |lines| ==> lines[i] != "" ==> GraphLineReadable(lines[i])
  }

  /** The adjacency after the lines of graph.txt are applied in turn to `adj`. */
  function LoadedGraph(adj: Adjacency, lines: seq<string>): Adjacency
    requires GraphLinesReadable(lines)
  {
    if lines == [] then adj
    else
      var before := LoadedGraph(adj, lines[..|lines| - 1]);
      var line := lines[|lines| - 1];
      if line == "" then before
      else
        var (id, friends) := ParseGraphLine(line);
        before[id := friends]
  }

  /** The adjacency after `saveData`'s in-place cleanup: every list sorted, without repeats. */
  function CleanedGraph(adj: Adjacency): (r: Adjacency)
    ensures r.Keys == adj.Keys
    ensures forall k :: k in r ==> StrictlyAscending(r[k]) && Elements(r[k]) == Elements(adj[k])
  {
    map k | k in adj :: SortedElements(Elements(adj[k]))
  }

  /** The adjacency with the lists under the keys `K` cleaned and the others as they are. */
  function PartlyCleaned(adj: Adjacency, K: set<int>): (r: Adjacency)
    ensures r.Keys == adj.Keys
  {
    map k | k in adj :: if k in K then SortedElements(Elements(adj[k])) else adj[k]
  }

  lemma PartlyCleanedAdd(adj: Adjacency, K: set<int>, k: int)
    requires k in adj
    ensures PartlyCleaned(adj, K + {k}) == PartlyCleaned(adj, K)[k := SortedElements(Elements(adj[k]))]
  {
  }

  /** Cleaning the list under the next key of `keys` extends the cleaned prefix by that key. */
  lemma CleanStep(adj: Adjacency, keys: seq<int>, i: nat, lists: Adjacency)
    requires i < |keys| && keys[i] in adj
    requires lists == PartlyCleaned(adj, Elements(keys[..i]))
    ensures lists[keys[i] := SortedElements(Elements(lists[keys[i]]))] == PartlyCleaned(adj, Elements(keys[..i + 1]))
    ensures SortedElements(Elements(lists[keys[i]])) == CleanedGraph(adj)[keys[i]]
  {
    PrefixSnoc(keys, i);
    ElementsSnoc(keys[..i], keys[i]);
    PartlyCleanedAdd(adj, Elements(keys[..i]), keys[i]);
  }

  /** Writing the line of the next key of `keys` extends the written text by that line. */
  lemma WriteGraphStep(adj: Adjacency, keys: seq<int>, i: nat, text: string)
    requires i < |keys| && forall j :: 0 <= j < |keys| ==> keys[j] in adj
    requires text == FileText(GraphLinesOf(adj, keys[..i]))
    ensures text + FormatGraphLine(keys[i], adj[keys[i]]) + "\n" == FileText(GraphLinesOf(adj, keys[..i + 1]))
  {
    GraphLinesOfSnoc(adj, keys, i);
    FileTextSnoc(GraphLinesOf(adj, keys[..i]), FormatGraphLine(keys[i], adj[keys[i]]));
  }

  /**
   * The state of the graph save loop after the first `i` keys: those lists
   * are cleaned and their lines written.
   */
  ghost predicate GraphSavedUpTo(adj: Adjacency, keys: seq<int>, i: nat, lists: Adjacency, text: string)
  {
    && i <= |keys|
    && (forall j :: 0 <= j < |keys| ==> keys[j] in adj)
    && lists == PartlyCleaned(adj, Elements(keys[..i]))
    && text == FileText(GraphLinesOf(CleanedGraph(adj), keys[..i]))
  }

  /** Before the loop nothing is cleaned or written. */
  lemma SaveGraphStart(adj: Adjacency)
    ensures GraphSavedUpTo(adj, SortedElements(adj.Keys), 0, adj, "")
  {
    var keys := SortedElements(adj.Keys);
    assert forall j :: 0 <= j < |keys| ==> keys[j] in Elements(keys);
    assert Elements(keys[..0]) == {};
    NothingCleaned(adj);
  }

  /**
   * One round of the graph save loop: cleaning the next list extends the
   * cleaned prefix, and its line extends the written text.
   */
  lemma SaveGraphStep(adj: Adjacency, keys: seq<int>, i: nat, lists: Adjacency, text: string)
    requires GraphSavedUpTo(adj, keys, i, lists, text) && i < |keys|
    ensures keys[i] in lists
    ensures GraphSavedUpTo(adj, keys, i + 1, lists[keys[i] := SortedElements(Elements(lists[keys[i]]))],
                           text + FormatGraphLine(keys[i], SortedElements(Elements(lists[keys[i]]))) + "\n")
  {
    CleanStep(adj, keys, i, lists);
    WriteGraphStep(CleanedGraph(adj), keys, i, text);
  }

  /** After the loop every list is cleaned and every line written. */
  lemma SaveGraphEnd(adj: Adjacency, lists: Adjacency, text: string)
    requires GraphSavedUpTo(adj, SortedElements(adj.Keys), |SortedElements(adj.Keys)|, lists, text)
    ensures lists == CleanedGraph(adj)
    ensures text == FileText(GraphLines(lists))
  {
    PrefixAll(SortedElements(adj.Keys));
    FullyCleaned(adj);
  }

  lemma NothingCleaned(adj: Adjacency)
    ensures PartlyCleaned(adj, {}) == adj
  {
  }

  lemma FullyCleaned(adj: Adjacency)
    ensures PartlyCleaned(adj, adj.Keys) == CleanedGraph(adj)
  {
  }

  /** The lines written for the lists under the keys `ks`, in that order. */
  function GraphLinesOf(adj: Adjacency, ks: seq<int>): (r: seq<string>)
    requires forall i :: 0 <= i < |ks| ==> ks[i] in adj
    ensures |r| == |ks|
  {
    seq(|ks|, i requires 0 <= i < |ks| => FormatGraphLine(ks[i], adj[ks[i]]))
  }

  lemma GraphLinesOfSnoc(adj: Adjacency, ks: seq<int>, i: nat)
    requires i < |ks| && forall j :: 0 <= j < |ks| ==> ks[j] in adj
    ensures GraphLinesOf(adj, ks[..i + 1]) == GraphLinesOf(adj, ks[..i]) + [FormatGraphLine(ks[i], adj[ks[i]])]
  {
  }

  /** The lines of graph.txt: one per list, by ascending id. */
  function GraphLines(adj: Adjacency): (r: seq<string>)
  {
    var keys := SortedElements(adj.Keys);
    assert forall i :: 0 <= i < |keys| ==> keys[i] in Elements(keys);
    GraphLinesOf(adj, keys)
  }

  /** A list that can be written to graph.txt and read back. */
  predicate ListPersistable(id: int, friends: seq<int>)
  {
    IsInt32(id) && forall x :: x in friends ==> IsInt32(x)
  }

  predicate GraphPersistable(adj: Adjacency)
  {
    forall k :: k in adj ==> ListPersistable(k, adj[k])
  }

  /** The lists under the keys `K` as loading leaves them. */
  function RestoredGraphOn(adj: Adjacency, K: set<int>): Adjacency
  {
    map k | k in K && k in adj :: SortedElements(Elements(adj[k]) - {k})
  }

  lemma RestoredGraphAdd(adj: Adjacency, K: set<int>, k: int)
    requires k in adj
    ensures RestoredGraphOn(adj, K + {k}) == RestoredGraphOn(adj, K)[k := SortedElements(Elements(adj[k]) - {k})]
  {
  }

  /** The lists as loading leaves them: ascending, without repeats, without the user itself. */
  function RestoredGraph(adj: Adjacency): (r: Adjacency)
    ensures r.Keys == adj.Keys
    ensures forall k :: k in r ==> StrictlyAscending(r[k]) && Elements(r[k]) == Elements(adj[k]) - {k}
  {
    RestoredGraphOn(adj, adj.Keys)
  }

  /** A written graph line is one readable line that reads back as the cleaned list. */
  lemma GraphLineShape(id: int, friends: seq<int>)
    requires ListPersistable(id, friends)
    ensures FormatGraphLine(id, friends) != "" && '\n' !in FormatGraphLine(id, friends)
    ensures GraphLineReadable(FormatGraphLine(id, friends))
    ensures ParseGraphLine(FormatGraphLine(id, friends)) == (id, SortedElements(Elements(friends) - {id}))
  {
    var fields := [IntToString(id)] + IdStrings(friends);
    IntToStringAvoids(id, '\n');
    IdStringsAvoid(friends, '\n');
    assert forall t :: t in fields ==> t == IntToString(id) || t in IdStrings(friends);
    JoinChars(fields, ',', '\n');
    GraphLineRoundTrip(id, friends);
  }

  lemma GraphLinesShape(adj: Adjacency, ks: seq<int>)
    requires forall i :: 0 <= i < |ks| ==> ks[i] in adj && ListPersistable(ks[i], adj[ks[i]])
    ensures forall i :: 0 <= i < |ks| ==> '\n' !in GraphLinesOf(adj, ks)[i]
    ensures GraphLinesReadable(GraphLinesOf(adj, ks))
  {
    forall i | 0 <= i < |ks|
      ensures '\n' !in GraphLinesOf(adj, ks)[i] && GraphLineReadable(GraphLinesOf(adj, ks)[i])
    {
      GraphLineShape(ks[i], adj[ks[i]]);
    }
  }

  /** Loading the lines written for the keys `ks` into an empty store restores those lists, cleaned. */
  lemma {:induction false} LoadGraphLines(adj: Adjacency, ks: seq<int>)
    requires forall i :: 0 <= i < |ks| ==> ks[i] in adj && ListPersistable(ks[i], adj[ks[i]])
    requires GraphLinesReadable(GraphLinesOf(adj, ks))
    ensures LoadedGraph(map[], GraphLinesOf(adj, ks)) == RestoredGraphOn(adj, Elements(ks))
    decreases |ks|
  {
    if ks != [] {
      var init, k := ks[..|ks| - 1], ks[|ks| - 1];
      var lines := GraphLinesOf(adj, ks);
      assert lines[..|lines| - 1] == GraphLinesOf(adj, init);
      LoadGraphLines(adj, init);
      GraphLineShape(k, adj[k]);
      SplitLast(ks);
      ElementsSnoc(init, k);
      RestoredGraphAdd(adj, Elements(init), k);
    }
  }

  /**
   * Saving the graph (after its cleanup) and loading it into an empty store
   * gives every list back sorted, without repeats and without self-loops.
   */
  lemma GraphRoundTrip(adj: Adjacency)
    requires GraphPersistable(adj)
    ensures forall i :: 0 <= i < |GraphLines(CleanedGraph(adj))| ==> '\n' !in GraphLines(CleanedGraph(adj))[i]
    ensures GraphLinesReadable(GraphLines(CleanedGraph(adj)))
    ensures LoadedGraph(map[], GraphLines(CleanedGraph(adj))) == RestoredGraph(adj)
  {
    var clean := CleanedGraph(adj);
    var keys := SortedElements(clean.Keys);
    assert forall i :: 0 <= i < |keys| ==> keys[i] in Elements(keys);
    CleanedPersistable(adj);
    GraphLinesShape(clean, keys);
    LoadGraphLines(clean, keys);
    CleanedRestores(adj);
  }

  lemma CleanedPersistable(adj: Adjacency)
    requires GraphPersistable(adj)
    ensures GraphPersistable(CleanedGraph(adj))
  {
    var clean := CleanedGraph(adj);
    forall k | k in clean
      ensures ListPersistable(k, clean[k])
    {
      assert forall x :: x in clean[k] ==> x in Elements(adj[k]);
    }
  }

  /** The cleanup does not change what loading gives back. */
  lemma CleanedRestores(adj: Adjacency)
    ensures RestoredGraph(CleanedGraph(adj)) == RestoredGraph(adj)
  {
    var clean := CleanedGraph(adj);
    forall k | k in adj
      ensures RestoredGraph(clean)[k] == RestoredGraph(adj)[k]
    {
      assert Elements(clean[k]) - {k} == Elements(adj[k]) - {k};
    }
  }

  /**
   * The loop of the graph part of `saveData`: each list, by ascending id,
   * is sorted and cleared of repeats, then written on one line.
   */
  method CleanAndWriteGraph(adj: Adjacency) returns (lists: Adjacency, text: string)
    ensures lists == CleanedGraph(adj)
    ensures text == FileText(GraphLines(lists))
  {
    lists := adj;
    text := "";
    var keys := SortedElements(adj.Keys);
    SaveGraphStart(adj);
    for i := 0 to |keys|
      invariant GraphSavedUpTo(adj, keys, i, lists, text)
    {
      var id := keys[i];
      SaveGraphStep(adj, keys, i, lists, text);
      var cleaned := SortedElements(Elements(lists[id]));
      lists := lists[id := cleaned];
      text := text + FormatGraphLine(id, cleaned) + "\n";
    }
    SaveGraphEnd(adj, lists, text);
  }

  /** A loaded graph has no self-loops and no repeated friends, whatever the file held. */
  lemma {:induction false} LoadedGraphSimple(adj: Adjacency, lines: seq<string>)
    requires Simple(adj) && GraphLinesReadable(lines)
    ensures Simple(LoadedGraph(adj, lines))
  {
    if lines != [] {
      LoadedGraphSimple(adj, lines[..|lines| - 1]);
      var line := lines[|lines| - 1];
      if line != "" {
        var (id, friends) := ParseGraphLine(line);
        SimpleUpdate(LoadedGraph(adj, lines[..|lines| - 1]), id, friends);
      }
    }
  }

  /** Storing a clean list keeps the graph simple. */
  lemma SimpleUpdate(adj: Adjacency, id: int, friends: seq<int>)
    requires Simple(adj) && StrictlyAscending(friends) && id !in friends
    ensures Simple(adj[id := friends])
  {
    var r := adj[id := friends];
    forall x
      ensures x !in Friends(r, x) && NoDuplicates(Friends(r, x))
    {
      if x != id {
        assert Friends(r, x) == Friends(adj, x);
      }
    }
  }

  // ------------------------------------------------------------ communities

  predicate CommunityLinesReadable(lines: seq<string>)
  {
    forall i :: 0 <= i < |lines| ==> CommunityLineReadable(lines[i])
  }

  /**
   * One line of communities.txt applied to the communities and the next
   * id: a line read replaces the community under its id, and the next id
   * moves past it; an empty or short line changes nothing.
   */
  function LoadCommunityLine(loaded: (map<int, Community>, int), line: string): (map<int, Community>, int)
    requires CommunityLineReadable(line)
  {
    if line == "" then loaded
    else match ParseCommunityLine(line)
      case None => loaded
      case Some(c) => (loaded.0[c.id := c], if c.id >= loaded.1 then c.id + 1 else loaded.1)
  }

  /** The communities and the next community id after the lines of communities.txt are applied in turn. */
  function LoadedCommunities(db: map<int, Community>, next: int, lines: seq<string>): (map<int, Community>, int)
    requires CommunityLinesReadable(lines)
  {
    if lines == [] then (db, next)
    else LoadCommunityLine(LoadedCommunities(db, next, lines[..|lines| - 1]), lines[|lines| - 1])
  }

  /** The lines written for the communities under the keys `ks`, in that order. */
  function CommunityLinesOf(db: map<int, Community>, ks: seq<int>): (r: seq<string>)
    requires forall i :: 0 <= i < |ks| ==> ks[i] in db
    ensures |r| == |ks|
  {
    seq(|ks|, i requires 0 <= i < |ks| => FormatCommunityLine(db[ks[i]]))
  }

  lemma CommunityLinesOfSnoc(db: map<int, Community>, ks: seq<int>, i: nat)
    requires i < |ks| && forall j :: 0 <= j < |ks| ==> ks[j] in db
    ensures CommunityLinesOf(db, ks[..i + 1]) == CommunityLinesOf(db, ks[..i]) + [FormatCommunityLine(db[ks[i]])]
  {
  }

  /** The lines of communities.txt: one per community, by ascending key. */
  function CommunityLines(db: map<int, Community>): (r: seq<string>)
  {
    var keys := SortedElements(db.Keys);
    assert forall i :: 0 <= i < |keys| ==> keys[i] in Elements(keys);
    CommunityLinesOf(db, keys)
  }

  /** Each community is stored under its own id, below `next`. */
  ghost predicate Keyed(db: map<int, Community>, next: int)
  {
    forall k :: k in db ==> db[k].id == k && k < next
  }

  /** Loading keeps every community under its own id and the next id above them all. */
  lemma {:induction false} LoadedCommunitiesKeyed(db: map<int, Community>, next: int, lines: seq<string>)
    requires Keyed(db, next) && CommunityLinesReadable(lines)
    ensures Keyed(LoadedCommunities(db, next, lines).0, LoadedCommunities(db, next, lines).1)
    ensures LoadedCommunities(db, next, lines).1 >= next
  {
    if lines != [] {
      LoadedCommunitiesKeyed(db, next, lines[..|lines| - 1]);
    }
  }

  /** The communities under the keys `K` as read back: the chat history is not stored. */
  function RestoredCommunitiesOn(db: map<int, Community>, K: set<int>): map<int, Community>
  {
    map k | k in K && k in db :: db[k].(chatHistory := [])
  }

  lemma RestoredCommunitiesAdd(db: map<int, Community>, K: set<int>, k: int)
    requires k in db
    ensures RestoredCommunitiesOn(db, K + {k}) == RestoredCommunitiesOn(db, K)[k := db[k].(chatHistory := [])]
  {
  }

  /** The communities as read back: the chat history is not stored. */
  function RestoredCommunities(db: map<int, Community>): (r: map<int, Community>)
    ensures r.Keys == db.Keys
    ensures forall k :: k in r ==> r[k] == db[k].(chatHistory := [])
  {
    RestoredCommunitiesOn(db, db.Keys)
  }

  /** A community stored under its own id that can be written and read back. */
  predicate StoredPersistable(db: map<int, Community>, k: int)
  {
    k in db && db[k].id == k && Persistable(db[k])
  }

  lemma CommunityLinesShape(db: map<int, Community>, ks: seq<int>)
    requires forall i :: 0 <= i < |ks| ==> ks[i] in db && StoredPersistable(db, ks[i])
    ensures forall i :: 0 <= i < |ks| ==> '\n' !in CommunityLinesOf(db, ks)[i]
    ensures CommunityLinesReadable(CommunityLinesOf(db, ks))
  {
    forall i | 0 <= i < |ks|
      ensures '\n' !in CommunityLinesOf(db, ks)[i] && CommunityLineReadable(CommunityLinesOf(db, ks)[i])
    {
      CommunityLineRoundTrip(db[ks[i]]);
    }
  }

  /** The next id after loading communities with the ids `ks` in order, starting from 100. */
  function NextAfter(ks: seq<int>): int
  {
    if ks == [] then 100
    else
      var n := NextAfter(ks[..|ks| - 1]);
      var k := ks[|ks| - 1];
      if k >= n then k + 1 else n
  }

  /** `next` is the least value that is at least 100 and above every id in `K`. */
  predicate NextIdFor(K: set<int>, next: int)
  {
    next >= 100 && (forall k :: k in K ==> k < next) && (next == 100 || next - 1 in K)
  }

  /** The next id is the least value that is at least 100 and above every loaded id. */
  lemma {:induction false} NextAfterBounds(ks: seq<int>)
    ensures NextIdFor(Elements(ks), NextAfter(ks))
    decreases |ks|
  {
    if ks != [] {
      var init, k := ks[..|ks| - 1], ks[|ks| - 1];
      NextAfterBounds(init);
      SplitLast(ks);
      ElementsSnoc(init, k);
    }
  }

  /**
   * Loading the lines written for the keys `ks` into an empty store with
   * next id 100 restores those communities without chat.
   */
  lemma {:induction false} LoadCommunityLines(db: map<int, Community>, ks: seq<int>)
    requires forall i :: 0 <= i < |ks| ==> ks[i] in db && StoredPersistable(db, ks[i])
    requires CommunityLinesReadable(CommunityLinesOf(db, ks))
    ensures LoadedCommunities(map[], 100, CommunityLinesOf(db, ks)) == (RestoredCommunitiesOn(db, Elements(ks)), NextAfter(ks))
    decreases |ks|
  {
    if ks != [] {
      var init, k := ks[..|ks| - 1], ks[|ks| - 1];
      var lines := CommunityLinesOf(db, ks);
      assert lines[..|lines| - 1] == CommunityLinesOf(db, init);
      LoadCommunityLines(db, init);
      CommunityLineRoundTrip(db[k]);
      assert lines[|lines| - 1] == FormatCommunityLine(db[k]);
      LoadParsedLine(LoadedCommunities(map[], 100, lines[..|lines| - 1]), lines[|lines| - 1], db[k].(chatHistory := []));
      SplitLast(ks);
      ElementsSnoc(init, k);
      RestoredCommunitiesAdd(db, Elements(init), k);
    }
  }

  /** Loading a line that parses stores its community over what was loaded before. */
  lemma LoadParsedLine(loaded: (map<int, Community>, int), line: string, c: Community)
    requires CommunityLineReadable(line) && ParseCommunityLine(line) == Some(c)
    ensures LoadCommunityLine(loaded, line) == (loaded.0[c.id := c], if c.id >= loaded.1 then c.id + 1 else loaded.1)
  {
    EmptyCommunityLine();
  }

  /** The empty line reads as no community. */
  lemma EmptyCommunityLine()
    ensures CommunityLineReadable("") && ParseCommunityLine("") == None
  {
    assert Tokens("", '|') == [];
  }

  /**
   * Saving the communities and loading them into an empty store gives each
   * community back without its chat, and the next id becomes the least
   * value that is at least 100 and above every community id.
   */
  lemma CommunitiesRoundTrip(db: map<int, Community>)
    requires forall k :: k in db ==> StoredPersistable(db, k)
    ensures forall i :: 0 <= i < |CommunityLines(db)| ==> '\n' !in CommunityLines(db)[i]
    ensures CommunityLinesReadable(CommunityLines(db))
    ensures LoadedCommunities(map[], 100, CommunityLines(db)).0 == RestoredCommunities(db)
    ensures NextIdFor(db.Keys, LoadedCommunities(map[], 100, CommunityLines(db)).1)
  {
    var keys := SortedElements(db.Keys);
    assert forall i :: 0 <= i < |keys| ==> keys[i] in Elements(keys);
    assert CommunityLines(db) == CommunityLinesOf(db, keys);
    CommunityLinesShape(db, keys);
    LoadAllCommunityLines(db, keys);
  }

  /** Loading the lines written for every key, once each, restores the whole store without chat. */
  lemma LoadAllCommunityLines(db: map<int, Community>, keys: seq<int>)
    requires Elements(keys) == db.Keys
    requires forall i :: 0 <= i < |keys| ==> keys[i] in db && StoredPersistable(db, keys[i])
    requires CommunityLinesReadable(CommunityLinesOf(db, keys))
    ensures LoadedCommunities(map[], 100, CommunityLinesOf(db, keys)).0 == RestoredCommunities(db)
    ensures NextIdFor(db.Keys, LoadedCommunities(map[], 100, CommunityLinesOf(db, keys)).1)
  {
    LoadCommunityLines(db, keys);
    NextAfterBounds(keys);
  }

  // ---------------------------------------------------------- whole files

  /** users.txt as saved, read back line by line into an empty store. */
  lemma UsersFileRoundTrip(db: map<int, User>)
    requires UsersPersistable(db)
    ensures UserLinesReadable(Tokens(FileText(UserLines(db)), '\n'))
    ensures LoadedUsers(map[], Tokens(FileText(UserLines(db)), '\n')) == RestoredUsers(db)
  {
    UsersRoundTrip(db);
    FileTextLines(UserLines(db));
  }

  /** graph.txt as saved (after the cleanup), read back line by line into an empty store. */
  lemma GraphFileRoundTrip(adj: Adjacency)
    requires GraphPersistable(adj)
    ensures GraphLinesReadable(Tokens(FileText(GraphLines(CleanedGraph(adj))), '\n'))
    ensures LoadedGraph(map[], Tokens(FileText(GraphLines(CleanedGraph(adj))), '\n')) == RestoredGraph(adj)
  {
    GraphRoundTrip(adj);
    FileTextLines(GraphLines(CleanedGraph(adj)));
  }

  /** communities.txt as saved, read back line by line into an empty store with next id 100. */
  lemma CommunitiesFileRoundTrip(db: map<int, Community>)
    requires forall k :: k in db ==> StoredPersistable(db, k)
    ensures CommunityLinesReadable(Tokens(FileText(CommunityLines(db)), '\n'))
    ensures LoadedCommunities(map[], 100, Tokens(FileText(CommunityLines(db)), '\n')).0 == RestoredCommunities(db)
    ensures NextIdFor(db.Keys, LoadedCommunities(map[], 100, Tokens(FileText(CommunityLines(db)), '\n')).1)
  {
    CommunitiesRoundTrip(db);
    FileTextLines(CommunityLines(db));
  }
}
