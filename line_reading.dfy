/**
 * The per-line work of `NovaGraph::loadData` as it is written: the line is
 * split with `NovaGraph::split`, each numeric field is read with `stoi`,
 * and the fields are collected into a record.  Each method is proved to
 * compute what the corresponding parser in `Persistence` defines.
 */
module LineReading {
  import opened Wrappers
  import opened Strings
  import opened Numerals
  import opened SortedSets
  import opened Records
  import opened Persistence

  /** One non-empty users.txt line: a user when it has at least two fields. */
  method ReadUserLine(line: string) returns (u: Option<User>)
    requires UserLineReadable(line)
    ensures u == ParseUserLine(line)
  {
    var parts := Split(line, ',');
    if |parts| < 2 {
      return None;
    }
    var id := Stoi(parts[0]).value;
    var name := parts[1];
    var karma := 0;
    if |parts| > 2 {
      karma := Stoi(parts[2]).GetOr(0);
    }
    u := Some(User(id, name, karma));
  }

  /**
   * One non-empty graph.txt line: the id, and the other ids with the id
   * itself skipped, then sorted and cleared of repeats.
   */
  method ReadGraphLine(line: string) returns (id: int, friends: seq<int>)
    requires GraphLineReadable(line)
    ensures (id, friends) == ParseGraphLine(line)
  {
    var parts := Split(line, ',');
    id := Stoi(parts[0]).value;
    var kept := OtherIds(parts[1..], id);
    friends := SortedElements(Elements(kept));
  }

  /** The ids the fields `rest` denote, in order, with `id` skipped. */
  method OtherIds(rest: seq<string>, id: int) returns (kept: seq<int>)
    requires forall t :: t in rest ==> Stoi(t).Some?
    ensures Elements(kept) == ParsedIds(rest) - {id}
  {
    kept := [];
    for j := 0 to |rest|
      invariant Elements(kept) == ParsedIds(rest[..j]) - {id}
    {
      PrefixSnoc(rest, j);
      OtherIdsStep(kept, rest[..j], rest[j], id);
      var friendId := Stoi(rest[j]).value;
      if friendId == id {
        continue;
      }
      kept := kept + [friendId];
    }
    PrefixAll(rest);
  }

  lemma OtherIdsStep(kept: seq<int>, done: seq<string>, t: string, id: int)
    requires forall u :: u in done ==> Stoi(u).Some?
    requires Stoi(t).Some? && Elements(kept) == ParsedIds(done) - {id}
    ensures var x := Stoi(t).value;
      Elements(if x == id then kept else kept + [x]) == ParsedIds(done + [t]) - {id}
  {
    ParsedIdsSnoc(done, t);
    ElementsSnoc(kept, Stoi(t).value);
  }

  /** One non-empty communities.txt line: a community when it has at least four fields. */
  method ReadCommunityLine(line: string) returns (c: Option<Community>)
    requires CommunityLineReadable(line)
    ensures c == ParseCommunityLine(line)
  {
    var parts := Split(line, '|');
    if |parts| < 4 {
      return None;
    }
    var tags := Split(parts[3], ',');
    var members: set<int> := {};
    if |parts| > 4 && parts[4] != "NULL" {
      var memList := Split(parts[4], ',');
      for k := 0 to |memList|
        invariant members == ParsedIds(memList[..k])
      {
        PrefixSnoc(memList, k);
        ParsedIdsSnoc(memList[..k], memList[k]);
        members := members + {Stoi(memList[k]).value};
      }
      PrefixAll(memList);
    }
    c := Some(Community(Stoi(parts[0]).value, parts[1], parts[2], tags, members, []));
  }
}
