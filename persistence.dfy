/**
 * The one-line text formats of data/users.txt, data/graph.txt and
 * data/communities.txt, as `NovaGraph::saveData` writes each line and
 * `NovaGraph::loadData` reads it back (the files themselves are not part of
 * this model; a line here is one `getline(file, line)` result, without its
 * newline).
 *
 *   users.txt        id,name,karma          (karma optional when read)
 *   graph.txt        id,f1,f2,...
 *   communities.txt  id|name|desc|t1,t2,...|m1,m2,...   (NULL for no members)
 */
module Persistence {
  import opened Wrappers
  import opened Strings
  import opened Numerals
  import opened SortedSets
  import opened Records

  /** The printed forms of a list of ids. */
  function IdStrings(ids: seq<int>): seq<string>
  {
    seq(|ids|, i requires 0 <= i < |ids| => IntToString(ids[i]))
  }

  /** The ids that a list of numeric tokens denotes. */
  function ParsedIds(ts: seq<string>): set<int>
    requires forall t :: t in ts ==> Stoi(t).Some?
  {
    set t | t in ts :: Stoi(t).value
  }

  lemma ParsedIdsSnoc(ts: seq<string>, t: string)
    requires forall x :: x in ts ==> Stoi(x).Some?
    requires Stoi(t).Some?
    ensures ParsedIds(ts + [t]) == ParsedIds(ts) + {Stoi(t).value}
  {
  }

  // ---------------------------------------------------------------- users

  function FormatUserLine(id: int, u: User): string
  {
    Join([IntToString(id), u.name, IntToString(u.karma)], ',')
  }

  /** `stoi(parts[0])` does not throw on this line. */
  predicate UserLineReadable(line: string)
  {
    var parts := Tokens(line, ',');
    |parts| >= 2 ==> Stoi(parts[0]).Some?
  }

  /**
   * A users.txt line: skipped when it has fewer than two fields; a karma
   * field that is missing or that `stoi` rejects gives karma 0.
   */
  function ParseUserLine(line: string): (r: Option<User>)
    requires UserLineReadable(line)
    ensures r.Some? <==> |Tokens(line, ',')| >= 2
    ensures r.Some? ==> IsInt32(r.value.id) && IsInt32(r.value.karma)
    ensures r.Some? ==> r.value.name == Tokens(line, ',')[1]
  {
    var parts := Tokens(line, ',');
    if |parts| < 2 then None
    else
      var karma := if |parts| > 2 then Stoi(parts[2]).GetOr(0) else 0;
      Some(User(Stoi(parts[0]).value, parts[1], karma))
  }

  /**
   * The fields of a users.txt line with at least two fields: the id as
   * `stoi` reads it, the name, and a karma that is the third field when
   * `stoi` accepts it and 0 when that field is missing or rejected.
   */
  lemma UserLineFields(line: string)
    requires UserLineReadable(line) && |Tokens(line, ',')| >= 2
    ensures ParseUserLine(line).Some?
    ensures Some(ParseUserLine(line).value.id) == Stoi(Tokens(line, ',')[0])
    ensures ParseUserLine(line).value.name == Tokens(line, ',')[1]
    ensures |Tokens(line, ',')| > 2 && Stoi(Tokens(line, ',')[2]).Some? ==>
      ParseUserLine(line).value.karma == Stoi(Tokens(line, ',')[2]).value
    ensures |Tokens(line, ',')| == 2 || Stoi(Tokens(line, ',')[2]).None? ==> ParseUserLine(line).value.karma == 0
  {
  }

  // ---------------------------------------------------------------- graph

  function FormatGraphLine(id: int, friends: seq<int>): string
  {
    Join([IntToString(id)] + IdStrings(friends), ',')
  }

  /** Every field of a non-empty graph line is a numeral `stoi` accepts. */
  predicate GraphLineReadable(line: string)
  {
    line != [] && forall t :: t in Tokens(line, ',') ==> Stoi(t).Some?
  }

  /**
   * A graph.txt line after the load-time cleanup: self-loops dropped, the
   * friend ids sorted and de-duplicated.
   */
  function ParseGraphLine(line: string): (r: (int, seq<int>))
    requires GraphLineReadable(line)
    ensures var parts := Tokens(line, ',');
      && Some(r.0) == Stoi(parts[0])
      && StrictlyAscending(r.1)
      && r.0 !in r.1
      && Elements(r.1) == ParsedIds(parts[1..]) - {r.0}
  {
    var parts := Tokens(line, ',');
    var id := Stoi(parts[0]).value;
    (id, SortedElements(ParsedIds(parts[1..]) - {id}))
  }

  // ---------------------------------------------------------- communities

  /** The member field: ids in `std::set` order, or NULL for no members. */
  function MembersField(members: set<int>): string
  {
    if members == {} then "NULL" else Join(IdStrings(SortedElements(members)), ',')
  }

  function FormatCommunityLine(c: Community): string
  {
    Join([IntToString(c.id), c.name, c.description, Join(c.tags, ','), MembersField(c.members)], '|')
  }

  /** `stoi` does not throw on the id field or on any member field. */
  predicate CommunityLineReadable(line: string)
  {
    var parts := Tokens(line, '|');
    |parts| >= 4 ==>
      && Stoi(parts[0]).Some?
      && (|parts| > 4 && parts[4] != "NULL" ==> forall t :: t in Tokens(parts[4], ',') ==> Stoi(t).Some?)
  }

  /**
   * A communities.txt line: skipped with fewer than four fields; the member
   * field is optional; fields after the fifth are ignored.  The chat history
   * is not stored, so it comes back empty.
   */
  function ParseCommunityLine(line: string): (r: Option<Community>)
    requires CommunityLineReadable(line)
    ensures r.Some? <==> |Tokens(line, '|')| >= 4
    ensures r.Some? ==> IsInt32(r.value.id) && r.value.chatHistory == []
  {
    var parts := Tokens(line, '|');
    if |parts| < 4 then None
    else
      var members := if |parts| > 4 && parts[4] != "NULL" then ParsedIds(Tokens(parts[4], ',')) else {};
      Some(Community(Stoi(parts[0]).value, parts[1], parts[2], Tokens(parts[3], ','), members, []))
  }

  /**
   * The fields of a communities.txt line with at least four fields: id,
   * name, description and the comma-separated tags, then the members of the
   * fifth field, or none when that field is missing or NULL.
   */
  lemma CommunityLineFields(line: string)
    requires CommunityLineReadable(line) && |Tokens(line, '|')| >= 4
    ensures ParseCommunityLine(line).Some?
    ensures Some(ParseCommunityLine(line).value.id) == Stoi(Tokens(line, '|')[0])
    ensures ParseCommunityLine(line).value.name == Tokens(line, '|')[1]
    ensures ParseCommunityLine(line).value.description == Tokens(line, '|')[2]
    ensures ParseCommunityLine(line).value.tags == Tokens(Tokens(line, '|')[3], ',')
    ensures |Tokens(line, '|')| == 4 || Tokens(line, '|')[4] == "NULL" ==> ParseCommunityLine(line).value.members == {}
    ensures |Tokens(line, '|')| > 4 && Tokens(line, '|')[4] != "NULL" ==>
      ParseCommunityLine(line).value.members == ParsedIds(Tokens(Tokens(line, '|')[4], ','))
    ensures ParseCommunityLine(line).value.chatHistory == []
  {
  }

  // ----------------------------------------------------------- round trips

  /** A printed id holds no character other than digits and a leading minus. */
  lemma IntToStringAvoids(n: int, ch: char)
    requires !IsDigit(ch) && ch != '-'
    ensures ch !in IntToString(n)
  {
    var s := IntToString(n);
    forall i | 0 <= i < |s|
      ensures s[i] != ch
    {
      if i > 0 {
        assert IsDigit(s[i]);
      }
    }
  }

  lemma IdStringsAvoid(ids: seq<int>, ch: char)
    requires !IsDigit(ch) && ch != '-'
    ensures forall t :: t in IdStrings(ids) ==> t != "" && ch !in t
  {
    forall t | t in IdStrings(ids)
      ensures t != "" && ch !in t
    {
      var i :| 0 <= i < |ids| && IdStrings(ids)[i] == t;
      IntToStringAvoids(ids[i], ch);
    }
  }

  /** The printed ids, split again, denote the ids. */
  lemma ParsedIdStrings(ids: seq<int>)
    requires forall x :: x in ids ==> IsInt32(x)
    ensures forall t :: t in IdStrings(ids) ==> Stoi(t).Some?
    ensures ParsedIds(IdStrings(ids)) == Elements(ids)
  {
    var ts := IdStrings(ids);
    forall i | 0 <= i < |ids|
      ensures Stoi(ts[i]) == Some(ids[i])
    {
      StoiOfIntToString(ids[i]);
    }
    assert forall t :: t in ts ==> exists i :: 0 <= i < |ids| && ts[i] == t;
    forall x | x in ids
      ensures x in ParsedIds(ts)
    {
      var i :| 0 <= i < |ids| && ids[i] == x;
      assert ts[i] in ts;
    }
  }

  /** A list of printed ids joined with `,`, split again, gives the printed ids. */
  lemma TokensOfIdStrings(ids: seq<int>)
    ensures Tokens(Join(IdStrings(ids), ','), ',') == IdStrings(ids)
  {
    IdStringsAvoid(ids, ',');
    if ids != [] {
      assert IdStrings(ids)[|ids| - 1] in IdStrings(ids);
    }
    TokensOfJoin(IdStrings(ids), ',');
  }

  /** A user line written by saveData is read back with the same id, name and karma. */
  lemma UserLineRoundTrip(id: int, u: User)
    requires IsInt32(id) && IsInt32(u.karma)
    requires ',' !in u.name
    ensures UserLineReadable(FormatUserLine(id, u))
    ensures ParseUserLine(FormatUserLine(id, u)) == Some(User(id, u.name, u.karma))
  {
    var fields := [IntToString(id), u.name, IntToString(u.karma)];
    IntToStringAvoids(id, ',');
    IntToStringAvoids(u.karma, ',');
    TokensOfJoin(fields, ',');
    StoiOfIntToString(id);
    StoiOfIntToString(u.karma);
  }

  /** An old two-field user line ("id,name") loads with karma 0. */
  lemma LegacyUserLine(id: int, name: string)
    requires IsInt32(id)
    requires name != "" && ',' !in name
    ensures UserLineReadable(IntToString(id) + "," + name)
    ensures ParseUserLine(IntToString(id) + "," + name) == Some(User(id, name, 0))
  {
    IntToStringAvoids(id, ',');
    assert IntToString(id) + "," + name == Join([IntToString(id), name], ',');
    TokensOfJoin([IntToString(id), name], ',');
    StoiOfIntToString(id);
  }

  /** A user line whose third field `stoi` rejects (say "7,ann,xyz") loads with karma 0. */
  lemma UnreadableKarmaLine(id: int, name: string, karma: string)
    requires IsInt32(id)
    requires name != "" && ',' !in name
    requires karma != "" && ',' !in karma && Stoi(karma).None?
    ensures UserLineReadable(IntToString(id) + "," + name + "," + karma)
    ensures ParseUserLine(IntToString(id) + "," + name + "," + karma) == Some(User(id, name, 0))
  {
    IntToStringAvoids(id, ',');
    var fields := [IntToString(id), name, karma];
    assert fields[1..] == [name, karma] && fields[1..][1..] == [karma];
    assert Join([name, karma], ',') == name + "," + karma;
    assert IntToString(id) + "," + name + "," + karma == Join(fields, ',');
    TokensOfJoin(fields, ',');
    StoiOfIntToString(id);
    UserLineFields(IntToString(id) + "," + name + "," + karma);
  }

  /** A graph line written by saveData reads back as its id and the cleaned list. */
  lemma GraphLineReads(id: int, friends: seq<int>)
    requires IsInt32(id) && forall x :: x in friends ==> IsInt32(x)
    ensures GraphLineReadable(FormatGraphLine(id, friends))
    ensures ParseGraphLine(FormatGraphLine(id, friends)) == (id, SortedElements(Elements(friends) - {id}))
  {
    var fields := [IntToString(id)] + IdStrings(friends);
    IntToStringAvoids(id, ',');
    IdStringsAvoid(friends, ',');
    assert fields[|fields| - 1] in fields;
    TokensOfJoin(fields, ',');
    StoiOfIntToString(id);
    ParsedIdStrings(friends);
    assert fields[1..] == IdStrings(friends);
    assert FormatGraphLine(id, friends) != [] by {
      JoinTokens(FormatGraphLine(id, friends), ',');
    }
  }

  /**
   * A graph line written by saveData is read back as the written id and the
   * cleaned list: distinct ids in ascending order, the line's own id removed.
   * A list that saveData has already cleaned comes back unchanged.
   */
  lemma GraphLineRoundTrip(id: int, friends: seq<int>)
    requires IsInt32(id) && forall x :: x in friends ==> IsInt32(x)
    ensures GraphLineReadable(FormatGraphLine(id, friends))
    ensures ParseGraphLine(FormatGraphLine(id, friends)) == (id, SortedElements(Elements(friends) - {id}))
    ensures StrictlyAscending(friends) && id !in friends ==>
      ParseGraphLine(FormatGraphLine(id, friends)) == (id, friends)
  {
    GraphLineReads(id, friends);
    if StrictlyAscending(friends) && id !in friends {
      var kept := Elements(friends) - {id};
      assert kept == Elements(friends) by {
        assert id !in Elements(friends);
      }
      SortedElementsUnique(friends);
      assert SortedElements(kept) == friends;
    }
  }

  /** The conditions under which a community survives a save and a load. */
  predicate Persistable(c: Community)
  {
    && IsInt32(c.id)
    && (forall m :: m in c.members ==> IsInt32(m))
    && '|' !in c.name && '\n' !in c.name
    && '|' !in c.description && '\n' !in c.description
    && (forall t :: t in c.tags ==> '|' !in t && ',' !in t && '\n' !in t)
    && (c.tags != [] ==> c.tags[|c.tags| - 1] != "")
  }

  lemma MembersFieldShape(members: set<int>)
    ensures MembersField(members) != ""
    ensures '|' !in MembersField(members) && '\n' !in MembersField(members)
    ensures members != {} ==> MembersField(members) != "NULL"
  {
    if members != {} {
      var ids := SortedElements(members);
      IdStringsAvoid(ids, '|');
      IdStringsAvoid(ids, '\n');
      var ts := IdStrings(ids);
      var f := Join(ts, ',');
      JoinChars(ts, ',', '|');
      JoinChars(ts, ',', '\n');
      assert ts[0] in ts;
      JoinStartsWith(ts, ',');
      IntToStringAvoids(ids[0], 'N');
      assert f[0] == ts[0][0];
      assert f[0] != 'N';
    }
  }

  /** A join holds no character that neither the tokens nor the separator hold. */
  lemma {:induction false} JoinChars(ts: seq<string>, d: char, ch: char)
    requires ch != d && forall t :: t in ts ==> ch !in t
    ensures ch !in Join(ts, d)
    decreases |ts|
  {
    if |ts| > 1 {
      assert forall t :: t in ts[1..] ==> t in ts;
      JoinChars(ts[1..], d, ch);
      assert ts[0] in ts;
    }
  }

  /** A join starts with its first token. */
  lemma JoinStartsWith(ts: seq<string>, d: char)
    requires ts != [] && ts[0] != ""
    ensures Join(ts, d) != "" && Join(ts, d)[0] == ts[0][0]
  {
  }

  /**
   * A community line written by saveData is read back as the same community
   * without its chat history, and the line holds no newline, so it is one
   * line of the file.
   */
  lemma CommunityLineRoundTrip(c: Community)
    requires Persistable(c)
    ensures '\n' !in FormatCommunityLine(c)
    ensures CommunityLineReadable(FormatCommunityLine(c))
    ensures ParseCommunityLine(FormatCommunityLine(c)) == Some(c.(chatHistory := []))
  {
    var tagField := Join(c.tags, ',');
    var memberField := MembersField(c.members);
    var fields := [IntToString(c.id), c.name, c.description, tagField, memberField];
    IntToStringAvoids(c.id, '|');
    IntToStringAvoids(c.id, '\n');
    JoinChars(c.tags, ',', '|');
    JoinChars(c.tags, ',', '\n');
    MembersFieldShape(c.members);
    JoinChars(fields, '|', '\n');
    TokensOfJoin(fields, '|');
    StoiOfIntToString(c.id);
    TokensOfJoin(c.tags, ',');
    if c.members != {} {
      var ids := SortedElements(c.members);
      TokensOfIdStrings(ids);
      ParsedIdStrings(ids);
    }
  }
}
