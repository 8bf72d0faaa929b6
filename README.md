# NovaCom core, modelled in Dafny

NovaCom is a small social network. Its C++ backend keeps everything in one
object, `NovaGraph` (`backend/src/Graph.cpp`), which holds four pieces of state:

- the user records `userDB` (id, name, karma);
- the friendship lists `adjList` (id to a vector of friend ids);
- the communities `communityDB` (tags, a member set and an append-only chat
  history whose messages collect upvotes);
- the counter `nextCommunityId`, which starts at 100.

On top of that state it offers these operations:

- mutators: `addUser`, `addFriendship`, `createCommunity`, `joinCommunity`,
  `addMessage`, `upvoteMessage`;
- graph queries that each run one BFS or counting pass:
  - the relation degree, capped at 3;
  - the users at an exact degree;
  - friend-of-friend recommendations ranked by mutual friends;
  - a cleaned friend list;
- persistence to three line-oriented text files (`users.txt`, `graph.txt`,
  `communities.txt`), written by `saveData` and read back by `loadData`
  through a `std::getline` based `split`.

The React frontend contributes two pure list functions. `toggleTag` in
`TagSelector.jsx` adds or removes a tag from the selected tags. The
`filtered` predicate in `CommunityExplorer.jsx` selects the communities
shown for a tag filter and a case-insensitive search term.

The model is laid out as follows:

- `NovaGraphModel.NovaGraph` is a class with the four fields. Every mutator
  and query is a method. Its contract states the whole new state, except
  for `GetRelationDegree`, which only bounds the lists it adds (see
  "Left out").
- The queue, count, load and save loops of the source (the BFS queue, the
  frequency count, the line-by-line loading and saving, `split`) are
  `while`/`for` loops proved against functional definitions. `sort` with
  `unique` and the loops that write the tag and member fields are modelled
  by the functions that give their results (`SortedElements`, `Join`,
  `MembersField`). The definitions live in the modules below.
- `Reachability` and `Bfs` define distances from sets reached in `k` steps,
  plus the BFS invariant.
- `Friendships` defines the adjacency update and the symmetry and simplicity
  of the graph.
- `Recommendations` defines mutual-friend counts and the ordering by count.
- `Persistence` and `Storage` hold the line formats and whole-file round
  trips.
- `Strings` and `Numerals` model `getline` splitting, `stoi` and integer
  printing.
- `SortedSets` models `sort` followed by `unique`.
- The frontend is modelled by pure functions in `TagSelection`,
  `CommunityBrowsing` and `Filtering`.

`std::map::operator[]` inserts a default entry when it reads a missing key.
The model keeps that effect: a read of `userDB[x]` for an unknown `x` stores
`User(0, "", 0)` under `x`, and a read of `adjList[x]` stores an empty list.
Each query's contract says exactly which entries it adds
(`WithDefaultUsers`, `WithEmptyLists`); `GetRelationDegree` only bounds them.

The program follows `Graph.cpp` where it differs from the headers:

- `createCommunity` takes a name, a description and one comma-separated
  tag string;
- `upvoteMessage` takes no voter and keeps no voter set, so every call
  counts;
- the user's name field is `name`.

## Model

| member | source | states |
|---|---|---|
| Strings.Tokens | backend/src/Graph.cpp:17-25 | the tokens `getline` yields: no token contains the delimiter, and there are none exactly when the text is empty |
| Strings.ReadToken | backend/src/Graph.cpp:21 | one `getline` call: the token is the text up to the next delimiter or the end, and the position stops on that delimiter |
| Strings.Split | backend/src/Graph.cpp:17-25 | the push-back loop returns exactly `Tokens(s, d)` |
| Strings.JoinTokens | backend/src/Graph.cpp:17-25 | joining the tokens of a non-empty text with the delimiter gives the text back, minus one trailing delimiter |
| Strings.TrailingDelimiter | backend/src/Graph.cpp:17-25 | a delimiter after a text that does not already end in one adds no token; after an empty text or another delimiter it adds one empty token |
| Strings.TokensOfJoin | backend/src/Graph.cpp:17-25 | splitting a join of delimiter-free fields whose last field is non-empty gives those fields back |
| Numerals.Stoi | backend/src/Graph.cpp:42 | `stoi`: skips leading spaces, reads an optional sign and the longest digit run, and returns an int32 or nothing when it would throw |
| Numerals.IntToString | backend/src/Graph.cpp:121 | `operator<<` on an int: an optional minus followed by decimal digits |
| Numerals.StoiOfIntToString | backend/src/Graph.cpp:121 | `stoi` reads back every printed int32 |
| Numerals.IntToStringInjective | backend/src/Graph.cpp:133-135 | different int32 values print differently |
| SortedSets.SortedElements | backend/src/Graph.cpp:77-78 | `sort` then `unique`: a strictly ascending list of exactly the given ids |
| SortedSets.SortedElementsUnique | backend/src/Graph.cpp:129-130 | a strictly ascending list is already clean: cleaning it again gives the same list |
| Reachability.ShortestWithin | backend/src/Graph.cpp:292-307 | the capped search yields -1 exactly when the target is out of reach within the cap, and otherwise the target's distance |
| Reachability.DegreeValues | backend/src/Graph.cpp:283-308 | between two different users the degree is -1, 1, 2 or 3, and it is 1 exactly when the target is in the start's list |
| Reachability.DegreeIsShortestWalk | backend/src/Graph.cpp:283-308 | a positive degree is the length of a shortest walk: one walk has that length and none is shorter |
| Reachability.LayerIsDistance | backend/src/Graph.cpp:325-330 | a user is at distance exactly `k` iff the capped search at `k` finds it at `k` |
| Reachability.LayersDisjoint | backend/src/Graph.cpp:325-330 | a user lies in only one BFS layer |
| Bfs.BfsInvInit | backend/src/Graph.cpp:287-290 | the queue holding the start at depth 0, with only the start visited, satisfies the BFS invariant |
| Bfs.VisitNeighbors | backend/src/Graph.cpp:300-305 | the neighbour loop keeps the old queue as a prefix, queues each previously unvisited neighbour exactly once one level deeper, and marks every neighbour visited |
| Bfs.PopWithExpansion | backend/src/Graph.cpp:292-305 | popping a node below the cap and expanding its neighbours keeps the BFS invariant |
| Bfs.PopWithoutExpansion | backend/src/Graph.cpp:298 | popping a node at the cap without expanding it keeps the BFS invariant |
| Friendships.AddEdge | backend/src/Graph.cpp:175-182 | a self-friendship, or one whose second user is already in the first user's list, leaves the lists unchanged; otherwise each user is listed in the other's list, and no other list changes |
| Friendships.AddEdgeAppends | backend/src/Graph.cpp:180-181 | a new friendship appends exactly one entry at the end of each of the two lists |
| Friendships.AddEdgeIdempotent | backend/src/Graph.cpp:175-182 | a second identical call changes nothing |
| Friendships.AddEdgeSymmetric | backend/src/Graph.cpp:175-182 | a symmetric friendship graph stays symmetric |
| Friendships.AddEdgeSimple | backend/src/Graph.cpp:176-178 | on a symmetric graph, lists stay free of self-loops and repeats |
| Friendships.AddEdgeAsymmetricRepeats | backend/src/Graph.cpp:178 | without symmetry, the one-sided membership test can list a friend twice |
| Recommendations.Occurrences | backend/src/Graph.cpp:361 | the count is positive exactly for ids on the list, and at most the list's length |
| Recommendations.MutualCount | backend/src/Graph.cpp:358-363 | a candidate's count is positive exactly when it appears in some friend's list |
| Recommendations.Excluded | backend/src/Graph.cpp:355-356 | `existingFriends` is the user plus the user's friends |
| Recommendations.Mutuals | backend/src/Graph.cpp:358-363 | the friends of the user whose lists contain the candidate |
| Recommendations.MutualCountIsMutuals | backend/src/Graph.cpp:358-363 | on a graph without repeats, the count is the number of the user's friends whose lists contain the candidate |
| Recommendations.MutualsAreCommonFriends | backend/src/Graph.cpp:358-363 | on a symmetric graph, those friends are exactly the friends the user and the candidate share |
| Recommendations.InsertByCount | backend/src/Graph.cpp:371-373 | inserting into a list ordered by non-increasing count keeps it ordered and adds exactly that entry |
| Recommendations.SortByCount | backend/src/Graph.cpp:371-373 | the sort yields a permutation ordered by non-increasing count |
| Recommendations.SortDistinct | backend/src/Graph.cpp:371-373 | sorting keeps the ids distinct |
| Recommendations.Tally | backend/src/Graph.cpp:358-364 | the frequency map after the nested loop: its keys are the non-excluded ids seen, and each value is the old count plus the occurrences |
| Recommendations.Candidates | backend/src/Graph.cpp:366-369 | the candidate pairs are exactly the map's entries, in ascending id order |
| Recommendations.Rank | backend/src/Graph.cpp:366-373 | every map entry appears once in the ranked list, ordered by non-increasing count |
| Persistence.ParseUserLine | backend/src/Graph.cpp:40-51 | a users.txt line gives a user exactly when it has at least two fields; the user is named by the second field, with an int32 id and karma |
| Persistence.UserLineFields | backend/src/Graph.cpp:40-51 | the id is `stoi` of the first field; the karma is `stoi` of the third field when it reads, and 0 when that field is missing or unreadable |
| Persistence.UnreadableKarmaLine | backend/src/Graph.cpp:46-48 | a line such as `7,ann,xyz`, whose third field `stoi` rejects, loads with karma 0 |
| Persistence.UserLineRoundTrip | backend/src/Graph.cpp:121 | a saved user line reads back as the same id, name and karma, provided the name has no comma |
| Persistence.LegacyUserLine | backend/src/Graph.cpp:35-49 | an old two-field `id,name` line loads with karma 0 |
| Persistence.ParseGraphLine | backend/src/Graph.cpp:62-81 | the friend list read from a graph line is strictly ascending, never holds the line's own id, and holds exactly the line's other ids |
| Persistence.GraphLineRoundTrip | backend/src/Graph.cpp:133-137 | a saved graph line reads back as the line's id and its cleaned list, and a clean list comes back unchanged |
| Persistence.ParseCommunityLine | backend/src/Graph.cpp:91-107 | a line with at least four fields separated by vertical bars gives a community with an int32 id and an empty chat history, and a shorter line gives none |
| Persistence.CommunityLineFields | backend/src/Graph.cpp:91-107 | the id is `stoi` of the first field; name and description are the next two fields; the tags are the comma-separated fourth field; the members are the ids of the fifth field, or none when it is missing or `NULL` |
| Persistence.MembersFieldShape | backend/src/Graph.cpp:152-159 | the members field is non-empty, has no vertical bar or newline, and is `NULL` only for no members |
| Persistence.CommunityLineRoundTrip | backend/src/Graph.cpp:144-160 | a saved community line reads back as the same id, name, description, tags and members, with the chat history dropped |
| Storage.FileTextLines | backend/src/Graph.cpp:38 | reading a written file line by line gives back the newline-free lines written |
| Storage.RestoredUsers | backend/src/Graph.cpp:51 | the users as reloaded: same keys, and each record carries its key as id with name and karma kept |
| Storage.UsersRoundTrip | backend/src/Graph.cpp:119-123 | loading the saved users lines yields `RestoredUsers` of the saved map, provided names have no comma or newline and values fit int32 |
| Storage.UsersFileRoundTrip | backend/src/Graph.cpp:36-55 | the same round trip through the whole users.txt text |
| Storage.CleanedGraph | backend/src/Graph.cpp:127-130 | the in-place cleanup in `saveData`: same keys, and every list strictly ascending with the same ids |
| Storage.CleanAndWriteGraph | backend/src/Graph.cpp:126-139 | the save loop leaves every list cleaned and writes one line per list, by ascending id |
| Storage.RestoredGraph | backend/src/Graph.cpp:60-81 | the lists as reloaded: same keys, each strictly ascending and holding its old ids minus the key itself |
| Storage.GraphRoundTrip | backend/src/Graph.cpp:126-139 | loading the saved graph lines yields `RestoredGraph` of the graph before saving |
| Storage.CleanedRestores | backend/src/Graph.cpp:129-130 | cleaning before saving does not change what is reloaded |
| Storage.GraphFileRoundTrip | backend/src/Graph.cpp:57-84 | the same round trip through the whole graph.txt text |
| Storage.LoadedGraphSimple | backend/src/Graph.cpp:70-81 | loading graph lines onto lists without self-loops or repeats keeps them so |
| Storage.RestoredCommunities | backend/src/Graph.cpp:93-108 | the communities as reloaded: same keys, each record unchanged except an empty chat history |
| Storage.LoadedCommunitiesKeyed | backend/src/Graph.cpp:108-109 | loading keeps every community under its own id and below the next id, and never lowers the next id |
| Storage.NextAfterBounds | backend/src/Graph.cpp:109 | the next id after loading is the least value that is at least 100 and above every loaded id |
| Storage.CommunitiesRoundTrip | backend/src/Graph.cpp:142-162 | loading the saved community lines yields `RestoredCommunities` and a next id just above the largest id (at least 100) |
| Storage.CommunitiesFileRoundTrip | backend/src/Graph.cpp:86-113 | the same round trip through the whole communities.txt text |
| LineReading.ReadUserLine | backend/src/Graph.cpp:40-51 | the imperative parse of one users.txt line equals `ParseUserLine` |
| LineReading.OtherIds | backend/src/Graph.cpp:67-74 | the friend loop keeps exactly the ids on the line other than its own |
| LineReading.ReadGraphLine | backend/src/Graph.cpp:62-81 | the imperative parse and cleanup of one graph.txt line equals `ParseGraphLine` |
| LineReading.ReadCommunityLine | backend/src/Graph.cpp:91-107 | the imperative parse of one communities.txt line, including its member loop, equals `ParseCommunityLine` |
| NovaGraphModel.WithDefaultUsers | backend/src/Graph.cpp:208 | `userDB[x]` reads: stored users are kept, and each missing id gains the default user |
| NovaGraphModel.WithEmptyLists | backend/src/Graph.cpp:300 | `adjList[x]` reads: every friend list is unchanged, and missing ids gain an empty list |
| NovaGraphModel.NovaGraph.constructor | backend/include/Graph.hpp:19-25 | an empty store whose first community id is 100 |
| NovaGraphModel.NovaGraph.UserAt | backend/src/Graph.cpp:208 | the read returns the stored user (or the default user, now stored); nothing else changes |
| NovaGraphModel.NovaGraph.FriendListAt | backend/src/Graph.cpp:177 | the read returns the friend list (empty for an unknown id, now stored); nothing else changes |
| NovaGraphModel.NovaGraph.UsersAt | backend/src/Graph.cpp:341-343 | one record per id, in order, each equal to the id's entry after the reads |
| NovaGraphModel.NovaGraph.AddUser | backend/src/Graph.cpp:169-173 | a known id changes nothing; a new id gets a user with that name and karma 0 |
| NovaGraphModel.NovaGraph.AddFriendship | backend/src/Graph.cpp:175-182 | the friend lists become `AddEdge` of the old ones; nothing else changes |
| NovaGraphModel.NovaGraph.CreateCommunity | backend/src/Graph.cpp:188-195 | the next id, which is unused, gets a community with the split tags and no members or messages, and the counter moves up by one |
| NovaGraphModel.NovaGraph.JoinCommunity | backend/src/Graph.cpp:197-201 | an existing community's members gain the user; an unknown community changes nothing |
| NovaGraphModel.NovaGraph.AddMessage | backend/src/Graph.cpp:203-215 | for an existing community and a member sender, exactly one message with 0 upvotes is appended; otherwise nothing changes |
| NovaGraphModel.NovaGraph.UpvoteMessage | backend/src/Graph.cpp:217-231 | an in-range message gains exactly one upvote and its registered sender gains 5 karma; other messages stay; out of range or unknown community changes nothing |
| NovaGraphModel.NovaGraph.GetRelationDegree | backend/src/Graph.cpp:283-308 | the result is `Degree`: 0 for oneself, -1 for an unknown start, otherwise the shortest distance capped at 3 or -1 |
| NovaGraphModel.NovaGraph.SearchLayer | backend/src/Graph.cpp:313-338 | the ids found are exactly the users at distance `targetDegree`, without repeats |
| NovaGraphModel.NovaGraph.ExpandHead | backend/src/Graph.cpp:300-305 | expanding the queue's head keeps the BFS invariant, and the only lists added are for expanded nodes |
| NovaGraphModel.NovaGraph.GetConnectionsByDegree | backend/src/Graph.cpp:310-348 | an unknown start gives no ids; otherwise the ids are exactly the users at that distance, without repeats, each with its record |
| NovaGraphModel.NovaGraph.CountMutuals | backend/src/Graph.cpp:353-364 | the frequency map holds exactly the candidates (not the user, not a friend, a friend of a friend), each with its mutual count |
| NovaGraphModel.NovaGraph.NameEntries | backend/src/Graph.cpp:375-386 | each ranked pair gets the name stored under its id, in the same order |
| NovaGraphModel.NovaGraph.GetRecommendations | backend/src/Graph.cpp:350-389 | every candidate appears exactly once with its mutual-friend count, ordered by non-increasing count; an unknown user gets none |
| NovaGraphModel.NovaGraph.GetFriendList | backend/src/Graph.cpp:404-423 | a strictly ascending list of exactly the user's friends, each with its record; an unknown user gets none |
| NovaGraphModel.NovaGraph.LoadUsers | backend/src/Graph.cpp:38-53 | the users map becomes `LoadedUsers` of the lines; nothing else changes |
| NovaGraphModel.NovaGraph.LoadGraph | backend/src/Graph.cpp:60-82 | the lists become `LoadedGraph` of the lines; nothing else changes |
| NovaGraphModel.NovaGraph.LoadCommunities | backend/src/Graph.cpp:89-111 | communities and next id become `LoadedCommunities` of the lines, and the store stays well keyed |
| NovaGraphModel.NovaGraph.LoadData | backend/src/Graph.cpp:31-114 | each file that opens is loaded in turn, a missing file leaves its part of the state alone, and the store stays well keyed |
| NovaGraphModel.NovaGraph.SaveUsers | backend/src/Graph.cpp:119-123 | the text is one `id,name,karma` line per user, by ascending id |
| NovaGraphModel.NovaGraph.SaveGraph | backend/src/Graph.cpp:126-139 | the lists are cleaned in place and the text is one line per cleaned list, by ascending id |
| NovaGraphModel.NovaGraph.SaveCommunities | backend/src/Graph.cpp:142-162 | the text is one line per community (id, name, description, tags, members, separated by vertical bars), by ascending id |
| NovaGraphModel.NovaGraph.SaveData | backend/src/Graph.cpp:116-163 | the three file texts, with the lists cleaned and nothing else changed |
| NovaGraphModel.SaveAndReload | backend/src/Graph.cpp:31-163 | saving and then loading into a fresh store restores users (id from the key), friend lists without self-loops or repeats, and communities without chat; the next id is just above the largest id, at least 100 |
| Filtering.Filter | frontend/src/components/CommunityExplorer.jsx:41 | `Array.filter`: every kept element satisfies the predicate and every element that does is kept |
| Filtering.FilterIsSubsequence | frontend/src/components/TagSelector.jsx:9 | the result keeps the order of the input |
| Filtering.FilterCounts | frontend/src/components/TagSelector.jsx:9 | each accepted value keeps all of its occurrences, and each rejected value keeps none |
| Filtering.FilterDistinct | frontend/src/components/TagSelector.jsx:9 | filtering a list without duplicates gives a list without duplicates |
| TagSelection.ToggleTag | frontend/src/components/TagSelector.jsx:6-14 | an absent tag is appended; a sole selected tag stays; otherwise the tag is removed; no other tag's membership changes |
| TagSelection.ToggleRemovesEvery | frontend/src/components/TagSelector.jsx:7-9 | removal drops every occurrence of the tag and keeps every other entry, in order |
| TagSelection.ToggleKeepsDistinct | frontend/src/components/TagSelector.jsx:6-14 | a selection without duplicates stays without duplicates |
| TagSelection.ToggleKeepsNonEmpty | frontend/src/components/TagSelector.jsx:8 | a non-empty selection without duplicates never becomes empty |
| TagSelection.RepeatedTagEmpties | frontend/src/components/TagSelector.jsx:8-9 | with a duplicated sole tag the at-least-one guard fails: the selection empties |
| TagSelection.ToggleTwiceRestores | frontend/src/components/TagSelector.jsx:6-14 | adding an absent tag and toggling it again restores a non-empty selection |
| TagSelection.ToggleTwiceMovesLast | frontend/src/components/TagSelector.jsx:6-14 | removing a selected tag and adding it again moves it to the end |
| TagSelection.ToggleTwicePermutes | frontend/src/components/TagSelector.jsx:6-14 | on a selection without duplicates, that double toggle is a permutation |
| CommunityBrowsing.LowerChar | frontend/src/components/CommunityExplorer.jsx:43 | ASCII `toLowerCase` of one character |
| CommunityBrowsing.Lower | frontend/src/components/CommunityExplorer.jsx:43 | lower-casing maps each character and keeps the length |
| CommunityBrowsing.LowerIdempotent | frontend/src/components/CommunityExplorer.jsx:43 | lower-casing twice is lower-casing once |
| CommunityBrowsing.IncludesAt | frontend/src/components/CommunityExplorer.jsx:43 | `includes` holds exactly when the term occurs at some position |
| CommunityBrowsing.IncludesEmpty | frontend/src/components/CommunityExplorer.jsx:43 | the empty search term matches every name |
| CommunityBrowsing.Filtered | frontend/src/components/CommunityExplorer.jsx:41-45 | kept communities match the search, and carry the filter tag unless the filter is "All"; every community matching both is kept |
| CommunityBrowsing.FilteredKeepsOrder | frontend/src/components/CommunityExplorer.jsx:41-45 | the result is an order-preserving subsequence, keeping each matching community with all its occurrences |
| CommunityBrowsing.AllIgnoresTags | frontend/src/components/CommunityExplorer.jsx:42 | under "All", every community matching the search is kept, with or without tags |
| CommunityBrowsing.NoFilterShowsAll | frontend/src/components/CommunityExplorer.jsx:41-45 | "All" with an empty search shows the whole list unchanged |
| CommunityBrowsing.SearchIgnoresCase | frontend/src/components/CommunityExplorer.jsx:43 | a search term and its lower-cased form match the same communities |
| Views.Looked | backend/src/Graph.cpp:416 | the records read through `userDB[...]`: stored users, or the default user for unknown ids |
| Views.ReadRecordsAreLooked | backend/src/Graph.cpp:416 | records read through `userDB[...]` one id after another are the stored users, or the default user for unknown ids |
| Views.ListedEntries | backend/src/Graph.cpp:415-417 | the corrected entries: each carries the listed id itself and the name of its record, in order |
| Views.FriendListListed | backend/src/Graph.cpp:404-420 | the corrected friend list view: the entries for `GetFriendList`'s friends carry the listed ids |
| Views.ConnectionsListed | backend/src/Graph.cpp:340-344 | the corrected connections view: the entries for `GetConnectionsByDegree`'s ids carry the listed ids |
| Views.UnknownFriendShownAsZero | backend/src/Graph.cpp:416-417 | a friend id 999 with no user record is listed as id 0 with an empty name |
| Views.FriendListShown | backend/src/Graph.cpp:404-420 | `getFriendListJSON` shows the ascending, repeat-free friends of a listed user, each with the id and name of the record `userDB` yields |
| Views.ConnectionsShown | backend/src/Graph.cpp:310-347 | `getConnectionsByDegreeJSON` shows the users at exactly the target distance, each once, with the id and name of the record `userDB` yields |
| Views.ShownEntriesFaithful | backend/src/Graph.cpp:416-417 | on a keyed user map, the printed ids are right exactly when every listed id is a registered user or 0 |

## Left out

- File I/O is not modelled. The file texts are parameters: `Option` is
  `None` when a file does not open, and the save methods return the texts
  that would be written.
- `getCurrentTime` (`backend/src/Graph.cpp:8-14`) reads the wall clock. It
  is the parameter `now` of `AddMessage`.
- The JSON text of the `*JSON` functions is not modelled. The model returns
  the id, record and count lists they print.
- `getAllCommunitiesJSON`, `getCommunityDetailsJSON` and `getUserJSON` only
  format existing state as JSON, with no logic to prove.
- Operations that the headers declare without a body in `Graph.cpp` are
  not modelled: registration and login, friend requests, the navigation
  stack, polls, bans, pins, roles, direct messages and smart
  recommendations. `usernameIndex` and `dmDB` are not modelled either.
- `Message.id`, `Message.isPinned`, `Community.moderators` and
  `Community.bannedUsers` are never read or written by `Graph.cpp`, so the
  records leave them out.
- A user record keeps its id, name and karma. The two list fields that
  `loadData` sets to `{}` and `addUser` leaves empty are not kept.
- Integers are unbounded; int32 overflow is not modelled. Karma never wraps
  in the model, and neither does `nextCommunityId` near 2^31. Where the
  persistence round trips need int32 values, it is a precondition.
- `stoi` throwing on a malformed id or member field is not modelled. Each
  load method requires readable lines. A karma field that `stoi` rejects
  is caught and gives 0, as in the source; the model states that case.
- NovaGraphModel.NovaGraph.GetConnectionsByDegree does not state the order
  of the ids. It states the set of ids and that none repeats, but not the
  BFS discovery order.
- NovaGraphModel.NovaGraph.GetRecommendations does not fix the order among
  equal counts, because `std::sort` is not stable. The model ranks from
  ascending ids by insertion.
- NovaGraphModel.NovaGraph.GetRelationDegree bounds the added lists only
  from both sides. It states that the lists added lie within distance 2 of
  the start, not exactly which ones.
- `sort` followed by `unique` is modelled by its result, the ascending list
  of the distinct ids (`SortedElements`), not as an in-place array
  algorithm.
- `toLowerCase` is modelled for ASCII letters only. Unicode case folding is
  not modelled.
- The rendering, network calls and React state of the two components are
  not modelled. The bridge server, the other components and the hooks are
  not part of this model.

## Findings

| source | as written | input that shows it | evidently intended | confidence | as-written member | corrected member |
|---|---|---|---|---|---|---|
| backend/src/Graph.cpp:416-417 (also 342-343) | the friend entry prints `f.id` from `userDB[friends[i]]`, which `operator[]` default-constructs for an id without a user record | a friendship with id 999 that has no user record (`addFriendship` does not check users, and graph.txt may name any id): the list shows `{ "id": 0, "name": "" }` | print the listed id `friends[i]` (and `resultIDs[i]`), as `getRecommendationsJSON` does with `id` at line 381 | not executed | Views.UnknownFriendShownAsZero | Views.ListedEntries |
