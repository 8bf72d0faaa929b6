/**
 * The list shown by the community browser
 * (frontend/src/components/CommunityExplorer.jsx): the communities whose
 * tags include the chosen tag filter (any community for "All") and whose
 * name contains the search term, ignoring case.
 */
module CommunityBrowsing {
  import opened Wrappers
  import opened Filtering

  /** A community as the browser receives it; the `tags` field may be missing. */
  datatype CommunityCard = CommunityCard(name: string, tags: Option<seq<string>>)

  /** `toLowerCase` on ASCII letters; other characters are left alone. */
  function LowerChar(c: char): (r: char)
    ensures 'A' <= c <= 'Z' ==> 'a' <= r <= 'z' && r as int == c as int + 32
    ensures !('A' <= c <= 'Z') ==> r == c
  {
    if 'A' <= c <= 'Z' then (c as int + 32) as char else c
  }

  function Lower(s: string): (r: string)
    ensures |r| == |s| && forall i :: 0 <= i < |s| ==> r[i] == LowerChar(s[i])
  {
    seq(|s|, i requires 0 <= i < |s| => LowerChar(s[i]))
  }

  /** Lower-casing twice is lower-casing once. */
  lemma LowerIdempotent(s: string)
    ensures Lower(Lower(s)) == Lower(s)
  {
  }

  /** `s.includes(sub)`: `sub` occurs in `s` at some position. */
  predicate Includes(s: string, sub: string)
    decreases |s|
  {
    if |sub| <= |s| && s[..|sub|] == sub then true
    else if s == [] then false
    else Includes(s[1..], sub)
  }

  /** `sub` is the slice of `s` starting at `i`. */
  predicate OccursAt(s: string, sub: string, i: int)
  {
    0 <= i && i + |sub| <= |s| && s[i..i + |sub|] == sub
  }

  /** `Includes` holds exactly when `sub` occurs in `s` at some position. */
  lemma {:induction false} IncludesAt(s: string, sub: string)
    ensures Includes(s, sub) <==> exists i :: OccursAt(s, sub, i)
    decreases |s|
  {
    if |sub| <= |s| && s[..|sub|] == sub {
      assert OccursAt(s, sub, 0);
    } else if s != [] {
      IncludesAt(s[1..], sub);
      if exists i :: OccursAt(s, sub, i) {
        var i :| OccursAt(s, sub, i);
        assert i != 0;
        assert s[1..][i - 1..i - 1 + |sub|] == s[i..i + |sub|];
        assert OccursAt(s[1..], sub, i - 1);
      }
      if exists i :: OccursAt(s[1..], sub, i) {
        var i :| OccursAt(s[1..], sub, i);
        assert s[i + 1..i + 1 + |sub|] == s[1..][i..i + |sub|];
        assert OccursAt(s, sub, i + 1);
      }
    }
  }

  /** The empty search term is found in every name. */
  lemma IncludesEmpty(s: string)
    ensures Includes(s, "")
  {
  }

  /** `filter === "All" || (c.tags && c.tags.includes(filter))`. */
  predicate MatchesTag(c: CommunityCard, filter: string)
  {
    filter == "All" || (c.tags.Some? && filter in c.tags.value)
  }

  /** `c.name.toLowerCase().includes(searchTerm.toLowerCase())`. */
  predicate MatchesSearch(c: CommunityCard, term: string)
  {
    Includes(Lower(c.name), Lower(term))
  }

  /** The test passed to `communities.filter`. */
  function Matching(filter: string, term: string): CommunityCard -> bool
  {
    c => MatchesTag(c, filter) && MatchesSearch(c, term)
  }

  /** `filtered`: the communities that match both the tag filter and the search term. */
  function Filtered(communities: seq<CommunityCard>, filter: string, term: string): (r: seq<CommunityCard>)
    ensures forall i :: 0 <= i < |r| ==> r[i] in communities && MatchesSearch(r[i], term)
    ensures filter != "All" ==> forall i :: 0 <= i < |r| ==> r[i].tags.Some? && filter in r[i].tags.value
    ensures forall i :: 0 <= i < |communities| && MatchesTag(communities[i], filter) && MatchesSearch(communities[i], term) ==>
                       communities[i] in r
  {
    Filter(communities, Matching(filter, term))
  }

  /** The shown list keeps the order of the fetched list and drops only non-matching communities. */
  lemma FilteredKeepsOrder(communities: seq<CommunityCard>, filter: string, term: string)
    ensures IsSubsequence(Filtered(communities, filter, term), communities)
    ensures forall c :: multiset(Filtered(communities, filter, term))[c] ==
                       if MatchesTag(c, filter) && MatchesSearch(c, term) then multiset(communities)[c] else 0
  {
    FilterIsSubsequence(communities, Matching(filter, term));
    forall c
      ensures multiset(Filtered(communities, filter, term))[c] ==
        if MatchesTag(c, filter) && MatchesSearch(c, term) then multiset(communities)[c] else 0
    {
      FilterCounts(communities, Matching(filter, term), c);
    }
  }

  /** With "All" the tags play no part, not even a missing `tags` field. */
  lemma AllIgnoresTags(communities: seq<CommunityCard>, term: string)
    ensures forall i :: 0 <= i < |communities| && MatchesSearch(communities[i], term) ==>
                       communities[i] in Filtered(communities, "All", term)
  {
  }

  /** With "All" and an empty search term every community is shown, in order. */
  lemma NoFilterShowsAll(communities: seq<CommunityCard>)
    ensures Filtered(communities, "All", "") == communities
  {
    forall c | c in communities
      ensures Matching("All", "")(c)
    {
      IncludesEmpty(Lower(c.name));
    }
    FilterKeepsAll(communities, Matching("All", ""));
  }

  /** The search ignores the case of ASCII letters in the term. */
  lemma SearchIgnoresCase(c: CommunityCard, term: string)
    ensures MatchesSearch(c, term) <==> MatchesSearch(c, Lower(term))
  {
    LowerIdempotent(term);
  }
}
