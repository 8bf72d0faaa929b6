/**
 * `toggleTag` of the tag picker (frontend/src/components/TagSelector.jsx):
 * the rule by which clicking a tag changes the list of selected tags.  The
 * setter call that stores the new list is the only effect, so the rule is
 * a function from the old list to the new one.
 */
module TagSelection {
  import opened Filtering

  /** The test `t => t !== tag`. */
  function Other(tag: string): string -> bool
  {
    t => t != tag
  }

  /**
   * A tag not selected is appended; a selected tag is removed everywhere,
   * unless the selection holds a single entry, which is kept so that at
   * least one tag stays selected.
   */
  function ToggleTag(selected: seq<string>, tag: string): (r: seq<string>)
    ensures tag !in selected ==> r == selected + [tag]
    ensures tag in selected && |selected| == 1 ==> r == selected
    ensures tag in selected && |selected| > 1 ==> tag !in r
    ensures forall t :: t != tag ==> (t in r <==> t in selected)
  {
    if tag in selected then
      if |selected| > 1 then Filter(selected, Other(tag)) else selected
    else selected + [tag]
  }

  /**
   * Removing a tag keeps the other entries in their order and with their
   * multiplicities, and drops every occurrence of the tag.
   */
  lemma ToggleRemovesEvery(selected: seq<string>, tag: string)
    requires tag in selected && |selected| > 1
    ensures IsSubsequence(ToggleTag(selected, tag), selected)
    ensures forall t :: multiset(ToggleTag(selected, tag))[t] == if t == tag then 0 else multiset(selected)[t]
  {
    FilterIsSubsequence(selected, Other(tag));
    forall t
      ensures multiset(ToggleTag(selected, tag))[t] == if t == tag then 0 else multiset(selected)[t]
    {
      FilterCounts(selected, Other(tag), t);
    }
  }

  /** A selection without repeats stays without repeats. */
  lemma ToggleKeepsDistinct(selected: seq<string>, tag: string)
    requires Distinct(selected)
    ensures Distinct(ToggleTag(selected, tag))
  {
    if tag !in selected {
      SnocDistinct(selected, tag);
    } else if |selected| > 1 {
      FilterDistinct(selected, Other(tag));
    }
  }

  /** A non-empty selection without repeats never becomes empty. */
  lemma ToggleKeepsNonEmpty(selected: seq<string>, tag: string)
    requires Distinct(selected) && selected != []
    ensures ToggleTag(selected, tag) != []
  {
    if tag in selected && |selected| > 1 {
      var other := if selected[0] != tag then selected[0] else selected[1];
      assert other in selected && other != tag;
    }
  }

  /**
   * With a repeated tag the guard is not enough: a selection holding the
   * same tag twice is emptied by toggling that tag.
   */
  lemma RepeatedTagEmpties()
    ensures ToggleTag(["Gaming", "Gaming"], "Gaming") == []
  {
    assert Filter(["Gaming", "Gaming"], Other("Gaming")) == [];
  }

  /** Toggling a tag that was not selected twice gives the non-empty selection back. */
  lemma ToggleTwiceRestores(selected: seq<string>, tag: string)
    requires tag !in selected && selected != []
    ensures ToggleTag(ToggleTag(selected, tag), tag) == selected
  {
    FilterDropsLast(selected, tag, Other(tag));
  }

  /**
   * Toggling a selected tag twice selects it again, at the end, with the
   * other entries in their order.
   */
  lemma ToggleTwiceMovesLast(selected: seq<string>, tag: string)
    requires tag in selected && |selected| > 1
    ensures ToggleTag(ToggleTag(selected, tag), tag) == Filter(selected, Other(tag)) + [tag]
  {
    var removed := ToggleTag(selected, tag);
    assert tag !in removed;
  }

  /** In a selection without repeats, toggling a selected tag twice gives the same tags back. */
  lemma ToggleTwicePermutes(selected: seq<string>, tag: string)
    requires Distinct(selected) && tag in selected && |selected| > 1
    ensures multiset(ToggleTag(ToggleTag(selected, tag), tag)) == multiset(selected)
  {
    var removed := Filter(selected, Other(tag));
    ToggleTwiceMovesLast(selected, tag);
    DistinctCount(selected, tag);
    forall t
      ensures multiset(removed + [tag])[t] == multiset(selected)[t]
    {
      FilterCounts(selected, Other(tag), t);
    }
    assert multiset(removed + [tag]) == multiset(selected);
  }

  lemma {:induction false} DistinctCount(s: seq<string>, x: string)
    requires Distinct(s) && x in s
    ensures multiset(s)[x] == 1
    decreases |s|
  {
    assert s == [s[0]] + s[1..];
    assert Distinct(s[1..]) by {
      forall i, j | 0 <= i < j < |s[1..]|
        ensures s[1..][i] != s[1..][j]
      {
        assert s[1..][i] == s[i + 1] && s[1..][j] == s[j + 1];
      }
    }
    if s[0] == x {
      assert x !in s[1..] by {
        forall j | 0 <= j < |s[1..]|
          ensures s[1..][j] != x
        {
          assert s[1..][j] == s[j + 1];
        }
      }
    } else {
      DistinctCount(s[1..], x);
    }
  }
}
