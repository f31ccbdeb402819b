/** The tag explorer's list logic (frontend/src/App.jsx): the category options,
    the category selection and its select-all control, and the displayed list
    (search, category filter, one of three orders). All of it is computed from
    the fetched tags and the user's inputs without side effects. */
module Viewer {
  import opened Strings
  import opened Sorting
  import opened TagOrder

  // ---------------------------------------------------------------------------
  // Category options
  // ---------------------------------------------------------------------------

  /** `allTags.map((tag) => tag.category)`. */
  function CategoryColumn(allTags: seq<TagRecord>): (r: seq<string>)
    ensures |r| == |allTags|
    ensures forall i :: 0 <= i < |allTags| ==> r[i] == allTags[i].category
  {
    if allTags == [] then [] else [allTags[0].category] + CategoryColumn(allTags[1..])
  }

  /** `[...new Set(categories)].sort()`: the categories present, each once, in
      ascending string order. */
  function UniqueCategories(allTags: seq<TagRecord>): seq<string>
  {
    InsertionSort(LexLe, Dedup(CategoryColumn(allTags)))
  }

  /** The options are strictly increasing and are exactly the categories of the
      fetched tags. */
  lemma UniqueCategoriesSpec(allTags: seq<TagRecord>)
    ensures var r := UniqueCategories(allTags);
            && (forall i, j :: 0 <= i < j < |r| ==> LexLt(r[i], r[j]))
            && NoDuplicates(r)
            && (forall c :: c in r <==> exists i :: 0 <= i < |allTags| && allTags[i].category == c)
  {
    var column := CategoryColumn(allTags);
    var distinct := Dedup(column);
    var r := UniqueCategories(allTags);
    DedupSpec(column);
    SortPermutes(LexLe, distinct);
    StringOrderIsPreorder();
    SortSorts(LexLe, distinct);
    PermutationKeepsDistinct(distinct, r);
    forall c ensures c in r <==> c in column {
      SameMembers(r, distinct, c);
    }
    forall c | c in column ensures exists i :: 0 <= i < |allTags| && allTags[i].category == c {
      var i :| 0 <= i < |column| && column[i] == c;
      assert allTags[i].category == c;
    }
    forall c | exists i :: 0 <= i < |allTags| && allTags[i].category == c ensures c in column {
      var i :| 0 <= i < |allTags| && allTags[i].category == c;
      assert column[i] == c;
    }
  }

  // ---------------------------------------------------------------------------
  // Category selection
  // ---------------------------------------------------------------------------

  /** `prev.filter((c) => c !== category)`. */
  function Without(prev: seq<string>, category: string): (r: seq<string>)
    ensures |r| <= |prev|
  {
    if prev == [] then []
    else (if prev[0] == category then [] else [prev[0]]) + Without(prev[1..], category)
  }

  /** Removing a category keeps every other one and drops that one, in order. */
  lemma {:induction false} WithoutMembers(prev: seq<string>, category: string)
    ensures forall c :: c in Without(prev, category) <==> c in prev && c != category
    ensures category !in prev ==> Without(prev, category) == prev
  {
    if prev != [] {
      WithoutMembers(prev[1..], category);
      assert prev == [prev[0]] + prev[1..];
    }
  }

  /** Filtering a list without repeats leaves a list without repeats. */
  lemma {:induction false} WithoutKeepsDistinct(prev: seq<string>, category: string)
    requires NoDuplicates(prev)
    ensures NoDuplicates(Without(prev, category))
  {
    if prev != [] {
      var rest := Without(prev[1..], category);
      assert NoDuplicates(prev[1..]) by {
        forall i, j | 0 <= i < j < |prev[1..]| ensures prev[1..][i] != prev[1..][j] {
          assert prev[1..][i] == prev[i + 1] && prev[1..][j] == prev[j + 1];
        }
      }
      WithoutKeepsDistinct(prev[1..], category);
      WithoutMembers(prev[1..], category);
      if prev[0] != category {
        assert prev[0] !in prev[1..] by {
          forall k | 0 <= k < |prev[1..]| ensures prev[1..][k] != prev[0] {
            assert prev[1..][k] == prev[k + 1];
          }
        }
        var r := [prev[0]] + rest;
        forall i, j | 0 <= i < j < |r| ensures r[i] != r[j] {
          if i == 0 {
            assert r[j] == rest[j - 1];
            assert rest[j - 1] in rest;
          } else {
            assert r[i] == rest[i - 1] && r[j] == rest[j - 1];
          }
        }
      }
    }
  }

  /** The category toggle: a selected category is deselected, any other one is
      appended to the selection. */
  function ToggleCategory(prev: seq<string>, category: string): seq<string>
  {
    if category in prev then Without(prev, category) else prev + [category]
  }

  /** Toggling flips the membership of the toggled category and of no other. */
  lemma ToggleFlips(prev: seq<string>, category: string)
    ensures category in ToggleCategory(prev, category) <==> category !in prev
    ensures forall c :: c != category ==> (c in ToggleCategory(prev, category) <==> c in prev)
    ensures category !in prev ==> ToggleCategory(prev, category) == prev + [category]
  {
    WithoutMembers(prev, category);
  }

  /** Toggling keeps a selection free of repeats. */
  lemma ToggleKeepsDistinct(prev: seq<string>, category: string)
    requires NoDuplicates(prev)
    ensures NoDuplicates(ToggleCategory(prev, category))
  {
    if category in prev {
      WithoutKeepsDistinct(prev, category);
    } else {
      var r := prev + [category];
      forall i, j | 0 <= i < j < |r| ensures r[i] != r[j] {
        if j == |prev| {
          assert r[i] == prev[i];
        }
      }
    }
  }

  /** Toggling an unselected category twice restores the selection. */
  lemma ToggleTwiceRestores(prev: seq<string>, category: string)
    requires category !in prev
    ensures ToggleCategory(ToggleCategory(prev, category), category) == prev
  {
    WithoutAppended(prev, category);
  }

  lemma {:induction false} WithoutAppended(prev: seq<string>, category: string)
    requires category !in prev
    ensures Without(prev + [category], category) == prev
  {
    if prev == [] {
      assert Without([category], category) == [] + Without([], category);
    } else {
      assert (prev + [category])[1..] == prev[1..] + [category];
      WithoutAppended(prev[1..], category);
      assert prev == [prev[0]] + prev[1..];
    }
  }

  /** The select-all control: deselect everything when as many categories are
      selected as there are options, select every option otherwise. */
  function SelectAllToggle(selected: seq<string>, unique: seq<string>): seq<string>
  {
    if |selected| == |unique| then [] else unique
  }

  /** A selection made of options, each at most once. */
  predicate SelectionOf(selected: seq<string>, unique: seq<string>)
  {
    NoDuplicates(selected) && NoDuplicates(unique) && forall c :: c in selected ==> c in unique
  }

  /** For a selection made of options, comparing counts is comparing contents. */
  lemma SameCountIffAllSelected(selected: seq<string>, unique: seq<string>)
    requires SelectionOf(selected, unique)
    ensures |selected| == |unique| <==> forall c :: c in unique ==> c in selected
  {
    if forall c :: c in unique ==> c in selected {
      SameElementsSameLength(selected, unique);
    }
    if |selected| == |unique| {
      FullSubsetCovers(selected, unique);
    }
  }

  /** The control clears a selection that holds every option and otherwise
      selects every option. */
  lemma SelectAllToggleSpec(selected: seq<string>, unique: seq<string>)
    requires SelectionOf(selected, unique)
    ensures (forall c :: c in unique ==> c in selected) ==> SelectAllToggle(selected, unique) == []
    ensures (exists c :: c in unique && c !in selected) ==> SelectAllToggle(selected, unique) == unique
  {
    SameCountIffAllSelected(selected, unique);
  }

  /** Toggling an option, and the select-all control, keep the selection made of
      options without repeats. */
  lemma SelectionStaysOfOptions(selected: seq<string>, unique: seq<string>, category: string)
    requires SelectionOf(selected, unique)
    requires category in unique
    ensures SelectionOf(ToggleCategory(selected, category), unique)
    ensures SelectionOf(SelectAllToggle(selected, unique), unique)
  {
    ToggleFlips(selected, category);
    ToggleKeepsDistinct(selected, category);
  }

  /** The select-all checkbox: unchecked, checked or indeterminate. */
  datatype SelectAllState = NoneSelected | AllSelected | SomeSelected

  function SelectAllIndicator(selected: seq<string>, unique: seq<string>): SelectAllState
  {
    if |selected| == 0 then NoneSelected
    else if |selected| == |unique| then AllSelected
    else SomeSelected
  }

  /** For a selection made of options: checked exactly when something is selected
      and every option is, indeterminate exactly when some but not all are. */
  lemma SelectAllIndicatorSpec(selected: seq<string>, unique: seq<string>)
    requires SelectionOf(selected, unique)
    ensures SelectAllIndicator(selected, unique) == NoneSelected <==> selected == []
    ensures SelectAllIndicator(selected, unique) == AllSelected <==>
              selected != [] && forall c :: c in unique ==> c in selected
    ensures SelectAllIndicator(selected, unique) == SomeSelected <==>
              selected != [] && exists c :: c in unique && c !in selected
  {
    SameCountIffAllSelected(selected, unique);
  }

  // ---------------------------------------------------------------------------
  // Displayed tags
  // ---------------------------------------------------------------------------

  /** The search matches a tag whose lower-cased name contains the lower-cased
      term, and the category filter admits it when nothing is selected or its
      category is. */
  predicate Matches(tag: TagRecord, searchTerm: string, selected: seq<string>)
  {
    Contains(Lower(tag.name), Lower(searchTerm)) && (|selected| == 0 || tag.category in selected)
  }

  /** `allTags.filter(...)`: the matching tags, in fetched order. */
  function Filtered(allTags: seq<TagRecord>, searchTerm: string, selected: seq<string>)
    : (r: seq<TagRecord>)
    ensures |r| <= |allTags|
  {
    if allTags == [] then []
    else
      (if Matches(allTags[0], searchTerm, selected) then [allTags[0]] else []) +
      Filtered(allTags[1..], searchTerm, selected)
  }

  /** The filtered tags are exactly the matching ones. */
  lemma {:induction false} FilteredMembers(allTags: seq<TagRecord>, searchTerm: string,
                                           selected: seq<string>)
    ensures forall t :: t in Filtered(allTags, searchTerm, selected) <==>
              t in allTags && Matches(t, searchTerm, selected)
  {
    if allTags != [] {
      FilteredMembers(allTags[1..], searchTerm, selected);
      assert allTags == [allTags[0]] + allTags[1..];
    }
  }

  /** A filter that admits every tag keeps the whole list. */
  lemma {:induction false} FilteredKeepsAll(allTags: seq<TagRecord>, searchTerm: string,
                                            selected: seq<string>)
    requires forall t :: t in allTags ==> Matches(t, searchTerm, selected)
    ensures Filtered(allTags, searchTerm, selected) == allTags
  {
    if allTags != [] {
      assert allTags[0] in allTags;
      forall t | t in allTags[1..] ensures Matches(t, searchTerm, selected) {
        assert t in allTags;
      }
      FilteredKeepsAll(allTags[1..], searchTerm, selected);
      assert allTags == [allTags[0]] + allTags[1..];
    }
  }

  /** `displayedTags`: the filtered tags, sorted by name ascending ("az"), name
      descending ("za") or category then name ("category"), and left in fetched
      order for any other mode. */
  function DisplayedTags(allTags: seq<TagRecord>, searchTerm: string, sortMethod: string,
                         selected: seq<string>): seq<TagRecord>
  {
    var filtered := Filtered(allTags, searchTerm, selected);
    if sortMethod == "az" then InsertionSort(NameAscending, filtered)
    else if sortMethod == "za" then InsertionSort(NameDescending, filtered)
    else if sortMethod == "category" then InsertionSort(CategoryThenName, filtered)
    else filtered
  }

  /** The displayed list is a reordering of the filtered list. */
  lemma DisplayedIsPermutation(allTags: seq<TagRecord>, searchTerm: string, sortMethod: string,
                               selected: seq<string>)
    ensures multiset(DisplayedTags(allTags, searchTerm, sortMethod, selected)) ==
            multiset(Filtered(allTags, searchTerm, selected))
  {
    var filtered := Filtered(allTags, searchTerm, selected);
    SortPermutes(NameAscending, filtered);
    SortPermutes(NameDescending, filtered);
    SortPermutes(CategoryThenName, filtered);
  }

  /** A tag is displayed exactly when it was fetched and matches both the search
      and the category filter. */
  lemma DisplayedMembers(allTags: seq<TagRecord>, searchTerm: string, sortMethod: string,
                         selected: seq<string>)
    ensures forall t :: t in DisplayedTags(allTags, searchTerm, sortMethod, selected) <==>
              t in allTags && Matches(t, searchTerm, selected)
  {
    var shown := DisplayedTags(allTags, searchTerm, sortMethod, selected);
    DisplayedIsPermutation(allTags, searchTerm, sortMethod, selected);
    FilteredMembers(allTags, searchTerm, selected);
    forall t ensures t in shown <==> t in Filtered(allTags, searchTerm, selected) {
      SameMembers(shown, Filtered(allTags, searchTerm, selected), t);
    }
  }

  /** With an empty search and no selected category every fetched tag is shown,
      each as often as it was fetched. */
  lemma EmptyQueryShowsAll(allTags: seq<TagRecord>, sortMethod: string)
    ensures multiset(DisplayedTags(allTags, "", sortMethod, [])) == multiset(allTags)
  {
    forall t | t in allTags ensures Matches(t, "", []) {
      ContainsEmpty(Lower(t.name));
    }
    FilteredKeepsAll(allTags, "", []);
    DisplayedIsPermutation(allTags, "", sortMethod, []);
  }

  /** Each mode's order: names ascending, names descending, or category then name;
      any other mode shows the filtered list as it is. */
  lemma DisplayedOrder(allTags: seq<TagRecord>, searchTerm: string, sortMethod: string,
                       selected: seq<string>)
    ensures var shown := DisplayedTags(allTags, searchTerm, sortMethod, selected);
            && (sortMethod == "az" ==> SortedBy(NameAscending, shown))
            && (sortMethod == "za" ==> SortedBy(NameDescending, shown))
            && (sortMethod == "category" ==> SortedBy(CategoryThenName, shown))
            && (sortMethod !in {"az", "za", "category"} ==>
                  shown == Filtered(allTags, searchTerm, selected))
  {
    var filtered := Filtered(allTags, searchTerm, selected);
    NameAscendingIsPreorder();
    NameDescendingIsPreorder();
    CategoryThenNameIsPreorder();
    SortSorts(NameAscending, filtered);
    SortSorts(NameDescending, filtered);
    SortSorts(CategoryThenName, filtered);
  }
}
