/** The home page's list of resources (src/app/page.tsx): the greeting name,
    the category chips, and the searched, category-filtered and sorted list. */
module ListView {
  import opened Text
  import opened Seqs
  import opened Sorting
  import opened Resources

  // ---------------------------------------------------------------------------
  // Greeting name

  /** The signed-in user's metadata fields that the greeting reads; either may
      be absent. */
  datatype User = User(fullName: Option<string>, userName: Option<string>)

  /** A JavaScript string that is present and truthy, that is, not empty. */
  predicate Truthy(s: Option<string>) {
    s.Some? && s.value != ""
  }

  /** `s.split(" ")[0]`: everything before the first space. */
  function FirstToken(s: string): (r: string)
    ensures r <= s && ' ' !in r
    ensures |r| == |s| || s[|r|] == ' '
  {
    if s == [] || s[0] == ' ' then []
    else [s[0]] + FirstToken(s[1..])
  }

  /** The name the greeting uses: nothing when signed out, else the first
      word of the full name, else the user name, else "there". */
  function GetFirstName(user: Option<User>): (r: string)
    ensures user.None? ==> r == ""
    ensures user.Some? && Truthy(user.value.fullName) ==>
              r <= user.value.fullName.value && ' ' !in r &&
              (|r| == |user.value.fullName.value| || user.value.fullName.value[|r|] == ' ')
    ensures user.Some? && !Truthy(user.value.fullName) && Truthy(user.value.userName) ==>
              r == user.value.userName.value
    ensures user.Some? && !Truthy(user.value.fullName) && !Truthy(user.value.userName) ==>
              r == "there"
  {
    match user
    case None => ""
    case Some(u) =>
      if Truthy(u.fullName) then FirstToken(u.fullName.value)
      else if Truthy(u.userName) then u.userName.value
      else "there"
  }

  /** A full name "first rest..." greets with "first". */
  lemma {:induction false} FirstTokenOfWords(first: string, rest: string)
    requires ' ' !in first
    ensures FirstToken(first + [' '] + rest) == first
  {
    if first == [] {
      assert (first + [' '] + rest)[0] == ' ';
    } else {
      assert (first + [' '] + rest)[1..] == first[1..] + [' '] + rest;
      FirstTokenOfWords(first[1..], rest);
    }
  }

  /** A one-word full name greets with the whole name. */
  lemma {:induction false} OneWordFullName(name: string)
    requires ' ' !in name
    ensures FirstToken(name) == name
  {
    if name != [] {
      OneWordFullName(name[1..]);
    }
  }

  // ---------------------------------------------------------------------------
  // Category chips

  /** `resources.flatMap(r => r.categories)`. */
  function AllCategories(rs: seq<Resource>): (cs: seq<string>)
    ensures forall c :: c in cs <==> exists r :: r in rs && c in r.categories
  {
    if rs == [] then []
    else
      var init := rs[..|rs| - 1];
      var rest := AllCategories(init);
      assert forall r :: r in rs <==> r in init || r == rs[|rs| - 1];
      rest + rs[|rs| - 1].categories
  }

  /** `Array.from(new Set(…))` over all category labels. */
  function UniqueCategories(rs: seq<Resource>): seq<string> {
    Dedup(AllCategories(rs))
  }

  /** Each label once, exactly the labels some resource has, in the order
      they first occur. */
  lemma UniqueCategoriesFacts(rs: seq<Resource>)
    ensures NoDuplicates(UniqueCategories(rs))
    ensures forall c :: c in UniqueCategories(rs) ==> c in AllCategories(rs)
    ensures forall c :: c in UniqueCategories(rs) <==> exists r :: r in rs && c in r.categories
    ensures forall i, j :: 0 <= i < j < |UniqueCategories(rs)| ==>
              FirstIndex(AllCategories(rs), UniqueCategories(rs)[i]) <
              FirstIndex(AllCategories(rs), UniqueCategories(rs)[j])
  {
    DedupNoDuplicates(AllCategories(rs));
    DedupMembers(AllCategories(rs));
    DedupFirstOccurrenceOrder(AllCategories(rs));
  }

  // ---------------------------------------------------------------------------
  // Filter

  /** The lower-cased title contains the lower-cased term, or the notes are
      present and their lower-cased form contains it. */
  predicate MatchesSearch(r: Resource, term: string) {
    Contains(Lower(r.title), Lower(term)) ||
    (r.notes.Some? && Contains(Lower(r.notes.value), Lower(term)))
  }

  /** No category is selected (the empty string reads as none), or the
      resource carries the selected one. */
  predicate MatchesCategory(r: Resource, selected: Option<string>) {
    !Truthy(selected) || selected.value in r.categories
  }

  function Visible(term: string, selected: Option<string>): Resource -> bool {
    r => MatchesSearch(r, term) && MatchesCategory(r, selected)
  }

  /** A resource stays in the list iff it matches the search and the
      category, each as many times as it is in the input. */
  lemma FilterKeepsExactlyMatches(rs: seq<Resource>, term: string, selected: Option<string>)
    ensures forall r :: r in Filter(rs, Visible(term, selected)) <==>
              r in rs && MatchesSearch(r, term) && MatchesCategory(r, selected)
    ensures forall r :: r in rs && MatchesSearch(r, term) && MatchesCategory(r, selected) ==>
              multiset(Filter(rs, Visible(term, selected)))[r] == multiset(rs)[r]
  {
    FilterMembers(rs, Visible(term, selected));
    forall r | r in rs && MatchesSearch(r, term) && MatchesCategory(r, selected)
      ensures multiset(Filter(rs, Visible(term, selected)))[r] == multiset(rs)[r]
    {
      FilterMultiplicity(rs, Visible(term, selected), r);
    }
  }

  /** With an empty search and no category chosen the whole list shows. */
  lemma {:induction false} EmptySearchKeepsAll(rs: seq<Resource>)
    ensures Filter(rs, Visible("", None)) == rs
  {
    if rs != [] {
      ContainsEmpty(Lower(rs[0].title));
      EmptySearchKeepsAll(rs[1..]);
      assert rs == [rs[0]] + rs[1..];
    }
  }

  // ---------------------------------------------------------------------------
  // Sort

  datatype SortOption = DateDesc | DateAsc | ByTitle | ByProgress

  /** The comparator of each option as a key: `b - a` on a field is ascending
      order of its negation. The locale collation of titles is a parameter. */
  function SortKey(option: SortOption, collate: string -> int): Resource -> int {
    match option
    case DateDesc => (r: Resource) => -r.createdAt
    case DateAsc => (r: Resource) => r.createdAt
    case ByTitle => (r: Resource) => collate(r.title)
    case ByProgress => (r: Resource) => -r.progress
  }

  /** `filteredAndSortedResources`. */
  function FilteredAndSorted(rs: seq<Resource>, term: string, selected: Option<string>,
                             option: SortOption, collate: string -> int): seq<Resource>
  {
    SortBy(Filter(rs, Visible(term, selected)), SortKey(option, collate))
  }

  /** The shown list is a reordering of exactly the filtered resources, in the
      order the chosen option asks for: newest first, oldest first, by title
      collation, or most progress first. */
  lemma FilteredAndSortedOrder(rs: seq<Resource>, term: string, selected: Option<string>,
                               option: SortOption, collate: string -> int)
    ensures multiset(FilteredAndSorted(rs, term, selected, option, collate)) ==
            multiset(Filter(rs, Visible(term, selected)))
    ensures option == DateDesc ==>
              var shown := FilteredAndSorted(rs, term, selected, option, collate);
              forall i, j :: 0 <= i < j < |shown| ==> shown[i].createdAt >= shown[j].createdAt
    ensures option == DateAsc ==>
              var shown := FilteredAndSorted(rs, term, selected, option, collate);
              forall i, j :: 0 <= i < j < |shown| ==> shown[i].createdAt <= shown[j].createdAt
    ensures option == ByTitle ==>
              var shown := FilteredAndSorted(rs, term, selected, option, collate);
              forall i, j :: 0 <= i < j < |shown| ==> collate(shown[i].title) <= collate(shown[j].title)
    ensures option == ByProgress ==>
              var shown := FilteredAndSorted(rs, term, selected, option, collate);
              forall i, j :: 0 <= i < j < |shown| ==> shown[i].progress >= shown[j].progress
  {
    var shown := FilteredAndSorted(rs, term, selected, option, collate);
    var key := SortKey(option, collate);
    assert SortedBy(shown, key);
  }

  /** A resource is shown iff it is in the list and passes both tests. */
  lemma ShownIffVisible(rs: seq<Resource>, term: string, selected: Option<string>,
                        option: SortOption, collate: string -> int)
    ensures forall r :: r in FilteredAndSorted(rs, term, selected, option, collate) <==>
              r in rs && MatchesSearch(r, term) && MatchesCategory(r, selected)
  {
    FilterKeepsExactlyMatches(rs, term, selected);
    SortByMembers(Filter(rs, Visible(term, selected)), SortKey(option, collate));
  }

  // ---------------------------------------------------------------------------
  // Category chip toggle

  /** Clicking a chip clears the selection when it is the selected one and
      selects it otherwise. */
  function ToggleCategory(selected: Option<string>, clicked: string): (r: Option<string>)
    ensures selected == Some(clicked) ==> r.None?
    ensures selected != Some(clicked) ==> r == Some(clicked)
  {
    if selected == Some(clicked) then None else Some(clicked)
  }

  /** Clicking the same chip twice from an unselected chip returns to the
      starting selection only if nothing or that chip was selected. */
  lemma ToggleTwice(selected: Option<string>, clicked: string)
    ensures ToggleCategory(ToggleCategory(selected, clicked), clicked) == selected <==>
              selected.None? || selected == Some(clicked)
  {
  }
}
