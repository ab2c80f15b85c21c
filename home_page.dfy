/**
 * The client-side home page (app/page.tsx): a list of events narrowed by a
 * free-text search, a place search, a category selection and a coarse
 * distance bucket, all four combined by conjunction.
 */
module HomePage {
  import opened Wrappers
  import opened Seqs
  import opened Strings

  /** The page's own event shape; the fields read with `?.` may be absent. */
  datatype ListedEvent = ListedEvent(
    id: string,
    title: Option<string>,
    description: Option<string>,
    category: string,
    location: Option<string>,
    date: string,
    distance: Option<real>)

  /** The page's filter state; the empty string means "no restriction" for the three text fields. */
  datatype Criteria = Criteria(
    searchText: string,
    searchLocation: string,
    selectedCategories: seq<string>,
    selectedDistance: string)

  const DistanceBuckets: seq<string> := ["5", "10", "21", "21+"]

  /** `field?.toLowerCase().includes(query.toLowerCase())`: an absent field never matches. */
  predicate ContainsIgnoringCase(field: Option<string>, query: string) {
    field.Some? && Contains(Lower(field.value), Lower(query))
  }

  predicate MatchesSearch(e: ListedEvent, searchText: string) {
    searchText == "" ||
    ContainsIgnoringCase(e.title, searchText) ||
    ContainsIgnoringCase(e.description, searchText) ||
    ContainsIgnoringCase(e.location, searchText)
  }

  predicate MatchesLocation(e: ListedEvent, searchLocation: string) {
    searchLocation == "" || ContainsIgnoringCase(e.location, searchLocation)
  }

  predicate MatchesCategory(e: ListedEvent, selectedCategories: seq<string>) {
    |selectedCategories| == 0 || e.category in selectedCategories
  }

  /** The `switch` over the bucket value; a value it does not list leaves the event in. */
  predicate InDistanceBucket(d: real, bucket: string) {
    if bucket == "5" then d <= 5.0
    else if bucket == "10" then 5.0 < d <= 10.0
    else if bucket == "21" then 10.0 < d <= 21.0
    else if bucket == "21+" then d > 21.0
    else true
  }

  /** The bucket is only consulted when both the bucket and the event's distance are truthy. */
  predicate MatchesDistance(e: ListedEvent, selectedDistance: string) {
    selectedDistance != "" && e.distance.Some? && e.distance.value != 0.0 ==>
      InDistanceBucket(e.distance.value, selectedDistance)
  }

  predicate Matches(e: ListedEvent, c: Criteria) {
    MatchesSearch(e, c.searchText) && MatchesLocation(e, c.searchLocation) &&
    MatchesCategory(e, c.selectedCategories) && MatchesDistance(e, c.selectedDistance)
  }

  /** `events.filter(...)`: the events meeting all four criteria, in their original order. */
  function FilterEvents(events: seq<ListedEvent>, c: Criteria): (r: seq<ListedEvent>)
    ensures IsSubsequence(r, events)
    ensures forall e :: e in r <==> e in events && Matches(e, c)
    ensures forall e :: multiset(r)[e] == if Matches(e, c) then multiset(events)[e] else 0
  {
    forall e | true ensures multiset(Filter((e: ListedEvent) => Matches(e, c), events))[e] == if Matches(e, c) then multiset(events)[e] else 0 {
      FilterMultiplicity((e: ListedEvent) => Matches(e, c), events, e);
    }
    FilterIsSubsequence((e: ListedEvent) => Matches(e, c), events);
    Filter((e: ListedEvent) => Matches(e, c), events)
  }

  /** The search ignores case on both sides: a query matches exactly when its lower-cased form does. */
  lemma SearchIgnoresCase(e: ListedEvent, query: string)
    ensures MatchesSearch(e, query) == MatchesSearch(e, Lower(query))
  {
    LowerIdempotent(query);
    assert query == "" <==> Lower(query) == "";
  }

  /** With no criterion set, the whole list is shown unchanged. */
  lemma {:induction false} NoCriteriaShowsAll(events: seq<ListedEvent>)
    ensures FilterEvents(events, Criteria("", "", [], "")) == events
  {
    FilterAll((e: ListedEvent) => Matches(e, Criteria("", "", [], "")), events);
  }

  /** A missing or zero distance passes whatever bucket is selected. */
  lemma UnknownDistancePassesEveryBucket(e: ListedEvent, bucket: string)
    requires e.distance.None? || e.distance.value == 0.0
    ensures MatchesDistance(e, bucket)
  {
  }

  /** The four offered buckets partition the reals: every distance lies in exactly one of them. */
  lemma BucketsPartition(d: real)
    ensures exists b :: b in DistanceBuckets && InDistanceBucket(d, b)
    ensures forall b1, b2 ::
      (b1 in DistanceBuckets && b2 in DistanceBuckets && InDistanceBucket(d, b1) && InDistanceBucket(d, b2)) ==> b1 == b2
  {
    if d <= 5.0 {
      assert InDistanceBucket(d, DistanceBuckets[0]);
    } else if d <= 10.0 {
      assert InDistanceBucket(d, DistanceBuckets[1]);
    } else if d <= 21.0 {
      assert InDistanceBucket(d, DistanceBuckets[2]);
    } else {
      assert InDistanceBucket(d, DistanceBuckets[3]);
    }
  }

  /** An empty search text is a superset filter: adding one can only narrow the list. */
  lemma {:induction false} SearchTextNarrows(events: seq<ListedEvent>, c: Criteria)
    ensures forall e :: e in FilterEvents(events, c) ==> e in FilterEvents(events, c.(searchText := ""))
  {
  }

  // ---------------------------------------------------------------------------
  // Category selection

  /** `toggleCategory`: remove the category when present (every copy), append it otherwise. */
  function ToggleCategory(selected: seq<string>, category: string): (r: seq<string>)
    ensures forall x :: x in r <==> (x in selected <==> x != category)
  {
    if category in selected then Filter((c: string) => c != category, selected)
    else selected + [category]
  }

  /** Toggling the same category twice restores the selection as a set. */
  lemma {:induction false} ToggleTwiceRestoresSet(selected: seq<string>, category: string)
    ensures (set x | x in ToggleCategory(ToggleCategory(selected, category), category)) == (set x | x in selected)
  {
  }

  /** Toggling an absent category twice restores the selection exactly, order included. */
  lemma {:induction false} ToggleTwiceRestoresAbsent(selected: seq<string>, category: string)
    requires category !in selected
    ensures ToggleCategory(ToggleCategory(selected, category), category) == selected
  {
    var p := (c: string) => c != category;
    assert ToggleCategory(selected, category) == selected + [category];
    FilterAppend(p, selected, [category]);
    FilterAll(p, selected);
    assert Filter(p, [category]) == [];
  }

  /** Toggling never creates a duplicate in a selection that has none. */
  lemma {:induction false} ToggleKeepsNoDuplicates(selected: seq<string>, category: string)
    requires NoDuplicates(selected)
    ensures NoDuplicates(ToggleCategory(selected, category))
  {
    if category in selected {
      FilterNoDuplicates((c: string) => c != category, selected);
    }
  }
}
