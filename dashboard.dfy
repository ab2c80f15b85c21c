/**
 * The event dashboard (frontend/components/EventDashboard.tsx): a race-distance
 * bucket, a date sort, and a place search that the browser resolves through a
 * geocoder before it keeps the events within a radius of the place found.
 *
 * The pure parts (bucket predicate, sort key, radius predicate, zoom step) are
 * functions; the component's state is the class `EventDashboard`, whose methods
 * are the state changes of the component: the input handlers, the effect that
 * re-lists the catalogue when the bucket or the sort order changes, and
 * `handleSearch`.
 */
module Dashboard {
  import opened Wrappers
  import opened Seqs
  import opened Strings
  import opened EventRecords

  const MarathonKm: real := 42.195
  const HalfMarathonKm: real := 21.1
  /** Distances closer than this (strictly) to the bucket's target match it. */
  const BucketToleranceKm: real := 0.1
  const InitialRadiusKm: int := 50
  const DefaultZoom: int := 6

  const RetryMessage: string := "Fehler bei der Suche. Bitte versuche es erneut."

  function NotFoundMessage(place: string): string {
    "Ort \"" + place + "\" nicht gefunden."
  }

  function NoEventsInRadiusMessage(radiusKm: int): string {
    "Keine Events im Umkreis von " + IntToDecimal(radiusKm) + " km gefunden."
  }

  function Abs(x: real): real {
    if x < 0.0 then -x else x
  }

  // ---------------------------------------------------------------------------
  // Distance bucket

  /** The distance a bucket value stands for: `'42.195'` the marathon, any other value the half marathon. */
  function TargetDistance(selected: string): real {
    if selected == "42.195" then MarathonKm else HalfMarathonKm
  }

  /** The distance filter: `'all'` keeps everything, otherwise a truthy distance strictly within the tolerance. */
  predicate MatchesBucket(e: Event, selected: string) {
    selected == "all" ||
    (IsTruthyNumber(e.distance) && Abs(e.distance.value - TargetDistance(selected)) < BucketToleranceKm)
  }

  /**
   * With a bucket selected, an event is kept exactly when its distance lies in
   * the open interval of width 0.2 around the target: both ends are excluded,
   * and the falsy-distance test removes nothing more, since 0 is far from both targets.
   */
  lemma BucketIsOpenInterval(e: Event, selected: string)
    requires selected != "all"
    ensures MatchesBucket(e, selected) <==>
      e.distance.Some? &&
      TargetDistance(selected) - BucketToleranceKm < e.distance.value < TargetDistance(selected) + BucketToleranceKm
  {
  }

  /** The events of `events` in the selected bucket, in catalogue order. */
  function BucketFiltered(events: seq<Event>, selected: string): seq<Event> {
    Filter((e: Event) => MatchesBucket(e, selected), events)
  }

  /** Bucket `'all'` keeps the whole catalogue, in its order. */
  lemma {:induction false} AllBucketKeepsCatalogue(events: seq<Event>)
    ensures BucketFiltered(events, "all") == events
  {
    FilterAll((e: Event) => MatchesBucket(e, "all"), events);
  }

  /** Re-applying the bucket filter to its own output changes nothing. */
  lemma {:induction false} BucketFilterIdempotent(events: seq<Event>, selected: string)
    ensures BucketFiltered(BucketFiltered(events, selected), selected) == BucketFiltered(events, selected)
  {
    FilterIdempotent((e: Event) => MatchesBucket(e, selected), events);
  }

  // ---------------------------------------------------------------------------
  // Date order

  /** The sort key: the timestamp of a non-empty date string, 0 for a missing or empty one. */
  function DateKey(e: Event, timeOf: string -> int): int {
    if IsTruthyText(e.date) then timeOf(e.date.value) else 0
  }

  /** The key in the direction of the sort: `'date_asc'` ascending, any other value descending. */
  function Rank(e: Event, sortBy: string, timeOf: string -> int): int {
    OrderKey(e, sortBy == "date_asc", timeOf)
  }

  function OrderKey(e: Event, ascending: bool, timeOf: string -> int): int {
    if ascending then DateKey(e, timeOf) else -DateKey(e, timeOf)
  }

  predicate IsSortedBy(s: seq<Event>, sortBy: string, timeOf: string -> int) {
    forall i, j :: 0 <= i < j < |s| ==> Rank(s[i], sortBy, timeOf) <= Rank(s[j], sortBy, timeOf)
  }

  /** The comparator's key as a function, the one handed to the sort. */
  function RankKey(sortBy: string, timeOf: string -> int): Event -> int {
    (e: Event) => Rank(e, sortBy, timeOf)
  }

  /**
   * Events of equal rank (that is, of equal date key) appear in `r` in the
   * order they have in `s`: what a stable sort such as `Array.prototype.sort`
   * keeps.
   */
  ghost predicate SameTieOrder(r: seq<Event>, s: seq<Event>, sortBy: string, timeOf: string -> int) {
    forall k :: KeyClass(r, RankKey(sortBy, timeOf), k) == KeyClass(s, RankKey(sortBy, timeOf), k)
  }

  /**
   * An undated event sorts as the timestamp 0: before every event dated after
   * 1970 in ascending order and after every such event in descending order.
   */
  lemma UndatedPlacement(s: seq<Event>, sortBy: string, timeOf: string -> int, i: nat, j: nat)
    requires IsSortedBy(s, sortBy, timeOf)
    requires i < |s| && j < |s|
    requires !IsTruthyText(s[i].date) && IsTruthyText(s[j].date) && timeOf(s[j].date.value) > 0
    ensures sortBy == "date_asc" ==> i < j
    ensures sortBy != "date_asc" ==> j < i
  {
  }

  /** Exchanges two neighbouring cells, nothing else. */
  method SwapDown<T>(a: array<T>, j: int)
    requires 0 < j < a.Length
    modifies a
    ensures a[j - 1] == old(a[j]) && a[j] == old(a[j - 1])
    ensures forall m :: 0 <= m < a.Length && m != j - 1 && m != j ==> a[m] == old(a[m])
    ensures multiset(a[..]) == multiset(old(a[..]))
  {
    a[j - 1], a[j] := a[j], a[j - 1];
  }

  /** `Array.prototype.sort` with the date comparator, on the array in place; the sort is stable. */
  method SortByDate(a: array<Event>, sortBy: string, timeOf: string -> int)
    modifies a
    ensures IsSortedBy(a[..], sortBy, timeOf)
    ensures multiset(a[..]) == multiset(old(a[..]))
    ensures SameTieOrder(a[..], old(a[..]), sortBy, timeOf)
  {
    SortByKey(a, RankKey(sortBy, timeOf));
  }

  /** The elements of `s` whose key is `k`, in their order in `s`. */
  function KeyClass<T(==, !new)>(s: seq<T>, key: T -> int, k: int): seq<T> {
    Filter(HasKey(key, k), s)
  }

  function HasKey<T>(key: T -> int, k: int): T -> bool {
    (x: T) => key(x) == k
  }

  /**
   * Insertion sort of `a` by a numeric key; the comparator `key(x) - key(y)` of
   * the component. It is stable: every class of equal keys keeps its order.
   */
  method SortByKey<T(==, !new)>(a: array<T>, key: T -> int)
    modifies a
    ensures forall p, q :: 0 <= p < q < a.Length ==> key(a[p]) <= key(a[q])
    ensures multiset(a[..]) == multiset(old(a[..]))
    ensures forall k :: KeyClass(a[..], key, k) == KeyClass(old(a[..]), key, k)
  {
    var i := 0;
    while i < a.Length
      invariant 0 <= i <= a.Length
      invariant forall p, q :: 0 <= p < q < i ==> key(a[p]) <= key(a[q])
      invariant multiset(a[..]) == multiset(old(a[..]))
      invariant forall k :: KeyClass(a[..], key, k) == KeyClass(old(a[..]), key, k)
    {
      InsertAt(a, i, key);
      i := i + 1;
    }
  }

  /**
   * One insertion step: moves `a[i]` down past the strictly larger keys, so that
   * `a[..i + 1]` is in order and `a[i]` stays behind the earlier equal keys.
   */
  method InsertAt<T(==, !new)>(a: array<T>, i: int, key: T -> int)
    requires 0 <= i < a.Length
    requires forall p, q :: 0 <= p < q < i ==> key(a[p]) <= key(a[q])
    modifies a
    ensures forall p, q :: 0 <= p < q <= i ==> key(a[p]) <= key(a[q])
    ensures multiset(a[..]) == multiset(old(a[..]))
    ensures forall k :: KeyClass(a[..], key, k) == KeyClass(old(a[..]), key, k)
  {
    ghost var s := a[..];
    var j := ShiftDown(a, i, key);
    InsertionSorts(a[..], s, i, j, key);
    InsertionKeepsKeyClasses(a[..], s, i, j, key);
  }

  /** The loop of an insertion step: `a[i]` moves down past the strictly larger keys and stops at `j`. */
  method ShiftDown<T>(a: array<T>, i: int, key: T -> int) returns (j: int)
    requires 0 <= i < a.Length
    modifies a
    ensures 0 <= j <= i && a[j] == old(a[i])
    ensures forall q :: 0 <= q < j ==> a[q] == old(a[q])
    ensures forall q :: j < q <= i ==> a[q] == old(a[q - 1])
    ensures forall q :: i < q < a.Length ==> a[q] == old(a[q])
    ensures forall q :: j <= q < i ==> key(old(a[q])) > key(old(a[i]))
    ensures j == 0 || key(old(a[j - 1])) <= key(old(a[i]))
  {
    j := i;
    while j > 0 && key(a[j - 1]) > key(a[j])
      invariant 0 <= j <= i
      invariant a[j] == old(a[i])
      invariant forall q :: 0 <= q < j ==> a[q] == old(a[q])
      invariant forall q :: j < q <= i ==> a[q] == old(a[q - 1])
      invariant forall q :: i < q < a.Length ==> a[q] == old(a[q])
      invariant forall q :: j <= q < i ==> key(old(a[q])) > key(old(a[i]))
    {
      SwapDown(a, j);
      j := j - 1;
    }
  }

  /**
   * An insertion step that stops behind a key no larger than the inserted one
   * leaves the first `i + 1` cells in order, and rearranges nothing else.
   */
  lemma InsertionSorts<T>(b: seq<T>, s: seq<T>, i: nat, j: nat, key: T -> int)
    requires |b| == |s| && j <= i < |s| && b[j] == s[i]
    requires forall q :: 0 <= q < j ==> b[q] == s[q]
    requires forall q :: j < q <= i ==> b[q] == s[q - 1]
    requires forall q :: i < q < |s| ==> b[q] == s[q]
    requires forall p, q :: 0 <= p < q < i ==> key(s[p]) <= key(s[q])
    requires forall q :: j <= q < i ==> key(s[q]) > key(s[i])
    requires j == 0 || key(s[j - 1]) <= key(s[i])
    ensures forall p, q :: 0 <= p < q <= i ==> key(b[p]) <= key(b[q])
    ensures multiset(b) == multiset(s)
  {
    forall p, q | 0 <= p < q <= i
      ensures key(b[p]) <= key(b[q])
    {
      if q < j {
      } else if q == j {
        assert key(s[p]) <= key(s[j - 1]);
      } else if p < j {
        assert key(s[p]) <= key(s[q - 1]);
      } else if p == j {
        assert key(s[i]) < key(s[q - 1]);
      } else {
        assert key(s[p - 1]) <= key(s[q - 1]);
      }
    }
    InsertedLayout(b, s, i, j);
  }

  /** An insertion step keeps every class of equal keys in order: `s[i]` passes only larger keys. */
  lemma InsertionKeepsKeyClasses<T(!new)>(b: seq<T>, s: seq<T>, i: nat, j: nat, key: T -> int)
    requires |b| == |s| && j <= i < |s| && b[j] == s[i]
    requires forall q :: 0 <= q < j ==> b[q] == s[q]
    requires forall q :: j < q <= i ==> b[q] == s[q - 1]
    requires forall q :: i < q < |s| ==> b[q] == s[q]
    requires forall q :: j <= q < i ==> key(s[q]) > key(s[i])
    ensures forall k :: KeyClass(b, key, k) == KeyClass(s, key, k)
  {
    InsertedLayout(b, s, i, j);
    var passed := s[j..i];
    assert forall m :: 0 <= m < |passed| ==> passed[m] == s[j + m];
    forall k
      ensures KeyClass(b, key, k) == KeyClass(s, key, k)
    {
      MoveKeepsKeyClasses(s[..j], s[i], passed, s[i + 1..], key, k);
    }
  }

  /** Where an insertion step leaves things: `s[i]` moved to `j`, the cells in between one further up. */
  lemma InsertedLayout<T>(b: seq<T>, s: seq<T>, i: nat, j: nat)
    requires |b| == |s| && j <= i < |s| && b[j] == s[i]
    requires forall q :: 0 <= q < j ==> b[q] == s[q]
    requires forall q :: j < q <= i ==> b[q] == s[q - 1]
    requires forall q :: i < q < |s| ==> b[q] == s[q]
    ensures b == s[..j] + [s[i]] + s[j..i] + s[i + 1..]
    ensures s == s[..j] + s[j..i] + [s[i]] + s[i + 1..]
  {
    var t := s[..j] + [s[i]] + s[j..i] + s[i + 1..];
    forall q | 0 <= q < |b|
      ensures b[q] == t[q]
    {
      if q < j {
      } else if q == j {
      } else if q <= i {
        assert t[q] == s[j..i][q - j - 1];
      } else {
        assert t[q] == s[i + 1..][q - i - 1];
      }
    }
    assert s[..i] == s[..j] + s[j..i];
    assert s == s[..i] + [s[i]] + s[i + 1..];
  }

  /** Moving `x` in front of elements whose keys differ from its own keeps every key class. */
  lemma MoveKeepsKeyClasses<T(!new)>(front: seq<T>, x: T, passed: seq<T>, back: seq<T>, key: T -> int, k: int)
    requires forall m :: 0 <= m < |passed| ==> key(passed[m]) != key(x)
    ensures KeyClass(front + [x] + passed + back, key, k) == KeyClass(front + passed + [x] + back, key, k)
  {
    var p := HasKey(key, k);
    if key(x) == k {
      FilterNone(p, passed);
    } else {
      FilterOne(p, x);
    }
    FilterMoveAcross(p, front, x, passed, back);
  }

  /** `[...events].sort(comparator)`: a sorted copy, the input itself untouched. */
  method SortedCopy(events: seq<Event>, sortBy: string, timeOf: string -> int) returns (r: seq<Event>)
    ensures IsSortedBy(r, sortBy, timeOf)
    ensures multiset(r) == multiset(events)
    ensures SameTieOrder(r, events, sortBy, timeOf)
  {
    var a := new Event[|events|](i requires 0 <= i < |events| => events[i]);
    assert a[..] == events;
    SortByDate(a, sortBy, timeOf);
    r := a[..];
  }

  /** `r` is the catalogue listing for a bucket and an order: the bucket's events, sorted. */
  ghost predicate IsListing(r: seq<Event>, events: seq<Event>, selected: string, sortBy: string, timeOf: string -> int) {
    && IsSortedBy(r, sortBy, timeOf)
    && multiset(r) == multiset(BucketFiltered(events, selected))
    && SameTieOrder(r, BucketFiltered(events, selected), sortBy, timeOf)
  }

  // ---------------------------------------------------------------------------
  // Radius search

  /** Kept by the radius filter: both coordinates present and within `radiusKm` of the place found. */
  predicate InRadius(e: Event, lat: real, lon: real, radiusKm: int, distanceKm: (real, real, real, real) -> real) {
    e.lat.Some? && e.lng.Some? && distanceKm(lat, lon, e.lat.value, e.lng.value) <= radiusKm as real
  }

  function RadiusFiltered(events: seq<Event>, lat: real, lon: real, radiusKm: int,
                          distanceKm: (real, real, real, real) -> real): seq<Event> {
    Filter((e: Event) => InRadius(e, lat, lon, radiusKm, distanceKm), events)
  }

  /**
   * `r` is what a successful search lists: sorted, a rearrangement of the
   * bucket's events within the radius, so each of them is in the bucket and
   * the radius and drawn from the catalogue.
   */
  ghost predicate IsRadiusListing(r: seq<Event>, events: seq<Event>, selected: string, lat: real, lon: real, radiusKm: int,
                                  distanceKm: (real, real, real, real) -> real, sortBy: string, timeOf: string -> int) {
    && IsSortedBy(r, sortBy, timeOf)
    && multiset(r) == multiset(RadiusFiltered(BucketFiltered(events, selected), lat, lon, radiusKm, distanceKm))
    && SameTieOrder(r, RadiusFiltered(BucketFiltered(events, selected), lat, lon, radiusKm, distanceKm), sortBy, timeOf)
    && (forall e :: e in r ==> MatchesBucket(e, selected) && InRadius(e, lat, lon, radiusKm, distanceKm))
    && multiset(r) <= multiset(events)
  }

  /** The list a successful search shows: the bucket's events within the radius, sorted. */
  method RadiusListing(events: seq<Event>, selected: string, lat: real, lon: real, radiusKm: int,
                       distanceKm: (real, real, real, real) -> real, sortBy: string, timeOf: string -> int)
    returns (r: seq<Event>)
    ensures IsRadiusListing(r, events, selected, lat, lon, radiusKm, distanceKm, sortBy, timeOf)
  {
    var inBucket := BucketFiltered(events, selected);
    r := SortedCopy(RadiusFiltered(inBucket, lat, lon, radiusKm, distanceKm), sortBy, timeOf);
    PermutationOfFilter(r, (e: Event) => InRadius(e, lat, lon, radiusKm, distanceKm), inBucket);
    PermutationOfFilter(inBucket, (e: Event) => MatchesBucket(e, selected), events);
  }

  /** The map zoom after a successful search: wider radius, smaller zoom. */
  function ZoomForRadius(radiusKm: int): (zoom: int)
    ensures 7 <= zoom <= 9
  {
    if radiusKm > 100 then 7 else if radiusKm > 50 then 8 else 9
  }

  lemma ZoomNonIncreasing(r1: int, r2: int)
    requires r1 <= r2
    ensures ZoomForRadius(r2) <= ZoomForRadius(r1)
  {
  }

  /** A search text is blank when it holds only whitespace. */
  predicate IsBlank(s: string) {
    AllWhitespace(s)
  }

  /** Blank is exactly the case in which `trim()` leaves nothing. */
  lemma BlankIffTrimmedEmpty(s: string)
    ensures IsBlank(s) <==> Strip(s) == []
  {
  }

  /** What the geocoder request ends in: a first hit, an empty answer, or a thrown error. */
  datatype GeocodeOutcome = Located(lat: real, lon: real) | NoMatch | RequestFailed

  // ---------------------------------------------------------------------------
  // Component state

  class EventDashboard {
    const initialEvents: seq<Event>
    /** `new Date(s).getTime()` for the date strings of the catalogue. */
    const timeOf: string -> int
    /** The great-circle distance helper the component imports. */
    const distanceKm: (real, real, real, real) -> real

    var filteredEvents: seq<Event>
    var searchLocation: string
    var searchRadius: int
    var selectedDistance: string
    var sortBy: string
    var mapCenter: Option<(real, real)>
    var mapZoom: int
    var isSearching: bool
    var error: Option<string>

    /** No search is running, and the zoom belongs to the centre: 6 without one, 7 to 9 with one. */
    ghost predicate Idle()
      reads this
    {
      && !isSearching
      && (mapCenter.None? ==> mapZoom == DefaultZoom)
      && (mapCenter.Some? ==> 7 <= mapZoom <= 9)
    }

    /**
     * What holds between two user actions: the component is idle, and the list
     * is in the current sort order, inside the current bucket and drawn from
     * the catalogue.
     */
    ghost predicate Valid()
      reads this
    {
      && Idle()
      && IsSortedBy(filteredEvents, sortBy, timeOf)
      && (forall e :: e in filteredEvents ==> MatchesBucket(e, selectedDistance))
      && multiset(filteredEvents) <= multiset(initialEvents)
    }

    /** The component after mounting, once the effect has listed the catalogue. */
    constructor (initialEvents: seq<Event>, timeOf: string -> int, distanceKm: (real, real, real, real) -> real)
      ensures Valid()
      ensures this.initialEvents == initialEvents && this.timeOf == timeOf && this.distanceKm == distanceKm
      ensures searchLocation == "" && searchRadius == InitialRadiusKm
      ensures selectedDistance == "all" && sortBy == "date_asc"
      ensures mapCenter == None && mapZoom == DefaultZoom && error == None
      ensures IsSortedBy(filteredEvents, "date_asc", timeOf)
      ensures multiset(filteredEvents) == multiset(initialEvents)
      ensures IsListing(filteredEvents, initialEvents, "all", "date_asc", timeOf)
    {
      AllBucketKeepsCatalogue(initialEvents);
      var listed := SortedCopy(BucketFiltered(initialEvents, "all"), "date_asc", timeOf);
      this.initialEvents := initialEvents;
      this.timeOf := timeOf;
      this.distanceKm := distanceKm;
      filteredEvents := listed;
      searchLocation := "";
      searchRadius := InitialRadiusKm;
      selectedDistance := "all";
      sortBy := "date_asc";
      mapCenter := None;
      mapZoom := DefaultZoom;
      isSearching := false;
      error := None;
    }

    /** `applyFilters` (and the body of the effect): list the catalogue by bucket and order, no radius. */
    method ApplyFilters()
      requires Idle()
      modifies this`filteredEvents
      ensures Valid()
      ensures IsListing(filteredEvents, initialEvents, selectedDistance, sortBy, timeOf)
    {
      var selected := selectedDistance;
      var listed := SortedCopy(BucketFiltered(initialEvents, selected), sortBy, timeOf);
      PermutationOfFilter(listed, (e: Event) => MatchesBucket(e, selected), initialEvents);
      filteredEvents := listed;
    }

    /** The success path of the search: the bucket's events within the radius, sorted, and the map on the hit. */
    method ShowResultsAround(lat: real, lon: real)
      modifies this`filteredEvents, this`mapCenter, this`mapZoom, this`error
      ensures IsRadiusListing(filteredEvents, initialEvents, selectedDistance, lat, lon, searchRadius, distanceKm, sortBy, timeOf)
      ensures mapCenter == Some((lat, lon)) && mapZoom == ZoomForRadius(searchRadius)
      ensures error == (if filteredEvents == [] then Some(NoEventsInRadiusMessage(searchRadius)) else old(error))
    {
      var listed := RadiusListing(initialEvents, selectedDistance, lat, lon, searchRadius, distanceKm, sortBy, timeOf);
      var zoom := ZoomForRadius(searchRadius);
      var message := if listed == [] then Some(NoEventsInRadiusMessage(searchRadius)) else error;
      filteredEvents, mapCenter, mapZoom, error := listed, Some((lat, lon)), zoom, message;
    }

    /** Typing in the place field: nothing else changes. */
    method SetSearchLocation(text: string)
      requires Valid()
      modifies this`searchLocation
      ensures Valid() && searchLocation == text
    {
      searchLocation := text;
    }

    /** Moving the radius slider: the list and the map are not re-filtered until the next search. */
    method SetSearchRadius(radiusKm: int)
      requires Valid()
      modifies this`searchRadius
      ensures Valid() && searchRadius == radiusKm
      ensures filteredEvents == old(filteredEvents) && mapZoom == old(mapZoom)
    {
      searchRadius := radiusKm;
    }

    /**
     * Choosing a bucket. When the value changes, the effect re-lists the whole
     * catalogue WITHOUT the radius of an earlier search, while the map keeps the
     * centre, zoom and message of that search.
     */
    method SetSelectedDistance(selected: string)
      requires Valid()
      modifies this`selectedDistance, this`filteredEvents
      ensures Valid() && selectedDistance == selected
      ensures selected != old(selectedDistance) ==>
        IsListing(filteredEvents, initialEvents, selected, sortBy, timeOf)
      ensures selected == old(selectedDistance) ==> filteredEvents == old(filteredEvents)
      ensures mapCenter == old(mapCenter) && mapZoom == old(mapZoom) && error == old(error)
    {
      if selected != selectedDistance {
        selectedDistance := selected;
        ApplyFilters();
      }
    }

    /** Choosing a sort order: the same effect as for the bucket. */
    method SetSortBy(order: string)
      requires Valid()
      modifies this`sortBy, this`filteredEvents
      ensures Valid() && sortBy == order
      ensures order != old(sortBy) ==>
        IsListing(filteredEvents, initialEvents, selectedDistance, order, timeOf)
      ensures order == old(sortBy) ==> filteredEvents == old(filteredEvents)
      ensures mapCenter == old(mapCenter) && mapZoom == old(mapZoom) && error == old(error)
    {
      if order != sortBy {
        sortBy := order;
        ApplyFilters();
      }
    }

    /** A blank search: the catalogue listing without a radius, and the map back on its default view. */
    method ResetSearch()
      requires Valid()
      modifies this`filteredEvents, this`mapCenter, this`mapZoom, this`error
      ensures Valid()
      ensures IsListing(filteredEvents, initialEvents, selectedDistance, sortBy, timeOf)
      ensures mapCenter == None && mapZoom == DefaultZoom && error == None
    {
      // the state updates are batched, so their order does not matter
      mapCenter := None;
      mapZoom := DefaultZoom;
      error := None;
      ApplyFilters();
    }

    /**
     * A search for a non-blank place, given the geocoder's answer: an error or
     * an empty answer only sets the message, a hit lists the bucket's events
     * within the radius and centres the map on the hit.
     */
    method ResolveSearch(outcome: GeocodeOutcome)
      requires Valid()
      modifies this`filteredEvents, this`mapCenter, this`mapZoom, this`isSearching, this`error
      ensures Valid()
      ensures outcome.RequestFailed? ==>
        && error == Some(RetryMessage)
        && filteredEvents == old(filteredEvents) && mapCenter == old(mapCenter) && mapZoom == old(mapZoom)
      ensures outcome.NoMatch? ==>
        && error == Some(NotFoundMessage(searchLocation))
        && filteredEvents == old(filteredEvents) && mapCenter == old(mapCenter) && mapZoom == old(mapZoom)
      ensures outcome.Located? ==>
        && IsRadiusListing(filteredEvents, initialEvents, selectedDistance, outcome.lat, outcome.lon, searchRadius, distanceKm,
                           sortBy, timeOf)
        && mapCenter == Some((outcome.lat, outcome.lon)) && mapZoom == ZoomForRadius(searchRadius)
        && error == (if filteredEvents == [] then Some(NoEventsInRadiusMessage(searchRadius)) else None)
    {
      // the search starts busy and with the message cleared; the finally block ends it
      match outcome {
        case RequestFailed =>
          error, isSearching := Some(RetryMessage), false;
        case NoMatch =>
          error, isSearching := Some(NotFoundMessage(searchLocation)), false;
        case Located(lat, lon) =>
          isSearching, error := true, None;
          ShowResultsAround(lat, lon);
          isSearching := false;
      }
    }

    /** `handleSearch`, with the geocoder's answer given as `outcome` (unused for a blank place). */
    method HandleSearch(outcome: GeocodeOutcome)
      requires Valid()
      modifies this`filteredEvents, this`mapCenter, this`mapZoom, this`isSearching, this`error
      ensures Valid()
      ensures IsBlank(searchLocation) ==>
        && IsListing(filteredEvents, initialEvents, selectedDistance, sortBy, timeOf)
        && mapCenter == None && mapZoom == DefaultZoom && error == None
      ensures !IsBlank(searchLocation) && outcome.RequestFailed? ==>
        && error == Some(RetryMessage)
        && filteredEvents == old(filteredEvents) && mapCenter == old(mapCenter) && mapZoom == old(mapZoom)
      ensures !IsBlank(searchLocation) && outcome.NoMatch? ==>
        && error == Some(NotFoundMessage(searchLocation))
        && filteredEvents == old(filteredEvents) && mapCenter == old(mapCenter) && mapZoom == old(mapZoom)
      ensures !IsBlank(searchLocation) && outcome.Located? ==>
        && IsRadiusListing(filteredEvents, initialEvents, selectedDistance, outcome.lat, outcome.lon, searchRadius, distanceKm,
                           sortBy, timeOf)
        && mapCenter == Some((outcome.lat, outcome.lon)) && mapZoom == ZoomForRadius(searchRadius)
        && error == (if filteredEvents == [] then Some(NoEventsInRadiusMessage(searchRadius)) else None)
    {
      if IsBlank(searchLocation) {
        ResetSearch();
      } else {
        ResolveSearch(outcome);
      }
    }
  }
}
