/**
 * The map view (frontend/components/EventMap.tsx): which events get a marker,
 * where the map starts, and the popup's title and date line.
 */
module EventMap {
  import opened Wrappers
  import opened Seqs
  import opened EventRecords

  /** The centre of Germany, used when no centre is passed in. */
  const GermanyCenter: (real, real) := (51.1657, 10.4515)
  const DefaultZoom: int := 6
  const UnnamedEvent: string := "Unbenanntes Event"
  const UnknownDate: string := "Datum unbekannt"

  /** Both coordinates present; a record with only one of them gets no marker. */
  predicate HasCoords(e: Event) {
    e.lat.Some? && e.lng.Some?
  }

  /** `eventsWithCoords`: the events that can be placed on the map, in their original order. */
  function EventsWithCoords(events: seq<Event>): (r: seq<Event>)
    ensures IsSubsequence(r, events)
    ensures forall e :: e in r <==> e in events && HasCoords(e)
    ensures forall e :: multiset(r)[e] == if HasCoords(e) then multiset(events)[e] else 0
  {
    forall e | true ensures multiset(Filter(HasCoords, events))[e] == if HasCoords(e) then multiset(events)[e] else 0 {
      FilterMultiplicity(HasCoords, events, e);
    }
    FilterIsSubsequence(HasCoords, events);
    Filter(HasCoords, events)
  }

  /** A marker as drawn: its key, position and popup lines. */
  datatype Marker = Marker(key: string, position: (real, real), title: string, dateLine: string)

  /** The popup title: `name`, else `title`, else a fixed text; empty strings fall through. */
  function DisplayName(e: Event): (name: string)
    ensures name != ""
    ensures IsTruthyText(e.name) ==> name == e.name.value
    ensures !IsTruthyText(e.name) && IsTruthyText(e.title) ==> name == e.title.value
    ensures !IsTruthyText(e.name) && !IsTruthyText(e.title) ==> name == UnnamedEvent
  {
    if IsTruthyText(e.name) then e.name.value
    else if IsTruthyText(e.title) then e.title.value
    else UnnamedEvent
  }

  /** `formatDate`: a missing or empty date gives a fixed text, any other goes to the locale formatter. */
  function DateLine(date: Option<string>, formatLocale: string -> string): (line: string)
    ensures !IsTruthyText(date) ==> line == UnknownDate
    ensures IsTruthyText(date) ==> line == formatLocale(date.value)
  {
    if IsTruthyText(date) then formatLocale(date.value) else UnknownDate
  }

  function MarkerFor(e: Event, formatLocale: string -> string): Marker
    requires HasCoords(e)
  {
    Marker(e.id, (e.lat.value, e.lng.value), DisplayName(e), DateLine(e.date, formatLocale))
  }

  /** One marker per event with coordinates, in list order, each at its event's coordinates. */
  function Markers(events: seq<Event>, formatLocale: string -> string): (ms: seq<Marker>)
    ensures |ms| == |EventsWithCoords(events)|
    ensures forall i :: 0 <= i < |ms| ==>
      ms[i].key == EventsWithCoords(events)[i].id &&
      ms[i].position == (EventsWithCoords(events)[i].lat.value, EventsWithCoords(events)[i].lng.value) &&
      ms[i].title == DisplayName(EventsWithCoords(events)[i]) && ms[i].title != "" &&
      ms[i].dateLine == DateLine(EventsWithCoords(events)[i].date, formatLocale)
  {
    var shown := EventsWithCoords(events);
    seq(|shown|, i requires 0 <= i < |shown| => MarkerFor(shown[i], formatLocale))
  }

  /** `center || [51.1657, 10.4515]`. */
  function InitialCenter(center: Option<(real, real)>): (c: (real, real))
    ensures center.Some? ==> c == center.value
    ensures center.None? ==> c == GermanyCenter
  {
    center.GetOr(GermanyCenter)
  }

  /** The `zoom = 6` default parameter: only an omitted zoom is replaced. */
  function EffectiveZoom(zoom: Option<int>): (z: int)
    ensures zoom.Some? ==> z == zoom.value
    ensures zoom.None? ==> z == DefaultZoom
  {
    zoom.GetOr(DefaultZoom)
  }

  /** Every marker position is a coordinate pair actually stored on some event of the input. */
  lemma {:induction false} MarkersComeFromEvents(events: seq<Event>, formatLocale: string -> string, i: nat)
    requires i < |Markers(events, formatLocale)|
    ensures exists e :: e in events && HasCoords(e) && Markers(events, formatLocale)[i].position == (e.lat.value, e.lng.value)
  {
    var shown := EventsWithCoords(events);
    assert shown[i] in shown;
  }
}
