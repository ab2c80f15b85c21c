/**
 * Where the importer meets the dashboard: the marathon.de importer stores the
 * distances 42 and 21 km (scripts/scrape_marathon_de.py), while the
 * dashboard's buckets accept only distances strictly within 0.1 km of 42.195
 * and 21.1 km (frontend/components/EventDashboard.tsx). In exact arithmetic
 * neither stored value is close enough, so imported events never show up
 * under a selected bucket.
 */
module CrossChecks {
  import opened Wrappers
  import opened Seqs
  import opened EventRecords
  import opened Dashboard
  import opened MarathonScraper

  /**
   * The `events` row as the frontend reads it back after the importer inserted
   * `row` under `id`; the columns an insert does not set are null. (An update
   * keeps the row's other columns, such as coordinates set by the geocoder; the
   * lemmas below read only the distance, which both writes set.)
   */
  function StoredEvent(id: string, row: EventRow): Event {
    Event(id, Some(row.name), Some(row.title), Some(row.description), Some(row.category), Some(row.eventType),
          row.location, None, Some(row.date), row.distance, None, None, None, None, None, None, None)
  }

  /** A row stored for an event with the importer's distance lies outside every selected bucket. */
  lemma ImportedDistanceMissesBuckets(e: ScrapedEvent, id: string, selected: string)
    requires e.distance == 42.0 || e.distance == 21.0
    requires selected != "all"
    ensures !MatchesBucket(StoredEvent(id, RowFor(e)), selected)
  {
    var d := StoredEvent(id, RowFor(e)).distance;
    assert d == Some(e.distance);
    BucketIsOpenInterval(StoredEvent(id, RowFor(e)), selected);
  }

  /** A catalogue made only of imported rows lists nothing under a selected bucket. */
  lemma {:induction false} ImportedCatalogueNeverListed(events: seq<ScrapedEvent>, ids: seq<string>, selected: string)
    requires |ids| == |events|
    requires forall e :: e in events ==> e.distance == 42.0 || e.distance == 21.0
    requires selected != "all"
    ensures BucketFiltered(StoredCatalogue(events, ids), selected) == []
  {
    var rows := StoredCatalogue(events, ids);
    forall i | 0 <= i < |rows|
      ensures !MatchesBucket(rows[i], selected)
    {
      StoredCatalogueAt(events, ids, i);
      ImportedDistanceMissesBuckets(events[i], ids[i], selected);
    }
    FilterNone((e: Event) => MatchesBucket(e, selected), rows);
  }

  /** The rows of the catalogue, one per imported event, with the given ids. */
  function StoredCatalogue(events: seq<ScrapedEvent>, ids: seq<string>): (r: seq<Event>)
    requires |ids| == |events|
    ensures |r| == |events|
  {
    if events == [] then []
    else [StoredEvent(ids[0], RowFor(events[0]))] + StoredCatalogue(events[1..], ids[1..])
  }

  lemma {:induction false} StoredCatalogueAt(events: seq<ScrapedEvent>, ids: seq<string>, i: nat)
    requires |ids| == |events| && i < |events|
    ensures StoredCatalogue(events, ids)[i] == StoredEvent(ids[i], RowFor(events[i]))
  {
    if i > 0 {
      StoredCatalogueAt(events[1..], ids[1..], i - 1);
    }
  }
}
