/**
 * The marathon.de importer (scripts/scrape_marathon_de.py): for every date
 * found on a listing page it picks a name and a link from the surrounding
 * container, keeps the first event per `(name, date)`, and then upserts the
 * events one by one, counting inserts, updates and failures.
 *
 * The HTML tree is not modelled: a date hit arrives with the container the
 * page search settled on (or none), each container with its `<a href>` links
 * and its flattened text. The database is an oracle answering per event.
 */
module MarathonScraper {
  import opened Wrappers
  import opened Seqs
  import opened Strings
  import opened ScriptUtils

  const SiteOrigin: string := "https://www.marathon.de"
  const RunningCategory: string := "Laufen"
  const DescriptionPrefix: string := "Marathon-Event: "
  const LinkLinePrefix: string := "\nLink: "

  /** One `<a href>`: its text as `get_text(strip=True)` gives it, its `title` attribute (`""` when absent), its `href`. */
  datatype Link = Link(text: string, title: string, href: string)

  /** The element around a date: its links in document order and its text as `get_text(" ", strip=True)` gives it. */
  datatype Container = Container(links: seq<Link>, text: string)

  /** A text node that looks like a date, with the container found for it (`None` when the search found none). */
  datatype DateHit = DateHit(raw: string, container: Option<Container>)

  /** The dictionary built for one event. */
  datatype ScrapedEvent = ScrapedEvent(
    name: string,
    date: string,
    location: Option<string>,
    distance: real,
    link: string,
    eventType: string,
    category: string)

  // ---------------------------------------------------------------------------
  // Choosing the link and the name

  /** A link that can name the event: its text is not the date itself and has at least three characters. */
  predicate IsNameLink(l: Link, dateStr: string) {
    l.text != dateStr && |l.text| >= 3
  }

  /** The position of the first link that can name the event. */
  function FirstNameLink(links: seq<Link>, dateStr: string): (r: Option<nat>)
    ensures r.Some? ==>
      && r.value < |links| && IsNameLink(links[r.value], dateStr)
      && forall j :: 0 <= j < r.value ==> !IsNameLink(links[j], dateStr)
    ensures r.None? ==> forall j :: 0 <= j < |links| ==> !IsNameLink(links[j], dateStr)
  {
    if links == [] then None
    else if IsNameLink(links[0], dateStr) then Some(0)
    else
      match FirstNameLink(links[1..], dateStr)
      case None => None
      case Some(k) => Some(k + 1)
  }

  /** The scan over the container's links: skip the unusable ones, stop at the first usable one. */
  method SelectLink(links: seq<Link>, dateStr: string) returns (chosen: Option<nat>)
    ensures chosen == FirstNameLink(links, dateStr)
  {
    chosen := None;
    var i := 0;
    while i < |links|
      invariant 0 <= i <= |links|
      invariant forall j :: 0 <= j < i ==> !IsNameLink(links[j], dateStr)
    {
      if links[i].text == dateStr || |links[i].text| < 3 {
        i := i + 1;
        continue;
      }
      chosen := Some(i);
      break;
    }
    FirstNameLinkUnique(links, dateStr, chosen);
  }

  /** Only one answer is "the first usable link". */
  lemma FirstNameLinkUnique(links: seq<Link>, dateStr: string, r: Option<nat>)
    requires r.Some? ==>
      && r.value < |links| && IsNameLink(links[r.value], dateStr)
      && forall j :: 0 <= j < r.value ==> !IsNameLink(links[j], dateStr)
    requires r.None? ==> forall j :: 0 <= j < |links| ==> !IsNameLink(links[j], dateStr)
    ensures r == FirstNameLink(links, dateStr)
  {
    var f := FirstNameLink(links, dateStr);
    if r.Some? && f.Some? {
      assert !(r.value < f.value) && !(f.value < r.value);
    }
  }

  /** The name a link gives: its stripped `title` when that is non-empty and strictly longer than the text, else the text. */
  function LinkName(l: Link): (r: string)
    ensures |r| >= |l.text|
    ensures r == l.text || (r == Strip(l.title) && |r| > |l.text|)
    ensures |Strip(l.title)| > |l.text| ==> r == Strip(l.title)
    ensures |Strip(l.title)| <= |l.text| ==> r == l.text
  {
    var title := Strip(l.title);
    if title != "" && |title| > |l.text| then title else l.text
  }

  /** The container text with the date removed and stripped; its part before the first double space if that text is long enough. */
  function FallbackName(c: Container, dateStr: string): (r: Option<string>)
    ensures r.Some? <==> |Strip(Replace(c.text, dateStr, ""))| > 5
    ensures r.Some? ==> r.value != [] && !IsWhitespace(r.value[0])
  {
    var rest := Strip(Replace(c.text, dateStr, ""));
    if |rest| > 5 then
      assert !IsWhitespace(rest[0]);
      assert !StartsWith(rest, "  ") by { assert rest[..2][0] == rest[0]; }
      var name := BeforeFirst(rest, "  ");
      assert name != [] && name[0] == rest[0] by { assert name == rest[..|name|]; }
      Some(name)
    else None
  }

  /** The fallback name is a leading part of the remaining text that holds no double space. */
  lemma FallbackNameIsLeadingPart(c: Container, dateStr: string)
    requires FallbackName(c, dateStr).Some?
    ensures var rest := Strip(Replace(c.text, dateStr, ""));
      |rest| > 5 && StartsWith(rest, FallbackName(c, dateStr).value)
    ensures var rest := Strip(Replace(c.text, dateStr, ""));
      var n := FallbackName(c, dateStr).value;
      |n| == |rest| || StartsWith(rest[|n|..], "  ")
    ensures var rest := Strip(Replace(c.text, dateStr, ""));
      var n := FallbackName(c, dateStr).value;
      forall k :: 0 <= k < |n| ==> !StartsWith(rest[k..], "  ")
  {
  }

  /** `re.sub(r'\s+', ' ', name).strip()`. */
  function CleanName(name: string): string {
    Strip(CollapseWhitespace(name))
  }

  /** A cleaned name is the same as `' '.join(name.split())`: its words joined by single spaces. */
  lemma CleanNameIsJoinedWords(name: string)
    ensures CleanName(name) == Join(" ", SplitWhitespace(name))
  {
    StripCollapsedIsJoinedWords(name);
  }

  /** A cleaned name has no whitespace but single spaces (and, as a stripped text, none at either end). */
  lemma CleanNameCollapsed(name: string)
    ensures IsCollapsed(CleanName(name))
  {
    var c := CollapseWhitespace(name);
    CollapseIsCollapsed(name);
    StripKeepsCollapsed(c);
  }

  /** Stripping a collapsed text leaves it collapsed. */
  lemma StripKeepsCollapsed(s: string)
    requires IsCollapsed(s)
    ensures IsCollapsed(Strip(s))
  {
    var t := TrimStart(s);
    CollapsedSlice(s, |s| - |t|, |s|);
    CollapsedSlice(t, 0, |TrimEnd(t)|);
  }

  /** A slice of a collapsed text is collapsed. */
  lemma CollapsedSlice(s: string, i: nat, j: nat)
    requires i <= j <= |s| && IsCollapsed(s)
    ensures IsCollapsed(s[i..j])
  {
    var t := s[i..j];
    forall k | 0 <= k < |t| - 1 ensures !(IsWhitespace(t[k]) && IsWhitespace(t[k + 1])) {
      assert t[k] == s[i + k] && t[k + 1] == s[i + k + 1];
    }
  }

  /** A relative `href` (one starting with `/`) is prefixed with the site origin; any other is kept. */
  function AbsoluteUrl(href: string): (r: string)
    ensures !StartsWith(r, "/")
    ensures r == href || r == SiteOrigin + href
    ensures StartsWith(href, "/") ==> r == SiteOrigin + href
    ensures !StartsWith(href, "/") ==> r == href
  {
    if StartsWith(href, "/") then
      assert (SiteOrigin + href)[0] == 'h';
      SiteOrigin + href
    else href
  }

  /** Prefixing is done once: an absolute URL stays as it is. */
  lemma AbsoluteUrlIdempotent(href: string)
    ensures AbsoluteUrl(AbsoluteUrl(href)) == AbsoluteUrl(href)
  {
  }

  /** The relative path is kept whole at the end of the absolute URL. */
  lemma AbsoluteUrlKeepsPath(href: string)
    ensures |href| <= |AbsoluteUrl(href)| && AbsoluteUrl(href)[|AbsoluteUrl(href)| - |href|..] == href
  {
  }

  /** `strftime("%Y-%m-%d")`: the year without padding (as the C library prints it), month and day in two digits. */
  function IsoDate(d: Date): string
    requires d.day >= 1 && d.month >= 1 && d.year >= 1
  {
    NatToDecimal(d.year) + "-" + ZeroPad(NatToDecimal(d.month), 2) + "-" + ZeroPad(NatToDecimal(d.day), 2)
  }

  // ---------------------------------------------------------------------------
  // One date hit

  /** The name candidate: from the first usable link if there is one, else from the container text. */
  function NameCandidate(c: Container, dateStr: string): Option<string> {
    match FirstNameLink(c.links, dateStr)
    case Some(i) => Some(LinkName(c.links[i]))
    case None => FallbackName(c, dateStr)
  }

  /** The stored link: the chosen link's `href` made absolute, `""` without a chosen link. */
  function LinkUrl(c: Container, dateStr: string): string {
    match FirstNameLink(c.links, dateStr)
    case Some(i) => AbsoluteUrl(c.links[i].href)
    case None => ""
  }

  /** The event a date hit yields, if any: none without a container, a name or a readable date. */
  function Extract(hit: DateHit, distance: real): Option<ScrapedEvent> {
    match hit.container
    case None => None
    case Some(c) =>
      var dateStr := Strip(hit.raw);
      var candidate := NameCandidate(c, dateStr);
      if candidate.None? || candidate.value == "" then None
      else
        match ParseGermanDate(Some(dateStr))
        case None => None
        case Some(d) =>
          Some(ScrapedEvent(CleanName(candidate.value), IsoDate(d), None, distance, LinkUrl(c, dateStr),
                            RunningCategory, RunningCategory))
  }

  /** What every extracted event looks like: a cleaned name, the page's distance, an absolute or empty link, no location. */
  lemma ExtractFacts(hit: DateHit, distance: real)
    requires Extract(hit, distance).Some?
    ensures var e := Extract(hit, distance).value;
      && e.distance == distance && e.location.None?
      && e.eventType == RunningCategory && e.category == RunningCategory
      && IsCollapsed(e.name) && (e.name == [] || (!IsWhitespace(e.name[0]) && !IsWhitespace(e.name[|e.name| - 1])))
      && !StartsWith(e.link, "/")
  {
    var c := hit.container.value;
    var dateStr := Strip(hit.raw);
    CleanNameCollapsed(NameCandidate(c, dateStr).value);
  }

  /** A hit whose date does not parse yields nothing, whatever its container holds. */
  lemma UnreadableDateSkipped(hit: DateHit, distance: real)
    requires ParseGermanDate(Some(Strip(hit.raw))).None?
    ensures Extract(hit, distance).None?
  {
  }

  /** The name candidate and the chosen link of one container, as the link loop and its fallback compute them. */
  method ChooseName(c: Container, dateStr: string) returns (chosen: Option<nat>, candidate: Option<string>)
    ensures chosen == FirstNameLink(c.links, dateStr)
    ensures candidate == NameCandidate(c, dateStr)
  {
    chosen := SelectLink(c.links, dateStr);
    candidate := None;
    if chosen.Some? {
      candidate := Some(LinkName(c.links[chosen.value]));
    } else {
      candidate := FallbackName(c, dateStr);
    }
  }

  /** One date hit, as the body of the loop over the page's dates. */
  method ExtractEvent(hit: DateHit, distance: real) returns (event: Option<ScrapedEvent>)
    ensures event == Extract(hit, distance)
  {
    if hit.container.None? {
      return None;
    }
    var c := hit.container.value;
    var dateStr := Strip(hit.raw);
    var chosen, candidate := ChooseName(c, dateStr);
    if candidate.None? || candidate.value == "" {
      return None;
    }
    var date := ParseGermanDate(Some(dateStr));
    if date.None? {
      return None;
    }
    var url := "";
    if chosen.Some? {
      url := AbsoluteUrl(c.links[chosen.value].href);
    }
    event := Some(ScrapedEvent(CleanName(candidate.value), IsoDate(date.value), None, distance, url,
                               RunningCategory, RunningCategory));
  }

  // ---------------------------------------------------------------------------
  // The page: first event per (name, date)

  /** The generator inside `any(...)`: an event with this name and date is already listed. */
  predicate HasKey(events: seq<ScrapedEvent>, name: string, date: string) {
    exists k :: 0 <= k < |events| && events[k].name == name && events[k].date == date
  }

  /** What each hit yields, in page order. */
  function Extractions(hits: seq<DateHit>, distance: real): seq<Option<ScrapedEvent>> {
    Map(Extractor(distance), hits)
  }

  /** `Extract` for the page's distance, as a function of the hit alone. */
  function Extractor(distance: real): DateHit -> Option<ScrapedEvent> {
    (h: DateHit) => Extract(h, distance)
  }

  /** The duplicate check over a run of yields: an event is appended unless its name and date are listed already. */
  function FirstPerKey(found: seq<Option<ScrapedEvent>>): seq<ScrapedEvent> {
    if found == [] then []
    else
      var prev := FirstPerKey(found[..|found| - 1]);
      match found[|found| - 1]
      case None => prev
      case Some(e) => if HasKey(prev, e.name, e.date) then prev else prev + [e]
  }

  /** The events of a page: the first per `(name, date)`, in the order they were met. */
  function Collected(hits: seq<DateHit>, distance: real): seq<ScrapedEvent> {
    FirstPerKey(Extractions(hits, distance))
  }

  /** The event the first yield with this name and date holds, if any does. */
  function FirstWithKey(found: seq<Option<ScrapedEvent>>, name: string, date: string): Option<ScrapedEvent> {
    if found == [] then None
    else
      var prev := FirstWithKey(found[..|found| - 1], name, date);
      if prev.Some? then prev
      else
        var e := found[|found| - 1];
        if e.Some? && e.value.name == name && e.value.date == date then e else None
  }

  /** The loop over the page's date hits. */
  method ScrapeHits(hits: seq<DateHit>, distance: real) returns (events: seq<ScrapedEvent>)
    ensures events == Collected(hits, distance)
  {
    events := [];
    for i := 0 to |hits|
      invariant events == FirstPerKey(Extractions(hits[..i], distance))
    {
      ghost var found := Extractions(hits[..i], distance);
      var event := ExtractEvent(hits[i], distance);
      MapPrefixStep(Extractor(distance), hits, i);
      FirstPerKeyStep(found, event);
      if event.Some? {
        var e := event.value;
        var isDuplicate := HasKey(events, e.name, e.date);
        if !isDuplicate {
          events := events + [e];
        }
      }
    }
    assert hits[..|hits|] == hits;
  }

  /** One more yield: kept when it is an event whose name and date are new. */
  lemma FirstPerKeyStep(found: seq<Option<ScrapedEvent>>, x: Option<ScrapedEvent>)
    ensures FirstPerKey(found + [x]) ==
      if x.Some? && !HasKey(FirstPerKey(found), x.value.name, x.value.date)
      then FirstPerKey(found) + [x.value] else FirstPerKey(found)
  {
    assert (found + [x])[..|found|] == found;
  }

  /** Appending an event adds exactly its name and date to the listed ones. */
  lemma HasKeyAppend(prev: seq<ScrapedEvent>, e: ScrapedEvent, name: string, date: string)
    ensures HasKey(prev + [e], name, date) <==> HasKey(prev, name, date) || (e.name == name && e.date == date)
  {
    var r := prev + [e];
    if HasKey(prev, name, date) {
      var k :| 0 <= k < |prev| && prev[k].name == name && prev[k].date == date;
      assert r[k] == prev[k];
    }
    if e.name == name && e.date == date {
      assert r[|prev|] == e;
    }
    if HasKey(r, name, date) {
      var k :| 0 <= k < |r| && r[k].name == name && r[k].date == date;
      if k < |prev| {
        assert r[k] == prev[k];
      }
    }
  }

  /** A name and date are kept exactly when some yield carries them. */
  lemma {:induction false} FirstPerKeyKeys(found: seq<Option<ScrapedEvent>>, name: string, date: string)
    ensures HasKey(FirstPerKey(found), name, date) <==> FirstWithKey(found, name, date).Some?
  {
    if found != [] {
      var init := found[..|found| - 1];
      var prev := FirstPerKey(init);
      FirstPerKeyKeys(init, name, date);
      var last := found[|found| - 1];
      if last.Some? && !HasKey(prev, last.value.name, last.value.date) {
        HasKeyAppend(prev, last.value, name, date);
      }
    }
  }

  /** No two events kept by the duplicate check share a name and a date. */
  lemma {:induction false} FirstPerKeyUnique(found: seq<Option<ScrapedEvent>>)
    ensures var r := FirstPerKey(found);
      forall i, j :: 0 <= i < j < |r| ==> r[i].name != r[j].name || r[i].date != r[j].date
  {
    if found != [] {
      var init := found[..|found| - 1];
      var prev := FirstPerKey(init);
      FirstPerKeyUnique(init);
      var last := found[|found| - 1];
      assert found == init + [last];
      FirstPerKeyStep(init, last);
      if last.Some? && !HasKey(prev, last.value.name, last.value.date) {
        var e := last.value;
        var r := prev + [e];
        forall i, j | 0 <= i < j < |r| ensures r[i].name != r[j].name || r[i].date != r[j].date {
          assert r[i] == prev[i];
          if j < |prev| {
            assert r[j] == prev[j];
          } else {
            assert r[j] == e;
            assert !(prev[i].name == e.name && prev[i].date == e.date);
          }
        }
      }
    }
  }

  /** Each kept event is the first yield with its name and date: the first occurrence wins. */
  lemma {:induction false} FirstPerKeyFirstWins(found: seq<Option<ScrapedEvent>>, e: ScrapedEvent)
    requires e in FirstPerKey(found)
    ensures FirstWithKey(found, e.name, e.date) == Some(e)
  {
    var init := found[..|found| - 1];
    if e in FirstPerKey(init) {
      FirstPerKeyFirstWins(init, e);
    } else {
      FirstPerKeyKeys(init, e.name, e.date);
    }
  }

  /** Every name and date yielded at all is kept, with the event of its first yield. */
  lemma {:induction false} FirstPerKeyComplete(found: seq<Option<ScrapedEvent>>, name: string, date: string)
    requires FirstWithKey(found, name, date).Some?
    ensures FirstWithKey(found, name, date).value in FirstPerKey(found)
  {
    var init := found[..|found| - 1];
    if FirstWithKey(init, name, date).Some? {
      FirstPerKeyComplete(init, name, date);
    } else {
      FirstPerKeyKeys(init, name, date);
    }
  }

  /** Every kept event is one of the yields. */
  lemma {:induction false} FirstPerKeyFromFound(found: seq<Option<ScrapedEvent>>, e: ScrapedEvent)
    requires e in FirstPerKey(found)
    ensures Some(e) in found
  {
    var init := found[..|found| - 1];
    if e in FirstPerKey(init) {
      FirstPerKeyFromFound(init, e);
      assert found == init + [found[|found| - 1]];
    }
  }

  /** Every event of a page was extracted from one of its hits, so it has the page's distance and a cleaned name. */
  lemma CollectedAreExtracted(hits: seq<DateHit>, distance: real, e: ScrapedEvent)
    requires e in Collected(hits, distance)
    ensures exists i :: 0 <= i < |hits| && Extract(hits[i], distance) == Some(e)
    ensures e.distance == distance && IsCollapsed(e.name) && !StartsWith(e.link, "/")
  {
    var found := Extractions(hits, distance);
    FirstPerKeyFromFound(found, e);
    var i :| 0 <= i < |found| && found[i] == Some(e);
    MapAt(Extractor(distance), hits, i);
    ExtractFacts(hits[i], distance);
  }

  // ---------------------------------------------------------------------------
  // The page's distance label

  /** `float(text.replace('km', ''))` for labels whose rest is plain digits; `None` is the `ValueError`. */
  function DistanceValue(text: string): (r: Option<real>)
    ensures r.Some? ==> r.value >= 0.0
  {
    var number := Replace(text, "km", "");
    if number != [] && AllDigits(number) then Some(DecimalValue(number) as real) else None
  }

  /** A label written as a number followed by `km` reads as that number. */
  lemma DistanceOfLabel(n: nat)
    ensures DistanceValue(NatToDecimal(n) + "km") == Some(n as real)
  {
    var digits := NatToDecimal(n);
    DigitsHaveNoKm(digits);
    assert "km"[..1] == "k";
    ReplaceFirstOccurrence(digits, "km", [], "");
    assert digits + "km" + [] == digits + "km";
    assert digits + "" + Replace([], "km", "") == digits;
    DecimalRoundTrip(n);
  }

  /** No `km` starts inside a run of digits, even when a `k` follows it. */
  lemma {:induction false} DigitsHaveNoKm(digits: string)
    requires AllDigits(digits)
    ensures !Contains(digits + "k", "km")
    decreases |digits|
  {
    var s := digits + "k";
    if digits == [] {
      assert s[1..] == [];
    } else {
      assert s[0] == digits[0];
      assert s[1..] == digits[1..] + "k";
      DigitsHaveNoKm(digits[1..]);
    }
  }

  /** The two labels the importer uses read as 42 and 21 kilometres. */
  lemma ImporterDistances()
    ensures DistanceValue("42km") == Some(42.0)
    ensures DistanceValue("21km") == Some(21.0)
  {
    assert NatToDecimal(42) == "42" by {
      assert NatToDecimal(4) == "4" && DigitChar(2) == '2';
    }
    assert NatToDecimal(21) == "21" by {
      assert NatToDecimal(2) == "2" && DigitChar(1) == '1';
    }
    assert NatToDecimal(42) + "km" == "42km";
    assert NatToDecimal(21) + "km" == "21km";
    DistanceOfLabel(42);
    DistanceOfLabel(21);
  }

  /**
   * `scrape_marathon_events`: a page that could not be fetched gives no
   * events; a label that does not read as a number raises (`None` here);
   * otherwise the collected events.
   */
  method ScrapeMarathonEvents(page: Option<seq<DateHit>>, distanceLabel: string)
    returns (events: Option<seq<ScrapedEvent>>)
    ensures page.None? ==> events == Some([])
    ensures page.Some? && DistanceValue(distanceLabel).None? ==> events.None?
    ensures page.Some? && DistanceValue(distanceLabel).Some? ==>
      events == Some(Collected(page.value, DistanceValue(distanceLabel).value))
  {
    if page.None? {
      return Some([]);
    }
    var distance := DistanceValue(distanceLabel);
    if distance.None? {
      return None;
    }
    var collected := ScrapeHits(page.value, distance.value);
    events := Some(collected);
  }

  // ---------------------------------------------------------------------------
  // Upserting

  /** What the database does for one event: the lookup fails, or finds the event or not and the write then succeeds or fails. */
  datatype DbAnswer = SelectFailed | Existing(writeOk: bool) | Absent(writeOk: bool)

  /** The `event_data` written for one event. */
  datatype EventRow = EventRow(
    name: string,
    title: string,
    eventType: string,
    category: string,
    location: Option<string>,
    date: string,
    description: string,
    distance: Option<real>)

  datatype DbWrite = Update(row: EventRow) | Insert(row: EventRow)

  /** The counters `inserted_count`, `updated_count` and `error_count`. */
  datatype Tally = Tally(inserted: nat, updated: nat, errors: nat)

  /** The row for an event: the name doubles as title, the description names the event and its link, a zero distance is left out. */
  function RowFor(e: ScrapedEvent): EventRow {
    EventRow(e.name, e.name, e.eventType, e.category, e.location, e.date,
             DescriptionPrefix + e.name + (if e.link != "" then LinkLinePrefix + e.link else ""),
             if e.distance != 0.0 then Some(e.distance) else None)
  }

  /** The title is the name, and the description carries the link exactly when the event has one. */
  lemma RowForFacts(e: ScrapedEvent)
    ensures RowFor(e).title == RowFor(e).name == e.name
    ensures StartsWith(RowFor(e).description, DescriptionPrefix + e.name)
    ensures RowFor(e).description == DescriptionPrefix + e.name <==> e.link == ""
    ensures RowFor(e).distance.Some? <==> e.distance != 0.0
    ensures e.link != "" ==> RowFor(e).description == DescriptionPrefix + e.name + LinkLinePrefix + e.link
    ensures e.distance != 0.0 ==> RowFor(e).distance == Some(e.distance)
  {
    var base := DescriptionPrefix + e.name;
    assert RowFor(e).description[..|base|] == base;
    if e.link != "" {
      assert |RowFor(e).description| > |base|;
    }
  }

  /** The counters after the first `n` events. */
  function TallyOf(answer: nat -> DbAnswer, n: nat): Tally {
    if n == 0 then Tally(0, 0, 0)
    else
      var t := TallyOf(answer, n - 1);
      match answer(n - 1)
      case Existing(true) => t.(updated := t.updated + 1)
      case Absent(true) => t.(inserted := t.inserted + 1)
      case _ => t.(errors := t.errors + 1)
  }

  /** The writes that succeeded for the first `n` events, in order. */
  function WritesOf(events: seq<ScrapedEvent>, answer: nat -> DbAnswer, n: nat): seq<DbWrite>
    requires n <= |events|
  {
    if n == 0 then []
    else
      var w := WritesOf(events, answer, n - 1);
      match answer(n - 1)
      case Existing(true) => w + [Update(RowFor(events[n - 1]))]
      case Absent(true) => w + [Insert(RowFor(events[n - 1]))]
      case _ => w
  }

  /** Each event moves exactly one counter. */
  lemma {:induction false} TallyAccountsForEveryEvent(answer: nat -> DbAnswer, n: nat)
    ensures TallyOf(answer, n).inserted + TallyOf(answer, n).updated + TallyOf(answer, n).errors == n
  {
    if n > 0 {
      TallyAccountsForEveryEvent(answer, n - 1);
    }
  }

  /** One successful write per inserted or updated event. */
  lemma {:induction false} WritesMatchTally(events: seq<ScrapedEvent>, answer: nat -> DbAnswer, n: nat)
    requires n <= |events|
    ensures |WritesOf(events, answer, n)| == TallyOf(answer, n).inserted + TallyOf(answer, n).updated
  {
    if n > 0 {
      WritesMatchTally(events, answer, n - 1);
    }
  }

  /** `upsert_events`: returns the number of events inserted or updated; the counters tally every event. */
  method UpsertEvents(events: seq<ScrapedEvent>, answer: nat -> DbAnswer)
    returns (imported: nat, tally: Tally, writes: seq<DbWrite>)
    ensures tally == TallyOf(answer, |events|) && writes == WritesOf(events, answer, |events|)
    ensures imported == tally.inserted + tally.updated
    ensures tally.inserted + tally.updated + tally.errors == |events|
    ensures events == [] ==> imported == 0
  {
    if events == [] {
      return 0, Tally(0, 0, 0), [];
    }
    var inserted, updated, errors := 0, 0, 0;
    writes := [];
    for i := 0 to |events|
      invariant Tally(inserted, updated, errors) == TallyOf(answer, i)
      invariant writes == WritesOf(events, answer, i)
    {
      var row := RowFor(events[i]);
      match answer(i) {
        case SelectFailed =>
          errors := errors + 1;
        case Existing(writeOk) =>
          if writeOk {
            writes := writes + [Update(row)];
            updated := updated + 1;
          } else {
            errors := errors + 1;
          }
        case Absent(writeOk) =>
          if writeOk {
            writes := writes + [Insert(row)];
            inserted := inserted + 1;
          } else {
            errors := errors + 1;
          }
      }
    }
    TallyAccountsForEveryEvent(answer, |events|);
    tally := Tally(inserted, updated, errors);
    imported := inserted + updated;
  }

  // ---------------------------------------------------------------------------
  // The whole run

  /** The events one listing page contributes: none when it could not be loaded. */
  function PageEvents(page: Option<seq<DateHit>>, distance: real): seq<ScrapedEvent> {
    if page.Some? then Collected(page.value, distance) else []
  }

  /**
   * `main`: the marathon page with label `42km`, then the half-marathon page
   * with label `21km`, concatenated (the duplicate check is per page), and
   * upserted when anything was found.
   */
  method ImportMarathonDe(marathonPage: Option<seq<DateHit>>, halfMarathonPage: Option<seq<DateHit>>,
                          answer: nat -> DbAnswer)
    returns (allEvents: seq<ScrapedEvent>, imported: nat)
    ensures allEvents == PageEvents(marathonPage, 42.0) + PageEvents(halfMarathonPage, 21.0)
    ensures imported == if allEvents == [] then 0
                        else TallyOf(answer, |allEvents|).inserted + TallyOf(answer, |allEvents|).updated
    ensures forall e :: e in allEvents ==> e.distance == 42.0 || e.distance == 21.0
    ensures allEvents == [] ==> imported == 0
    ensures imported <= |allEvents|
  {
    ImporterDistances();
    var marathon := ScrapeMarathonEvents(marathonPage, "42km");
    var half := ScrapeMarathonEvents(halfMarathonPage, "21km");
    allEvents := marathon.value + half.value;
    forall e | e in allEvents
      ensures e.distance == 42.0 || e.distance == 21.0
    {
      if e in marathon.value {
        CollectedAreExtracted(marathonPage.value, 42.0, e);
      } else {
        CollectedAreExtracted(halfMarathonPage.value, 21.0, e);
      }
    }
    imported := 0;
    if allEvents != [] {
      var tally, writes;
      imported, tally, writes := UpsertEvents(allEvents, answer);
    }
  }
}
