# nextfinish: a Dafny model of the event catalogue and its importers

nextfinish lists endurance events (marathons, half marathons, runs) on a map
and in a filterable list. The repository has two halves:

- **Ingestion scripts (Python).**
  - `scripts/scrape_marathon_de.py` reads the marathon and half-marathon listing pages of marathon.de. It turns every date on the page into an event with a name, an ISO date, the page's distance and an absolute link, keeps the first event per `(name, date)`, and upserts the events into the `events` table.
  - `scripts/geocode_events.py` looks up coordinates for the stored events that have none. It derives up to four place queries from the event name, sends the sendable ones to the geocoder in order until one is found, and writes back the latitude, longitude, city and address.
  - `scripts/utils.py` holds the shared German-date parser and the whitespace cleaner.
- **Frontend (TypeScript/React).**
  - `frontend/components/EventDashboard.tsx` filters the catalogue by a race-distance bucket, sorts it by date, and runs a radius search around a place the browser geocodes.
  - `frontend/components/EventMap.tsx` draws one marker per event that has coordinates.
  - `app/page.tsx` is the older home page, with a text, place, category and distance-range filter.

The model follows the form of each file:

- The scripts' pure steps are functions over datatypes.
- The loops of the scripts are methods with loop invariants. Each is proved equal to a specification function.
- The dashboard component's state is the class `Dashboard.EventDashboard`. Its handlers and its re-listing effect are methods with `modifies` frames.
- The sort is an in-place insertion sort over an `array`.

Everything the code cannot see or compute exactly is passed in as a parameter:

- the geocoder's answers;
- the database's answers per event;
- `Date.parse`;
- the great-circle distance;
- `toLocaleDateString`.

Modules (one per file):

| file | module | models |
|---|---|---|
| `wrappers.dfy` | `Wrappers` | `Option` |
| `seqs.dfy` | `Seqs` | filter, subsequence, "append unless already seen" dedup, map |
| `strings.dfy` | `Strings` | `str.strip`, `re.sub(r'\s+', ' ', …)`, `split`, `replace`, `lower`, decimal digits |
| `events.dfy` | `EventRecords` | the `events` row as the frontend reads it |
| `script_utils.dfy` | `ScriptUtils` | `parse_german_date`, `clean_text` |
| `geocoding.dfy` | `Geocoding` | `geocode_missing_events` |
| `marathon_scraper.dfy` | `MarathonScraper` | `scrape_marathon_events`, `upsert_events`, `main` |
| `dashboard.dfy` | `Dashboard` | `EventDashboard` |
| `event_map.dfy` | `EventMap` | `EventMap` |
| `home_page.dfy` | `HomePage` | the home page's filter and category toggle |
| `cross_checks.dfy` | `CrossChecks` | how the importer's rows fare in the dashboard's buckets |

`CrossChecks` states one consequence of the components working together:

- The importer stores the distances 42 and 21 km.
- The dashboard's buckets accept only distances strictly within 0.1 km of 42.195 and 21.1 km.
- So in exact arithmetic, an imported event never appears once a bucket is selected. `CrossChecks.ImportedCatalogueNeverListed` proves this.

## Model

| member | source | states |
|---|---|---|
| Strings.Strip | scripts/utils.py:42 | the stripped text has no whitespace at either end, is empty exactly when the input is all whitespace, and is no longer than the input |
| Strings.StripParts | scripts/utils.py:42 | the input is whitespace, then the stripped text, then whitespace |
| Strings.StripKeepsNonWhitespace | scripts/utils.py:42 | stripping removes only whitespace |
| Strings.CollapseIsCollapsed | scripts/scrape_marathon_de.py:151 | after replacing `\s+` by one space, no two whitespace characters are adjacent and every remaining one is a space |
| Strings.CollapseKeepsNonWhitespace | scripts/scrape_marathon_de.py:151 | collapsing whitespace keeps every other character, in order |
| Strings.CollapseCollapsed | scripts/utils.py:62 | collapsing an already collapsed text changes nothing |
| Strings.SplitWhitespace | scripts/geocode_events.py:43 | `split()` yields only non-empty tokens without whitespace |
| Strings.SplitWhitespaceEmpty | scripts/geocode_events.py:43 | `split()` yields nothing exactly when the text is all whitespace |
| Strings.SplitWhitespaceOfStrip | scripts/geocode_events.py:43 | `split()` of the stripped text gives the same words as `split()` of the text |
| Strings.CollapseStrippedIsJoinedWords | scripts/utils.py:60-62 | stripping and then collapsing whitespace runs gives the words of the text joined by single spaces |
| Strings.StripCollapsedIsJoinedWords | scripts/scrape_marathon_de.py:151 | collapsing whitespace runs and then stripping gives the words of the text joined by single spaces |
| Strings.Lower | app/page.tsx:68 | lower-casing keeps the length, leaves no capital, and changes no character other than a capital |
| Strings.LowerIdempotent | app/page.tsx:68-75 | lower-casing a lower-cased text changes nothing |
| Strings.Replace | scripts/scrape_marathon_de.py:138 | replacing introduces no characters besides the replacement's, removes a one-character pattern that the replacement does not contain, and leaves a text without the pattern unchanged |
| Strings.ReplaceFirstOccurrence | scripts/scrape_marathon_de.py:138 | the scan replaces the first occurrence of the pattern and goes on after it: a text `a + pattern + b`, where `a` holds no start of the pattern, becomes `a + replacement` followed by the replacement of `b` |
| Strings.ReplaceCharIsReplace | scripts/geocode_events.py:43 | replacing `-` by a space character by character is the same as `replace("-", " ")` |
| Strings.BeforeFirst | scripts/scrape_marathon_de.py:140 | `split("  ")[0]` is a prefix that ends at the end of the text or at a separator, with no separator starting inside it, and is non-empty when the text does not start with one |
| Strings.DecimalRoundTrip | scripts/utils.py:45 | reading back the decimal digits of a number gives the number |
| Seqs.Dedup | scripts/geocode_events.py:76-77 | the "append unless already in the list" comprehension keeps each element once and loses none |
| Seqs.DedupKeepsFirstOccurrenceOrder | scripts/geocode_events.py:76-77 | the deduplicated list is in the order of the elements' first occurrences |
| ScriptUtils.StrptimeDayMonthYear | scripts/utils.py:45 | `strptime(…, '%d.%m.%Y')` returns only valid calendar dates of years 1 to 9999 |
| ScriptUtils.ParseGermanDate | scripts/utils.py:30-47 | a missing text gives `None` (the `AttributeError` case), and any date returned is valid |
| ScriptUtils.StripIrrelevant | scripts/utils.py:42-44 | stripping before removing everything but digits and dots makes no difference |
| ScriptUtils.OnlyDateCharsMatter | scripts/utils.py:42-45 | two texts with the same digits and dots parse to the same result |
| ScriptUtils.SurroundingsIgnored | scripts/utils.py:44-45 | characters other than digits and dots around a date do not change the result |
| ScriptUtils.StrptimeOfFields | scripts/utils.py:45 | a one- or two-digit day and month and a four-digit year parse to that date exactly when it is a real calendar date |
| ScriptUtils.ParseOfFields | scripts/utils.py:30-47 | the same, through the whole of `parse_german_date` |
| ScriptUtils.ParseFormatRoundTrip | scripts/utils.py:30-47 | parsing the `DD.MM.YYYY` rendering of a date with a four-digit year gives the date back when it is valid, and `None` when it is not |
| ScriptUtils.ThirtyFirstOfFebruaryRejected | scripts/utils.py:45-47 | `31.02.YYYY` is rejected, in every year |
| ScriptUtils.CleanText | scripts/utils.py:50-62 | `clean_text` returns `""` for a missing or empty text, and otherwise a text with no whitespace at either end and no whitespace runs |
| ScriptUtils.CleanTextIdempotent | scripts/utils.py:50-62 | cleaning a cleaned text changes nothing |
| ScriptUtils.CleanTextKeepsNonWhitespace | scripts/utils.py:50-62 | cleaning removes or replaces only whitespace |
| ScriptUtils.CleanTextIsJoinedWords | scripts/utils.py:50-62 | `clean_text` is `' '.join(text.split())`: the words of the text joined by single spaces |
| Geocoding.PotentialPlacesFacts | scripts/geocode_events.py:43-59 | the potential places are exactly the tokens, in order, that are not ignored terms in lower case, not all digits and longer than two characters |
| Geocoding.CleanedQueryFacts | scripts/geocode_events.py:61-65 | the second query, when added, is non-empty and differs from the name |
| Geocoding.EdgeTokensFacts | scripts/geocode_events.py:67-73 | the last-word and first-word queries are added together or not at all, and are non-empty single words |
| Geocoding.QueryListShape | scripts/geocode_events.py:37-73 | given those facts, the list has one to four queries, the name first and the rest non-empty |
| Geocoding.CandidateQueriesShape | scripts/geocode_events.py:37-73 | the queries of any name: one to four, the exact name first, the others non-empty |
| Geocoding.SearchQueries | scripts/geocode_events.py:37-73 | the appending steps build exactly the candidate query list |
| Geocoding.AppendEdgeTokens | scripts/geocode_events.py:67-73 | the two `len(parts) > 1` steps append the last and then the first word |
| Geocoding.UniqueQueries | scripts/geocode_events.py:75-77 | the dedup loop computes the deduplicated list |
| Geocoding.UniqueQueriesFacts | scripts/geocode_events.py:75-77 | the deduplicated queries have no repeats and the same members as the candidates, one to four of them, the name first |
| Geocoding.FirstHit | scripts/geocode_events.py:79-99 | the lookup finds nothing exactly when no query is answered with a place |
| Geocoding.FirstHitIsFirst | scripts/geocode_events.py:79-95 | a place found is the answer to some query, and every earlier query missed |
| Geocoding.FirstHitAppend | scripts/geocode_events.py:79-99 | looking up `a + b` finds what `a` finds, and otherwise what `b` finds |
| Geocoding.SentUntilHit | scripts/geocode_events.py:79-99 | the lookup never sends more queries than it was given |
| Geocoding.SentUntilHitAppend | scripts/geocode_events.py:79-99 | `b` is reached only when `a` found nothing, and then all of `a` has been sent |
| Geocoding.MissStep | scripts/geocode_events.py:96-97 | one more miss keeps the lookup unanswered |
| Geocoding.HitStep | scripts/geocode_events.py:93-95 | the first hit ends the lookup: its place is returned and nothing after it is sent |
| Geocoding.NoHitSendsAll | scripts/geocode_events.py:79-99 | without a hit, every query is sent |
| Geocoding.LookupFirst | scripts/geocode_events.py:79-99 | the loop skips queries shorter than three characters, stops at the first hit, and returns exactly the specified place and sent queries |
| Geocoding.SentUntilHitIsPrefix | scripts/geocode_events.py:79-99 | the sent queries are a prefix of the list, and all but the last of them missed |
| Geocoding.SentUntilHitEndsAtHit | scripts/geocode_events.py:93-95 | a place is found exactly when the last query sent is answered, and the place is that answer |
| Geocoding.LookupSendsSendableInOrder | scripts/geocode_events.py:80-84 | the geocoder sees only queries of at least three characters, in list order |
| Geocoding.FirstTruthy | scripts/geocode_events.py:108 | an `or` chain is truthy exactly when some field is, then it is the first truthy field; otherwise it is the last field's value |
| Geocoding.CityOf | scripts/geocode_events.py:108 | the city is the first truthy of `city`, `town`, `state`, `village`, in that order |
| Geocoding.GeocodedIffSomeQueryHits | scripts/geocode_events.py:79-110 | an event gets an update exactly when some sendable candidate query is answered with a place, and the update comes from such an answer |
| Geocoding.GeocodeEvent | scripts/geocode_events.py:31-110 | one pass of the per-event loop body computes the specified update |
| Geocoding.CountConfirmed | scripts/geocode_events.py:118-123 | the success count never exceeds the number of events |
| Geocoding.GeocodedAll | scripts/geocode_events.py:30-128 | one update slot per event without coordinates |
| Geocoding.GeocodedAllStep | scripts/geocode_events.py:30-128 | each further event adds exactly its own update |
| Geocoding.GeocodedAllAt | scripts/geocode_events.py:30-128 | the i-th update depends only on the i-th event |
| Geocoding.GeocodeMissingEvents | scripts/geocode_events.py:16-131 | the script computes the specified update per event, and counts only the updates the database confirmed, at most one per event |
| Geocoding.CountConfirmedStep | scripts/geocode_events.py:118-123 | the count grows by one exactly for a present and confirmed update |
| Geocoding.CountConfirmedPrefixAt | scripts/geocode_events.py:118-123 | later events do not change the count of earlier ones |
| MarathonScraper.FirstNameLink | scripts/scrape_marathon_de.py:112-132 | the chosen link is the first whose text is not the date and has at least three characters; there is none exactly when no link qualifies |
| MarathonScraper.SelectLink | scripts/scrape_marathon_de.py:112-132 | the `continue`/`break` loop picks exactly that link |
| MarathonScraper.FirstNameLinkUnique | scripts/scrape_marathon_de.py:112-132 | the first qualifying link is the only index with those properties |
| MarathonScraper.LinkName | scripts/scrape_marathon_de.py:124-129 | the name is the stripped `title` exactly when that is strictly longer than the link text, and the link text otherwise |
| MarathonScraper.FallbackName | scripts/scrape_marathon_de.py:134-140 | the fallback is taken exactly when the stripped, date-free container text is longer than 5 characters; the name it gives is non-empty and does not start with whitespace |
| MarathonScraper.FallbackNameIsLeadingPart | scripts/scrape_marathon_de.py:134-140 | that name is the leading part of the container text without the date, up to its first double space (no double space starts inside it) or its end, and is used only when that text has more than five characters |
| MarathonScraper.CleanNameCollapsed | scripts/scrape_marathon_de.py:151 | a cleaned name has no whitespace runs |
| MarathonScraper.CleanNameIsJoinedWords | scripts/scrape_marathon_de.py:151 | a cleaned name is the words of the name joined by single spaces |
| MarathonScraper.StripKeepsCollapsed | scripts/scrape_marathon_de.py:151 | stripping after collapsing keeps the text collapsed |
| MarathonScraper.AbsoluteUrl | scripts/scrape_marathon_de.py:154-158 | an `href` starting with `/` gets the site origin in front, any other is kept as it is; so a stored link never starts with `/` |
| MarathonScraper.AbsoluteUrlIdempotent | scripts/scrape_marathon_de.py:157-158 | making an absolute link absolute changes nothing |
| MarathonScraper.AbsoluteUrlKeepsPath | scripts/scrape_marathon_de.py:157-158 | the `href` is always the end of the stored link |
| MarathonScraper.ExtractFacts | scripts/scrape_marathon_de.py:145-168 | every extracted event has the page's distance, no location, the running type and category, a cleaned name and no root-relative link |
| MarathonScraper.UnreadableDateSkipped | scripts/scrape_marathon_de.py:146-148 | a date that does not parse yields no event, whatever the container holds |
| MarathonScraper.ChooseName | scripts/scrape_marathon_de.py:106-143 | the link loop and its text fallback produce exactly the specified link and name candidate |
| MarathonScraper.ExtractEvent | scripts/scrape_marathon_de.py:72-168 | one pass of the per-date loop body yields exactly the specified event or nothing |
| MarathonScraper.ScrapeHits | scripts/scrape_marathon_de.py:50-195 | the page loop returns the first event per `(name, date)` of what the dates yield, in page order |
| MarathonScraper.FirstPerKeyStep | scripts/scrape_marathon_de.py:170-174 | a new event is appended exactly when no kept event has its name and date |
| MarathonScraper.HasKeyAppend | scripts/scrape_marathon_de.py:171 | the `any(...)` check after an append is the old check or the new event's key |
| MarathonScraper.FirstPerKeyKeys | scripts/scrape_marathon_de.py:170-175 | a `(name, date)` is kept exactly when some date yields an event with it |
| MarathonScraper.FirstPerKeyUnique | scripts/scrape_marathon_de.py:170-175 | no two kept events share a name and a date |
| MarathonScraper.FirstPerKeyFirstWins | scripts/scrape_marathon_de.py:170-175 | the event kept for a key is the first one yielded with that key |
| MarathonScraper.FirstPerKeyComplete | scripts/scrape_marathon_de.py:170-175 | the first event yielded for each key is kept |
| MarathonScraper.FirstPerKeyFromFound | scripts/scrape_marathon_de.py:170-175 | every kept event was yielded by some date |
| MarathonScraper.CollectedAreExtracted | scripts/scrape_marathon_de.py:72-175 | every event of a page comes from one of its dates, has the page's distance and a cleaned name, and has no root-relative link |
| MarathonScraper.DistanceValue | scripts/scrape_marathon_de.py:51 | a distance label that reads as a number gives a non-negative distance |
| MarathonScraper.DistanceOfLabel | scripts/scrape_marathon_de.py:51 | a label made of a number followed by `km` reads as exactly that number |
| MarathonScraper.ImporterDistances | scripts/scrape_marathon_de.py:285-297 | the two labels `main` uses read as 42 and 21 |
| MarathonScraper.ScrapeMarathonEvents | scripts/scrape_marathon_de.py:23-195 | a page that fails to load gives no events; an unreadable label is the uncaught `ValueError`; otherwise the result is the page's first event per key |
| MarathonScraper.RowForFacts | scripts/scrape_marathon_de.py:223-241 | the row's title is its name; its description starts with the prefix and name and is exactly that when the event has no link; then, with a link, exactly the prefix, name, link line prefix and link; a distance is written exactly when it is not zero, and is then the event's distance |
| MarathonScraper.TallyAccountsForEveryEvent | scripts/scrape_marathon_de.py:204-266 | every event counts once, as an insert, an update or an error |
| MarathonScraper.WritesMatchTally | scripts/scrape_marathon_de.py:243-258 | one database write per counted insert or update |
| MarathonScraper.UpsertEvents | scripts/scrape_marathon_de.py:197-275 | the loop computes the specified tally and writes; it returns inserts plus updates; the three counts add up to the number of events; no events gives 0 |
| MarathonScraper.ImportMarathonDe | scripts/scrape_marathon_de.py:277-322 | the events gathered are the marathon page's collected events followed by the half-marathon page's (none for a page that did not load); the count imported is the upsert's inserts plus updates, 0 when nothing was gathered; every event has distance 42 or 21 |
| Dashboard.BucketIsOpenInterval | frontend/components/EventDashboard.tsx:39-45 | a selected bucket keeps exactly the events with a non-zero distance strictly within 0.1 km of 42.195 or of 21.1 |
| Dashboard.AllBucketKeepsCatalogue | frontend/components/EventDashboard.tsx:39 | the bucket `all` keeps the whole catalogue |
| Dashboard.BucketFilterIdempotent | frontend/components/EventDashboard.tsx:39-46 | filtering twice by a bucket is filtering once |
| Dashboard.UndatedPlacement | frontend/components/EventDashboard.tsx:49-58 | undated events sort before the dated ones (with positive time) in ascending order, and after them otherwise |
| Dashboard.SwapDown | frontend/components/EventDashboard.tsx:49-58 | one step of the sort swaps two neighbours and changes nothing else |
| Dashboard.InsertAt | frontend/components/EventDashboard.tsx:49-58 | inserting one element extends the sorted prefix, as a permutation, and keeps the order of the elements with equal keys |
| Dashboard.ShiftDown | frontend/components/EventDashboard.tsx:49-58 | the insertion loop moves the element down past exactly the strictly larger keys before it, shifting them up by one and leaving the other cells alone |
| Dashboard.InsertionSorts | frontend/components/EventDashboard.tsx:49-58 | stopping behind a key no larger than the inserted one leaves the prefix in order, as a permutation |
| Dashboard.InsertionKeepsKeyClasses | frontend/components/EventDashboard.tsx:49-58 | moving an element down past strictly larger keys leaves every class of equal keys in its order |
| Dashboard.SortByKey | frontend/components/EventDashboard.tsx:49-58 | the in-place sort leaves the array ordered by the key, as a permutation of its contents, and stable: the elements of each key keep their order |
| Dashboard.SortByDate | frontend/components/EventDashboard.tsx:49-58 | the comparator sort leaves the array in date order (ascending for `date_asc`, else descending), as a permutation, with events of the same date in their earlier order |
| Dashboard.SortedCopy | frontend/components/EventDashboard.tsx:36-58 | sorting a copy gives the events in date order, as a permutation of them, events of the same date in input order |
| Dashboard.RadiusListing | frontend/components/EventDashboard.tsx:104-138 | a search lists the bucket's events whose coordinates are set and within the radius, sorted stably (same-date events in catalogue order), each one drawn from the catalogue |
| Dashboard.ZoomForRadius | frontend/components/EventDashboard.tsx:144 | the zoom after a search is 7, 8 or 9 |
| Dashboard.ZoomNonIncreasing | frontend/components/EventDashboard.tsx:144 | a wider radius never gives a closer zoom |
| Dashboard.BlankIffTrimmedEmpty | frontend/components/EventDashboard.tsx:64 | the blank check is "trims to the empty text" |
| Dashboard.EventDashboard.constructor | frontend/components/EventDashboard.tsx:23-61 | the initial state: empty place, 50 km, bucket `all`, ascending sort, no centre, zoom 6, no message; the list is the catalogue sorted by the mounting effect |
| Dashboard.EventDashboard.ApplyFilters | frontend/components/EventDashboard.tsx:157-182 | the list becomes the current bucket's events, in the current order, same-date events in catalogue order |
| Dashboard.EventDashboard.ShowResultsAround | frontend/components/EventDashboard.tsx:104-148 | the list becomes the radius listing; the map centres on the place with the radius's zoom; an empty result sets the "no events" message |
| Dashboard.EventDashboard.SetSearchLocation | frontend/components/EventDashboard.tsx:221 | typing changes only the place text |
| Dashboard.EventDashboard.SetSearchRadius | frontend/components/EventDashboard.tsx:239 | changing the radius re-lists nothing and keeps the zoom until the next search |
| Dashboard.EventDashboard.SetSelectedDistance | frontend/components/EventDashboard.tsx:35-61 | a new bucket re-lists the whole catalogue for it, dropping any radius result; the same bucket changes nothing; the map and the message stay |
| Dashboard.EventDashboard.SetSortBy | frontend/components/EventDashboard.tsx:35-61 | a new order re-lists the bucket's events in it; the same order changes nothing; the map and the message stay |
| Dashboard.EventDashboard.ResetSearch | frontend/components/EventDashboard.tsx:64-71 | a blank search shows the bucket's listing, removes the centre, resets the zoom to 6 and clears the message |
| Dashboard.EventDashboard.ResolveSearch | frontend/components/EventDashboard.tsx:73-154 | a failed request shows the retry message; no match shows "not found" for the place; both keep the list and the map; a located place shows the radius listing around it; the component is idle again afterwards |
| Dashboard.EventDashboard.HandleSearch | frontend/components/EventDashboard.tsx:63-155 | `handleSearch` for every geocoder outcome, blank or not, and it keeps the listing invariant |
| EventMap.EventsWithCoords | frontend/components/EventMap.tsx:38-45 | the map keeps exactly the events with both coordinates, in order, each as often as it was listed |
| EventMap.DisplayName | frontend/components/EventMap.tsx:88 | the popup title is never empty: the name, else the title, else `Unbenanntes Event` |
| EventMap.DateLine | frontend/components/EventMap.tsx:55-63 | a missing or empty date shows `Datum unbekannt`, any other the localised date |
| EventMap.Markers | frontend/components/EventMap.tsx:80-92 | one marker per event with coordinates, in order, placed at that event's coordinates, its popup showing the event's display name and date line |
| EventMap.MarkersComeFromEvents | frontend/components/EventMap.tsx:80-84 | every marker stands at the coordinates of an event of the list |
| EventMap.InitialCenter | frontend/components/EventMap.tsx:53 | the map opens at the given centre, or else at the centre of Germany |
| EventMap.EffectiveZoom | frontend/components/EventMap.tsx:36 | the zoom defaults to 6 |
| HomePage.FilterEvents | app/page.tsx:64-103 | the shown events are, in order, exactly the loaded events that match all four criteria, each as often as it was loaded |
| HomePage.SearchIgnoresCase | app/page.tsx:66-75 | a search text matches exactly when its lower-cased form does |
| HomePage.NoCriteriaShowsAll | app/page.tsx:64-103 | with no criteria set, every loaded event is shown |
| HomePage.UnknownDistancePassesEveryBucket | app/page.tsx:83-84 | an event without a distance (or with 0) passes every distance range |
| HomePage.BucketsPartition | app/page.tsx:86-99 | every distance lies in exactly one of the four ranges |
| HomePage.SearchTextNarrows | app/page.tsx:66-70 | typing search text never adds events |
| HomePage.ToggleCategory | app/page.tsx:56-62 | toggling a category selects it exactly when it was not selected, and leaves the others as they were |
| HomePage.ToggleTwiceRestoresSet | app/page.tsx:56-62 | toggling twice gives the same set of categories |
| HomePage.ToggleTwiceRestoresAbsent | app/page.tsx:56-62 | toggling an unselected category twice gives back the same list |
| HomePage.ToggleKeepsNoDuplicates | app/page.tsx:56-62 | toggling never lists a category twice |
| CrossChecks.ImportedDistanceMissesBuckets | frontend/components/EventDashboard.tsx:39-45 | a row stored by the importer, with distance 42 or 21, matches no selected bucket |
| CrossChecks.ImportedCatalogueNeverListed | frontend/components/EventDashboard.tsx:35-61 | a catalogue of imported rows is empty under every selected bucket |

## Left out

- Floating point. JavaScript numbers and Python floats are modelled as exact reals. So the tolerance check `Math.abs(d - t) < 0.1` and the ranges of the home page are exact. `parseFloat` of the geocoder's coordinates is not modelled: the coordinates arrive as reals.
- `calculateDistance` is not part of this model. The great-circle distance is a parameter `distanceKm`, and `Date.parse(...).getTime()` is a parameter `timeOf`.
- The React rendering and re-render timing. The effect re-lists in the same step as the state change it depends on. `handleSearch`'s awaits are not interleaved with other handlers. The closure's snapshot of the state is the state at the call.
- The DOM, as the search for date text nodes and their containers in BeautifulSoup. A date hit arrives with its container already chosen. The regular expression that selects date texts is the caller's concern.
- The network, the geocoders (Nominatim over `fetch` and geopy), Supabase and `time.sleep`. Their answers are function parameters. Log output (`print`, `console.log`) is omitted, including the scraper's `current_page_events` counter, which is only printed.
- The `except Exception: continue` around one date hit. Model extraction cannot raise.
- The `if not event_data.get('description')` branch of `upsert_events`. The description always starts with `Marathon-Event: `, so the branch never runs.
- `raw_location_data` is not modelled. The update holds the coordinates, city and address.
- Python's `str.split`, `strip` and `\s`, and `isdigit` and `lower`. They are modelled on ASCII whitespace and digits, with lower-casing for ASCII and the Latin-1 capitals. The wider Unicode classes are not modelled.
- Dashboard.IsBlank: JavaScript's `trim()` (frontend/components/EventDashboard.tsx:64) is modelled on the same ASCII whitespace. JavaScript also trims U+00A0, U+FEFF and the other Unicode spaces and line terminators, so a place text made only of no-break spaces is blank in the browser but not in the model.
- HomePage.ContainsIgnoringCase: JavaScript's `toLowerCase()` (app/page.tsx:68-75) is modelled as lower-casing of ASCII and the Latin-1 capitals only. Other capitals (Greek, Cyrillic, `ẞ`, ...) are left as they are, so a search differing only in such letters matches in the browser but not in the model.
- Dashboard.DateKey, Dashboard.SortByDate: `new Date(date).getTime()` is the parameter `timeOf`, which gives an integer for every text. An unparsable date gives `NaN` in JavaScript, every comparison with `NaN` is false, and the comparator is then inconsistent, so the order the engine produces is implementation-defined. The model covers only dates that parse (and the undated ones, which count as 0).
- Geocoding.GeocodeMissingEvents: every stored name is a text (a missing `name` key gives `""`, scripts/geocode_events.py:31). A row whose `name` is null makes `event_name.replace` raise `AttributeError` (scripts/geocode_events.py:43); that error is not caught, so it ends the whole run with the earlier updates written. The model does not cover that abort.
- MarathonScraper.DistanceValue: reads only labels that are digits once `km` is removed. It does not model the rest of Python's `float` syntax (signs, decimal points, exponents). Such labels are reported as unreadable.
- MarathonScraper.IsoDate: `strftime("%Y")` is modelled as glibc's, which writes the year without padding. It matters for years before 1000. `%Y` in `parse_german_date` accepts any four digits, so `01.01.0009` reads as year 9, and the model's `IsoDate` then writes `9-01-01`. C libraries that pad the year would write `0009-01-01`.
- The loading of the catalogue (`loadEvents` in `app/page.tsx`, and the server read behind `frontend/app/page.tsx`) is a database read. The catalogue is a parameter.
- The home page's `formatDate` and the dashboard's `formatDate` are not modelled. They are presentation through `toLocaleDateString`.
- `frontend/components/EventMapClient.tsx` and `frontend/app/page.tsx` are not part of this model. They only load a component and pass data through.
- The seed and maintenance scripts (`seed_events.py`, `debug_db_data.py`, `reset_germany_locations.py`) and the event detail page are not part of this model.
