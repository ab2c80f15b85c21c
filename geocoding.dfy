/**
 * The geocoding script (scripts/geocode_events.py): for every stored event
 * without coordinates it derives up to four place queries from the event's
 * name, asks the geocoder for them one by one until one is found, and writes
 * back the coordinates, the city and the address.
 */
module Geocoding {
  import opened Wrappers
  import opened Seqs
  import opened Strings

  /** Words of event names that are never place names, compared in lower case. */
  const IgnoreTerms: seq<string> := [
    "marathon", "halbmarathon", "lauf", "triathlon", "ultra", "run", "city",
    "firma", "firmenlauf", "nachtlauf", "silvesterlauf", "neujahrslauf",
    "ev", "e.v.", "gmbh", "international", "internationaler", "den", "der", "die", "das",
    "winter", "sommer", "frühling", "herbst", "cross", "trail", "cup"]

  /** Queries shorter than this are never sent. */
  const MinQueryLength: nat := 3

  // ---------------------------------------------------------------------------
  // Candidate queries

  /** `name.replace("-", " ").split()`. */
  function Tokens(name: string): seq<string> {
    SplitWhitespace(ReplaceChar(name, '-', ' '))
  }

  /** Python `isdigit` on a token: non-empty and all digits. */
  predicate IsNumber(p: string) {
    p != [] && AllDigits(p)
  }

  /** A token that may name a place: not an ignore word in any case, not a number, longer than two characters. */
  predicate IsPlaceToken(p: string) {
    Lower(p) !in IgnoreTerms && !IsNumber(p) && |p| > 2
  }

  /** `potential_places`: the place tokens, in order. */
  function PotentialPlaces(parts: seq<string>): seq<string> {
    if parts == [] then []
    else (if IsPlaceToken(parts[0]) then [parts[0]] else []) + PotentialPlaces(parts[1..])
  }

  /** The place tokens are exactly the tokens that pass the three tests, in their order. */
  lemma {:induction false} PotentialPlacesFacts(parts: seq<string>)
    ensures PotentialPlaces(parts) == Filter(IsPlaceToken, parts)
    ensures IsSubsequence(PotentialPlaces(parts), parts)
    ensures forall p :: p in PotentialPlaces(parts) <==> p in parts && IsPlaceToken(p)
  {
    if parts != [] {
      PotentialPlacesFacts(parts[1..]);
    }
    FilterIsSubsequence(IsPlaceToken, parts);
  }

  /** The second query: the place tokens joined by spaces, when there are any and that differs from the name. */
  function CleanedQuery(name: string): Option<string> {
    var places := PotentialPlaces(Tokens(name));
    if places == [] then None
    else
      var cleaned := Join(" ", places);
      if cleaned != name then Some(cleaned) else None
  }

  /** The cleaned query is never empty and never the name itself. */
  lemma CleanedQueryFacts(name: string)
    ensures CleanedQuery(name).Some? ==> CleanedQuery(name).value != [] && CleanedQuery(name).value != name
  {
    var places := PotentialPlaces(Tokens(name));
    if places != [] {
      PotentialPlacesFacts(Tokens(name));
      assert places[0] in places;
    }
  }

  /** The trailing queries: for names of two tokens or more, the last and then the first token. */
  function EdgeTokens(name: string): seq<string> {
    var parts := Tokens(name);
    if |parts| > 1 then [parts[|parts| - 1], parts[0]] else []
  }

  /** There are no edge tokens or two, and they are non-empty words without whitespace. */
  lemma EdgeTokensFacts(name: string)
    ensures |EdgeTokens(name)| == 0 || |EdgeTokens(name)| == 2
    ensures forall i :: 0 <= i < |EdgeTokens(name)| ==> EdgeTokens(name)[i] != [] && HasNoWhitespace(EdgeTokens(name)[i])
  {
  }

  /** The queries in the order they are appended: the full name, the cleaned query, the edge tokens. */
  function CandidateQueries(name: string): seq<string> {
    QueryList(name, CleanedQuery(name), EdgeTokens(name))
  }

  function QueryList(name: string, cleaned: Option<string>, edges: seq<string>): seq<string> {
    [name] + (if cleaned.Some? then [cleaned.value] else []) + edges
  }

  lemma QueryListShape(name: string, cleaned: Option<string>, edges: seq<string>)
    requires cleaned.Some? ==> cleaned.value != []
    requires |edges| == 0 || |edges| == 2
    requires forall i :: 0 <= i < |edges| ==> edges[i] != []
    ensures 1 <= |QueryList(name, cleaned, edges)| <= 4 && QueryList(name, cleaned, edges)[0] == name
    ensures forall i :: 1 <= i < |QueryList(name, cleaned, edges)| ==> QueryList(name, cleaned, edges)[i] != []
  {
    var middle := if cleaned.Some? then [cleaned.value] else [];
    var q := QueryList(name, cleaned, edges);
    forall i | 1 <= i < |q| ensures q[i] != [] {
      if i <= |middle| {
        assert q[i] == middle[i - 1];
      } else {
        assert q[i] == edges[i - 1 - |middle|];
      }
    }
  }

  /** The full name comes first, at most four queries follow one another, and every later query is non-empty. */
  lemma CandidateQueriesShape(name: string)
    ensures 1 <= |CandidateQueries(name)| <= 4 && CandidateQueries(name)[0] == name
    ensures forall i :: 1 <= i < |CandidateQueries(name)| ==> CandidateQueries(name)[i] != []
  {
    CleanedQueryFacts(name);
    EdgeTokensFacts(name);
    QueryListShape(name, CleanedQuery(name), EdgeTokens(name));
  }

  /** `search_queries`, built by successive appends. */
  method SearchQueries(name: string) returns (queries: seq<string>)
    ensures queries == CandidateQueries(name)
  {
    queries := [];
    queries := queries + [name];
    var cleaned := CleanedQuery(name);
    if cleaned.Some? {
      queries := queries + [cleaned.value];
    }
    assert queries == [name] + (if cleaned.Some? then [cleaned.value] else []);
    queries := AppendEdgeTokens(queries, name);
    assert queries == QueryList(name, cleaned, EdgeTokens(name));
  }

  /** The third and fourth appends: the last token, then the first, for names of two tokens or more. */
  method AppendEdgeTokens(queries: seq<string>, name: string) returns (r: seq<string>)
    ensures r == queries + EdgeTokens(name)
  {
    r := queries;
    var parts := Tokens(name);
    if |parts| > 1 {
      r := r + [parts[|parts| - 1]];
    }
    if |parts| > 1 {
      r := r + [parts[0]];
    }
  }

  /** `unique_queries`: each query once, at its first position. */
  method UniqueQueries(queries: seq<string>) returns (unique: seq<string>)
    ensures unique == Dedup(queries)
  {
    unique := [];
    for i := 0 to |queries|
      invariant unique == Dedup(queries[..i])
    {
      assert queries[..i + 1][..i] == queries[..i];
      if queries[i] !in unique {
        unique := unique + [queries[i]];
      }
    }
    assert queries[..|queries|] == queries;
  }

  /** The unique queries: no repeats, nothing lost, first-occurrence order, at most four, the name first. */
  lemma UniqueQueriesFacts(name: string)
    ensures NoDuplicates(Dedup(CandidateQueries(name)))
    ensures forall q :: q in Dedup(CandidateQueries(name)) <==> q in CandidateQueries(name)
    ensures 1 <= |Dedup(CandidateQueries(name))| <= 4
    ensures Dedup(CandidateQueries(name))[0] == name
  {
    CandidateQueriesShape(name);
    var qs := CandidateQueries(name);
    var u := Dedup(qs);
    assert name in u;
    DedupKeepsFirstOccurrenceOrder(qs);
  }

  // ---------------------------------------------------------------------------
  // Lookup

  /** A geocoder hit: coordinates, the display address and the structured address fields. */
  datatype Place = Place(latitude: real, longitude: real, address: string, addressFields: map<string, string>)

  /** What one geocoder request ends in; a raised exception is `Failure`. */
  datatype GeoAnswer = Hit(place: Place) | Miss | Failure

  /** A query long enough to be sent. */
  predicate IsSendable(q: string) {
    |q| >= MinQueryLength
  }

  /** The place of the first query in `queries` the geocoder finds, if any. */
  function FirstHit(queries: seq<string>, geocode: string -> GeoAnswer): (r: Option<Place>)
    ensures r.None? <==> forall i :: 0 <= i < |queries| ==> !geocode(queries[i]).Hit?
  {
    if queries == [] then None
    else if geocode(queries[0]).Hit? then Some(geocode(queries[0]).place)
    else
      assert forall i :: 1 <= i < |queries| ==> queries[i] == queries[1..][i - 1];
      FirstHit(queries[1..], geocode)
  }

  /** A hit is the answer for some query, and every query before it missed or failed. */
  lemma {:induction false} FirstHitIsFirst(queries: seq<string>, geocode: string -> GeoAnswer)
    requires FirstHit(queries, geocode).Some?
    ensures exists k :: 0 <= k < |queries| && geocode(queries[k]).Hit? && FirstHit(queries, geocode).value == geocode(queries[k]).place &&
                        (forall j :: 0 <= j < k ==> !geocode(queries[j]).Hit?)
  {
    if !geocode(queries[0]).Hit? {
      FirstHitIsFirst(queries[1..], geocode);
      var k :| 0 <= k < |queries[1..]| && geocode(queries[1..][k]).Hit? && FirstHit(queries[1..], geocode).value == geocode(queries[1..][k]).place &&
        forall j :: 0 <= j < k ==> !geocode(queries[1..][j]).Hit?;
      assert queries[k + 1] == queries[1..][k];
      forall j | 0 <= j < k + 1 ensures !geocode(queries[j]).Hit? {
        if j > 0 { assert queries[j] == queries[1..][j - 1]; }
      }
    } else {
      assert geocode(queries[0]).Hit?;
    }
  }

  /** Looking further only matters when nothing was found so far. */
  lemma {:induction false} FirstHitAppend(a: seq<string>, b: seq<string>, geocode: string -> GeoAnswer)
    ensures FirstHit(a + b, geocode) == if FirstHit(a, geocode).Some? then FirstHit(a, geocode) else FirstHit(b, geocode)
  {
    if a == [] {
      assert a + b == b;
    } else {
      assert (a + b)[0] == a[0] && (a + b)[1..] == a[1..] + b;
      FirstHitAppend(a[1..], b, geocode);
    }
  }

  /** The queries sent, in order: all of them up to and including the first one found. */
  function SentUntilHit(queries: seq<string>, geocode: string -> GeoAnswer): (sent: seq<string>)
    ensures |sent| <= |queries|
  {
    if queries == [] then []
    else if geocode(queries[0]).Hit? then [queries[0]]
    else [queries[0]] + SentUntilHit(queries[1..], geocode)
  }

  lemma {:induction false} SentUntilHitAppend(a: seq<string>, b: seq<string>, geocode: string -> GeoAnswer)
    ensures SentUntilHit(a + b, geocode) == if FirstHit(a, geocode).Some? then SentUntilHit(a, geocode) else a + SentUntilHit(b, geocode)
  {
    if a == [] {
      assert a + b == b;
    } else {
      assert (a + b)[0] == a[0] && (a + b)[1..] == a[1..] + b;
      SentUntilHitAppend(a[1..], b, geocode);
      if !geocode(a[0]).Hit? && FirstHit(a[1..], geocode).None? {
        assert [a[0]] + (a[1..] + SentUntilHit(b, geocode)) == a + SentUntilHit(b, geocode);
      }
    }
  }

  /** One more query that misses: still nothing found, and everything so far was sent. */
  lemma MissStep(prev: seq<string>, q: string, geocode: string -> GeoAnswer)
    requires FirstHit(prev, geocode).None? && !geocode(q).Hit?
    ensures FirstHit(prev + [q], geocode).None?
  {
    assert forall k :: 0 <= k < |prev| ==> (prev + [q])[k] == prev[k];
  }

  /** A query that hits after misses only decides the lookup and ends what is sent. */
  lemma HitStep(prev: seq<string>, q: string, rest: seq<string>, geocode: string -> GeoAnswer)
    requires FirstHit(prev, geocode).None? && geocode(q).Hit?
    ensures FirstHit(prev + [q] + rest, geocode) == Some(geocode(q).place)
    ensures SentUntilHit(prev + [q] + rest, geocode) == prev + [q]
  {
    FirstHitAppend(prev, [q], geocode);
    FirstHitAppend(prev + [q], rest, geocode);
    SentUntilHitAppend(prev, [q], geocode);
    SentUntilHitAppend(prev + [q], rest, geocode);
  }

  /** When nothing is found, every query is sent. */
  lemma NoHitSendsAll(queries: seq<string>, geocode: string -> GeoAnswer)
    requires FirstHit(queries, geocode).None?
    ensures SentUntilHit(queries, geocode) == queries
  {
    SentUntilHitAppend(queries, [], geocode);
    assert queries + [] == queries;
  }

  /**
   * The lookup loop: queries shorter than three characters are skipped, the
   * others are sent in order, and the loop stops at the first hit. `asked` is
   * the list of queries sent.
   */
  method LookupFirst(queries: seq<string>, geocode: string -> GeoAnswer) returns (found: Option<Place>, asked: seq<string>)
    ensures found == FirstHit(Filter(IsSendable, queries), geocode)
    ensures asked == SentUntilHit(Filter(IsSendable, queries), geocode)
  {
    found, asked := None, [];
    var i := 0;
    while i < |queries|
      invariant 0 <= i <= |queries|
      invariant asked == Filter(IsSendable, queries[..i])
      invariant FirstHit(asked, geocode).None?
      invariant found.None?
    {
      var query := queries[i];
      FilterPrefixStep(IsSendable, queries, i);
      i := i + 1;
      if !IsSendable(query) {
        continue;
      }
      var answer := geocode(query);
      if answer.Hit? {
        FilterSplit(IsSendable, queries, i);
        HitStep(asked, query, Filter(IsSendable, queries[i..]), geocode);
        asked := asked + [query];
        found := Some(answer.place);
        break;
      }
      MissStep(asked, query, geocode);
      asked := asked + [query];
    }
    if found.None? {
      assert queries[..i] == queries;
      NoHitSendsAll(asked, geocode);
    }
  }

  /** What is sent is a prefix of the queries, and every query sent before the last one missed or failed. */
  lemma {:induction false} SentUntilHitIsPrefix(queries: seq<string>, geocode: string -> GeoAnswer)
    ensures SentUntilHit(queries, geocode) == queries[..|SentUntilHit(queries, geocode)|]
    ensures forall i :: 0 <= i < |SentUntilHit(queries, geocode)| - 1 ==> !geocode(SentUntilHit(queries, geocode)[i]).Hit?
  {
    if queries != [] && !geocode(queries[0]).Hit? {
      SentUntilHitIsPrefix(queries[1..], geocode);
      var rest := SentUntilHit(queries[1..], geocode);
      assert queries[..|rest| + 1] == [queries[0]] + queries[1..][..|rest|];
      assert forall i :: 1 <= i < |rest| + 1 ==> ([queries[0]] + rest)[i] == rest[i - 1];
    }
  }

  /** The lookup found something exactly when the last query sent was found. */
  lemma {:induction false} SentUntilHitEndsAtHit(queries: seq<string>, geocode: string -> GeoAnswer)
    ensures FirstHit(queries, geocode).Some? <==>
      (SentUntilHit(queries, geocode) != [] && geocode(SentUntilHit(queries, geocode)[|SentUntilHit(queries, geocode)| - 1]).Hit?)
    ensures FirstHit(queries, geocode).Some? ==>
      FirstHit(queries, geocode).value == geocode(SentUntilHit(queries, geocode)[|SentUntilHit(queries, geocode)| - 1]).place
  {
    if queries != [] && !geocode(queries[0]).Hit? {
      SentUntilHitEndsAtHit(queries[1..], geocode);
      var rest := SentUntilHit(queries[1..], geocode);
      if rest != [] {
        assert ([queries[0]] + rest)[|rest|] == rest[|rest| - 1];
      } else {
        assert FirstHit(queries[1..], geocode).None?;
      }
    }
  }

  /** Only queries of three characters or more are sent, in the order of the list. */
  lemma LookupSendsSendableInOrder(queries: seq<string>, geocode: string -> GeoAnswer)
    ensures IsSubsequence(SentUntilHit(Filter(IsSendable, queries), geocode), queries)
    ensures forall q :: q in SentUntilHit(Filter(IsSendable, queries), geocode) ==> IsSendable(q)
  {
    var sendable := Filter(IsSendable, queries);
    var sent := SentUntilHit(sendable, geocode);
    SentUntilHitIsPrefix(sendable, geocode);
    FilterIsSubsequence(IsSendable, queries);
    SubsequencePrefix(sendable, queries, |sent|);
    forall q | q in sent ensures IsSendable(q) {
      assert q in sendable;
    }
  }

  // ---------------------------------------------------------------------------
  // Write-back

  const CityKeys: seq<string> := ["city", "town", "state", "village"]

  /** `address.get(key)`. */
  function Field(address: map<string, string>, key: string): Option<string> {
    if key in address then Some(address[key]) else None
  }

  predicate IsTruthy(v: Option<string>) {
    v.Some? && v.value != ""
  }

  /** `a or b or ...`: the first truthy value, else the last value as it is. */
  function FirstTruthy(address: map<string, string>, keys: seq<string>): (v: Option<string>)
    requires keys != []
    ensures IsTruthy(v) <==> exists i :: 0 <= i < |keys| && IsTruthy(Field(address, keys[i]))
    ensures forall i ::
      (0 <= i < |keys| && IsTruthy(Field(address, keys[i])) && forall j :: 0 <= j < i ==> !IsTruthy(Field(address, keys[j])))
      ==> v == Field(address, keys[i])
    ensures !IsTruthy(v) ==> v == Field(address, keys[|keys| - 1])
  {
    if |keys| == 1 || IsTruthy(Field(address, keys[0])) then
      Field(address, keys[0])
    else
      assert forall i :: 1 <= i < |keys| ==> keys[i] == keys[1..][i - 1];
      FirstTruthy(address, keys[1..])
  }

  /** The `city` written back: `city`, else `town`, else `state`, else `village`. */
  function CityOf(address: map<string, string>): (city: Option<string>)
    ensures IsTruthy(Field(address, "city")) ==> city == Field(address, "city")
    ensures !IsTruthy(Field(address, "city")) && IsTruthy(Field(address, "town")) ==> city == Field(address, "town")
    ensures !IsTruthy(Field(address, "city")) && !IsTruthy(Field(address, "town")) && IsTruthy(Field(address, "state")) ==>
      city == Field(address, "state")
    ensures !IsTruthy(Field(address, "city")) && !IsTruthy(Field(address, "town")) && !IsTruthy(Field(address, "state")) ==>
      city == Field(address, "village")
  {
    assert Field(address, CityKeys[0]) == Field(address, "city") && Field(address, CityKeys[1]) == Field(address, "town");
    assert Field(address, CityKeys[2]) == Field(address, "state") && Field(address, CityKeys[3]) == Field(address, "village");
    FirstTruthy(address, CityKeys)
  }

  /** The columns written for a geocoded event. */
  datatype LocationUpdate = LocationUpdate(lat: real, lng: real, city: Option<string>, location: string)

  function UpdateFor(place: Place): LocationUpdate {
    LocationUpdate(place.latitude, place.longitude, CityOf(place.addressFields), place.address)
  }

  /** What geocoding one event name writes back: the update for the first sendable unique query the geocoder finds. */
  function Geocoded(name: string, geocode: string -> GeoAnswer): Option<LocationUpdate> {
    var hit := FirstHit(Filter(IsSendable, Dedup(CandidateQueries(name))), geocode);
    if hit.Some? then Some(UpdateFor(hit.value)) else None
  }

  /** An update is written exactly when some candidate query of three characters or more is found. */
  lemma GeocodedIffSomeQueryHits(name: string, geocode: string -> GeoAnswer)
    ensures Geocoded(name, geocode).Some? <==> exists q :: q in CandidateQueries(name) && IsSendable(q) && geocode(q).Hit?
    ensures Geocoded(name, geocode).Some? ==>
      exists q :: q in CandidateQueries(name) && IsSendable(q) && geocode(q).Hit? && Geocoded(name, geocode).value == UpdateFor(geocode(q).place)
  {
    var sendable := Filter(IsSendable, Dedup(CandidateQueries(name)));
    var hit := FirstHit(sendable, geocode);
    if hit.Some? {
      FirstHitIsFirst(sendable, geocode);
      var k :| 0 <= k < |sendable| && geocode(sendable[k]).Hit? && hit.value == geocode(sendable[k]).place;
      assert sendable[k] in sendable;
    } else {
      forall q | q in CandidateQueries(name) && IsSendable(q) ensures !geocode(q).Hit? {
        assert q in sendable;
      }
    }
  }

  /** One event: build the queries, deduplicate them, look them up; an update only when a place was found. */
  method GeocodeEvent(name: string, geocode: string -> GeoAnswer) returns (update: Option<LocationUpdate>)
    ensures update == Geocoded(name, geocode)
  {
    var queries := SearchQueries(name);
    var unique := UniqueQueries(queries);
    var found, asked := LookupFirst(unique, geocode);
    if found.Some? {
      update := Some(UpdateFor(found.value));
    } else {
      update := None;
    }
  }

  /** The number of updates among the first `n` that the database confirmed. */
  function CountConfirmed(updates: seq<Option<LocationUpdate>>, confirmed: nat -> bool, n: nat): (c: nat)
    requires n <= |updates|
    ensures c <= n
  {
    if n == 0 then 0
    else CountConfirmed(updates, confirmed, n - 1) + (if updates[n - 1].Some? && confirmed(n - 1) then 1 else 0)
  }

  /** What geocoding writes for each name, in order. */
  function GeocodedAll(names: seq<string>, geocode: string -> GeoAnswer): (updates: seq<Option<LocationUpdate>>)
    ensures |updates| == |names|
  {
    if names == [] then [] else GeocodedAll(names[..|names| - 1], geocode) + [Geocoded(names[|names| - 1], geocode)]
  }

  lemma GeocodedAllStep(names: seq<string>, i: nat, geocode: string -> GeoAnswer)
    requires i < |names|
    ensures GeocodedAll(names[..i + 1], geocode) == GeocodedAll(names[..i], geocode) + [Geocoded(names[i], geocode)]
  {
    assert names[..i + 1][..i] == names[..i];
  }

  /** The i-th update is the one for the i-th name. */
  lemma {:induction false} GeocodedAllAt(names: seq<string>, geocode: string -> GeoAnswer, i: nat)
    requires i < |names|
    ensures GeocodedAll(names, geocode)[i] == Geocoded(names[i], geocode)
  {
    if i < |names| - 1 {
      GeocodedAllAt(names[..|names| - 1], geocode, i);
    }
  }

  /**
   * `geocode_missing_events` over the names of the events without coordinates:
   * `confirmed(i)` is whether the database returned rows for the i-th update.
   */
  method GeocodeMissingEvents(names: seq<string>, geocode: string -> GeoAnswer, confirmed: nat -> bool)
    returns (updates: seq<Option<LocationUpdate>>, count: nat)
    ensures updates == GeocodedAll(names, geocode)
    ensures count == CountConfirmed(updates, confirmed, |names|) <= |names|
  {
    updates, count := [], 0;
    if |names| == 0 {
      return;
    }
    for i := 0 to |names|
      invariant |updates| == i
      invariant updates == GeocodedAll(names[..i], geocode)
      invariant count == CountConfirmed(updates, confirmed, i)
    {
      var update := GeocodeEvent(names[i], geocode);
      CountConfirmedStep(updates, update, confirmed);
      GeocodedAllStep(names, i, geocode);
      updates := updates + [update];
      if update.Some? && confirmed(i) {
        count := count + 1;
      }
    }
    assert names[..|names|] == names;
  }

  /** Counting one more update adds one exactly when it was written and confirmed. */
  lemma CountConfirmedStep(updates: seq<Option<LocationUpdate>>, update: Option<LocationUpdate>, confirmed: nat -> bool)
    ensures CountConfirmed(updates + [update], confirmed, |updates| + 1) ==
      CountConfirmed(updates, confirmed, |updates|) + (if update.Some? && confirmed(|updates|) then 1 else 0)
  {
    CountConfirmedPrefixAt(updates, [update], confirmed, |updates|);
  }

  lemma {:induction false} CountConfirmedPrefixAt(updates: seq<Option<LocationUpdate>>, more: seq<Option<LocationUpdate>>, confirmed: nat -> bool, n: nat)
    requires n <= |updates|
    ensures CountConfirmed(updates + more, confirmed, n) == CountConfirmed(updates, confirmed, n)
  {
    if n > 0 {
      CountConfirmedPrefixAt(updates, more, confirmed, n - 1);
      assert (updates + more)[n - 1] == updates[n - 1];
    }
  }
}
