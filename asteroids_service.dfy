/** `AsteroidsService`: validates the number of days, asks the NASA feed
    for the window starting today, pulls out `near_earth_objects`, flattens
    it into records, and for the ranking keeps the three largest hazardous
    ones. The HTTP client and the JSON parser are outside the model: the
    feed is a function from the requested window to what `readTree` made of
    the answer, `None` when it threw. */
module AsteroidsService {
  import opened Results
  import opened JsonNode
  import opened ServiceTypes
  import opened EntryMapping
  import opened Flattening
  import opened Ranking

  /** Days per request the NASA feed accepts at most. */
  const MaxDays: int := 7

  /** A date window of the feed request, as day numbers. */
  datatype Window = Window(start: int, end: int)

  /** What `readTree` made of the feed's answer for a window: the root
      node, or `None` when parsing threw. */
  type Feed = Window -> Option<Json>

  /** `validateDays`: throws for a day count outside one to seven. */
  function ValidateDays(days: int): (r: Outcome<Failure>)
    ensures r.Fail? <==> days < 1 || days > MaxDays
    ensures r.Fail? ==> r.error == NasaApiException(DaysMessage)
  {
    if days < 1 || days > MaxDays then Fail(NasaApiException(DaysMessage)) else Pass
  }

  /** The window `getAsteroidsFeed` asks for: from today, `days` days on. */
  function RequestWindow(today: int, days: int): (w: Window)
    ensures w.start == today && w.end - w.start == days
  {
    Window(today, today + days)
  }

  /** `fetchNeoMap`, after the request: a parse failure is rethrown as a
      `NasaApiException`; a root without `near_earth_objects` is not an
      error here and gives null. */
  function FetchNeoMap(parsed: Option<Json>): (r: Result<Option<Json>, Failure>)
    ensures r.Err? <==> parsed.None?
    ensures r.Err? ==> r.error == NasaApiException(ParseMessage)
    ensures r.Ok? ==> (r.value.Some? <==> "near_earth_objects" in FieldNames(parsed.value))
    ensures r.Ok? && r.value.Some? ==> ("near_earth_objects", r.value.value) in parsed.value.fields
  {
    match parsed
    case None => Err(NasaApiException(ParseMessage))
    case Some(root) =>
      FieldNamesAreKeys(root, "near_earth_objects");
      Ok(Get(root, "near_earth_objects"))
  }

  /** The entries of the first `k` buckets followed by the first `i` nodes
      of the next are a prefix of all entries. */
  lemma {:induction false} PrefixOfBucket(neo: Json, k: nat, i: nat)
    requires k < |FieldNames(neo)| && i <= |Bucket(neo, k)|
    ensures EntriesUpTo(neo, k) + Tag(FieldNames(neo)[k], Bucket(neo, k)[..i]) <= Entries(neo)
  {
    var b := Bucket(neo, k);
    var date := FieldNames(neo)[k];
    var before := EntriesUpTo(neo, k);
    EntriesPrefix(neo, k + 1, |FieldNames(neo)|);
    assert Tag(date, b[..i]) == Tag(date, b)[..i];
    assert before + Tag(date, b)[..i] == (before + Tag(date, b))[..|before| + i];
  }

  /** One more node of the `k`-th bucket extends the entries by that node. */
  lemma {:induction false} NextEntry(neo: Json, k: nat, i: nat)
    requires k < |FieldNames(neo)| && i < |Bucket(neo, k)|
    ensures var b := Bucket(neo, k); var date := FieldNames(neo)[k];
      EntriesUpTo(neo, k) + Tag(date, b[..i + 1]) == (EntriesUpTo(neo, k) + Tag(date, b[..i])) + [Tagged(date, b[i])]
  {
    var b := Bucket(neo, k);
    var date := FieldNames(neo)[k];
    assert b[..i + 1] == b[..i] + [b[i]];
    assert Tag(date, b[..i + 1]) == Tag(date, b[..i]) + [Tagged(date, b[i])];
  }

  lemma {:induction false} BucketBounds(neo: Json, k: nat)
    requires k < |FieldNames(neo)|
    ensures var b := Bucket(neo, k); var date := FieldNames(neo)[k];
      EntriesUpTo(neo, k) + Tag(date, b[..0]) == EntriesUpTo(neo, k)
      && EntriesUpTo(neo, k) + Tag(date, b[..|b|]) == EntriesUpTo(neo, k + 1)
  {
    var b := Bucket(neo, k);
    assert b[..|b|] == b;
  }

  lemma {:induction false} ErrorsPersistToEnd(t: seq<Tagged>, all: seq<Tagged>, onlyHazardous: bool)
    requires t <= all && ExtractAll(t, onlyHazardous).Err?
    ensures ExtractAll(all, onlyHazardous) == ExtractAll(t, onlyHazardous)
  {
    assert all == t + all[|t|..];
    ErrorPersists(t, all[|t|..], onlyHazardous);
  }

  /** The step of the extraction for one more entry `x`, after entries `t`
      gave `acc`. */
  lemma {:induction false} AppendEntry(t: seq<Tagged>, x: Tagged, onlyHazardous: bool, acc: seq<AsteroidResponse>)
    requires ExtractAll(t, onlyHazardous) == Ok(acc)
    ensures Retained(x, onlyHazardous).Ok? ==>
      ExtractAll(t + [x], onlyHazardous) == Ok(acc + Retained(x, onlyHazardous).value)
    ensures Retained(x, onlyHazardous).Err? ==>
      ExtractAll(t + [x], onlyHazardous) == Err(Retained(x, onlyHazardous).error)
  {
    ErrorOrAppend(t, x, onlyHazardous);
  }

  /** The body of the inner loop for one node: with filtering, the hazard
      flag is read first (a missing one throws) and a node that is not
      hazardous adds nothing; a kept node adds its record. */
  method VisitAsteroid(asteroid: Json, date: string, onlyHazardous: bool)
      returns (r: Result<seq<AsteroidResponse>, Failure>)
    ensures r == Retained(Tagged(date, asteroid), onlyHazardous)
  {
    if onlyHazardous {
      var flag := HazardFlag(asteroid);
      if flag.Err? {
        return Err(flag.error);
      }
      if !flag.value {
        return Ok([]);
      }
    }
    var record := MapAsteroid(asteroid, date);
    if record.Err? {
      return Err(record.error);
    }
    return Ok([record.value]);
  }

  /** The loop over one date key: every node under `date`, in order; the
      first node that throws ends the extraction. */
  method ExtractBucket(neo: Json, k: nat, onlyHazardous: bool, results: seq<AsteroidResponse>)
      returns (r: Result<seq<AsteroidResponse>, Failure>)
    requires k < |FieldNames(neo)|
    requires ExtractAll(EntriesUpTo(neo, k), onlyHazardous) == Ok(results)
    ensures r.Ok? ==> r == ExtractAll(EntriesUpTo(neo, k + 1), onlyHazardous)
    ensures r.Err? ==> r == ExtractAll(Entries(neo), onlyHazardous)
  {
    var date := FieldNames(neo)[k];
    FieldNameHasValue(neo, k);
    var asteroids := Elements(Get(neo, date).value);
    BucketBounds(neo, k);
    var acc := results;
    var i := 0;
    while i < |asteroids|
      invariant 0 <= i <= |asteroids|
      invariant ExtractAll(EntriesUpTo(neo, k) + Tag(date, asteroids[..i]), onlyHazardous) == Ok(acc)
    {
      var done := EntriesUpTo(neo, k) + Tag(date, asteroids[..i]);
      var step := VisitAsteroid(asteroids[i], date, onlyHazardous);
      NextEntry(neo, k, i);
      AppendEntry(done, Tagged(date, asteroids[i]), onlyHazardous, acc);
      if step.Err? {
        PrefixOfBucket(neo, k, i + 1);
        ErrorsPersistToEnd(done + [Tagged(date, asteroids[i])], Entries(neo), onlyHazardous);
        return step.PropagateFailure();
      }
      acc := acc + step.value;
      i := i + 1;
    }
    return Ok(acc);
  }

  /** `extractAsteroidsFromNeoMap`. A missing `near_earth_objects` throws
      when its field names are asked for; otherwise the date keys are
      visited in order. */
  method ExtractAsteroidsFromNeoMap(neoMap: Option<Json>, onlyHazardous: bool)
      returns (r: Result<seq<AsteroidResponse>, Failure>)
    ensures r == Extraction(neoMap, onlyHazardous)
  {
    if neoMap.None? {
      return Err(NullPointerException([Key("near_earth_objects")]));
    }
    var neo := neoMap.value;
    var results: seq<AsteroidResponse> := [];
    var dates := FieldNames(neo);
    var k := 0;
    while k < |dates|
      invariant 0 <= k <= |dates|
      invariant ExtractAll(EntriesUpTo(neo, k), onlyHazardous) == Ok(results)
    {
      var bucket := ExtractBucket(neo, k, onlyHazardous, results);
      if bucket.Err? {
        return bucket;
      }
      results := bucket.value;
      k := k + 1;
    }
    return Ok(results);
  }

  /** `getMappedAsteroids`: asks for the window of `days` days, whatever
      `days` is, and maps every entry of the answer. */
  method GetMappedAsteroids(days: int, today: int, feed: Feed)
      returns (r: Result<seq<AsteroidResponse>, Failure>, requested: Window)
    ensures requested == RequestWindow(today, days)
    ensures feed(requested).None? ==> r == Err(NasaApiException(ParseMessage))
    ensures feed(requested).Some? ==>
      r == Extraction(Get(feed(requested).value, "near_earth_objects"), false)
  {
    requested := RequestWindow(today, days);
    var fetched := FetchNeoMap(feed(requested));
    if fetched.Err? {
      return fetched.PropagateFailure(), requested;
    }
    r := ExtractAsteroidsFromNeoMap(fetched.value, false);
  }

  /** `getTopDangerousAsteroids`: a day count outside one to seven throws
      before anything is requested; otherwise the hazardous records of the
      answer are ranked and the three largest kept. */
  method GetTopDangerousAsteroids(days: int, today: int, feed: Feed)
      returns (r: Result<seq<AsteroidResponse>, Failure>, requested: Option<Window>)
    ensures days < 1 || days > MaxDays <==> requested.None?
    ensures requested.None? ==> r == Err(NasaApiException(DaysMessage))
    ensures requested.Some? ==> requested.value == RequestWindow(today, days)
    ensures requested.Some? && feed(requested.value).None? ==> r == Err(NasaApiException(ParseMessage))
    ensures requested.Some? && feed(requested.value).Some? ==>
      var extracted := Extraction(Get(feed(requested.value).value, "near_earth_objects"), true);
      (extracted.Err? ==> r == Err(extracted.error)) && (extracted.Ok? ==> r == Ok(TopThree(extracted.value)))
  {
    var valid := ValidateDays(days);
    if valid.Fail? {
      return valid.PropagateFailure(), None;
    }
    var window := RequestWindow(today, days);
    requested := Some(window);
    var fetched := FetchNeoMap(feed(window));
    if fetched.Err? {
      return fetched.PropagateFailure(), requested;
    }
    var hazardous := ExtractAsteroidsFromNeoMap(fetched.value, true);
    if hazardous.Err? {
      return hazardous.PropagateFailure(), requested;
    }
    r := Ok(TopThree(hazardous.value));
  }

  /** The feed object of two dates, one node each. */
  function TwoDates(x: Json, y: Json): Json
  {
    JObject([("2025-05-26", JArray([x])), ("2025-05-27", JArray([y]))])
  }

  lemma {:induction false} TwoDatesEntries(x: Json, y: Json)
    ensures Entries(TwoDates(x, y)) == [Tagged("2025-05-26", x), Tagged("2025-05-27", y)]
  {
    var neo := TwoDates(x, y);
    var d1, d2 := "2025-05-26", "2025-05-27";
    assert d1 != d2 by { assert d1[9] != d2[9]; }
    assert FieldNames(neo) == [d1, d2];
    assert Get(neo, d1) == Some(JArray([x]));
    assert neo.fields[0].0 != d2 && neo.fields[1..] == [(d2, JArray([y]))];
    assert Lookup(neo.fields, d2) == Lookup([(d2, JArray([y]))], d2);
    assert Get(neo, d2) == Some(JArray([y]));
    assert Bucket(neo, 0) == [x] && Bucket(neo, 1) == [y];
    assert Tag(d1, [x]) == [Tagged(d1, x)] && Tag(d2, [y]) == [Tagged(d2, y)];
    assert EntriesUpTo(neo, 1) == [] + [Tagged(d1, x)];
    assert EntriesUpTo(neo, 2) == EntriesUpTo(neo, 1) + [Tagged(d2, y)];
  }

  lemma {:induction false} HazardousKept(e: Tagged, r: AsteroidResponse)
    requires HazardFlag(e.node) == Ok(true) && MapAsteroid(e.node, e.date) == Ok(r)
    ensures Retained(e, true) == Ok([r])
  {
  }

  lemma {:induction false} TwoDatesExtraction(x: Json, y: Json, rx: AsteroidResponse, ry: AsteroidResponse)
    requires HazardFlag(x) == Ok(true) && MapAsteroid(x, "2025-05-26") == Ok(rx)
    requires HazardFlag(y) == Ok(true) && MapAsteroid(y, "2025-05-27") == Ok(ry)
    ensures Extraction(Some(TwoDates(x, y)), true) == Ok([rx, ry])
  {
    var e1, e2 := Tagged("2025-05-26", x), Tagged("2025-05-27", y);
    TwoDatesEntries(x, y);
    HazardousKept(e1, rx);
    HazardousKept(e2, ry);
    var none: seq<Tagged> := [];
    assert ExtractAll(none, true) == Ok([]);
    ErrorOrAppend(none, e1, true);
    assert none + [e1] == [e1] && [] + [rx] == [rx];
    ErrorOrAppend([e1], e2, true);
    assert [e1] + [e2] == [e1, e2] && [rx] + [ry] == [rx, ry];
  }

  /** Two hazardous asteroids on two dates, the earlier date's 1.5 km
      across and the later one's 3.0 km: the ranking puts the later date's
      larger asteroid first, so for a feed answering that response
      `GetTopDangerousAsteroids` returns `Ok([ry, rx])`. */
  lemma {:induction false} LargerAsteroidRanksFirstAcrossDates(x: Json, y: Json, rx: AsteroidResponse, ry: AsteroidResponse)
    requires HazardFlag(x) == Ok(true) && MapAsteroid(x, "2025-05-26") == Ok(rx) && rx.diameter == 1.5
    requires HazardFlag(y) == Ok(true) && MapAsteroid(y, "2025-05-27") == Ok(ry) && ry.diameter == 3.0
    ensures var root := JObject([("near_earth_objects", TwoDates(x, y))]);
      var extracted := Extraction(Get(root, "near_earth_objects"), true);
      extracted.Ok? && TopThree(extracted.value) == [ry, rx]
  {
    var root := JObject([("near_earth_objects", TwoDates(x, y))]);
    assert Get(root, "near_earth_objects") == Some(TwoDates(x, y));
    TwoDatesExtraction(x, y, rx, ry);
    LargerOfTwoFirst(rx, ry);
  }
}
