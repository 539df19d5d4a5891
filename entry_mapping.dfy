/** Turning one asteroid node of the feed into an `AsteroidResponse`: the
    chained `get` calls of `mapAsteroid`, `calculateAverageDiameter`,
    `extractSpeed` and `extractPlanet`, where any lookup that answers null
    makes the next call throw `NullPointerException`. */
module EntryMapping {
  import opened Results
  import opened JsonNode
  import opened ServiceTypes

  const NamePath: seq<Step> := [Key("name")]
  const MinPath: seq<Step> := [Key("estimated_diameter"), Key("kilometers"), Key("estimated_diameter_min")]
  const MaxPath: seq<Step> := [Key("estimated_diameter"), Key("kilometers"), Key("estimated_diameter_max")]
  const SpeedPath: seq<Step> :=
    [Key("close_approach_data"), Index(0), Key("relative_velocity"), Key("kilometers_per_hour")]
  const PlanetPath: seq<Step> := [Key("close_approach_data"), Index(0), Key("orbiting_body")]
  const HazardPath: seq<Step> := [Key("is_potentially_hazardous_asteroid")]

  /** The paths `mapAsteroid` reads, in the order it reads them. */
  const RequiredPaths: seq<seq<Step>> := [NamePath, MinPath, MaxPath, SpeedPath, PlanetPath]

  /** A chain of `get` calls followed by a call on the node reached: the
      node, or the `NullPointerException` of the first lookup that answers
      null. `done` is the part of the chain already walked. */
  function ReadFrom(j: Json, done: seq<Step>, rest: seq<Step>): (r: Result<Json, Failure>)
    ensures r.Err? ==> r.error.NullPointerException?
    decreases |rest|
  {
    if rest == [] then Ok(j)
    else match Child(j, rest[0])
      case None => Err(NullPointerException(done + [rest[0]]))
      case Some(c) => ReadFrom(c, done + [rest[0]], rest[1..])
  }

  function Read(j: Json, path: seq<Step>): (r: Result<Json, Failure>)
    ensures r.Err? ==> r.error.NullPointerException?
  {
    ReadFrom(j, [], path)
  }

  /** `e` is the exception a walk along `path` throws: it names the
      shortest prefix of `path` that reaches null. */
  ghost predicate FirstNull(j: Json, path: seq<Step>, e: Failure)
  {
    e.NullPointerException? && 0 < |e.at| <= |path| && e.at == path[..|e.at|]
    && Follow(j, e.at).None? && Follow(j, e.at[..|e.at| - 1]).Some?
  }

  /** `calculateAverageDiameter`: the mean of the minimum and maximum
      estimated diameters in kilometres. */
  function CalculateAverageDiameter(asteroid: Json): (r: Result<real, Failure>)
    ensures r.Err? ==> r.error.NullPointerException?
    ensures r.Ok? ==> Read(asteroid, MinPath).Ok? && Read(asteroid, MaxPath).Ok?
    ensures r.Ok? ==>
      var min := AsDouble(Read(asteroid, MinPath).value);
      var max := AsDouble(Read(asteroid, MaxPath).value);
      min <= max ==> min <= r.value <= max
  {
    var min :- Read(asteroid, MinPath);
    var max :- Read(asteroid, MaxPath);
    Ok((AsDouble(min) + AsDouble(max)) / 2.0)
  }

  /** `extractSpeed`: km/h of the first close approach. */
  function ExtractSpeed(asteroid: Json): (r: Result<real, Failure>)
    ensures r.Err? ==> r.error.NullPointerException?
    ensures Get(asteroid, "close_approach_data").None? ==>
      r == Err(NullPointerException([Key("close_approach_data")]))
  {
    FirstLookup(asteroid, SpeedPath);
    var speed :- Read(asteroid, SpeedPath);
    Ok(AsDouble(speed))
  }

  /** `extractPlanet`: the body of the first close approach. */
  function ExtractPlanet(asteroid: Json): (r: Result<string, Failure>)
    ensures r.Err? ==> r.error.NullPointerException?
    ensures Get(asteroid, "close_approach_data").None? ==>
      r == Err(NullPointerException([Key("close_approach_data")]))
  {
    FirstLookup(asteroid, PlanetPath);
    var body :- Read(asteroid, PlanetPath);
    Ok(AsText(body))
  }

  /** `mapAsteroid`: the record for one node, filed under `date`. */
  function MapAsteroid(asteroid: Json, date: string): (r: Result<AsteroidResponse, Failure>)
    ensures r.Err? ==> r.error.NullPointerException?
    ensures r.Ok? ==> r.value.date == date
    ensures r.Ok? ==> (CalculateAverageDiameter(asteroid) == Ok(r.value.diameter)
      && ExtractSpeed(asteroid) == Ok(r.value.speed) && ExtractPlanet(asteroid) == Ok(r.value.planet))
  {
    var name :- Read(asteroid, NamePath);
    var diameter :- CalculateAverageDiameter(asteroid);
    var speed :- ExtractSpeed(asteroid);
    var planet :- ExtractPlanet(asteroid);
    Ok(AsteroidResponse(AsText(name), diameter, speed, date, planet))
  }

  /** The `is_potentially_hazardous_asteroid` test of the extraction loop. */
  function HazardFlag(asteroid: Json): (r: Result<bool, Failure>)
    ensures Get(asteroid, "is_potentially_hazardous_asteroid").None? ==>
      r == Err(NullPointerException([Key("is_potentially_hazardous_asteroid")]))
    ensures Get(asteroid, "is_potentially_hazardous_asteroid").Some? ==>
      r == Ok(AsBoolean(Get(asteroid, "is_potentially_hazardous_asteroid").value))
  {
    FirstLookup(asteroid, HazardPath);
    var flag :- Read(asteroid, HazardPath);
    Ok(AsBoolean(flag))
  }

  /** A walk whose first lookup answers null throws there; a walk of one
      lookup that answers a node yields that node. */
  lemma {:induction false} FirstLookup(j: Json, path: seq<Step>)
    requires path != []
    ensures Child(j, path[0]).None? ==> Read(j, path) == Err(NullPointerException([path[0]]))
    ensures |path| == 1 && Child(j, path[0]).Some? ==> Read(j, path) == Ok(Child(j, path[0]).value)
  {
    var none: seq<Step> := [];
    assert none + [path[0]] == [path[0]];
    if |path| == 1 && Child(j, path[0]).Some? {
      var c := Child(j, path[0]).value;
      assert path[1..] == [];
      assert ReadFrom(c, none + [path[0]], path[1..]) == Ok(c);
    }
  }

  lemma {:induction false} ReadFromAgreesWithFollow(j: Json, done: seq<Step>, rest: seq<Step>)
    ensures ReadFrom(j, done, rest).Ok? <==> Follow(j, rest).Some?
    ensures ReadFrom(j, done, rest).Ok? ==> ReadFrom(j, done, rest).value == Follow(j, rest).value
    ensures ReadFrom(j, done, rest).Err? ==>
      var e := ReadFrom(j, done, rest).error;
      e.NullPointerException? && |done| < |e.at| && e.at[..|done|] == done
      && FirstNull(j, rest, NullPointerException(e.at[|done|..]))
    decreases |rest|
  {
    if rest != [] {
      var step := rest[0];
      match Child(j, step)
      case None =>
        var at := done + [step];
        assert at[..|done|] == done;
        assert at[|done|..] == [step] == rest[..1];
      case Some(c) =>
        ReadFromAgreesWithFollow(c, done + [step], rest[1..]);
        var r := ReadFrom(c, done + [step], rest[1..]);
        if r.Err? {
          var at := r.error.at;
          var q := at[|done| + 1..];
          assert at[..|done|] == done by {
            assert at[..|done| + 1][..|done|] == at[..|done|];
          }
          assert at[|done|] == step by {
            assert at[..|done| + 1][|done|] == at[|done|];
          }
          var q' := at[|done|..];
          assert q' == [step] + q;
          assert q' == rest[..|q'|] by {
            assert q == rest[1..][..|q|];
          }
          assert q'[1..] == q;
          assert q'[..|q'| - 1] == [step] + q[..|q| - 1];
          assert ([step] + q[..|q| - 1])[1..] == q[..|q| - 1];
        }
    }
  }

  /** Walking a chain of lookups fails exactly when following it reaches
      null; it then throws at the first lookup that answers null, and
      otherwise yields the node reached. */
  lemma {:induction false} ReadAgreesWithFollow(j: Json, path: seq<Step>)
    ensures Read(j, path).Ok? <==> Follow(j, path).Some?
    ensures Read(j, path).Ok? ==> Read(j, path).value == Follow(j, path).value
    ensures Read(j, path).Err? ==> FirstNull(j, path, Read(j, path).error)
  {
    ReadFromAgreesWithFollow(j, [], path);
    if Read(j, path).Err? {
      var at := Read(j, path).error.at;
      assert at[0..] == at;
    }
  }

  /** The average diameter lies between the minimum and the maximum
      whenever the minimum does not exceed the maximum, and it exists
      exactly when both are present. */
  lemma {:induction false} AverageDiameterBetween(asteroid: Json)
    ensures CalculateAverageDiameter(asteroid).Ok?
        <==> Follow(asteroid, MinPath).Some? && Follow(asteroid, MaxPath).Some?
    ensures CalculateAverageDiameter(asteroid).Ok? ==>
      var min := AsDouble(Follow(asteroid, MinPath).value);
      var max := AsDouble(Follow(asteroid, MaxPath).value);
      CalculateAverageDiameter(asteroid).value == (min + max) / 2.0
      && (min <= max ==> min <= CalculateAverageDiameter(asteroid).value <= max)
  {
    ReadAgreesWithFollow(asteroid, MinPath);
    ReadAgreesWithFollow(asteroid, MaxPath);
  }

  /** Speed and planet come from the first entry of `close_approach_data`,
      and an empty `close_approach_data` array throws at `get(0)`. */
  lemma {:induction false} FirstApproach(asteroid: Json)
    ensures ExtractSpeed(asteroid).Ok? <==> Follow(asteroid, SpeedPath).Some?
    ensures ExtractSpeed(asteroid).Ok? ==>
      ExtractSpeed(asteroid).value == AsDouble(Follow(asteroid, SpeedPath).value)
    ensures ExtractPlanet(asteroid).Ok? <==> Follow(asteroid, PlanetPath).Some?
    ensures ExtractPlanet(asteroid).Ok? ==>
      ExtractPlanet(asteroid).value == AsText(Follow(asteroid, PlanetPath).value)
    ensures Get(asteroid, "close_approach_data") == Some(JArray([])) ==>
      ExtractSpeed(asteroid) == Err(NullPointerException([Key("close_approach_data"), Index(0)]))
  {
    ReadAgreesWithFollow(asteroid, SpeedPath);
    ReadAgreesWithFollow(asteroid, PlanetPath);
    if Get(asteroid, "close_approach_data") == Some(JArray([])) {
      var none: seq<Step> := [];
      var first := [Key("close_approach_data")];
      assert none + [SpeedPath[0]] == first;
      assert Read(asteroid, SpeedPath) == ReadFrom(JArray([]), first, SpeedPath[1..]);
      assert SpeedPath[1..][0] == Index(0);
      assert ReadFrom(JArray([]), first, SpeedPath[1..]) == Err(NullPointerException(first + [Index(0)]));
      assert first + [Index(0)] == [Key("close_approach_data"), Index(0)];
    }
  }

  /** `mapAsteroid` in terms of the reads it makes: it succeeds when each
      of them does, and assembles their results. */
  lemma {:induction false} MapAsteroidParts(asteroid: Json, date: string)
    ensures MapAsteroid(asteroid, date).Ok? <==>
      Read(asteroid, NamePath).Ok? && CalculateAverageDiameter(asteroid).Ok?
      && ExtractSpeed(asteroid).Ok? && ExtractPlanet(asteroid).Ok?
    ensures MapAsteroid(asteroid, date).Ok? ==>
      MapAsteroid(asteroid, date).value == AsteroidResponse(AsText(Read(asteroid, NamePath).value),
        CalculateAverageDiameter(asteroid).value, ExtractSpeed(asteroid).value, date,
        ExtractPlanet(asteroid).value)
  {
    var name := Read(asteroid, NamePath);
    var diameter := CalculateAverageDiameter(asteroid);
    var speed := ExtractSpeed(asteroid);
    var planet := ExtractPlanet(asteroid);
    assert MapAsteroid(asteroid, date) ==
      if name.Err? then Err(name.error)
      else if diameter.Err? then Err(diameter.error)
      else if speed.Err? then Err(speed.error)
      else if planet.Err? then Err(planet.error)
      else Ok(AsteroidResponse(AsText(name.value), diameter.value, speed.value, date, planet.value));
  }

  /** `mapAsteroid` succeeds exactly when every field it reads is present,
      and the record is filed under the date it was given (not the entry's
      own approach date). */
  lemma {:induction false} MapAsteroidSpec(asteroid: Json, date: string)
    ensures MapAsteroid(asteroid, date).Ok?
        <==> forall k :: 0 <= k < |RequiredPaths| ==> Follow(asteroid, RequiredPaths[k]).Some?
    ensures MapAsteroid(asteroid, date).Ok? ==> MapAsteroid(asteroid, date).value.date == date
  {
    var present := Follow(asteroid, NamePath).Some? && Follow(asteroid, MinPath).Some?
      && Follow(asteroid, MaxPath).Some? && Follow(asteroid, SpeedPath).Some?
      && Follow(asteroid, PlanetPath).Some?;
    assert MapAsteroid(asteroid, date).Ok? <==> present by {
      MapAsteroidParts(asteroid, date);
      ReadAgreesWithFollow(asteroid, NamePath);
      AverageDiameterBetween(asteroid);
      FirstApproach(asteroid);
    }
    RequiredAllPresent(asteroid);
  }

  lemma {:induction false} RequiredAllPresent(asteroid: Json)
    ensures (forall k :: 0 <= k < |RequiredPaths| ==> Follow(asteroid, RequiredPaths[k]).Some?)
      <==> (Follow(asteroid, NamePath).Some? && Follow(asteroid, MinPath).Some?
        && Follow(asteroid, MaxPath).Some? && Follow(asteroid, SpeedPath).Some?
        && Follow(asteroid, PlanetPath).Some?)
  {
    var paths := RequiredPaths;
    assert paths[0] == NamePath && paths[1] == MinPath && paths[2] == MaxPath;
    assert paths[3] == SpeedPath && paths[4] == PlanetPath;
    assert |paths| == 5;
  }

  /** With every field present, the record holds the name's text, the mean
      diameter, the first approach's speed and body, and the given date. */
  lemma {:induction false} MapAsteroidRecord(asteroid: Json, date: string)
    requires Follow(asteroid, NamePath).Some? && Follow(asteroid, MinPath).Some?
    requires Follow(asteroid, MaxPath).Some? && Follow(asteroid, SpeedPath).Some?
    requires Follow(asteroid, PlanetPath).Some?
    ensures MapAsteroid(asteroid, date).Ok?
    ensures var r := MapAsteroid(asteroid, date).value;
      && r.name == AsText(Follow(asteroid, NamePath).value)
      && r.diameter
         == (AsDouble(Follow(asteroid, MinPath).value) + AsDouble(Follow(asteroid, MaxPath).value)) / 2.0
      && r.speed == AsDouble(Follow(asteroid, SpeedPath).value)
      && r.date == date
      && r.planet == AsText(Follow(asteroid, PlanetPath).value)
  {
    ReadAgreesWithFollow(asteroid, NamePath);
    AverageDiameterBetween(asteroid);
    FirstApproach(asteroid);
    MapAsteroidParts(asteroid, date);
  }

  /** When a field is missing, `mapAsteroid` throws at the first null of
      the first path it reads that has one: nothing is skipped or
      defaulted. */
  lemma {:induction false} MapAsteroidThrowsAtFirstNull(asteroid: Json, date: string)
    requires MapAsteroid(asteroid, date).Err?
    ensures exists k :: (0 <= k < |RequiredPaths|
        && FirstNull(asteroid, RequiredPaths[k], MapAsteroid(asteroid, date).error)
        && forall l :: 0 <= l < k ==> Follow(asteroid, RequiredPaths[l]).Some?)
  {
    var k := FirstFailingRead(asteroid, date);
    forall l | 0 <= l < |RequiredPaths|
      ensures Read(asteroid, RequiredPaths[l]).Ok? <==> Follow(asteroid, RequiredPaths[l]).Some?
      ensures Read(asteroid, RequiredPaths[l]).Err? ==>
        FirstNull(asteroid, RequiredPaths[l], Read(asteroid, RequiredPaths[l]).error)
    {
      ReadAgreesWithFollow(asteroid, RequiredPaths[l]);
    }
    assert FirstNull(asteroid, RequiredPaths[k], MapAsteroid(asteroid, date).error);
  }

  /** The position among the required paths of the read `mapAsteroid`
      throws at. */
  lemma {:induction false} FirstFailingRead(asteroid: Json, date: string) returns (k: nat)
    requires MapAsteroid(asteroid, date).Err?
    ensures k < |RequiredPaths|
    ensures Read(asteroid, RequiredPaths[k]) == Err(MapAsteroid(asteroid, date).error)
    ensures forall l :: 0 <= l < k ==> Read(asteroid, RequiredPaths[l]).Ok?
  {
    assert RequiredPaths[0] == NamePath && RequiredPaths[1] == MinPath && RequiredPaths[2] == MaxPath;
    assert RequiredPaths[3] == SpeedPath && RequiredPaths[4] == PlanetPath;
    if Read(asteroid, NamePath).Err? {
      k := 0;
    } else if Read(asteroid, MinPath).Err? {
      k := 1;
    } else if Read(asteroid, MaxPath).Err? {
      k := 2;
    } else if Read(asteroid, SpeedPath).Err? {
      k := 3;
    } else {
      k := 4;
    }
  }

  /** The diameter of an entry whose estimates are 1.0 and 2.0 km is 1.5. */
  lemma DiameterExample()
    ensures CalculateAverageDiameter(JObject([("estimated_diameter", JObject([("kilometers", JObject([
      ("estimated_diameter_min", JFloat(1.0, "1.0")),
      ("estimated_diameter_max", JFloat(2.0, "2.0"))]))]))])) == Ok(1.5)
  {
  }

  /** A missing `estimated_diameter` makes the whole mapping throw,
      whatever else the node holds. */
  lemma {:induction false} MissingDiameterThrows(asteroid: Json, date: string)
    requires Get(asteroid, "estimated_diameter").None?
    ensures MapAsteroid(asteroid, date).Err?
    ensures Read(asteroid, NamePath).Ok? ==>
      MapAsteroid(asteroid, date) == Err(NullPointerException([Key("estimated_diameter")]))
  {
    var none: seq<Step> := [];
    assert Read(asteroid, MinPath) == Err(NullPointerException(none + [Key("estimated_diameter")]));
    assert none + [Key("estimated_diameter")] == [Key("estimated_diameter")];
  }
}
