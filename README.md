# NASA near-Earth-object service, modelled in Dafny

This project models the asteroid pipeline of `AsteroidsService` from the
Nasa-Api-EndPoint-App Spring service. The service asks NASA's NeoWs feed for a
window of days starting today. It reads the `near_earth_objects` object out of
the JSON answer. That object maps date keys to arrays of asteroid nodes.

The service flattens it into a list of `AsteroidResponseDTO` records: name,
mean estimated diameter in km, speed in km/h, the date key, and the orbited
body. It can keep every node or only the potentially hazardous ones. For the
"top dangerous" view, it also sorts the hazardous records by diameter, largest
first, and keeps three.

Modules, one file each:

- `Results` (`results.dfy`): `Option` for a Java reference that may be null, and `Result` / `Outcome` for a computation that may throw.
- `JavaText` (`java_text.dfy`): `String.trim`, the integer rendering, and the lenient `NumberInput.parseAsDouble` that `asDouble()` applies to text. NASA sends `kilometers_per_hour` as a string, which is why this matters.
- `JsonNode` (`json_node.dfy`): the parsed JSON tree, with Jackson's `get(String)`, `get(int)`, `fieldNames()`, node iteration, `asBoolean()`, `asDouble()` and `asText()`. A lookup that is absent answers null (`None`). A JSON `null` literal is a node, not null.
- `ServiceTypes` (`service_types.dfy`):
  - the `AsteroidResponse` record;
  - the two exceptions the model covers: `NasaApiException` with its message, and `NullPointerException` with the chain of lookups that reached null;
  - the service's two message texts.
- `EntryMapping` (`entry_mapping.dfy`): `mapAsteroid`, `calculateAverageDiameter`, `extractSpeed`, `extractPlanet` and the hazard-flag test, as chains of lookups.
- `Flattening` (`flattening.dfy`): what `extractAsteroidsFromNeoMap` computes, stated on values:
  - the entries in key order, then array order, each tagged with its date key;
  - the records built from them;
  - lemmas on filtering, ordering, dates and failure.
- `Ranking` (`ranking.dfy`):
  - the reference stable descending sort (an insertion sort) and the top-three cut;
  - a proof that every stable descending sort gives the same list, so the choice of algorithm does not matter.
- `AsteroidsService` (`asteroids_service.dfy`):
  - `validateDays`, the requested window and `fetchNeoMap`;
  - the imperative extraction loop, written as a method with nested `while` loops and proved equal to the `Flattening` function;
  - `getMappedAsteroids` and `getTopDangerousAsteroids`.

The outside world enters as parameters:

- the current day is `today`;
- the HTTP request plus `readTree` is a function `Feed` from the requested window to the parsed root, or `None` when parsing threw.

Each facade method returns the window it requested. A rejected day count therefore visibly requests nothing.

Some behaviours of the code a reader might not expect, which the model keeps:

- Only `getTopDangerousAsteroids` validates `days`; `getMappedAsteroids` asks for any window, even an empty or negative one.
- A missing `near_earth_objects` key is not an error when parsing. It throws a `NullPointerException` later, in the extraction.
- A malformed entry throws a `NullPointerException` at the first null lookup. A container of the wrong type (say, `close_approach_data` as an object) makes the next `get` answer null and so also throws there. A leaf field of the wrong type (one read with `asDouble()`, `asText()` or `asBoolean()`) is not an error: those calls coerce every node (text that is not a number reads as 0.0).

## Model

| member | source | states |
|---|---|---|
| `AsteroidsService.ValidateDays` | src/main/java/org/phinix/nasaApiEndpointApp/service/AsteroidsService.java:203-207 | fails exactly when `days < 1` or `days > 7`, with the `NasaApiException` message "The 'days' parameter must be between 1 and 7." |
| `AsteroidsService.RequestWindow` | src/main/java/org/phinix/nasaApiEndpointApp/service/AsteroidsService.java:97-105 | the requested window starts today and ends `days` days later |
| `AsteroidsService.FetchNeoMap` | src/main/java/org/phinix/nasaApiEndpointApp/service/AsteroidsService.java:114-122 | throws `NasaApiException("Error parsing the NASA API response.")` exactly when parsing failed; otherwise yields the `near_earth_objects` member, or null exactly when the root has no such field name |
| `AsteroidsService.ExtractAsteroidsFromNeoMap` | src/main/java/org/phinix/nasaApiEndpointApp/service/AsteroidsService.java:131-145 | the loop over date keys returns exactly `Flattening.Extraction`: a null map throws at `fieldNames()`, and each failure aborts with the first exception thrown |
| `AsteroidsService.ExtractBucket` | src/main/java/org/phinix/nasaApiEndpointApp/service/AsteroidsService.java:135-142 | the inner loop over one date's array extends the results to those of the entries up to and including that date, or throws what the whole extraction throws |
| `AsteroidsService.VisitAsteroid` | src/main/java/org/phinix/nasaApiEndpointApp/service/AsteroidsService.java:137-140 | one node adds exactly what `Flattening.Retained` says: when filtering, the hazard flag is read first (a missing one throws) and a node that is not hazardous adds nothing; a kept node adds its mapped record |
| `AsteroidsService.GetMappedAsteroids` | src/main/java/org/phinix/nasaApiEndpointApp/service/AsteroidsService.java:67-70 | requests the window for any `days` without validating; a parse failure throws the parse `NasaApiException`; otherwise the result is the unfiltered extraction of `near_earth_objects` |
| `AsteroidsService.GetTopDangerousAsteroids` | src/main/java/org/phinix/nasaApiEndpointApp/service/AsteroidsService.java:79-87 | requests nothing and throws the days `NasaApiException` exactly when `days` is outside 1..7; otherwise requests today's window and returns the parse failure, the extraction failure, or the top three of the hazardous extraction |
| `EntryMapping.MapAsteroid` | src/main/java/org/phinix/nasaApiEndpointApp/service/AsteroidsService.java:154-161 | a failing mapping throws only `NullPointerException`; a record is filed under the date it was given and holds the results of `calculateAverageDiameter`, `extractSpeed` and `extractPlanet` |
| `EntryMapping.CalculateAverageDiameter` | src/main/java/org/phinix/nasaApiEndpointApp/service/AsteroidsService.java:169-174 | throws only `NullPointerException`; when both estimates are read, the diameter lies between them whenever min <= max |
| `EntryMapping.ExtractSpeed` | src/main/java/org/phinix/nasaApiEndpointApp/service/AsteroidsService.java:182-185 | throws only `NullPointerException`, and throws it at `get("close_approach_data")` when that member is missing |
| `EntryMapping.ExtractPlanet` | src/main/java/org/phinix/nasaApiEndpointApp/service/AsteroidsService.java:193-195 | throws only `NullPointerException`, and throws it at `get("close_approach_data")` when that member is missing |
| `EntryMapping.HazardFlag` | src/main/java/org/phinix/nasaApiEndpointApp/service/AsteroidsService.java:138 | a missing `is_potentially_hazardous_asteroid` throws `NullPointerException` at that lookup; a present one reads as its `asBoolean()` |
| `EntryMapping.ReadAgreesWithFollow` | src/main/java/org/phinix/nasaApiEndpointApp/service/AsteroidsService.java:183-184 | a chain of `get` calls succeeds exactly when every lookup is non-null, yields the node reached, and otherwise throws the `NullPointerException` of the first lookup that answers null |
| `EntryMapping.AverageDiameterBetween` | src/main/java/org/phinix/nasaApiEndpointApp/service/AsteroidsService.java:169-174 | the diameter exists exactly when both estimates are present, is their mean, and lies between min and max whenever min <= max |
| `EntryMapping.DiameterExample` | src/main/java/org/phinix/nasaApiEndpointApp/service/AsteroidsService.java:169-174 | estimates 1.0 and 2.0 km give a diameter of 1.5 km |
| `EntryMapping.FirstApproach` | src/main/java/org/phinix/nasaApiEndpointApp/service/AsteroidsService.java:182-195 | speed and planet are read from `close_approach_data[0]` and exist exactly when their paths do; an empty `close_approach_data` throws at `get(0)` |
| `EntryMapping.MapAsteroidSpec` | src/main/java/org/phinix/nasaApiEndpointApp/service/AsteroidsService.java:154-161 | the record exists exactly when all five required paths are present, and it is filed under the given date key |
| `EntryMapping.MapAsteroidRecord` | src/main/java/org/phinix/nasaApiEndpointApp/service/AsteroidsService.java:154-161 | with every required field present, the mapping succeeds and the record holds the name's text, the mean of the two diameter estimates, the first approach's speed and body, and the given date key |
| `EntryMapping.MapAsteroidThrowsAtFirstNull` | src/main/java/org/phinix/nasaApiEndpointApp/service/AsteroidsService.java:155-158 | a failing mapping throws at the first null of the first required path, in reading order, that has one |
| `EntryMapping.MissingDiameterThrows` | src/main/java/org/phinix/nasaApiEndpointApp/service/AsteroidsService.java:170 | a node without `estimated_diameter` never maps, and throws at that lookup when its name is present |
| `JsonNode.Get` | src/main/java/org/phinix/nasaApiEndpointApp/service/AsteroidsService.java:118 | `get(name)` is null on anything but an object, and a non-null answer is the value of a member of that name |
| `JsonNode.At` | src/main/java/org/phinix/nasaApiEndpointApp/service/AsteroidsService.java:183 | `get(0)` answers an element of an array, the element at that index when it is in range, and null for a negative index |
| `JsonNode.FieldNames` | src/main/java/org/phinix/nasaApiEndpointApp/service/AsteroidsService.java:135 | `fieldNames()` is empty on a non-object and lists an object's member names in document order |
| `JsonNode.Elements` | src/main/java/org/phinix/nasaApiEndpointApp/service/AsteroidsService.java:137 | iterating an array visits its elements; iterating an object visits its member values, lined up with `fieldNames()`; a scalar visits nothing |
| `JsonNode.AsBoolean` | src/main/java/org/phinix/nasaApiEndpointApp/service/AsteroidsService.java:138 | a boolean reads as itself, text reads as true exactly when it trims to "true", and only booleans, integers and text can read as true |
| `JsonNode.AsDouble` | src/main/java/org/phinix/nasaApiEndpointApp/service/AsteroidsService.java:171-172 | a number reads as its value, text through the lenient parse, and null, arrays and objects as 0.0 |
| `JsonNode.AsText` | src/main/java/org/phinix/nasaApiEndpointApp/service/AsteroidsService.java:155 | text reads as itself, an integer as its decimal rendering, and arrays and objects as the empty string |
| `JsonNode.FieldNamesAreKeys` | src/main/java/org/phinix/nasaApiEndpointApp/service/AsteroidsService.java:135-136 | `get(date)` is non-null exactly for the names `fieldNames()` yields, so the loop's `neoMap.get(date)` never answers null |
| `JsonNode.LookupFinds` | src/main/java/org/phinix/nasaApiEndpointApp/service/AsteroidsService.java:118 | `get(name)` finds a member exactly when one has that name, and returns that member's value |
| `JsonNode.NullLiteralCoerces` | src/main/java/org/phinix/nasaApiEndpointApp/service/AsteroidsService.java:138 | a JSON `null` flag reads as false, not as a thrown exception, and text "true" padded with blanks reads as true |
| `JavaText.ParseAsDouble` | src/main/java/org/phinix/nasaApiEndpointApp/service/AsteroidsService.java:183-184 | text that `Double.parseDouble` accepts after trimming reads as its value; any other text reads as the default 0.0 |
| `JavaText.DecimalText` | src/main/java/org/phinix/nasaApiEndpointApp/service/AsteroidsService.java:183-184 | a decimal string such as NASA's `kilometers_per_hour` reads as its whole part plus its fraction |
| `JavaText.Unparseable` | src/main/java/org/phinix/nasaApiEndpointApp/service/AsteroidsService.java:183-184 | text that is not a number reads as 0.0 instead of throwing |
| `JavaText.Lenient` | src/main/java/org/phinix/nasaApiEndpointApp/service/AsteroidsService.java:183-184 | surrounding blanks, exponents and type suffixes are accepted as by `Double.parseDouble` |
| `Flattening.Retained` | src/main/java/org/phinix/nasaApiEndpointApp/service/AsteroidsService.java:137-140 | one entry adds at most one record, and that record is the entry's mapping; without filtering it adds exactly one when the mapping succeeds; with filtering it read the hazard flag and adds a record exactly when the flag is true |
| `Flattening.ExtractAll` | src/main/java/org/phinix/nasaApiEndpointApp/service/AsteroidsService.java:131-145 | a successful extraction has at most one record per entry, and exactly one per entry without filtering |
| `Flattening.Extraction` | src/main/java/org/phinix/nasaApiEndpointApp/service/AsteroidsService.java:131-145 | a null `near_earth_objects` throws `NullPointerException` at `fieldNames()`; otherwise there is at most one record per entry of the map, exactly one without filtering |
| `Flattening.EntryCount` | src/main/java/org/phinix/nasaApiEndpointApp/service/AsteroidsService.java:135-137 | there is one entry per node of every date bucket |
| `Flattening.EntriesPrefix` | src/main/java/org/phinix/nasaApiEndpointApp/service/AsteroidsService.java:135 | the entries of earlier date keys come before those of later ones |
| `Flattening.EntriesAreTagged` | src/main/java/org/phinix/nasaApiEndpointApp/service/AsteroidsService.java:135-137 | every entry carries a date key of the map and is tagged with it, and its node is a node of that key's bucket, so `mapAsteroid` is always handed the key the node was filed under |
| `Flattening.UnfilteredIsMapping` | src/main/java/org/phinix/nasaApiEndpointApp/service/AsteroidsService.java:131-145 | without filtering, extraction succeeds exactly when every entry maps, and then gives one record per entry in entry order, each that entry's mapping |
| `Flattening.FailsAtFirstBadEntry` | src/main/java/org/phinix/nasaApiEndpointApp/service/AsteroidsService.java:137-140 | a failing extraction throws the exception of its first failing entry, and every earlier entry succeeded |
| `Flattening.ErrorPersists` | src/main/java/org/phinix/nasaApiEndpointApp/service/AsteroidsService.java:135-142 | once some entries throw, adding more entries does not change the exception |
| `Flattening.FilteredReadsEveryFlag` | src/main/java/org/phinix/nasaApiEndpointApp/service/AsteroidsService.java:138 | a successful filtered extraction read a hazard flag in every entry |
| `Flattening.FilterThenMap` | src/main/java/org/phinix/nasaApiEndpointApp/service/AsteroidsService.java:138-139 | when every entry has a flag, filtering equals mapping only the hazardous entries, so a malformed harmless entry is skipped |
| `Flattening.FilteredIsRestriction` | src/main/java/org/phinix/nasaApiEndpointApp/service/AsteroidsService.java:137-140 | when the unfiltered extraction succeeds, the filtered one gives its records at the hazardous positions, in the same order |
| `Flattening.HazardousEntriesAreHazardous` | src/main/java/org/phinix/nasaApiEndpointApp/service/AsteroidsService.java:138 | the hazardous entries are exactly the entries flagged true |
| `Flattening.FilteredRecords` | src/main/java/org/phinix/nasaApiEndpointApp/service/AsteroidsService.java:137-140 | a successful filtered extraction has one record per hazardous entry, in order, each that entry's mapping (which entries are hazardous is `HazardousEntriesAreHazardous`) |
| `Flattening.RecordsCarryTheirKeys` | src/main/java/org/phinix/nasaApiEndpointApp/service/AsteroidsService.java:139 | each unfiltered record's date is its entry's date key |
| `Flattening.RecordDatesAreKeys` | src/main/java/org/phinix/nasaApiEndpointApp/service/AsteroidsService.java:135-139 | each unfiltered record's date is the key of the bucket its entry came from, and so a key of the map |
| `Ranking.TopThree` | src/main/java/org/phinix/nasaApiEndpointApp/service/AsteroidsService.java:83-86 | the result has min(3, n) records, in non-increasing diameter order, all taken from the input (a sub-multiset of it) |
| `Ranking.Insert` | src/main/java/org/phinix/nasaApiEndpointApp/service/AsteroidsService.java:84 | inserting adds exactly the one record |
| `Ranking.InsertKeepsOrder` | src/main/java/org/phinix/nasaApiEndpointApp/service/AsteroidsService.java:84 | inserting into a list sorted by decreasing diameter keeps it sorted |
| `Ranking.Sort` | src/main/java/org/phinix/nasaApiEndpointApp/service/AsteroidsService.java:84 | the sort is a permutation of its input, by non-increasing diameter |
| `Ranking.SortIsStable` | src/main/java/org/phinix/nasaApiEndpointApp/service/AsteroidsService.java:84 | records of equal diameter keep their input order |
| `Ranking.DescendingDeterminedByDiameters` | src/main/java/org/phinix/nasaApiEndpointApp/service/AsteroidsService.java:84 | two descending lists that agree on the records of every diameter are equal |
| `Ranking.StableSortIsUnique` | src/main/java/org/phinix/nasaApiEndpointApp/service/AsteroidsService.java:84 | every stable sort by decreasing diameter equals the model's sort |
| `Ranking.TopThreeKeepsLargest` | src/main/java/org/phinix/nasaApiEndpointApp/service/AsteroidsService.java:84-85 | every record left out is no larger than every record kept |
| `Ranking.TopThreeKeepsEarliest` | src/main/java/org/phinix/nasaApiEndpointApp/service/AsteroidsService.java:84-85 | among records of one diameter, the kept ones are the earliest extracted, in extraction order |
| `Ranking.SortOfDescending` | src/main/java/org/phinix/nasaApiEndpointApp/service/AsteroidsService.java:84 | a list already in non-increasing diameter order is left unchanged by the sort |
| `Ranking.RankedFewKept` | src/main/java/org/phinix/nasaApiEndpointApp/service/AsteroidsService.java:84-85 | a ranked list of at most three records is returned whole |
| `Ranking.TiesKeepExtractionOrder` | src/main/java/org/phinix/nasaApiEndpointApp/service/AsteroidsService.java:84-85 | diameters 5.0, 5.0, 3.0 in order A, B, C come out as A, B, C |
| `Ranking.SingleRecordKept` | src/main/java/org/phinix/nasaApiEndpointApp/service/AsteroidsService.java:85 | a single hazardous record is returned alone |
| `Ranking.LargerOfTwoFirst` | src/main/java/org/phinix/nasaApiEndpointApp/service/AsteroidsService.java:84-85 | of two records, the larger is returned first even when it was extracted second |
| `AsteroidsService.TwoDatesEntries` | src/main/java/org/phinix/nasaApiEndpointApp/service/AsteroidsService.java:135-137 | a map with the date keys 2025-05-26 and 2025-05-27, one node each, gives the two entries in key order, each tagged with its key |
| `AsteroidsService.TwoDatesExtraction` | src/main/java/org/phinix/nasaApiEndpointApp/service/AsteroidsService.java:131-145 | with both nodes hazardous and mappable, the filtered extraction of that map is the two records in key order |
| `AsteroidsService.LargerAsteroidRanksFirstAcrossDates` | src/main/java/org/phinix/nasaApiEndpointApp/service/AsteroidsService.java:79-87 | a response whose `near_earth_objects` holds those two dates, with diameters 1.5 and 3.0, is ranked with the later date's 3.0 record first, which is what `GetTopDangerousAsteroids` then returns |

The `AsteroidResponse` datatype mirrors the record of `src/main/java/org/phinix/nasaApiEndpointApp/dto/response/AsteroidResponseDTO.java:16-22`.

## Left out

- `NasaClient`'s HTTP call, the API key and URL formatting, and `RestTemplateConfig` are out of scope. The feed is the `Feed` parameter.
- The controllers and `GlobalExceptionHandler` only delegate or map exceptions to HTTP statuses.
- `ObjectMapper.readTree` is opaque: the model starts from its tree or its failure. Jackson keeps one member per name, the last one read. `JObject` does not enforce unique names: on a tree with a repeated name, `Get` answers the first value and the entries list the name once per occurrence.
- `LocalDate.now()`, `plusDays` and `DateTimeFormatter` are left out. The clock is the `today` parameter, and a date is a day number. Calendar arithmetic and the `yyyy-MM-dd` text form are not modelled.
- Diameters and speeds are exact reals, not IEEE doubles. Rounding in `(min + max) / 2.0` is not modelled, and neither are NaN, infinities or the ordering `Double.compare` gives to -0.0 and NaN.
- `JsonNode.AsText`: for a floating-point node it returns the `shown` text the node carries. `Double.toString` is not computed.
- `JavaText.ParseAsDouble`: `NaN`, `Infinity` and hexadecimal floating literals read as 0.0. `Double.parseDouble` would accept them.
- `Ranking.Sort`: `Stream.sorted` uses TimSort, which is not modelled. Instead, `StableSortIsUnique` proves that every stable descending sort yields the same list.
- `getRawAsteroids`, `NasaApiResponse` and `NasaAsteroidsResponseDTO` are left out. They hand the feed through without transformation, or are unused.
- The cause attached to the parse `NasaApiException` is not modelled, and neither are exceptions other than these two (for example, transport errors).
