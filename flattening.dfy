/** What `extractAsteroidsFromNeoMap` computes, stated on values: the
    date-keyed `near_earth_objects` object flattened into one list of
    entries, each tagged with the date it is filed under, in key order and
    then array order; and the records built from that list, keeping every
    entry or only the hazardous ones, with the first failure aborting. */
module Flattening {
  import opened Results
  import opened JsonNode
  import opened ServiceTypes
  import opened EntryMapping

  /** One asteroid node together with the date key it is grouped under. */
  datatype Tagged = Tagged(date: string, node: Json)

  function Tag(date: string, nodes: seq<Json>): (t: seq<Tagged>)
    ensures |t| == |nodes|
    ensures forall i :: 0 <= i < |t| ==> t[i] == Tagged(date, nodes[i])
  {
    seq(|nodes|, i requires 0 <= i < |nodes| => Tagged(date, nodes[i]))
  }

  /** The nodes filed under the `k`-th date key. */
  function Bucket(neo: Json, k: nat): seq<Json>
    requires k < |FieldNames(neo)|
  {
    FieldNameHasValue(neo, k);
    Elements(Get(neo, FieldNames(neo)[k]).value)
  }

  /** The tagged entries of the first `k` date keys, in order. */
  function EntriesUpTo(neo: Json, k: nat): seq<Tagged>
    requires k <= |FieldNames(neo)|
  {
    if k == 0 then [] else EntriesUpTo(neo, k - 1) + Tag(FieldNames(neo)[k - 1], Bucket(neo, k - 1))
  }

  /** Every entry of the feed, tagged with its date key. */
  function Entries(neo: Json): seq<Tagged>
  {
    EntriesUpTo(neo, |FieldNames(neo)|)
  }

  /** The number of nodes in the first `k` buckets. */
  function CountUpTo(neo: Json, k: nat): nat
    requires k <= |FieldNames(neo)|
  {
    if k == 0 then 0 else CountUpTo(neo, k - 1) + |Bucket(neo, k - 1)|
  }

  /** What the loop body adds for one entry: its record, or nothing when
      hazard filtering is on and the entry is not hazardous. */
  function Retained(e: Tagged, onlyHazardous: bool): (r: Result<seq<AsteroidResponse>, Failure>)
    ensures r.Ok? ==> |r.value| <= 1
    ensures r.Ok? && r.value != [] ==> MapAsteroid(e.node, e.date) == Ok(r.value[0])
    ensures !onlyHazardous ==> (r.Ok? <==> MapAsteroid(e.node, e.date).Ok?) && (r.Ok? ==> |r.value| == 1)
    ensures onlyHazardous && r.Ok? ==> HazardFlag(e.node).Ok? && (r.value != [] <==> HazardFlag(e.node).value)
  {
    if !onlyHazardous then
      var r :- MapAsteroid(e.node, e.date);
      Ok([r])
    else
      var hazardous :- HazardFlag(e.node);
      if hazardous then
        var r :- MapAsteroid(e.node, e.date);
        Ok([r])
      else
        Ok([])
  }

  /** The records of a list of tagged entries, in order; the first entry
      that throws aborts the whole list. */
  function ExtractAll(t: seq<Tagged>, onlyHazardous: bool): (r: Result<seq<AsteroidResponse>, Failure>)
    ensures r.Ok? ==> |r.value| <= |t|
    ensures r.Ok? && !onlyHazardous ==> |r.value| == |t|
    decreases |t|
  {
    if t == [] then Ok([])
    else
      var before :- ExtractAll(t[..|t| - 1], onlyHazardous);
      var last :- Retained(t[|t| - 1], onlyHazardous);
      Ok(before + last)
  }

  /** The whole extraction: a null `near_earth_objects` throws as soon as
      its field names are asked for. */
  function Extraction(neoMap: Option<Json>, onlyHazardous: bool): (r: Result<seq<AsteroidResponse>, Failure>)
    ensures neoMap.None? ==> r == Err(NullPointerException([Key("near_earth_objects")]))
    ensures neoMap.Some? && r.Ok? ==> |r.value| <= |Entries(neoMap.value)|
    ensures neoMap.Some? && r.Ok? && !onlyHazardous ==> |r.value| == |Entries(neoMap.value)|
  {
    match neoMap
    case None => Err(NullPointerException([Key("near_earth_objects")]))
    case Some(neo) => ExtractAll(Entries(neo), onlyHazardous)
  }

  predicate Hazardous(e: Tagged) {
    HazardFlag(e.node) == Ok(true)
  }

  /** The entries flagged hazardous, in order. */
  function HazardousEntries(t: seq<Tagged>): seq<Tagged>
    decreases |t|
  {
    if t == [] then []
    else HazardousEntries(t[..|t| - 1]) + (if Hazardous(t[|t| - 1]) then [t[|t| - 1]] else [])
  }

  /** The records at the positions of `t` whose entry is hazardous. */
  function KeepHazardous(rs: seq<AsteroidResponse>, t: seq<Tagged>): seq<AsteroidResponse>
    requires |rs| == |t|
    decreases |t|
  {
    if t == [] then []
    else
      KeepHazardous(rs[..|rs| - 1], t[..|t| - 1])
        + (if Hazardous(t[|t| - 1]) then [rs[|rs| - 1]] else [])
  }

  predicate HasHazardFlag(e: Tagged) {
    HazardFlag(e.node).Ok?
  }

  /** A non-empty list is its front followed by its last element. */
  lemma DropLast<T>(t: seq<T>)
    requires t != []
    ensures t == t[..|t| - 1] + [t[|t| - 1]]
    ensures forall j :: 0 <= j < |t| - 1 ==> t[..|t| - 1][j] == t[j]
  {
  }

  lemma LastOf<T>(t: seq<T>, x: T)
    ensures (t + [x])[..|t + [x]| - 1] == t && (t + [x])[|t + [x]| - 1] == x
  {
  }

  /** Once a prefix throws, the whole list throws the same exception. */
  lemma {:induction false} ErrorPersists(t: seq<Tagged>, u: seq<Tagged>, onlyHazardous: bool)
    requires ExtractAll(t, onlyHazardous).Err?
    ensures ExtractAll(t + u, onlyHazardous) == ExtractAll(t, onlyHazardous)
    decreases |u|
  {
    if u == [] {
      assert t + u == t;
    } else {
      var u' := u[..|u| - 1];
      ErrorPersists(t, u', onlyHazardous);
      assert (t + u)[..|t + u| - 1] == t + u';
      assert ExtractAll(t + u', onlyHazardous).Err?;
    }
  }

  /** The entries of fewer date keys are a prefix of those of more. */
  lemma {:induction false} EntriesPrefix(neo: Json, k: nat, n: nat)
    requires k <= n <= |FieldNames(neo)|
    ensures EntriesUpTo(neo, k) <= EntriesUpTo(neo, n)
    decreases n - k
  {
    if k < n {
      EntriesPrefix(neo, k, n - 1);
    }
  }

  /** There is one entry per node of every bucket. */
  lemma {:induction false} EntryCount(neo: Json, k: nat)
    requires k <= |FieldNames(neo)|
    ensures |EntriesUpTo(neo, k)| == CountUpTo(neo, k)
  {
    if k > 0 {
      EntryCount(neo, k - 1);
    }
  }

  /** `e` comes from one of the first `k` buckets: it carries that bucket's
      date key and its node is one of that bucket's nodes. */
  ghost predicate FiledUnder(neo: Json, e: Tagged, k: nat)
    requires k <= |FieldNames(neo)|
  {
    exists b :: 0 <= b < k && e.date == FieldNames(neo)[b] && e.node in Bucket(neo, b)
  }

  /** Each entry carries the date key of the bucket it came from. */
  lemma {:induction false} EntriesAreTagged(neo: Json, k: nat)
    requires k <= |FieldNames(neo)|
    ensures forall j :: 0 <= j < |EntriesUpTo(neo, k)| ==> FiledUnder(neo, EntriesUpTo(neo, k)[j], k)
  {
    if k > 0 {
      EntriesAreTagged(neo, k - 1);
      var before := EntriesUpTo(neo, k - 1);
      var all := EntriesUpTo(neo, k);
      forall j | 0 <= j < |all|
        ensures FiledUnder(neo, all[j], k)
      {
        if j < |before| {
          assert all[j] == before[j];
          assert FiledUnder(neo, before[j], k - 1);
          var b :| 0 <= b < k - 1 && before[j].date == FieldNames(neo)[b] && before[j].node in Bucket(neo, b);
          assert 0 <= b < k && all[j].date == FieldNames(neo)[b] && all[j].node in Bucket(neo, b);
        } else {
          var bucket := Bucket(neo, k - 1);
          assert all[j] == Tagged(FieldNames(neo)[k - 1], bucket[j - |before|]);
          assert bucket[j - |before|] in bucket;
        }
      }
    }
  }

  /** Without filtering the extraction succeeds exactly when every entry
      maps, and then there is one record per entry, in the same order, each
      the entry's mapping under its own date key. */
  lemma UnfilteredIsMapping(t: seq<Tagged>)
    ensures ExtractAll(t, false).Ok? <==> forall j :: 0 <= j < |t| ==> MapAsteroid(t[j].node, t[j].date).Ok?
    ensures ExtractAll(t, false).Ok? ==>
      var rs := ExtractAll(t, false).value;
      |rs| == |t| && forall j :: 0 <= j < |t| ==> rs[j] == MapAsteroid(t[j].node, t[j].date).value
  {
    if ExtractAll(t, false).Ok? {
      UnfilteredValues(t);
    } else {
      var e := ExtractAll(t, false);
      FailsAtFirstBadEntry(t, false);
      var j :| 0 <= j < |t| && Retained(t[j], false).Err?;
      assert MapAsteroid(t[j].node, t[j].date).Err?;
    }
  }

  lemma {:induction false} UnfilteredValues(t: seq<Tagged>)
    requires ExtractAll(t, false).Ok?
    ensures var rs := ExtractAll(t, false).value;
      |rs| == |t| && forall j :: 0 <= j < |t| ==> MapAsteroid(t[j].node, t[j].date) == Ok(rs[j])
    decreases |t|
  {
    if t != [] {
      var t' := t[..|t| - 1];
      UnfilteredValues(t');
      UnfilteredStep(t');
      DropLast(t);
    }
  }

  lemma UnfilteredStep(t': seq<Tagged>)
    ensures forall x :: ExtractAll(t' + [x], false).Ok? ==>
      ExtractAll(t', false).Ok? && MapAsteroid(x.node, x.date).Ok?
      && ExtractAll(t' + [x], false).value == ExtractAll(t', false).value + [MapAsteroid(x.node, x.date).value]
  {
    forall x | ExtractAll(t' + [x], false).Ok?
      ensures ExtractAll(t', false).Ok? && MapAsteroid(x.node, x.date).Ok?
      && ExtractAll(t' + [x], false).value == ExtractAll(t', false).value + [MapAsteroid(x.node, x.date).value]
    {
      LastOf(t', x);
    }
  }

  /** A failing extraction fails with the exception of its first entry
      that throws: no entry is skipped because it is malformed. */
  lemma {:induction false} FailsAtFirstBadEntry(t: seq<Tagged>, onlyHazardous: bool)
    requires ExtractAll(t, onlyHazardous).Err?
    ensures exists j :: (0 <= j < |t| && Retained(t[j], onlyHazardous).Err?
      && ExtractAll(t, onlyHazardous).error == Retained(t[j], onlyHazardous).error
      && forall i :: 0 <= i < j ==> Retained(t[i], onlyHazardous).Ok?)
    decreases |t|
  {
    var t' := t[..|t| - 1];
    DropLast(t);
    if ExtractAll(t', onlyHazardous).Err? {
      FailsAtFirstBadEntry(t', onlyHazardous);
      var j :| 0 <= j < |t'| && Retained(t'[j], onlyHazardous).Err?
        && ExtractAll(t', onlyHazardous).error == Retained(t'[j], onlyHazardous).error
        && forall i :: 0 <= i < j ==> Retained(t'[i], onlyHazardous).Ok?;
      assert Retained(t[j], onlyHazardous).Err?;
    } else {
      EveryRetainedOk(t', onlyHazardous);
      assert Retained(t[|t| - 1], onlyHazardous).Err?;
    }
  }

  lemma {:induction false} EveryRetainedOk(t: seq<Tagged>, onlyHazardous: bool)
    requires ExtractAll(t, onlyHazardous).Ok?
    ensures forall j :: 0 <= j < |t| ==> Retained(t[j], onlyHazardous).Ok?
    decreases |t|
  {
    if t != [] {
      var t' := t[..|t| - 1];
      var x := t[|t| - 1];
      assert ExtractAll(t', onlyHazardous).Ok? && Retained(x, onlyHazardous).Ok?;
      EveryRetainedOk(t', onlyHazardous);
      DropLast(t);
    }
  }

  /** With hazard filtering, every entry's flag is read, so a successful
      extraction means every entry has one. */
  lemma FilteredReadsEveryFlag(t: seq<Tagged>)
    requires ExtractAll(t, true).Ok?
    ensures forall j :: 0 <= j < |t| ==> HasHazardFlag(t[j])
  {
    EveryRetainedOk(t, true);
  }

  /** With hazard filtering, only the hazardous entries are mapped: when
      every entry has a flag, filtering equals mapping the hazardous
      entries without filtering, so a malformed harmless entry is skipped
      rather than thrown on. */
  lemma {:induction false} FilterThenMap(t: seq<Tagged>)
    requires forall j :: 0 <= j < |t| ==> HasHazardFlag(t[j])
    ensures ExtractAll(t, true) == ExtractAll(HazardousEntries(t), false)
    decreases |t|
  {
    if t != [] {
      var t' := t[..|t| - 1];
      var x := t[|t| - 1];
      DropLast(t);
      FilterThenMap(t');
      var h' := HazardousEntries(t');
      ErrorOrAppend(t', x, true);
      FilteredEntry(x);
      if Hazardous(x) {
        assert HazardousEntries(t) == h' + [x];
        ErrorOrAppend(h', x, false);
      } else {
        assert HazardousEntries(t) == h';
        if ExtractAll(t', true).Ok? {
          assert ExtractAll(t', true).value + [] == ExtractAll(t', true).value;
        }
      }
    }
  }

  /** A flagged entry is kept under filtering exactly as it would be mapped
      without it when hazardous, and dropped otherwise. */
  lemma FilteredEntry(x: Tagged)
    requires HasHazardFlag(x)
    ensures Hazardous(x) ==> Retained(x, true) == Retained(x, false)
    ensures !Hazardous(x) ==> Retained(x, true) == Ok([])
  {
  }

  lemma ErrorOrAppend(h: seq<Tagged>, x: Tagged, onlyHazardous: bool)
    ensures ExtractAll(h + [x], onlyHazardous) ==
      match ExtractAll(h, onlyHazardous)
      case Err(e) => Err(e)
      case Ok(before) =>
        match Retained(x, onlyHazardous)
        case Err(e) => Err(e)
        case Ok(last) => Ok(before + last)
  {
    LastOf(h, x);
  }

  /** With hazard filtering, the records are exactly the unfiltered ones at
      the hazardous positions, in the same relative order; none comes from
      an entry that is not hazardous. */
  lemma {:induction false} FilteredIsRestriction(t: seq<Tagged>)
    requires ExtractAll(t, false).Ok?
    requires forall j :: 0 <= j < |t| ==> HasHazardFlag(t[j])
    ensures |ExtractAll(t, false).value| == |t|
    ensures ExtractAll(t, true) == Ok(KeepHazardous(ExtractAll(t, false).value, t))
    decreases |t|
  {
    UnfilteredIsMapping(t);
    if t != [] {
      var t' := t[..|t| - 1];
      var x := t[|t| - 1];
      DropLast(t);
      FilteredIsRestriction(t');
      ErrorOrAppend(t', x, false);
      ErrorOrAppend(t', x, true);
      FilteredEntry(x);
      var rs := ExtractAll(t, false).value;
      var rs' := ExtractAll(t', false).value;
      assert rs == rs' + Retained(x, false).value;
      assert rs[..|rs| - 1] == rs';
      var kept := KeepHazardous(rs', t');
      assert KeepHazardous(rs, t) == kept + (if Hazardous(x) then [rs[|rs| - 1]] else []);
      if !Hazardous(x) {
        assert kept + [] == kept;
      }
    }
  }

  /** Without filtering, each record carries the date key of its entry. */
  lemma RecordsCarryTheirKeys(t: seq<Tagged>)
    requires ExtractAll(t, false).Ok?
    ensures |ExtractAll(t, false).value| == |t|
    ensures forall j :: 0 <= j < |t| ==> ExtractAll(t, false).value[j].date == t[j].date
  {
    UnfilteredIsMapping(t);
    forall j | 0 <= j < |t|
      ensures ExtractAll(t, false).value[j].date == t[j].date
    {
      MapAsteroidSpec(t[j].node, t[j].date);
    }
  }

  /** The hazardous entries are exactly the entries flagged hazardous. */
  lemma {:induction false} HazardousEntriesAreHazardous(t: seq<Tagged>)
    ensures forall e :: e in HazardousEntries(t) <==> e in t && Hazardous(e)
    decreases |t|
  {
    if t != [] {
      var t' := t[..|t| - 1];
      HazardousEntriesAreHazardous(t');
      DropLast(t);
    }
  }

  /** With hazard filtering, a successful extraction has one record per
      hazardous entry, in order, each that entry's mapping, and nothing else:
      no record comes from an entry that is not hazardous. */
  lemma FilteredRecords(t: seq<Tagged>)
    requires ExtractAll(t, true).Ok?
    ensures var rs := ExtractAll(t, true).value; var h := HazardousEntries(t);
      |rs| == |h| && forall j :: 0 <= j < |h| ==> MapAsteroid(h[j].node, h[j].date) == Ok(rs[j])
  {
    FilteredReadsEveryFlag(t);
    FilterThenMap(t);
    UnfilteredIsMapping(HazardousEntries(t));
  }

  /** Every record of a successful unfiltered extraction is filed under one
      of the feed's date keys, the one of the bucket its entry came from. */
  lemma RecordDatesAreKeys(neo: Json)
    requires ExtractAll(Entries(neo), false).Ok?
    ensures var rs := ExtractAll(Entries(neo), false).value;
      |rs| == |Entries(neo)|
      && forall j :: 0 <= j < |rs| ==> rs[j].date == Entries(neo)[j].date && rs[j].date in FieldNames(neo)
  {
    var t := Entries(neo);
    var rs := ExtractAll(t, false).value;
    RecordsCarryTheirKeys(t);
    EntriesAreTagged(neo, |FieldNames(neo)|);
    forall j | 0 <= j < |rs|
      ensures rs[j].date in FieldNames(neo)
    {
      assert FiledUnder(neo, t[j], |FieldNames(neo)|);
      var b :| 0 <= b < |FieldNames(neo)| && t[j].date == FieldNames(neo)[b] && t[j].node in Bucket(neo, b);
    }
  }
}
