/** The request handlers of SurfsUp/app.py over in-memory tables: each
    query chain as a function of the rows, each result-shaping loop as a
    method proved against it. */
module SurfsUp {
  import opened Outcomes
  import opened Text
  import opened Calendar
  import opened Tables
  import opened OrderedDict

  /* ---------------------------------------------------------------------
     The filters of the queries.
     --------------------------------------------------------------------- */

  /** `filter(Measurement.date >= bound)`, a string comparison. */
  function Since(rows: seq<Measurement>, bound: string): (r: seq<Measurement>)
    ensures forall x :: x in r <==> x in rows && LexLe(bound, x.date)
  {
    Where(rows, (m: Measurement) => LexLe(bound, m.date))
  }

  /** `filter(Measurement.date <= bound)`, a string comparison. */
  function Until(rows: seq<Measurement>, bound: string): (r: seq<Measurement>)
    ensures forall x :: x in r <==> x in rows && LexLe(x.date, bound)
  {
    Where(rows, (m: Measurement) => LexLe(m.date, bound))
  }

  /** `filter(Measurement.station == station)`. */
  function OfStation(rows: seq<Measurement>, station: string): (r: seq<Measurement>)
    ensures forall x :: x in r <==> x in rows && x.station == station
  {
    Where(rows, (m: Measurement) => m.station == station)
  }

  lemma InDates(rows: seq<Measurement>, d: string)
    ensures d in Dates(rows) <==> exists x :: x in rows && x.date == d
  {
    if d in Dates(rows) {
      var i :| 0 <= i < |rows| && Dates(rows)[i] == d;
      assert rows[i] in rows;
    }
    if exists x :: x in rows && x.date == d {
      var x :| x in rows && x.date == d;
      var i :| 0 <= i < |rows| && rows[i] == x;
      assert Dates(rows)[i] == d;
    }
  }

  lemma InStations(rows: seq<Measurement>, s: string)
    ensures s in StationsOf(rows) <==> exists x :: x in rows && x.station == s
  {
    if s in StationsOf(rows) {
      var i :| 0 <= i < |rows| && StationsOf(rows)[i] == s;
      assert rows[i] in rows;
    }
    if exists x :: x in rows && x.station == s {
      var x :| x in rows && x.station == s;
      var i :| 0 <= i < |rows| && rows[i] == x;
      assert StationsOf(rows)[i] == s;
    }
  }

  /** Filtering on a condition that every row of `date` meets keeps that
      date's bucket, rows and order alike. */
  lemma {:induction false} BucketUnfiltered(rows: seq<Measurement>, keep: Measurement -> bool, date: string)
    requires forall x :: x in rows && x.date == date ==> keep(x)
    ensures OnDate(Where(rows, keep), date) == OnDate(rows, date)
    decreases |rows|
  {
    if rows != [] {
      assert forall x :: x in rows[1..] ==> x in rows;
      BucketUnfiltered(rows[1..], keep, date);
      assert rows[0] in rows;
      var head := if keep(rows[0]) then [rows[0]] else [];
      assert Where(rows, keep) == head + Where(rows[1..], keep);
      var f := (m: Measurement) => m.date == date;
      assert OnDate(rows, date) == Where(rows, f);
      assert Where(rows, f) == (if f(rows[0]) then [rows[0]] else []) + Where(rows[1..], f);
      if keep(rows[0]) {
        assert (head + Where(rows[1..], keep))[0] == rows[0];
        assert (head + Where(rows[1..], keep))[1..] == Where(rows[1..], keep);
      } else {
        assert head + Where(rows[1..], keep) == Where(rows[1..], keep);
      }
    }
  }

  /** A dict built from pairs keyed by distinct ascending keys has those
      keys in that order, each with its pair's value. */
  lemma DictOfAscendingPairs<V>(pairs: seq<(string, V)>)
    requires StrictlyAscending(PairKeys(pairs))
    ensures Valid(FromPairs(pairs))
    ensures FromPairs(pairs).keys == PairKeys(pairs)
    ensures forall k :: k in FromPairs(pairs).entries <==> k in PairKeys(pairs)
    ensures forall i :: 0 <= i < |pairs| ==>
              pairs[i].0 in FromPairs(pairs).entries && FromPairs(pairs).entries[pairs[i].0] == pairs[i].1
  {
    AscendingIsDistinct(PairKeys(pairs));
    FromPairsDistinct(pairs);
    FromPairsContents(pairs);
  }

  /** The row that a key of such a dict comes from. */
  lemma EntryOfKey<V>(pairs: seq<(string, V)>, k: string) returns (i: int)
    requires StrictlyAscending(PairKeys(pairs))
    requires k in FromPairs(pairs).entries
    ensures 0 <= i < |pairs| && pairs[i].0 == k && FromPairs(pairs).entries[k] == pairs[i].1
  {
    DictOfAscendingPairs(pairs);
    var keys := PairKeys(pairs);
    assert k in keys;
    i :| 0 <= i < |keys| && keys[i] == k;
  }

  /* ---------------------------------------------------------------------
     /api/v1.0/precipitation (lines 61-86).
     --------------------------------------------------------------------- */

  /** Line 66: the latest date, or None for an empty table. */
  function MostRecentDate(ms: seq<Measurement>): (r: Option<string>)
    ensures r.None? <==> ms == []
    ensures r.Some? ==> r.value in Dates(ms)
    ensures r.Some? ==> forall i :: 0 <= i < |ms| ==> LexLe(ms[i].date, r.value)
  {
    if ms == [] then None else Some(LatestDate(ms))
  }

  /** Lines 66-69: indexing the None of an empty table is a TypeError. */
  function PrecipitationStart(ms: seq<Measurement>): Result<Date>
  {
    match MostRecentDate(ms)
    case None => Err(NoneSubscript)
    case Some(recent) => WindowStart(recent)
  }

  function PrcpPairs(groups: seq<Group>): (pairs: seq<(string, Option<real>)>)
    requires forall i :: 0 <= i < |groups| ==> groups[i].rows != []
    ensures PairKeys(pairs) == GroupKeys(groups)
  {
    seq(|groups|, i requires 0 <= i < |groups| => (groups[i].key, Last(groups[i].rows).prcp))
  }

  /** Lines 72-75: (date, prcp) per date on or after the start, by date. */
  function PrecipitationRows(ms: seq<Measurement>): Result<seq<(string, Option<real>)>>
  {
    match PrecipitationStart(ms)
    case Err(f) => Err(f)
    case Ok(start) => Ok(PrcpPairs(GroupByDate(Since(ms, IsoFormat(start)))))
  }

  /** Pairs of a GROUP BY date over `rows`: one per distinct date of
      `rows`, ascending. */
  lemma GroupedPairKeys<V>(rows: seq<Measurement>, pairs: seq<(string, V)>)
    requires PairKeys(pairs) == GroupKeys(GroupByDate(rows))
    ensures StrictlyAscending(PairKeys(pairs))
    ensures forall d :: d in PairKeys(pairs) <==> exists x :: x in rows && x.date == d
  {
    forall d ensures d in PairKeys(pairs) <==> exists x :: x in rows && x.date == d {
      InDates(rows, d);
    }
  }

  /** The precipitation rows for a start bound: one per distinct date on
      or after the bound, ascending, each value taken from a row of that
      date. */
  lemma PrcpPairsMeaning(ms: seq<Measurement>, bound: string)
    ensures var pairs := PrcpPairs(GroupByDate(Since(ms, bound)));
            && StrictlyAscending(PairKeys(pairs))
            && (forall d :: d in PairKeys(pairs) <==> d in Dates(ms) && LexLe(bound, d))
            && (forall i :: 0 <= i < |pairs| ==>
                  exists x :: x in ms && x.date == pairs[i].0 && x.prcp == pairs[i].1)
  {
    var rows := Since(ms, bound);
    var groups := GroupByDate(rows);
    var pairs := PrcpPairs(groups);
    GroupedPairKeys(rows, pairs);
    forall d ensures d in PairKeys(pairs) <==> d in Dates(ms) && LexLe(bound, d) {
      InDates(ms, d);
    }
    PrcpPairsFromRows(ms, bound);
  }

  /** Each precipitation row's value is the prcp of a row of its date. */
  lemma PrcpPairsFromRows(ms: seq<Measurement>, bound: string)
    ensures var pairs := PrcpPairs(GroupByDate(Since(ms, bound)));
            forall i :: 0 <= i < |pairs| ==>
              exists x :: x in ms && x.date == pairs[i].0 && x.prcp == pairs[i].1
  {
    var rows := Since(ms, bound);
    var groups := GroupByDate(rows);
    var pairs := PrcpPairs(groups);
    forall i | 0 <= i < |pairs|
      ensures exists x :: x in ms && x.date == pairs[i].0 && x.prcp == pairs[i].1
    {
      var x := Last(groups[i].rows);
      assert x in rows && x.date == pairs[i].0;
    }
  }

  /** No date of the table is later than its latest date. */
  lemma NotAfterLatest(ms: seq<Measurement>, d: string)
    requires d in Dates(ms)
    ensures LexLe(d, LatestDate(ms))
  {
    var i :| 0 <= i < |ms| && Dates(ms)[i] == d;
  }

  /** All dates well formed: the table invariant the string comparisons
      rely on. */
  predicate WellFormedDates(ms: seq<Measurement>)
  {
    forall i :: 0 <= i < |ms| ==> IsIsoShape(ms[i].date) && ParseDate(ms[i].date).Ok?
  }

  /** On well-formed dates, a date of the table on or after the start lies
      within the 365 days that end on the latest date. */
  lemma WithinPrecipitationWindow(ms: seq<Measurement>, d: string)
    requires WellFormedDates(ms) && PrecipitationStart(ms).Ok?
    requires d in Dates(ms) && LexLe(IsoFormat(PrecipitationStart(ms).value), d)
    ensures ms != [] && InTrailingWindow(d, LatestDate(ms))
  {
    var latest := LatestDate(ms);
    var start := PrecipitationStart(ms).value;
    var i :| 0 <= i < |ms| && Dates(ms)[i] == d;
    var j :| 0 <= j < |ms| && Dates(ms)[j] == latest;
    FormatParse(d);
    IsoOrder(start, ParseDate(d).value);
    IsoStringOrder(d, latest);
  }

  /** The handler: the query, then the loop of lines 83-84. */
  method Precipitation(ms: seq<Measurement>) returns (r: Result<Dict<string, Option<real>>>)
    ensures ms == [] ==> r == Err(NoneSubscript)
    ensures r.Err? <==> PrecipitationStart(ms).Err?
    ensures r.Err? ==> r.fault == PrecipitationStart(ms).fault
    ensures r.Ok? ==> PrecipitationRows(ms).Ok? && r.value == FromPairs(PrecipitationRows(ms).value)
    ensures r.Ok? ==> ms != [] && Valid(r.value) && StrictlyAscending(r.value.keys)
    ensures r.Ok? ==> forall d :: d in r.value.entries <==>
              d in Dates(ms) && LexLe(IsoFormat(PrecipitationStart(ms).value), d)
    ensures r.Ok? ==> forall d :: d in r.value.entries ==> LexLe(d, LatestDate(ms))
    ensures r.Ok? ==> forall d :: d in r.value.entries ==>
              exists x :: x in ms && x.date == d && x.prcp == r.value.entries[d]
    ensures r.Ok? && WellFormedDates(ms) ==> forall d :: d in r.value.entries ==>
              InTrailingWindow(d, LatestDate(ms))
  {
    var start := PrecipitationStart(ms);
    if start.Err? {
      return Err(start.fault);
    }
    var bound := IsoFormat(start.value);
    var rows := PrcpPairs(GroupByDate(Since(ms, bound)));
    assert PrecipitationRows(ms) == Ok(rows);
    var dict := BuildDict(rows);
    PrecipitationDictMeaning(ms, start.value);
    r := Ok(dict);
  }

  /** The precipitation dict for a table whose window starts on `start`. */
  lemma PrecipitationDictMeaning(ms: seq<Measurement>, start: Date)
    requires PrecipitationStart(ms) == Ok(start)
    ensures var bound := IsoFormat(start);
            var dict := FromPairs(PrcpPairs(GroupByDate(Since(ms, bound))));
            && Valid(dict) && StrictlyAscending(dict.keys)
            && (forall d :: d in dict.entries <==> d in Dates(ms) && LexLe(bound, d))
            && (forall d :: d in dict.entries ==> LexLe(d, LatestDate(ms)))
            && (forall d :: d in dict.entries ==>
                  exists x :: x in ms && x.date == d && x.prcp == dict.entries[d])
            && (WellFormedDates(ms) ==> forall d :: d in dict.entries ==> InTrailingWindow(d, LatestDate(ms)))
  {
    var bound := IsoFormat(start);
    var rows := PrcpPairs(GroupByDate(Since(ms, bound)));
    var dict := FromPairs(rows);
    PrcpPairsMeaning(ms, bound);
    DictOfAscendingPairs(rows);
    forall d | d in dict.entries
      ensures LexLe(d, LatestDate(ms))
      ensures exists x :: x in ms && x.date == d && x.prcp == dict.entries[d]
      ensures WellFormedDates(ms) ==> InTrailingWindow(d, LatestDate(ms))
    {
      var i := EntryOfKey(rows, d);
      NotAfterLatest(ms, d);
      if WellFormedDates(ms) {
        WithinPrecipitationWindow(ms, d);
      }
    }
  }

  /* ---------------------------------------------------------------------
     /api/v1.0/stations (lines 90-111).
     --------------------------------------------------------------------- */

  /** Lines 95-97: one single-column row per distinct station, ascending. */
  function StationRows(stations: seq<Station>): (rows: seq<Single<string>>)
  {
    var ids := SortedDistinct(StationIds(stations));
    seq(|ids|, i requires 0 <= i < |ids| => Single(ids[i]))
  }

  /** Line 109: the first column of each row. */
  function Unwrap<T>(rows: seq<Single<T>>): seq<T>
  {
    seq(|rows|, i requires 0 <= i < |rows| => rows[i].first)
  }

  /** The handler: the loop of lines 105-106, then the unwrapping. The list
      follows the query rows one to one and is exactly the distinct station
      ids, strictly ascending. */
  method Stations(stations: seq<Station>) returns (ids: seq<string>)
    ensures |ids| == |StationRows(stations)|
    ensures forall i :: 0 <= i < |ids| ==> StationRows(stations)[i] == Single(ids[i])
    ensures StrictlyAscending(ids)
    ensures forall s :: s in ids <==> s in StationIds(stations)
  {
    var rows := StationRows(stations);
    var collected: seq<Single<string>> := [];
    for i := 0 to |rows|
      invariant collected == rows[..i]
    {
      collected := collected + [rows[i]];
    }
    assert collected == rows;
    ids := Unwrap(collected);
    assert ids == SortedDistinct(StationIds(stations));
  }

  /* ---------------------------------------------------------------------
     /api/v1.0/tobs (lines 116-159).
     --------------------------------------------------------------------- */

  /** Lines 121-123: each station with its count of rows, grouped (and so
      ordered) by station. */
  function ActivityCounts(ms: seq<Measurement>): (counts: seq<(string, nat)>)
  {
    var ids := SortedDistinct(StationsOf(ms));
    seq(|ids|, i requires 0 <= i < |ids| => (ids[i], Count(ms, ids[i])))
  }

  /** Line 124: the counts, largest first. */
  function ActivityRanking(ms: seq<Measurement>): seq<(string, nat)>
  {
    SortByCountDesc(ActivityCounts(ms))
  }

  /** The ranking lists every station that occurs with its count, nothing
      else, largest count first; it is empty only on an empty table. */
  lemma RankingMeaning(ms: seq<Measurement>)
    ensures DescendingByCount(ActivityRanking(ms))
    ensures ActivityRanking(ms) == [] <==> ms == []
    ensures forall p :: p in ActivityRanking(ms) <==> p.0 in StationsOf(ms) && p.1 == Count(ms, p.0)
  {
    var counts := ActivityCounts(ms);
    var ranking := ActivityRanking(ms);
    assert multiset(ranking) == multiset(counts);
    forall p ensures p in ranking <==> p.0 in StationsOf(ms) && p.1 == Count(ms, p.0) {
      assert p in ranking <==> p in multiset(ranking);
      assert p in counts <==> p in multiset(counts);
      CountsMember(ms, p);
    }
    if ms != [] {
      assert ms[0].station == StationsOf(ms)[0];
      CountsMember(ms, (ms[0].station, Count(ms, ms[0].station)));
      assert counts != [];
      assert |ranking| == |counts| by {
        assert |multiset(ranking)| == |multiset(counts)|;
      }
    }
  }

  lemma CountsMember(ms: seq<Measurement>, p: (string, nat))
    ensures p in ActivityCounts(ms) <==> p.0 in StationsOf(ms) && p.1 == Count(ms, p.0)
  {
    var ids := SortedDistinct(StationsOf(ms));
    var counts := ActivityCounts(ms);
    if p.0 in StationsOf(ms) && p.1 == Count(ms, p.0) {
      var i :| 0 <= i < |ids| && ids[i] == p.0;
      assert counts[i] == p;
    }
    if p in counts {
      var i :| 0 <= i < |counts| && counts[i] == p;
      assert ids[i] == p.0;
    }
  }

  /** Lines 127-132: the first key of the dict built from the ranking; an
      empty table leaves no key to index. The station has a count no other
      station exceeds. */
  function MostActiveStation(ms: seq<Measurement>): (r: Result<string>)
    ensures r.Err? <==> ms == []
    ensures r.Err? ==> r.fault == NoStation
    ensures r.Ok? ==> r.value in StationsOf(ms)
    ensures r.Ok? ==> forall s :: Count(ms, s) <= Count(ms, r.value)
  {
    RankingMeaning(ms);
    var ranking := ActivityRanking(ms);
    var activity := FromPairs(ranking);
    if activity.keys == [] then
      assert ranking == [] by {
        if ranking != [] { FromPairsFirstKey(ranking); }
      }
      Err(NoStation)
    else
      FromPairsFirstKey(ranking);
      TopOfRanking(ms);
      Ok(activity.keys[0])
  }

  lemma TopOfRanking(ms: seq<Measurement>)
    requires ms != []
    ensures ActivityRanking(ms) != []
    ensures ActivityRanking(ms)[0].0 in StationsOf(ms)
    ensures forall s :: Count(ms, s) <= Count(ms, ActivityRanking(ms)[0].0)
  {
    RankingMeaning(ms);
    var ranking := ActivityRanking(ms);
    assert ranking[0] in ranking;
    forall s ensures Count(ms, s) <= Count(ms, ranking[0].0) {
      if s in StationsOf(ms) {
        assert (s, Count(ms, s)) in ranking;
        var j :| 0 <= j < |ranking| && ranking[j] == (s, Count(ms, s));
      }
    }
  }

  lemma StationHasRows(ms: seq<Measurement>, station: string)
    requires station in StationsOf(ms)
    ensures OfStation(ms, station) != []
  {
    InStations(ms, station);
    var x :| x in ms && x.station == station;
    assert x in OfStation(ms, station);
  }

  /** Lines 135-140: the window for the station ends on its own latest
      date. */
  function StationWindowStart(ms: seq<Measurement>, station: string): Result<Date>
    requires station in StationsOf(ms)
  {
    StationHasRows(ms, station);
    WindowStart(LatestDate(OfStation(ms, station)))
  }

  function TobsPairs(groups: seq<Group>): (pairs: seq<(string, real)>)
    requires forall i :: 0 <= i < |groups| ==> groups[i].rows != []
    ensures PairKeys(pairs) == GroupKeys(groups)
  {
    seq(|groups|, i requires 0 <= i < |groups| => (groups[i].key, Last(groups[i].rows).tobs))
  }

  /** The rows the temperature query keeps: the station's, on or after the
      start. Line 145 wraps the comparison in `func.strftime`; this is the
      comparison itself. */
  predicate InStationWindow(x: Measurement, station: string, bound: string)
  {
    x.station == station && LexLe(bound, x.date)
  }

  /** Lines 143-148: (date, tobs) of the station per date from the start. */
  function TobsRows(ms: seq<Measurement>): Result<seq<(string, real)>>
  {
    match MostActiveStation(ms)
    case Err(f) => Err(f)
    case Ok(station) =>
      match StationWindowStart(ms, station)
      case Err(f) => Err(f)
      case Ok(start) => Ok(TobsPairs(GroupByDate(OfStation(Since(ms, IsoFormat(start)), station))))
  }

  /** The temperature rows for a station and start bound: one per distinct
      date of the station's rows on or after the bound, ascending, each
      value the tobs of such a row. */
  lemma TobsPairsMeaning(ms: seq<Measurement>, station: string, bound: string)
    ensures var pairs := TobsPairs(GroupByDate(OfStation(Since(ms, bound), station)));
            && StrictlyAscending(PairKeys(pairs))
            && (forall d :: d in PairKeys(pairs) <==>
                  exists x :: x in ms && InStationWindow(x, station, bound) && x.date == d)
            && (forall i :: 0 <= i < |pairs| ==>
                  exists x :: x in ms && InStationWindow(x, station, bound)
                            && x.date == pairs[i].0 && x.tobs == pairs[i].1)
  {
    var rows := OfStation(Since(ms, bound), station);
    var groups := GroupByDate(rows);
    var pairs := TobsPairs(groups);
    GroupedPairKeys(rows, pairs);
    forall d | exists x :: x in ms && InStationWindow(x, station, bound) && x.date == d
      ensures d in PairKeys(pairs)
    {
      var x :| x in ms && InStationWindow(x, station, bound) && x.date == d;
      assert x in rows;
    }
    forall d | d in PairKeys(pairs)
      ensures exists x :: x in ms && InStationWindow(x, station, bound) && x.date == d
    {
      var x :| x in rows && x.date == d;
      assert x in ms && InStationWindow(x, station, bound);
    }
    forall i | 0 <= i < |pairs|
      ensures exists x :: x in ms && InStationWindow(x, station, bound) && x.date == pairs[i].0 && x.tobs == pairs[i].1
    {
      var x := Last(groups[i].rows);
      assert x in rows && x.date == pairs[i].0;
    }
  }

  /** On well-formed dates, a date of the rows on or after the start of the
      window that ends on their latest date lies within that window. */
  lemma WithinWindow(rows: seq<Measurement>, d: string, start: Date)
    requires WellFormedDates(rows) && rows != []
    requires WindowStart(LatestDate(rows)) == Ok(start)
    requires d in Dates(rows) && LexLe(IsoFormat(start), d)
    ensures InTrailingWindow(d, LatestDate(rows))
  {
    var latest := LatestDate(rows);
    var i :| 0 <= i < |rows| && Dates(rows)[i] == d;
    var j :| 0 <= j < |rows| && Dates(rows)[j] == latest;
    FormatParse(d);
    IsoOrder(start, ParseDate(d).value);
    IsoStringOrder(d, latest);
  }

  /** Filtering keeps dates well formed. */
  lemma WellFormedOfStation(ms: seq<Measurement>, station: string)
    requires WellFormedDates(ms)
    ensures WellFormedDates(OfStation(ms, station))
  {
    var own := OfStation(ms, station);
    forall i | 0 <= i < |own|
      ensures IsIsoShape(own[i].date) && ParseDate(own[i].date).Ok?
    {
      assert own[i] in ms;
      var j :| 0 <= j < |ms| && ms[j] == own[i];
    }
  }

  /** On well-formed dates, a row of the station on or after its start lies
      within the 365 days that end on the station's latest date. */
  lemma WithinStationWindow(ms: seq<Measurement>, station: string, x: Measurement, start: Date)
    requires WellFormedDates(ms) && OfStation(ms, station) != []
    requires WindowStart(LatestDate(OfStation(ms, station))) == Ok(start)
    requires x in ms && InStationWindow(x, station, IsoFormat(start))
    ensures InTrailingWindow(x.date, LatestDate(OfStation(ms, station)))
  {
    var own := OfStation(ms, station);
    WellFormedOfStation(ms, station);
    assert x in own;
    InDates(own, x.date);
    WithinWindow(own, x.date, start);
  }

  /** The handler: the ranking loop of lines 128-129, the index of line 132,
      the queries, and the loop of lines 156-157. */
  method Tobs(ms: seq<Measurement>) returns (r: Result<Dict<string, real>>)
    ensures ms == [] ==> r == Err(NoStation)
    ensures r.Err? <==> TobsRows(ms).Err?
    ensures r.Err? ==> r.fault == TobsRows(ms).fault
    ensures r.Ok? ==> TobsRows(ms).Ok? && r.value == FromPairs(TobsRows(ms).value)
    ensures r.Ok? ==> MostActiveStation(ms).Ok? && StationWindowStart(ms, MostActiveStation(ms).value).Ok?
    ensures r.Ok? ==> forall s :: Count(ms, s) <= Count(ms, MostActiveStation(ms).value)
    ensures r.Ok? ==> Valid(r.value) && StrictlyAscending(r.value.keys)
    ensures r.Ok? ==>
              var station := MostActiveStation(ms).value;
              var bound := IsoFormat(StationWindowStart(ms, station).value);
              forall d :: d in r.value.entries <==>
                exists x :: x in ms && InStationWindow(x, station, bound) && x.date == d
    ensures r.Ok? ==>
              var station := MostActiveStation(ms).value;
              var bound := IsoFormat(StationWindowStart(ms, station).value);
              forall d :: d in r.value.entries ==>
                exists x :: x in ms && InStationWindow(x, station, bound) && x.date == d && x.tobs == r.value.entries[d]
    ensures r.Ok? && WellFormedDates(ms) ==>
              var station := MostActiveStation(ms).value;
              OfStation(ms, station) != [] &&
              forall d :: d in r.value.entries ==> InTrailingWindow(d, LatestDate(OfStation(ms, station)))
  {
    var ranking := ActivityRanking(ms);
    var activity := BuildDict(ranking);
    if activity.keys == [] {
      return Err(NoStation);
    }
    var station := activity.keys[0];
    assert MostActiveStation(ms) == Ok(station);
    StationHasRows(ms, station);
    var start := WindowStart(LatestDate(OfStation(ms, station)));
    assert start == StationWindowStart(ms, station);
    if start.Err? {
      return Err(start.fault);
    }
    var bound := IsoFormat(start.value);
    var rows := TobsPairs(GroupByDate(OfStation(Since(ms, bound), station)));
    assert TobsRows(ms) == Ok(rows);
    var dict := BuildDict(rows);
    TobsDictMeaning(ms, station, start.value);
    r := Ok(dict);
  }

  /** The temperature dict for a station whose window starts on `start`. */
  lemma TobsDictMeaning(ms: seq<Measurement>, station: string, start: Date)
    requires OfStation(ms, station) != []
    requires WindowStart(LatestDate(OfStation(ms, station))) == Ok(start)
    ensures var bound := IsoFormat(start);
            var dict := FromPairs(TobsPairs(GroupByDate(OfStation(Since(ms, bound), station))));
            && Valid(dict) && StrictlyAscending(dict.keys)
            && (forall d :: d in dict.entries <==>
                  exists x :: x in ms && InStationWindow(x, station, bound) && x.date == d)
            && (forall d :: d in dict.entries ==>
                  exists x :: x in ms && InStationWindow(x, station, bound) && x.date == d && x.tobs == dict.entries[d])
            && (WellFormedDates(ms) ==>
                  forall d :: d in dict.entries ==> InTrailingWindow(d, LatestDate(OfStation(ms, station))))
  {
    var bound := IsoFormat(start);
    var rows := TobsPairs(GroupByDate(OfStation(Since(ms, bound), station)));
    var dict := FromPairs(rows);
    TobsPairsMeaning(ms, station, bound);
    DictOfAscendingPairs(rows);
    PairKeysIndex(rows);
    forall d | d in dict.entries
      ensures exists x :: x in ms && InStationWindow(x, station, bound) && x.date == d && x.tobs == dict.entries[d]
      ensures WellFormedDates(ms) ==> InTrailingWindow(d, LatestDate(OfStation(ms, station)))
    {
      var i := EntryOfKey(rows, d);
      if WellFormedDates(ms) {
        var x :| x in ms && InStationWindow(x, station, bound) && x.date == d;
        WithinStationWindow(ms, station, x, start);
      }
    }
  }

  /* ---------------------------------------------------------------------
     /api/v1.0/<start> and /api/v1.0/<start>/<end> (lines 164-221).
     --------------------------------------------------------------------- */

  function SummaryPairs(groups: seq<Group>): (pairs: seq<(string, Summary)>)
    requires forall i :: 0 <= i < |groups| ==> groups[i].rows != []
    ensures PairKeys(pairs) == GroupKeys(groups)
  {
    seq(|groups|, i requires 0 <= i < |groups| => (groups[i].key, Summarize(groups[i].rows)))
  }

  /** Lines 169-179: (date, min, avg, max) per date on or after `start`. */
  function StartRows(ms: seq<Measurement>, start: string): seq<(string, Summary)>
  {
    SummaryPairs(GroupByDate(Since(ms, start)))
  }

  /** Lines 200-210: the same, also on or before `end`. */
  function StartEndRows(ms: seq<Measurement>, start: string, end: string): seq<(string, Summary)>
  {
    SummaryPairs(GroupByDate(Until(Since(ms, start), end)))
  }

  /** Summary rows of the dates that `keep` admits: one per such date,
      ascending, each summarising every row of its date. */
  lemma SummaryRowsMeaning(ms: seq<Measurement>, keep: Measurement -> bool)
    requires forall x: Measurement, y: Measurement :: x.date == y.date ==> keep(x) == keep(y)
    ensures var pairs := SummaryPairs(GroupByDate(Where(ms, keep)));
            && StrictlyAscending(PairKeys(pairs))
            && (forall d :: d in PairKeys(pairs) <==> exists x :: x in ms && keep(x) && x.date == d)
            && (forall i :: 0 <= i < |pairs| ==>
                  OnDate(ms, pairs[i].0) != [] && pairs[i].1 == Summarize(OnDate(ms, pairs[i].0)))
  {
    var rows := Where(ms, keep);
    var groups := GroupByDate(rows);
    forall d ensures d in GroupKeys(groups) <==> exists x :: x in ms && keep(x) && x.date == d {
      InDates(rows, d);
    }
    forall i | 0 <= i < |groups|
      ensures OnDate(ms, groups[i].key) != [] && groups[i].rows == OnDate(ms, groups[i].key)
    {
      var y := groups[i].rows[0];
      assert y in rows && y.date == groups[i].key;
      BucketUnfiltered(ms, keep, groups[i].key);
    }
  }

  /** The rows of /api/v1.0/<start>: one per date of the table on or after
      `start`, ascending, each summarising every row of that date. */
  lemma StartRowsMeaning(ms: seq<Measurement>, start: string)
    ensures var pairs := StartRows(ms, start);
            && StrictlyAscending(PairKeys(pairs))
            && (forall k :: k in PairKeys(pairs) <==> k in Dates(ms) && LexLe(start, k))
            && (forall i :: 0 <= i < |pairs| ==>
                  OnDate(ms, pairs[i].0) != [] && pairs[i].1 == Summarize(OnDate(ms, pairs[i].0)))
  {
    var keep := (m: Measurement) => LexLe(start, m.date);
    assert Since(ms, start) == Where(ms, keep);
    SummaryRowsMeaning(ms, keep);
    forall k ensures k in Dates(ms) && LexLe(start, k) <==> exists x :: x in ms && keep(x) && x.date == k {
      InDates(ms, k);
    }
  }

  /** The handler of /api/v1.0/<start>: the query, then the loop of lines
      187-188. */
  method Start(ms: seq<Measurement>, start: string) returns (d: Dict<string, Summary>)
    ensures d == FromPairs(StartRows(ms, start))
    ensures Valid(d) && StrictlyAscending(d.keys)
    ensures forall k :: k in d.entries <==> k in Dates(ms) && LexLe(start, k)
    ensures forall k :: k in d.entries ==>
              OnDate(ms, k) != [] && d.entries[k] == Summarize(OnDate(ms, k))
  {
    d := BuildDict(StartRows(ms, start));
    StartRowsMeaning(ms, start);
    SummaryDictMeaning(StartRows(ms, start), ms);
  }

  /** The dict built from summary rows with ascending dates holds one entry
      per row, in order, each summarising every row of its date. */
  lemma {:induction false} SummaryDictMeaning(rows: seq<(string, Summary)>, ms: seq<Measurement>)
    requires StrictlyAscending(PairKeys(rows))
    requires forall i :: 0 <= i < |rows| ==>
               OnDate(ms, rows[i].0) != [] && rows[i].1 == Summarize(OnDate(ms, rows[i].0))
    ensures Valid(FromPairs(rows)) && FromPairs(rows).keys == PairKeys(rows)
    ensures forall k :: k in FromPairs(rows).entries <==> k in PairKeys(rows)
    ensures forall k :: k in FromPairs(rows).entries ==>
              OnDate(ms, k) != [] && FromPairs(rows).entries[k] == Summarize(OnDate(ms, k))
  {
    var d := FromPairs(rows);
    DictOfAscendingPairs(rows);
    forall k | k in d.entries ensures OnDate(ms, k) != [] && d.entries[k] == Summarize(OnDate(ms, k)) {
      var i := EntryOfKey(rows, k);
    }
  }

  /** Between-bounds filter as one condition. */
  predicate InRange(x: Measurement, start: string, end: string)
  {
    LexLe(start, x.date) && LexLe(x.date, end)
  }

  /** The rows of /api/v1.0/<start>/<end>: one per date of the table between
      the two bounds, both inclusive, ascending, each summarising every row
      of that date. */
  lemma StartEndRowsMeaning(ms: seq<Measurement>, start: string, end: string)
    ensures var pairs := StartEndRows(ms, start, end);
            && StrictlyAscending(PairKeys(pairs))
            && (forall k :: k in PairKeys(pairs) <==> k in Dates(ms) && LexLe(start, k) && LexLe(k, end))
            && (forall i :: 0 <= i < |pairs| ==>
                  OnDate(ms, pairs[i].0) != [] && pairs[i].1 == Summarize(OnDate(ms, pairs[i].0)))
  {
    var keep := (m: Measurement) => InRange(m, start, end);
    BothBounds(ms, start, end);
    assert Until(Since(ms, start), end) == Where(ms, keep);
    SummaryRowsMeaning(ms, keep);
    forall k ensures k in Dates(ms) && LexLe(start, k) && LexLe(k, end) <==> exists x :: x in ms && keep(x) && x.date == k {
      InDates(ms, k);
    }
  }

  /** The handler of /api/v1.0/<start>/<end>: the query, then the loop of
      lines 218-219. Both bounds are inclusive, and bounds out of order give
      an empty dict. */
  method StartEnd(ms: seq<Measurement>, start: string, end: string) returns (d: Dict<string, Summary>)
    ensures d == FromPairs(StartEndRows(ms, start, end))
    ensures Valid(d) && StrictlyAscending(d.keys)
    ensures forall k :: k in d.entries <==> k in Dates(ms) && LexLe(start, k) && LexLe(k, end)
    ensures forall k :: k in d.entries ==>
              OnDate(ms, k) != [] && d.entries[k] == Summarize(OnDate(ms, k))
    ensures LexLt(end, start) ==> d.keys == [] && d.entries == map[]
  {
    d := BuildDict(StartEndRows(ms, start, end));
    StartEndRowsMeaning(ms, start, end);
    SummaryDictMeaning(StartEndRows(ms, start, end), ms);
    if LexLt(end, start) {
      ReversedBoundsNoRows(ms, start, end);
    }
  }

  /** Bounds out of order select no row. */
  lemma ReversedBoundsNoRows(ms: seq<Measurement>, start: string, end: string)
    requires LexLt(end, start)
    ensures StartEndRows(ms, start, end) == []
  {
    var pairs := StartEndRows(ms, start, end);
    StartEndRowsMeaning(ms, start, end);
    EmptyRange(start, end);
  }

  /** No string lies between bounds that are out of order. */
  lemma EmptyRange(start: string, end: string)
    requires LexLt(end, start)
    ensures forall k :: !(LexLe(start, k) && LexLe(k, end))
  {
    forall k | LexLe(start, k) && LexLe(k, end) ensures false {
      LexLeTransitive(start, k, end);
      LexLeAntisymmetric(start, end);
    }
  }

  /** Two successive filters keep what their conjunction keeps, in order. */
  lemma {:induction false} BothBounds(ms: seq<Measurement>, start: string, end: string)
    ensures Until(Since(ms, start), end) == Where(ms, (m: Measurement) => InRange(m, start, end))
    decreases |ms|
  {
    if ms != [] {
      BothBounds(ms[1..], start, end);
      var x, rest := ms[0], ms[1..];
      var inner := Since(ms, start);
      var innerRest := Since(rest, start);
      if LexLe(start, x.date) {
        assert inner == [x] + innerRest;
        assert inner[0] == x && inner[1..] == innerRest;
        assert Until(inner, end) == (if LexLe(x.date, end) then [x] else []) + Until(innerRest, end);
      } else {
        assert inner == innerRest;
      }
    }
  }
}
