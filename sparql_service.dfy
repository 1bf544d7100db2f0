/** `SPARQLService`: the three read-only queries over the weather observations.

    The dataset the service is built around becomes the `store` parameter of each
    query. What the fact store answers for each query's graph pattern is modelled by
    the solution functions below (in store order); the queries then do with those
    solutions what the service does with its `ResultSet`. */
module SparqlService {
  import opened Wrappers
  import opened Observations
  import opened Coercion

  // ---------------------------------------------------------------------------
  // Error messages
  // ---------------------------------------------------------------------------

  /** `part` appears in `text` starting at position `k`. */
  predicate OccursAt(text: string, part: string, k: nat)
  {
    k + |part| <= |text| && text[k..k + |part|] == part
  }

  predicate Contains(text: string, part: string)
  {
    exists k: nat :: k <= |text| && OccursAt(text, part, k)
  }

  const NoStationFound: string := "No station has been found"

  const NoDataPrefix: string := "No data found for stationId: "

  /** The message when a station has no qualifying observation: it quotes the station. */
  function NoDataForStation(stationId: string): (msg: string)
    ensures Contains(msg, stationId)
  {
    assert OccursAt(NoDataPrefix + stationId, stationId, |NoDataPrefix|);
    NoDataPrefix + stationId
  }

  /** The message when no observation has the station and date: it quotes both. */
  function NoDataForStationAndDate(stationId: string, date: string): (msg: string)
    ensures Contains(msg, stationId) && Contains(msg, date)
  {
    var msg := NoDataPrefix + stationId + " and date: " + date;
    assert OccursAt(msg, stationId, |NoDataPrefix|);
    assert OccursAt(msg, date, |msg| - |date|);
    msg
  }

  // ---------------------------------------------------------------------------
  // Solutions of the graph patterns
  // ---------------------------------------------------------------------------

  predicate NoDuplicates(xs: seq<string>)
  {
    forall i, j :: 0 <= i < j < |xs| ==> xs[i] != xs[j]
  }

  /** `xs` with every repeated value dropped after its first occurrence (SELECT DISTINCT). */
  function Distinct(xs: seq<string>): seq<string>
  {
    if xs == [] then []
    else
      var d := Distinct(xs[..|xs| - 1]);
      if xs[|xs| - 1] in d then d else d + [xs[|xs| - 1]]
  }

  lemma {:induction false} DistinctIsSetOfValues(xs: seq<string>)
    ensures NoDuplicates(Distinct(xs))
    ensures forall x :: x in Distinct(xs) <==> x in xs
  {
    if xs != [] {
      var init := xs[..|xs| - 1];
      DistinctIsSetOfValues(init);
      assert xs == init + [xs[|xs| - 1]];
    }
  }

  /** A qualifying observation of the store has station `x`. */
  predicate StationObserved(store: seq<Observation>, x: string)
  {
    exists i :: 0 <= i < |store| && Qualifies(store[i]) && store[i].station == Some(x)
  }

  /** A qualifying observation of the store has station `stationId` and date `x`. */
  predicate DateObserved(store: seq<Observation>, stationId: string, x: string)
  {
    exists i :: 0 <= i < |store| && OfStation(store[i], stationId) && store[i].date == Some(x)
  }

  /** `?station` of every observation matching the twelve-predicate pattern, before DISTINCT. */
  function StationColumn(store: seq<Observation>): seq<string>
  {
    if store == [] then []
    else
      var o := store[|store| - 1];
      StationColumn(store[..|store| - 1]) + if Qualifies(o) then [o.station.value] else []
  }

  /** `?date` of every observation matching the pattern with station `stationId`, before DISTINCT. */
  function DateColumn(store: seq<Observation>, stationId: string): seq<string>
  {
    if store == [] then []
    else
      var o := store[|store| - 1];
      DateColumn(store[..|store| - 1], stationId) + if OfStation(o, stationId) then [o.date.value] else []
  }

  lemma {:induction false} StationColumnValues(store: seq<Observation>)
    ensures forall x :: x in StationColumn(store) <==> StationObserved(store, x)
  {
    if store != [] {
      var init := store[..|store| - 1];
      StationColumnValues(init);
      forall x
        ensures x in StationColumn(store) <==> StationObserved(store, x)
      {
        if StationObserved(init, x) {
          var i :| 0 <= i < |init| && Qualifies(init[i]) && init[i].station == Some(x);
          assert store[i] == init[i];
        }
        if StationObserved(store, x) {
          var i :| 0 <= i < |store| && Qualifies(store[i]) && store[i].station == Some(x);
          if i < |init| {
            assert init[i] == store[i];
          }
        }
      }
    }
  }

  lemma {:induction false} DateColumnValues(store: seq<Observation>, stationId: string)
    ensures forall x :: x in DateColumn(store, stationId) <==> DateObserved(store, stationId, x)
  {
    if store != [] {
      var init := store[..|store| - 1];
      DateColumnValues(init, stationId);
      forall x
        ensures x in DateColumn(store, stationId) <==> DateObserved(store, stationId, x)
      {
        if DateObserved(init, stationId, x) {
          var i :| 0 <= i < |init| && OfStation(init[i], stationId) && init[i].date == Some(x);
          assert store[i] == init[i];
        }
        if DateObserved(store, stationId, x) {
          var i :| 0 <= i < |store| && OfStation(store[i], stationId) && store[i].date == Some(x);
          if i < |init| {
            assert init[i] == store[i];
          }
        }
      }
    }
  }

  /** The solutions of `SELECT DISTINCT ?station`: each station of a qualifying
      observation exactly once, and nothing else. */
  function StationSolutions(store: seq<Observation>): (sols: seq<string>)
    ensures NoDuplicates(sols)
    ensures forall x :: x in sols <==> StationObserved(store, x)
    ensures sols == [] <==> forall i :: 0 <= i < |store| ==> !Qualifies(store[i])
  {
    DistinctIsSetOfValues(StationColumn(store));
    StationColumnValues(store);
    var sols := Distinct(StationColumn(store));
    assert forall i :: 0 <= i < |store| && Qualifies(store[i]) ==> store[i].station.value in sols;
    assert sols != [] ==> StationObserved(store, sols[0]);
    sols
  }

  /** The solutions of `SELECT DISTINCT ?date` for station `stationId`: each date of a
      qualifying observation of that station exactly once, and nothing else. */
  function DateSolutions(store: seq<Observation>, stationId: string): (sols: seq<string>)
    ensures NoDuplicates(sols)
    ensures forall x :: x in sols <==> DateObserved(store, stationId, x)
    ensures sols == [] <==> forall i :: 0 <= i < |store| ==> !OfStation(store[i], stationId)
  {
    DistinctIsSetOfValues(DateColumn(store, stationId));
    DateColumnValues(store, stationId);
    var sols := Distinct(DateColumn(store, stationId));
    assert forall i :: 0 <= i < |store| && OfStation(store[i], stationId) ==> store[i].date.value in sols;
    assert sols != [] ==> DateObserved(store, stationId, sols[0]);
    sols
  }

  /** Index `i` holds the first observation matching station `stationId` and date `date`. */
  predicate IsFirstMatch(store: seq<Observation>, stationId: string, date: string, i: int)
  {
    && 0 <= i < |store|
    && OfStationOn(store[i], stationId, date)
    && forall j :: 0 <= j < i ==> !OfStationOn(store[j], stationId, date)
  }

  /** The solutions of the weather-record pattern: every observation with station
      `stationId` and date `date`, in store order (no DISTINCT). */
  function RecordSolutions(store: seq<Observation>, stationId: string, date: string): seq<Observation>
  {
    if store == [] then []
    else
      (if OfStationOn(store[0], stationId, date) then [store[0]] else [])
        + RecordSolutions(store[1..], stationId, date)
  }

  /** The first record solution is the store's first matching observation, and there is
      none exactly when no observation matches. */
  lemma {:induction false} RecordSolutionsFirst(store: seq<Observation>, stationId: string, date: string)
    ensures var sols := RecordSolutions(store, stationId, date);
      && (sols == [] <==> forall i :: 0 <= i < |store| ==> !OfStationOn(store[i], stationId, date))
      && (sols != [] ==> exists i :: IsFirstMatch(store, stationId, date, i) && sols[0] == store[i])
  {
    if store != [] {
      var tail := store[1..];
      RecordSolutionsFirst(tail, stationId, date);
      if !OfStationOn(store[0], stationId, date) {
        if RecordSolutions(tail, stationId, date) != [] {
          var i :| IsFirstMatch(tail, stationId, date, i) && RecordSolutions(tail, stationId, date)[0] == tail[i];
          assert IsFirstMatch(store, stationId, date, i + 1);
        } else {
          forall i | 0 <= i < |store|
            ensures !OfStationOn(store[i], stationId, date)
          {
            if i > 0 {
              assert store[i] == tail[i - 1];
            }
          }
        }
      } else {
        assert IsFirstMatch(store, stationId, date, 0);
      }
    }
  }

  // ---------------------------------------------------------------------------
  // queryStation and queryDateOfStation
  // ---------------------------------------------------------------------------

  /** One element of the JSON array `queryStation` returns: `{"station": ...}`. */
  datatype StationRow = StationRow(station: string)

  /** One element of the JSON array `queryDateOfStation` returns: `{"date": ...}`. */
  datatype DateRow = DateRow(date: string)

  /** `queryStation()`: the distinct stations of the observations that have all twelve
      predicates, one row each, or the "No station has been found" error when there is
      no such observation. */
  method QueryStation(store: seq<Observation>) returns (r: Result<seq<StationRow>>)
    ensures r.Err? <==> forall i :: 0 <= i < |store| ==> !Qualifies(store[i])
    ensures r.Err? ==> r.message == NoStationFound
    ensures r.Ok? ==> |r.value| > 0
    ensures r.Ok? ==> forall k, l :: 0 <= k < l < |r.value| ==> r.value[k] != r.value[l]
    ensures r.Ok? ==> forall x :: StationRow(x) in r.value <==> StationObserved(store, x)
    ensures r.Ok? ==> |r.value| == |StationSolutions(store)|
                      && forall k :: 0 <= k < |r.value| ==> r.value[k] == StationRow(StationSolutions(store)[k])
  {
    var solutions := StationSolutions(store);
    if |solutions| == 0 {
      return Err(NoStationFound);
    }
    var rows: seq<StationRow> := [];
    var i := 0;
    while i < |solutions|
      invariant 0 <= i <= |solutions|
      invariant |rows| == i
      invariant forall k :: 0 <= k < i ==> rows[k] == StationRow(solutions[k])
    {
      rows := rows + [StationRow(solutions[i])];
      i := i + 1;
    }
    // The array holds one row per solution, so the service's second emptiness check
    // ("No station found") can never fire.
    assert |rows| > 0;
    r := Ok(rows);
    assert forall x :: StationRow(x) in rows ==> x in solutions;
    assert forall x :: x in solutions ==> StationRow(x) in rows by {
      forall x | x in solutions ensures StationRow(x) in rows {
        var k :| 0 <= k < |solutions| && solutions[k] == x;
        assert rows[k] == StationRow(x);
      }
    }
  }

  /** `queryDateOfStation(stationId)`: the distinct dates of the qualifying observations
      whose station is exactly `stationId`, one row each, or an error quoting
      `stationId` when there is no such observation. */
  method QueryDateOfStation(store: seq<Observation>, stationId: string) returns (r: Result<seq<DateRow>>)
    ensures r.Err? <==> forall i :: 0 <= i < |store| ==> !OfStation(store[i], stationId)
    ensures r.Err? ==> r.message == NoDataForStation(stationId) && Contains(r.message, stationId)
    ensures r.Ok? ==> |r.value| > 0
    ensures r.Ok? ==> forall k, l :: 0 <= k < l < |r.value| ==> r.value[k] != r.value[l]
    ensures r.Ok? ==> forall x :: DateRow(x) in r.value <==> DateObserved(store, stationId, x)
    ensures r.Ok? ==> |r.value| == |DateSolutions(store, stationId)|
                      && forall k :: 0 <= k < |r.value| ==> r.value[k] == DateRow(DateSolutions(store, stationId)[k])
  {
    var solutions := DateSolutions(store, stationId);
    if |solutions| == 0 {
      return Err(NoDataForStation(stationId));
    }
    var rows: seq<DateRow> := [];
    var i := 0;
    while i < |solutions|
      invariant 0 <= i <= |solutions|
      invariant |rows| == i
      invariant forall k :: 0 <= k < i ==> rows[k] == DateRow(solutions[k])
    {
      rows := rows + [DateRow(solutions[i])];
      i := i + 1;
    }
    // As in QueryStation, the second emptiness check can never fire.
    assert |rows| > 0;
    r := Ok(rows);
    assert forall x :: DateRow(x) in rows ==> x in solutions;
    assert forall x :: x in solutions ==> DateRow(x) in rows by {
      forall x | x in solutions ensures DateRow(x) in rows {
        var k :| 0 <= k < |solutions| && solutions[k] == x;
        assert rows[k] == DateRow(x);
      }
    }
  }

  // ---------------------------------------------------------------------------
  // queryWeatherDataByStationAndDate
  // ---------------------------------------------------------------------------

  /** The JSON object `queryWeatherDataByStationAndDate` returns on success. */
  datatype WeatherRecord = WeatherRecord(
    stationId: string,
    date: string,
    temperature: Value,
    pressionOcean: Value,
    windDirection: Value,
    windSpeed: Value,
    dewPoint: Value,
    humidity: Value,
    horizontalVisibility: Value,
    couldiness: Value,
    minTemperature: Value,
    maxTemperature: Value)

  /** The record's entry for measurement `m`. */
  function Field(rec: WeatherRecord, m: Measurement): Value
  {
    match m
    case Temperature => rec.temperature
    case PressionOcean => rec.pressionOcean
    case WindDirection => rec.windDirection
    case WindSpeed => rec.windSpeed
    case DewPoint => rec.dewPoint
    case Humidity => rec.humidity
    case HorizontalVisibility => rec.horizontalVisibility
    case Couldiness => rec.couldiness
    case MinTemperature => rec.minTemperature
    case MaxTemperature => rec.maxTemperature
  }

  /** Sea-level pressure, wind direction, humidity and horizontal visibility are read as
      `Integer`s; the other six measurements as `Double`s. */
  predicate IsIntegerMeasurement(m: Measurement)
  {
    m.PressionOcean? || m.WindDirection? || m.Humidity? || m.HorizontalVisibility?
  }

  /** The default the service passes for measurement `m`: `0` or `0.0`. */
  function ZeroFor(m: Measurement): (d: Default)
    ensures d.IntDef? <==> IsIntegerMeasurement(m)
    ensures d == IntDef(0) || d == DblDef(0.0)
  {
    if IsIntegerMeasurement(m) then IntDef(0) else DblDef(0.0)
  }

  /** The projection `IF(?x = "mq", "0", ?x)`: the sentinel becomes `"0"`; an unbound
      variable stays unbound. */
  function ReplaceMq(stored: Option<string>): (bound: Option<string>)
    ensures bound.Some? <==> stored.Some?
    ensures stored == Some(Mq) ==> bound == Some("0")
    ensures bound != Some(Mq)
    ensures stored.Some? && stored.value != Mq ==> bound == stored
  {
    match stored
    case None => None
    case Some(v) => if v == Mq then Some("0") else Some(v)
  }

  /** The value the record carries for measurement `m` of observation `o`. */
  function Measure(o: Observation, m: Measurement, parseDouble: DoubleParser): (v: Value)
    ensures SameClass(v, ZeroFor(m))
  {
    HandleMq(ReplaceMq(Stored(o, m)), ZeroFor(m), parseDouble)
  }

  /** The record built from the first solution: the requested station and date verbatim,
      and each measurement coerced with its zero default. */
  function BuildRecord(stationId: string, date: string, o: Observation, parseDouble: DoubleParser): (rec: WeatherRecord)
    ensures rec.stationId == stationId && rec.date == date
    ensures forall m :: Field(rec, m) == Measure(o, m, parseDouble)
    ensures forall m :: IsIntegerMeasurement(m) ==> Field(rec, m).IntVal?
    ensures forall m :: !IsIntegerMeasurement(m) ==> Field(rec, m).DblVal?
  {
    WeatherRecord(
      stationId, date,
      Measure(o, Temperature, parseDouble),
      Measure(o, PressionOcean, parseDouble),
      Measure(o, WindDirection, parseDouble),
      Measure(o, WindSpeed, parseDouble),
      Measure(o, DewPoint, parseDouble),
      Measure(o, Humidity, parseDouble),
      Measure(o, HorizontalVisibility, parseDouble),
      Measure(o, Couldiness, parseDouble),
      Measure(o, MinTemperature, parseDouble),
      Measure(o, MaxTemperature, parseDouble))
  }

  /** `queryWeatherDataByStationAndDate(stationId, date)`: the record of the first
      observation with that station and date, or an error quoting both. */
  function QueryWeatherData(store: seq<Observation>, stationId: string, date: string,
                            parseDouble: DoubleParser): (r: Result<WeatherRecord>)
    ensures r.Err? <==> forall i :: 0 <= i < |store| ==> !OfStationOn(store[i], stationId, date)
    ensures r.Err? ==> r.message == NoDataForStationAndDate(stationId, date)
                       && Contains(r.message, stationId) && Contains(r.message, date)
    ensures r.Ok? ==> r.value.stationId == stationId && r.value.date == date
    ensures r.Ok? ==> exists i :: IsFirstMatch(store, stationId, date, i)
                                  && r.value == BuildRecord(stationId, date, store[i], parseDouble)
  {
    RecordSolutionsFirst(store, stationId, date);
    var solutions := RecordSolutions(store, stationId, date);
    if solutions == [] then Err(NoDataForStationAndDate(stationId, date))
    else Ok(BuildRecord(stationId, date, solutions[0], parseDouble))
  }

  /** Whatever follows it, the first matching observation alone decides the record. */
  lemma QueryWeatherDataUsesFirstMatch(store: seq<Observation>, stationId: string, date: string,
                                       parseDouble: DoubleParser, i: int)
    requires IsFirstMatch(store, stationId, date, i)
    ensures QueryWeatherData(store, stationId, date, parseDouble)
            == Ok(BuildRecord(stationId, date, store[i], parseDouble))
  {
  }

  /** Observations added after a match never change the record. */
  lemma LaterObservationsIgnored(store: seq<Observation>, more: seq<Observation>, stationId: string,
                                 date: string, parseDouble: DoubleParser)
    requires exists i :: 0 <= i < |store| && OfStationOn(store[i], stationId, date)
    ensures QueryWeatherData(store + more, stationId, date, parseDouble)
            == QueryWeatherData(store, stationId, date, parseDouble)
  {
    var r := QueryWeatherData(store, stationId, date, parseDouble);
    var i :| IsFirstMatch(store, stationId, date, i) && r.value == BuildRecord(stationId, date, store[i], parseDouble);
    assert IsFirstMatch(store + more, stationId, date, i);
    QueryWeatherDataUsesFirstMatch(store + more, stationId, date, parseDouble, i);
  }

  /** `Double.valueOf("0")` is `0.0`. */
  predicate ReadsZeroAsZero(parseDouble: DoubleParser)
  {
    parseDouble("0") == Some(0.0)
  }

  /** The sentinel survives neither step: rewritten to `"0"`, it parses back to zero. */
  lemma MeasureOfMq(o: Observation, m: Measurement, parseDouble: DoubleParser)
    requires ReadsZeroAsZero(parseDouble)
    requires Stored(o, m) == Some(Mq)
    ensures Measure(o, m, parseDouble) == AsValue(ZeroFor(m))
  {
  }

  /** A measurement stored as `mq` in the first matching observation comes out of the
      query as the field's zero default. */
  lemma MqReadsAsZero(store: seq<Observation>, stationId: string, date: string,
                      parseDouble: DoubleParser, i: int, m: Measurement)
    requires ReadsZeroAsZero(parseDouble)
    requires IsFirstMatch(store, stationId, date, i) && Stored(store[i], m) == Some(Mq)
    ensures QueryWeatherData(store, stationId, date, parseDouble).Ok?
    ensures Field(QueryWeatherData(store, stationId, date, parseDouble).value, m) == AsValue(ZeroFor(m))
  {
  }

  /** An `Integer` measurement stored with a fractional part (`"1013.2"`) comes out as 0. */
  lemma IntegerMeasurementDropsFraction(o: Observation, m: Measurement, k: nat, stationId: string,
                                        date: string, parseDouble: DoubleParser)
    requires IsIntegerMeasurement(m)
    requires Stored(o, m).Some? && k < |Stored(o, m).value| && Stored(o, m).value[k] == '.'
    ensures Field(BuildRecord(stationId, date, o, parseDouble), m) == IntVal(0)
  {
  }

  /** An `Integer` measurement stored as an optionally signed run of digits that fits in
      32 bits comes out as its value. */
  lemma IntegerMeasurementValue(o: Observation, m: Measurement, stationId: string,
                                date: string, parseDouble: DoubleParser)
    requires IsIntegerMeasurement(m)
    requires Stored(o, m).Some? && IsIntegerSyntax(Stored(o, m).value)
    requires IntMin <= SignedValue(Stored(o, m).value) <= IntMax
    ensures Field(BuildRecord(stationId, date, o, parseDouble), m) == IntVal(SignedValue(Stored(o, m).value))
  {
  }
}
