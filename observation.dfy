/** The weather observations held by the fact store, one fact-group per observation. */
module Observations {
  import opened Wrappers

  /** One observation subject and the literal value of each of its twelve predicates
      in the `http://example.org/weather#` namespace; `None` when the subject has no
      triple with that predicate. */
  datatype Observation = Observation(
    station: Option<string>,
    date: Option<string>,
    temperature: Option<string>,
    pressionOcean: Option<string>,
    windDirection: Option<string>,
    windSpeed: Option<string>,
    dewPoint: Option<string>,
    humidity: Option<string>,
    horizontalVisibility: Option<string>,
    couldiness: Option<string>,
    minTemperature: Option<string>,
    maxTemperature: Option<string>)

  /** The ten measured variables, in the order the weather record lists them. */
  datatype Measurement =
    | Temperature | PressionOcean | WindDirection | WindSpeed | DewPoint
    | Humidity | HorizontalVisibility | Couldiness | MinTemperature | MaxTemperature

  /** The stored value of measurement `m` in observation `o`. */
  function Stored(o: Observation, m: Measurement): Option<string>
  {
    match m
    case Temperature => o.temperature
    case PressionOcean => o.pressionOcean
    case WindDirection => o.windDirection
    case WindSpeed => o.windSpeed
    case DewPoint => o.dewPoint
    case Humidity => o.humidity
    case HorizontalVisibility => o.horizontalVisibility
    case Couldiness => o.couldiness
    case MinTemperature => o.minTemperature
    case MaxTemperature => o.maxTemperature
  }

  /** An observation matches the graph pattern shared by all three queries when it
      has a triple for each of the twelve predicates. */
  predicate Qualifies(o: Observation)
    ensures Qualifies(o) ==> forall m :: Stored(o, m).Some?
  {
    && o.station.Some? && o.date.Some?
    && o.temperature.Some? && o.pressionOcean.Some? && o.windDirection.Some?
    && o.windSpeed.Some? && o.dewPoint.Some? && o.humidity.Some?
    && o.horizontalVisibility.Some? && o.couldiness.Some?
    && o.minTemperature.Some? && o.maxTemperature.Some?
  }

  /** A qualifying observation of the station `stationId` (exact string equality). */
  predicate OfStation(o: Observation, stationId: string)
  {
    Qualifies(o) && o.station == Some(stationId)
  }

  /** A qualifying observation of the station `stationId` on the date `date`. */
  predicate OfStationOn(o: Observation, stationId: string, date: string)
  {
    OfStation(o, stationId) && o.date == Some(date)
  }
}
