# Weather observation queries — a Dafny model of `SPARQLService`

The weather application stores observations as RDF facts in the
`http://example.org/weather#` namespace. Each observation is one subject with the
predicates `station`, `date` and ten measurements (`temperature`, `pression_ocean`,
`wind_direction`, `wind_speed`, `dew_point`, `humidity`, `horizontal_visibility`,
`couldiness`, `min_temperature`, `max_temperature`). `SPARQLService` answers three
read-only queries over them:

- `queryStation()`: the distinct stations, or the error "No station has been found";
- `queryDateOfStation(stationId)`: the distinct dates of one station, or an error
  quoting the station;
- `queryWeatherDataByStationAndDate(stationId, date)`: one weather record, or an error
  quoting the station and the date. Each measurement passes through a SPARQL
  `IF(?x = "mq", "0", ?x)` rewrite and then through `handleMqValue`, a total coercion
  to `Integer` or `Double` that falls back to a zero default.

All three queries share one graph pattern: an observation takes part only when it has
all twelve predicates.

Files:

- `wrappers.dfy` (`Wrappers`): `Option` and `Result`. A `Result` is either the rows or
  record a query returns, or the message of its `{"error": ...}` object.
- `observation.dfy` (`Observations`): an observation is a value with twelve optional
  literals. `Qualifies` is the shared graph pattern.
- `coercion.dfy` (`Coercion`): `handleMqValue` as `HandleMq`. `ParseInt` is
  `Integer.valueOf` on ASCII text, with `FormatInt` as its inverse.
- `sparql_service.dfy` (`SparqlService`): the solutions each pattern yields
  (`StationSolutions`, `DateSolutions`, `RecordSolutions`) and the three queries.

How the model is set up:

- The dataset the service wraps becomes a `store: seq<Observation>` parameter. No query
  writes to it.
- The fact store's answer to each pattern is a function of `store`. It lists solutions
  in store order, with first occurrences kept by DISTINCT.
- `QueryStation` and `QueryDateOfStation` are methods. They keep the service's control
  flow: an error when there is no solution, then a loop that appends one row per
  solution. The service's second emptiness check (lines 57-59 and 110-112) can never
  fire, and the methods prove that with an assertion instead of a dead branch.
- `QueryWeatherData` has no loop in the service, so it is a function. It takes the
  first solution.
- `Double.valueOf` is the parameter `parseDouble`. A `real` stands for the `Double`
  it returns. The one fact used about it is `Double.valueOf("0") == 0.0`
  (`ReadsZeroAsZero`).

The service as written returns no station display names and no compass sector for the
wind. `wind_direction` comes back as the raw `Integer`, and a missing or `mq` value
comes back as `0` or `0.0`, never as `"N/A"`. The model follows the code.

## Model

| member | source | states |
|---|---|---|
| `Observations.Qualifies` | src/main/java/org/example/weatherApp/SPARQLService.java:20-31 | an observation matches the shared pattern only when all twelve predicates are present, so every measurement of a qualifying observation is bound |
| `Coercion.ParseInt` | src/main/java/org/example/weatherApp/SPARQLService.java:192 | `Integer.valueOf` succeeds exactly on an optionally signed run of ASCII digits whose value fits in 32 bits, and then returns that value (leading zeros and a `+` allowed); everything else fails |
| `Coercion.ParseIntFormatInt` | src/main/java/org/example/weatherApp/SPARQLService.java:192 | every 32-bit integer written in canonical decimal parses back to itself |
| `Coercion.ParseIntFormatIntOutOfRange` | src/main/java/org/example/weatherApp/SPARQLService.java:192 | a canonical decimal outside the 32-bit range is rejected |
| `Coercion.ParseIntRejectsDecimalPoint` | src/main/java/org/example/weatherApp/SPARQLService.java:192 | any text containing a decimal point is rejected |
| `Coercion.ParseIntExamples` | src/main/java/org/example/weatherApp/SPARQLService.java:192 | a leading `+`, `-0` and leading zeros are accepted (`+87` and `0087` give 87); the empty string, a bare sign, a leading space, `278.35` and `mq` are rejected |
| `Coercion.HandleMq` | src/main/java/org/example/weatherApp/SPARQLService.java:180-202 | the coercion is total and keeps the default's class; an absent binding, `mq` and a failed parse all give the default; a String default returns the text unchanged; an Integer default returns the parsed int; a Double default returns the parsed double |
| `Coercion.HandleMqIntegerValue` | src/main/java/org/example/weatherApp/SPARQLService.java:191-192 | with an Integer default, any optionally signed run of digits whose value fits in 32 bits comes out as that value |
| `Coercion.HandleMqIntegerDropsFraction` | src/main/java/org/example/weatherApp/SPARQLService.java:191-201 | with an Integer default, text with a decimal point (`1013.2`, `278.35`) silently becomes the default |
| `SparqlService.NoDataForStation` | src/main/java/org/example/weatherApp/SPARQLService.java:95 | the error message of the date query contains the requested station verbatim |
| `SparqlService.NoDataForStationAndDate` | src/main/java/org/example/weatherApp/SPARQLService.java:154 | the error message of the record query contains both the station and the date verbatim |
| `SparqlService.DistinctIsSetOfValues` | src/main/java/org/example/weatherApp/SPARQLService.java:18 | DISTINCT keeps each value exactly once and adds nothing |
| `SparqlService.StationColumnValues` | src/main/java/org/example/weatherApp/SPARQLService.java:18-31 | the station column holds exactly the stations of qualifying observations |
| `SparqlService.DateColumnValues` | src/main/java/org/example/weatherApp/SPARQLService.java:71-85 | the date column holds exactly the dates of the qualifying observations of the given station |
| `SparqlService.StationSolutions` | src/main/java/org/example/weatherApp/SPARQLService.java:18-31 | the station solutions have no duplicates, contain exactly the stations of qualifying observations, and are empty exactly when nothing qualifies |
| `SparqlService.DateSolutions` | src/main/java/org/example/weatherApp/SPARQLService.java:71-85 | the date solutions have no duplicates, contain exactly the dates of the station's qualifying observations, and are empty exactly when the station has none |
| `SparqlService.RecordSolutionsFirst` | src/main/java/org/example/weatherApp/SPARQLService.java:134-158 | the record solutions are empty exactly when no qualifying observation has both the station and the date; otherwise the first one is the store's first such observation |
| `SparqlService.QueryStation` | src/main/java/org/example/weatherApp/SPARQLService.java:14-65 | the result is an error, "No station has been found", exactly when no observation has all twelve predicates; otherwise it is a non-empty list with one row per solution, no row twice, and a row for a station exactly when some qualifying observation has that station |
| `SparqlService.QueryDateOfStation` | src/main/java/org/example/weatherApp/SPARQLService.java:67-118 | the result is an error exactly when no qualifying observation has station `stationId` (exact match), and the message quotes `stationId`; otherwise it is a non-empty list with one row per solution, no row twice, and a row for a date exactly when a qualifying observation of that station has that date |
| `SparqlService.ZeroFor` | src/main/java/org/example/weatherApp/SPARQLService.java:162-171 | pressure, wind direction, humidity and visibility default to the Integer 0; the other six measurements default to the Double 0.0 |
| `SparqlService.ReplaceMq` | src/main/java/org/example/weatherApp/SPARQLService.java:124-133 | the projection never binds `mq`: it becomes `"0"`, any other value passes unchanged, and an unbound variable stays unbound |
| `SparqlService.Measure` | src/main/java/org/example/weatherApp/SPARQLService.java:162-171 | each measurement comes out in its field's class, Integer or Double |
| `SparqlService.BuildRecord` | src/main/java/org/example/weatherApp/SPARQLService.java:158-171 | the record carries the requested station and date verbatim; each measurement is the rewritten, coerced stored value; the four integer fields hold Integers and the six others Doubles |
| `SparqlService.QueryWeatherData` | src/main/java/org/example/weatherApp/SPARQLService.java:120-177 | the result is an error exactly when no qualifying observation has both the station and the date, and the message quotes both; otherwise it is the record built from the first such observation |
| `SparqlService.QueryWeatherDataUsesFirstMatch` | src/main/java/org/example/weatherApp/SPARQLService.java:158 | the first matching observation alone decides the record |
| `SparqlService.LaterObservationsIgnored` | src/main/java/org/example/weatherApp/SPARQLService.java:152-158 | once a match has been enumerated, observations enumerated after it, matching or not, leave the result unchanged |
| `SparqlService.MeasureOfMq` | src/main/java/org/example/weatherApp/SPARQLService.java:124-133 | a stored `mq` is rewritten to `"0"`, which the coercion reads as 0 or 0.0, the field's default |
| `SparqlService.MqReadsAsZero` | src/main/java/org/example/weatherApp/SPARQLService.java:124-171 | a measurement stored as `mq` comes out as its field's zero default, 0 or 0.0 |
| `SparqlService.IntegerMeasurementDropsFraction` | src/main/java/org/example/weatherApp/SPARQLService.java:163-168 | an Integer measurement stored with a fractional part comes out as 0 |
| `SparqlService.IntegerMeasurementValue` | src/main/java/org/example/weatherApp/SPARQLService.java:163-168 | an Integer measurement stored as an optionally signed run of digits that fits in 32 bits comes out as that integer |

## Left out

- The fact store engine is not modelled: Jena, TDB2, and the transaction bracketing `dataset.begin`/`dataset.end`. The store is an immutable sequence that the queries only read.
- Jena's order of solutions is not modelled; it guarantees none. The model enumerates solutions in store order, keeping first occurrences for DISTINCT, and the contracts of `QueryStation`, `QueryDateOfStation` and `QueryWeatherData` fix that enumeration order. It stands in for Jena's order, and adding triples to the real store need not place them after existing ones.
- Building the query text with `String.format` is not modelled. Because of that, a station or date holding a quote cannot inject SPARQL or break the query. Matching is exact string equality.
- JSON building with Gson is not modelled: results are datatypes, and errors carry the text of the `error` field. JSON escaping of that text is not modelled.
- Multi-valued predicates are not modelled: each predicate has at most one value. With several values, one observation would yield several solutions.
- Literals are plain strings. An IRI-valued station, on which `getLiteral` throws, is not modelled. Neither are typed literals: for those, the `IF(?x = "mq", ...)` comparison could fail and leave the variable unbound.
- The stack trace that `handleMqValue` prints on every failed conversion (`e.printStackTrace()`) is not modelled: it is diagnostic output only and does not change the value returned.
- `Double.valueOf` is a parameter. Its grammar, rounding, NaN and infinities are not modelled, and `real` stands for `double`.
- Coercion.ParseInt: it accepts only ASCII digits. Java's `Integer.valueOf` also accepts other Unicode decimal digits through `Character.digit`; the model rejects them.
- Coercion.HandleMq: the fall-through for a default that is not an Integer, Double or String is absent. The three-way `Default` type rules out such a default, and the service never passes one.
- The HTTP layer (`WeatherAPI.java`) is not modelled, including how it maps exceptions to status 500.
- The loader (`RDFDataLoader.java`), the startup code (`WeatherApplication.java`) and the Dash user interface (`Dash/weather.py`, `Dash/weatherApp.py`) are not modelled.
- There is no station-name directory and no wind-direction sector classifier, because the code has neither.
- The test file's expectations of station names and `"N/A"` are not modelled, because the code does not produce them.
