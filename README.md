# Weather1 observations: a Dafny model

Weather1 is a small ASP.NET MVC application that records weather readings
(city, time, precipitation, temperature, humidity, wind speed). One controller,
`ObservationsController`, does all the work. It answers the "today" views,
lists the filtered archive, serves two JSON series for charts, and creates,
edits and deletes readings. This project models that controller over an
in-memory Observations table and proves what each action returns and how it
changes the table.

Layout, one module per concern:

- `wrappers.dfy` (`Wrappers`): `Option` stands for C# `null`; `Result` stands for a call that throws.
- `datetimes.dfy` (`DateTimes`): `DateTime` as a tick count between `MinValue` and `MaxValue`,
  `TicksPerDay`, midnight, and `AddDays`, which fails past `DateTime.MaxValue`.
- `models.dfy` (`Models`): the `Observation` record. `IsValid` is what MVC validation demands:
  - `[Required]` on City: not null, and not blank per `char.IsWhiteSpace`;
  - `[Range(0, 100)]` on Humidity;
  - the implicit `[Required]` on the non-nullable `string Precipitation`.

  The migration shows that Precipitation is non-nullable. The attribute does
  not mark it required, yet its column is NOT NULL, and EF infers that only
  from a non-nullable reference type. So nullable reference types are on, and
  MVC then requires the property. `FitsSchema` covers the table's NOT NULL
  text columns; every valid record fits them.
- `queryable.dfy` (`Queryable`): the LINQ subset the controller uses. A query is
  a list of `.Where` clauses that must all hold. `Where` scans the table, `OrderBy`
  sorts by Timestamp in either direction, and `Query` combines the two. SQL leaves
  the order of equal timestamps open, so the contracts say only what every
  such order satisfies: sorted, every matching row, each once, nothing else.
- `controllers.dfy` (`Controllers`): the read actions are functions of the
  table (`map<int, Observation>`, key = Id). The write actions are methods of
  the class `ObservationsController`. Its fields are the table and the
  AUTOINCREMENT counter. Its invariant says that keys are the rows' own Ids,
  no key exceeds the counter, and every stored row is valid and fits the schema.

"Today" is a parameter (midnight of the current day) instead of `DateTime.Today`.
Create GET's `DateTime.Now` is a parameter too. City matching is exact string
equality.

The code returns the same null model to the `_TodayForecast` partial in two
cases: when no city is chosen, and when the chosen city has no reading today.
The model follows the code, so `TodayByCity` answers `None` in both cases.

## Model

| member | source | states |
|---|---|---|
| `Models.ValidMeans` | Weather1/Models/Observation.cs:10-27 | a valid observation has 0 <= Humidity <= 100, and its City and Precipitation are non-null with at least one non-white-space character each |
| `Models.ValidFitsSchema` | Weather1/Migrations/20251019204114_InitSqlite.cs:20-22 | every observation that passes validation has a non-null City and Precipitation, so the NOT NULL columns accept it |
| `Models.HumidityEndpointsAccepted` | Weather1/Models/Observation.cs:24-27 | with an acceptable city and precipitation, humidity 0 and humidity 100 are both valid (the range is inclusive) |
| `Models.HumidityOutOfRangeRejected` | Weather1/Models/Observation.cs:26 | a humidity below 0 or above 100 makes the observation invalid whatever the other fields hold |
| `Models.BlankCityRejected` | Weather1/Models/Observation.cs:10-12 | every City that is null, empty or made only of white space (per `char.IsWhiteSpace`) fails `[Required]`, whatever the other fields |
| `Models.BlankPrecipitationRejected` | Weather1/Models/Observation.cs:17-18 | every Precipitation that is null, empty or made only of white space fails the implicit `[Required]` of a non-nullable string, whatever the other fields |
| `Models.ValidityIgnoresOtherFields` | Weather1/Models/Observation.cs:14-30 | validity is unchanged by any change of Id, Timestamp, Temperature or WindSpeed |
| `DateTimes.AddDays` | Weather1/Controllers/ObservationsController.cs:90 | `AddDays(1)` succeeds exactly when the result stays within `DateTime.MaxValue`, and then moves the instant forward by one day of ticks |
| `Queryable.Where` | Weather1/Controllers/ObservationsController.cs:80-92 | the filtered scan returns every stored row that passes all clauses, under its own key, each row once, and as many rows as there are matching keys |
| `Queryable.OrderBy` | Weather1/Controllers/ObservationsController.cs:95 | the result is sorted by Timestamp in the requested direction and is a permutation of the input (equal multisets), so it has the same elements and length and keeps Ids unique |
| `Queryable.Query` | Weather1/Controllers/ObservationsController.cs:94-96 | the ordered query lists exactly the matching rows, each once, sorted by Timestamp |
| `Controllers.TodayByCityQueryMeans` | Weather1/Controllers/ObservationsController.cs:36 | TodayByCity's three clauses keep a row exactly when its City is the chosen one and its Timestamp is in `[today, today + 1 day)` |
| `Controllers.TodayByCity` | Weather1/Controllers/ObservationsController.cs:22-42 | no city or "" gives none; otherwise the result is a stored row of that city in today's window with no later such row, and it is none exactly when no row matches |
| `Controllers.TodayByCityWithoutCityIgnoresTable` | Weather1/Controllers/ObservationsController.cs:25-28 | with a null or empty city the answer is none for every table |
| `Controllers.TodayByCityPicksLaterReading` | Weather1/Controllers/ObservationsController.cs:35-38 | for Moscow readings at 08:00 and 14:00 today, the 14:00 reading is returned |
| `Controllers.IndexQueryMeans` | Weather1/Controllers/ObservationsController.cs:51 | Index's two clauses keep a row exactly when its Timestamp is in `[today, today + 1 day)`, and the keys they keep are exactly those rows' keys |
| `Controllers.Index` | Weather1/Controllers/ObservationsController.cs:45-58 | the list has every row in today's window and no other, each once, newest first; Latest is none exactly when the list is empty, and otherwise the list's first element, which is also its newest |
| `Controllers.IndexLatestIsLatestOfItsCity` | Weather1/Controllers/ObservationsController.cs:55 | the newest reading on Index has the same timestamp as what TodayByCity shows for its city |
| `Controllers.ArchiveQueryMeans` | Weather1/Controllers/ObservationsController.cs:82-92 | the chained clauses keep a row exactly when it satisfies each given filter: city equal, `ts >= startDate`, `ts < endDate + 1 day` |
| `Controllers.Archive` | Weather1/Controllers/ObservationsController.cs:78-99 | it fails exactly when `endDate.AddDays(1)` would pass `DateTime.MaxValue`; otherwise it lists exactly the rows passing the given filters, each once, newest first, with as many entries as matching keys |
| `Controllers.ArchiveWithoutFiltersListsAll` | Weather1/Controllers/ObservationsController.cs:80-96 | with no filter the archive has as many entries as the table and contains every row |
| `Controllers.ArchiveOneDay` | Weather1/Controllers/ObservationsController.cs:85-92 | with `startDate = endDate = D` every listed reading lies in `[D, D + 1 day)` and belongs to the given city, if there is one; every such stored reading is listed |
| `Controllers.ArchiveLastDayFails` | Weather1/Controllers/ObservationsController.cs:88-92 | an end date on 31 December 9999 makes `AddDays(1)` throw, whatever the other filters are |
| `Controllers.SeriesQueryMeans` | Weather1/Controllers/ObservationsController.cs:192-194 | the series clauses keep a row exactly when `from <= ts`, `ts <= to` and the city matches, each when given |
| `Controllers.SeriesRows` | Weather1/Controllers/ObservationsController.cs:191-196 | the rows behind a series are exactly the matching rows, each once, oldest first |
| `Controllers.TemperatureData` | Weather1/Controllers/ObservationsController.cs:189-200 | one point per matching row, in non-decreasing timestamp order, all within `[from, to]`; every matching row's (timestamp, temperature) appears, and point i is row i of SeriesRows |
| `Controllers.HumidityData` | Weather1/Controllers/ObservationsController.cs:205-216 | the same as TemperatureData, for (timestamp, humidity) |
| `Controllers.SeriesEndIsAnInstant` | Weather1/Controllers/ObservationsController.cs:193 | a reading one hour into day D is archived for end date D but not charted for `to = D`: Archive's end bound covers the whole day, the series' bound is one instant |
| `Controllers.CreateForm` | Weather1/Controllers/ObservationsController.cs:102-109 | the blank form carries the current time, a null City and a null Precipitation, and cannot be saved unchanged (it is invalid) |
| `Controllers.EditForm` | Weather1/Controllers/ObservationsController.cs:128-134 | NotFound exactly when the id is null or not in the table; otherwise the stored record, unchanged |
| `Controllers.DeleteForm` | Weather1/Controllers/ObservationsController.cs:162-168 | NotFound exactly when the id is null or not in the table; otherwise the stored record, unchanged |
| `Controllers.ObservationsController.constructor` | Weather1/Migrations/20251019204114_InitSqlite.cs:14-30 | the table starts empty with the key counter at 0, and the invariant holds |
| `Controllers.ObservationsController.Add` | Weather1/Controllers/ObservationsController.cs:117-118 | the row is stored under the next counter value, a key no row had before; it equals the input in every other field, nothing else changes, and the invariant is kept |
| `Controllers.ObservationsController.Create` | Weather1/Controllers/ObservationsController.cs:114-125 | invalid input: shown again unchanged, with the table and counter untouched; otherwise one row is added under a key not used before, equal to the input in every other field, nothing else changes, and the browser goes to Index |
| `Controllers.ObservationsController.Edit` | Weather1/Controllers/ObservationsController.cs:139-159 | id mismatch: NotFound, untouched; invalid input: shown again, untouched; id 0 (an unset generated key, which `Update` marks Added): a new row is inserted as by Create, then Index; any other id with no row: NotFound, untouched; otherwise only row `id` is replaced by the input, then Index |
| `Controllers.ObservationsController.DeleteConfirmed` | Weather1/Controllers/ObservationsController.cs:173-185 | the table loses exactly key `id`, and is unchanged when `id` is absent; the result is always the redirect to Index |
| `Controllers.CreateThenEditForm` | Weather1/Controllers/ObservationsController.cs:114-134 | after a successful Create, Edit GET for the new key shows the input with that key |
| `Controllers.DeleteThenEditForm` | Weather1/Controllers/ObservationsController.cs:128-185 | after Delete POST of any id, Edit GET for that id is NotFound |
| `Controllers.DeleteUnknownKeepsCount` | Weather1/Controllers/ObservationsController.cs:175-184 | deleting id 9999 when no such row exists redirects to Index and leaves the table and the number of rows unchanged |

## Left out

- Rendering, `ViewBag`, `TempData` messages, partial views, antiforgery checks and routing: results are reduced to `ActionResult` and `IndexModel`.
- The fixed list of ten city names on the Index page: a constant with no behaviour.
- `async`/`await`, concurrent requests, and the rethrow in Edit POST's concurrency handler. That rethrow needs another request to recreate the row between the failed update and the check. Only its "row gone: NotFound" outcome is modelled.
- Model binding: a form value that cannot be converted (for example an empty Temperature) marks ModelState invalid before the attributes are checked. The model starts from a bound `Observation`.
- Field-level validation messages: an invalid submission is returned unchanged, without the list of failed fields.
- Controllers.ObservationsController.Create: an Id bound from the request would be inserted as an explicit key by the ORM. The model always assigns the next AUTOINCREMENT key.
- Controllers.ObservationsController.Create: keys are unbounded integers. The overflow of a 32-bit `int` Id after 2^31 - 1 inserts is not modelled.
- Precipitation's implicit `[Required]` is inferred from its NOT NULL column, the only sign that nullable reference types are on. The project file that switches them on is not part of this model.
- Controllers.TemperatureData: timestamps are ticks, not the `yyyy-MM-dd HH:mm` strings of the JSON, because `DateTime.ToString` formatting is not modelled. The same holds for Controllers.HumidityData.
- Temperature and WindSpeed are `double`s that are only copied. They are kept as 64-bit patterns, and no floating-point arithmetic is modelled.
- Controllers.TodayByCity: `today` is required to be a midnight with a following day. `DateTime.Today.AddDays(1)` would throw on 31 December 9999; the model does not follow the clock there. Controllers.Index has the same requirement.
- The queries require the table to be keyed by Id (`KeyedById`), as its primary key guarantees.
- Time zones, `DateTimeKind`, and the database's collation (case-insensitive string equality on SQL Server) are not modelled.
- Program.cs (service registration, HTTP pipeline, connection string) and ApplicationDbContext.cs are framework wiring; the table map replaces the `DbContext`.
