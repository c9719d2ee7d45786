/**
 * `ObservationsController`: the read actions as functions of the
 * Observations table (a map from primary key to row), the write actions as
 * methods of a class that holds the table. "Today" is a parameter instead of
 * `DateTime.Today`; rendering, redirects and messages are reduced to `ActionResult`.
 */
module Controllers {
  import opened Wrappers
  import opened DateTimes
  import opened Models
  import opened Queryable

  /** What an action hands back to MVC. */
  datatype ActionResult =
    | RedirectToIndex             // RedirectToAction(nameof(Index))
    | NotFound                    // NotFound()
    | View(model: Observation)    // View(observation): a page or form showing this record

  /** The page model of Index: today's readings, newest first, and the newest one. */
  datatype IndexModel = IndexModel(todays: seq<Observation>, latest: Option<Observation>)

  /** One point of the TemperatureData series. */
  datatype TemperaturePoint = TemperaturePoint(timestamp: Ticks, temperature: Double)

  /** One point of the HumidityData series. */
  datatype HumidityPoint = HumidityPoint(timestamp: Ticks, humidity: Int32)

  /** The half-open day window `[day, day + 1 day)`. */
  predicate InDay(o: Observation, day: int) {
    day <= o.timestamp < day + TicksPerDay
  }

  // ---------------------------------------------------------------- TodayByCity

  /** The clauses TodayByCity puts on its query for a non-empty city. */
  function TodayByCityQuery(city: string, today: Ticks): seq<Condition> {
    [CityIs(city), AtOrAfter(today), Before(today + TicksPerDay)]
  }

  lemma TodayByCityQueryMeans(city: string, today: Ticks, o: Observation)
    ensures Matches(TodayByCityQuery(city, today), o) <==> o.city == Some(city) && InDay(o, today)
  {
    MatchesConcat([CityIs(city)], [AtOrAfter(today), Before(today + TicksPerDay)], o);
    MatchesConcat([AtOrAfter(today)], [Before(today + TicksPerDay)], o);
    MatchesSingle(CityIs(city), o);
    MatchesSingle(AtOrAfter(today), o);
    MatchesSingle(Before(today + TicksPerDay), o);
    assert TodayByCityQuery(city, today) == [CityIs(city)] + ([AtOrAfter(today)] + [Before(today + TicksPerDay)]);
  }

  /**
   * The newest of today's readings for `city`; `None` when no city is chosen
   * (without looking at the table) or when the city has no reading today.
   */
  function TodayByCity(t: map<int, Observation>, city: Option<string>, today: Ticks): (r: Option<Observation>)
    requires KeyedById(t)
    requires IsMidnight(today) && today + TicksPerDay <= MaxTicks
    ensures IsNullOrEmpty(city) ==> r == None
    ensures !IsNullOrEmpty(city) ==>
      (r == None <==> forall k :: k in t ==> !(t[k].city == city && InDay(t[k], today)))
    ensures r.Some? ==>
      && r.value.id in t && t[r.value.id] == r.value
      && r.value.city == city && InDay(r.value, today)
      && forall k :: k in t && t[k].city == city && InDay(t[k], today) ==> t[k].timestamp <= r.value.timestamp
  {
    if IsNullOrEmpty(city) then None
    else
      var q := TodayByCityQuery(city.value, today);
      var rows := Query(t, q, Descending);
      assert forall o :: Matches(q, o) <==> o.city == city && InDay(o, today) by {
        forall o ensures Matches(q, o) <==> o.city == city && InDay(o, today) {
          TodayByCityQueryMeans(city.value, today, o);
        }
      }
      if rows == [] then None
      else
        HeadIsNewest(rows);
        Some(rows[0])
  }

  /** With no city chosen the answer is the same for every table. */
  lemma TodayByCityWithoutCityIgnoresTable(t1: map<int, Observation>, t2: map<int, Observation>,
                                           city: Option<string>, today: Ticks)
    requires KeyedById(t1) && KeyedById(t2)
    requires IsMidnight(today) && today + TicksPerDay <= MaxTicks
    requires IsNullOrEmpty(city)
    ensures TodayByCity(t1, city, today) == TodayByCity(t2, city, today) == None
  {
  }

  /**
   * Two readings for Moscow today, at 08:00 (2.0 degrees) and 14:00 (5.0
   * degrees): TodayByCity("Moscow") picks the 14:00 one.
   */
  lemma TodayByCityPicksLaterReading(today: Ticks, morning: Observation, afternoon: Observation)
    requires IsMidnight(today) && today + TicksPerDay <= MaxTicks
    requires morning == Observation(1, Some("Moscow"), today + 8 * 36_000_000_000, Some("none"),
                                    0x4000_0000_0000_0000, 80, 0)
    requires afternoon == Observation(2, Some("Moscow"), today + 14 * 36_000_000_000, Some("none"),
                                      0x4014_0000_0000_0000, 60, 0)
    ensures TodayByCity(map[1 := morning, 2 := afternoon], Some("Moscow"), today) == Some(afternoon)
  {
    var t := map[1 := morning, 2 := afternoon];
    var r := TodayByCity(t, Some("Moscow"), today);
    assert 2 in t && t[2].city == Some("Moscow") && InDay(t[2], today);
    assert r.Some? && r.value.id in t && afternoon.timestamp <= r.value.timestamp;
    assert r.value.id == 2;
  }

  // ---------------------------------------------------------------- Index

  /** The clauses Index puts on its query. */
  function IndexQuery(today: Ticks): seq<Condition> {
    [AtOrAfter(today), Before(today + TicksPerDay)]
  }

  /** Index's two clauses keep exactly the readings of today's window. */
  lemma IndexQueryMeans(t: map<int, Observation>, today: Ticks)
    ensures forall o :: Matches(IndexQuery(today), o) <==> InDay(o, today)
    ensures Matching(t, IndexQuery(today)) == set k | k in t && InDay(t[k], today)
  {
    var q := IndexQuery(today);
    forall o ensures Matches(q, o) <==> InDay(o, today) {
      MatchesConcat([AtOrAfter(today)], [Before(today + TicksPerDay)], o);
      MatchesSingle(AtOrAfter(today), o);
      MatchesSingle(Before(today + TicksPerDay), o);
      assert q == [AtOrAfter(today)] + [Before(today + TicksPerDay)];
    }
    assert forall k :: k in Matching(t, q) <==> k in t && InDay(t[k], today);
  }

  /**
   * Today's readings of every city, newest first, and the newest of them
   * (`todays.FirstOrDefault()`).
   */
  function Index(t: map<int, Observation>, today: Ticks): (r: IndexModel)
    requires KeyedById(t)
    requires IsMidnight(today) && today + TicksPerDay <= MaxTicks
    ensures forall i, j :: 0 <= i < j < |r.todays| ==> r.todays[i].timestamp >= r.todays[j].timestamp
    ensures forall o :: o in r.todays ==> o.id in t && t[o.id] == o && InDay(o, today)
    ensures forall k :: k in t && InDay(t[k], today) ==> t[k] in r.todays
    ensures UniqueIds(r.todays)
    ensures |r.todays| == |set k | k in t && InDay(t[k], today)|
    ensures r.latest == None <==> forall k :: k in t ==> !InDay(t[k], today)
    ensures r.latest == if r.todays == [] then None else Some(r.todays[0])
    ensures r.latest.Some? ==>
      r.latest.value in r.todays && forall o :: o in r.todays ==> o.timestamp <= r.latest.value.timestamp
  {
    var todays := Query(t, IndexQuery(today), Descending);
    IndexQueryMeans(t, today);
    if todays == [] then IndexModel(todays, None)
    else
      HeadIsNewest(todays);
      IndexModel(todays, Some(todays[0]))
  }

  /** The newest reading on the Index page is also what TodayByCity shows for its city. */
  lemma IndexLatestIsLatestOfItsCity(t: map<int, Observation>, today: Ticks)
    requires KeyedById(t)
    requires IsMidnight(today) && today + TicksPerDay <= MaxTicks
    ensures var latest := Index(t, today).latest;
      latest.Some? && !IsNullOrEmpty(latest.value.city) ==>
        var r := TodayByCity(t, latest.value.city, today);
        r.Some? && r.value.timestamp == latest.value.timestamp
  {
    var m := Index(t, today);
    if m.latest.Some? && !IsNullOrEmpty(m.latest.value.city) {
      var o := m.latest.value;
      var r := TodayByCity(t, o.city, today);
      assert o.id in t && t[o.id] == o;
      assert r.Some?;
      assert r.value.timestamp >= o.timestamp;
      assert t[r.value.id] in m.todays;
    }
  }

  // ---------------------------------------------------------------- Archive

  /** The Archive filters: each applies only when its parameter is given; the end day is inclusive. */
  predicate ArchiveMatch(o: Observation, city: Option<string>, startDate: Option<Ticks>, endDate: Option<Ticks>) {
    && (IsNullOrEmpty(city) || o.city == city)
    && (startDate.None? || o.timestamp >= startDate.value)
    && (endDate.None? || o.timestamp < endDate.value + TicksPerDay)
  }

  /** The clauses Archive chains onto its query, in the order the action applies them. */
  function ArchiveQuery(city: Option<string>, startDate: Option<Ticks>, end: Option<int>): seq<Condition> {
    (if IsNullOrEmpty(city) then [] else [CityIs(city.value)])
    + (if startDate.Some? then [AtOrAfter(startDate.value)] else [])
    + (if end.Some? then [Before(end.value)] else [])
  }

  lemma ArchiveQueryMeans(city: Option<string>, startDate: Option<Ticks>, endDate: Option<Ticks>, o: Observation)
    requires endDate.Some? ==> endDate.value + TicksPerDay <= MaxTicks
    ensures var end := if endDate.Some? then Some(endDate.value + TicksPerDay) else None;
      Matches(ArchiveQuery(city, startDate, end), o) <==> ArchiveMatch(o, city, startDate, endDate)
  {
    var end := if endDate.Some? then Some(endDate.value + TicksPerDay) else None;
    var a := if IsNullOrEmpty(city) then [] else [CityIs(city.value)];
    var b := if startDate.Some? then [AtOrAfter(startDate.value)] else [];
    var c := if end.Some? then [Before(end.value)] else [];
    MatchesConcat(a + b, c, o);
    MatchesConcat(a, b, o);
    if !IsNullOrEmpty(city) { MatchesSingle(CityIs(city.value), o); }
    if startDate.Some? { MatchesSingle(AtOrAfter(startDate.value), o); }
    if end.Some? { MatchesSingle(Before(end.value), o); }
  }

  /**
   * Archive: all rows passing the given filters, newest first; an end date
   * whose next day is past `DateTime.MaxValue` makes `AddDays(1)` throw.
   */
  function Archive(t: map<int, Observation>, city: Option<string>, startDate: Option<Ticks>, endDate: Option<Ticks>)
    : (r: Result<seq<Observation>, DateError>)
    requires KeyedById(t)
    ensures r.Failure? <==> endDate.Some? && endDate.value + TicksPerDay > MaxTicks
    ensures r.Success? ==> forall i, j :: 0 <= i < j < |r.value| ==> r.value[i].timestamp >= r.value[j].timestamp
    ensures r.Success? ==> forall o :: o in r.value ==>
      o.id in t && t[o.id] == o && ArchiveMatch(o, city, startDate, endDate)
    ensures r.Success? ==> forall k :: k in t && ArchiveMatch(t[k], city, startDate, endDate) ==> t[k] in r.value
    ensures r.Success? ==> UniqueIds(r.value)
    ensures r.Success? ==> |r.value| == |set k | k in t && ArchiveMatch(t[k], city, startDate, endDate)|
  {
    var end := if endDate.Some? then Some(AddDays(endDate.value, 1)) else None;
    if end.Some? && end.value.Failure? then Failure(end.value.error)
    else
      var q := ArchiveQuery(city, startDate, if end.Some? then Some(end.value.value as int) else None);
      assert forall o :: Matches(q, o) <==> ArchiveMatch(o, city, startDate, endDate) by {
        forall o ensures Matches(q, o) <==> ArchiveMatch(o, city, startDate, endDate) {
          ArchiveQueryMeans(city, startDate, endDate, o);
        }
      }
      assert Matching(t, q) == set k | k in t && ArchiveMatch(t[k], city, startDate, endDate) by {
        assert forall k :: k in Matching(t, q) <==> k in t && ArchiveMatch(t[k], city, startDate, endDate);
      }
      Success(Query(t, q, Descending))
  }

  /** With no filter Archive lists the whole table, each row once. */
  lemma ArchiveWithoutFiltersListsAll(t: map<int, Observation>)
    requires KeyedById(t)
    ensures Archive(t, None, None, None).Success?
    ensures var rows := Archive(t, None, None, None).value;
      |rows| == |t| && forall k :: k in t ==> t[k] in rows
  {
    assert (set k | k in t && ArchiveMatch(t[k], None, None, None)) == t.Keys by {
      assert forall k :: k in t.Keys <==> k in t && ArchiveMatch(t[k], None, None, None);
    }
  }

  /** Start and end on the same day D select exactly the readings of `[D, D + 1 day)`. */
  lemma ArchiveOneDay(t: map<int, Observation>, city: Option<string>, day: Ticks)
    requires KeyedById(t)
    requires day + TicksPerDay <= MaxTicks
    ensures Archive(t, city, Some(day), Some(day)).Success?
    ensures var rows := Archive(t, city, Some(day), Some(day)).value;
      && (forall o :: o in rows ==> InDay(o, day) && (IsNullOrEmpty(city) || o.city == city))
      && (forall k :: k in t && InDay(t[k], day) && (IsNullOrEmpty(city) || t[k].city == city) ==> t[k] in rows)
  {
  }

  /** On 31 December 9999 as end date Archive fails instead of answering. */
  lemma ArchiveLastDayFails(t: map<int, Observation>, city: Option<string>, startDate: Option<Ticks>)
    requires KeyedById(t)
    ensures Archive(t, city, startDate, Some(MaxTicks - TicksPerDay + 1)) == Failure(ArgumentOutOfRange)
  {
  }

  // ---------------------------------------------------------------- TemperatureData, HumidityData

  /** The series filters: `from` and `to` are both inclusive instants. */
  predicate InSeries(o: Observation, from: Option<Ticks>, to: Option<Ticks>, city: Option<string>) {
    && (from.None? || o.timestamp >= from.value)
    && (to.None? || o.timestamp <= to.value)
    && (IsNullOrEmpty(city) || o.city == city)
  }

  /** The clauses both series actions chain onto their query, in the order the action applies them. */
  function SeriesQuery(from: Option<Ticks>, to: Option<Ticks>, city: Option<string>): seq<Condition> {
    (if from.Some? then [AtOrAfter(from.value)] else [])
    + (if to.Some? then [AtOrBefore(to.value)] else [])
    + (if IsNullOrEmpty(city) then [] else [CityIs(city.value)])
  }

  lemma SeriesQueryMeans(from: Option<Ticks>, to: Option<Ticks>, city: Option<string>, o: Observation)
    ensures Matches(SeriesQuery(from, to, city), o) <==> InSeries(o, from, to, city)
  {
    var a := if from.Some? then [AtOrAfter(from.value)] else [];
    var b := if to.Some? then [AtOrBefore(to.value)] else [];
    var c := if IsNullOrEmpty(city) then [] else [CityIs(city.value)];
    MatchesConcat(a + b, c, o);
    MatchesConcat(a, b, o);
    if from.Some? { MatchesSingle(AtOrAfter(from.value), o); }
    if to.Some? { MatchesSingle(AtOrBefore(to.value), o); }
    if !IsNullOrEmpty(city) { MatchesSingle(CityIs(city.value), o); }
  }

  /** The rows a series reports, oldest first: exactly those passing the series filters. */
  function SeriesRows(t: map<int, Observation>, from: Option<Ticks>, to: Option<Ticks>, city: Option<string>)
    : (rows: seq<Observation>)
    requires KeyedById(t)
    ensures forall i, j :: 0 <= i < j < |rows| ==> rows[i].timestamp <= rows[j].timestamp
    ensures forall o :: o in rows ==> o.id in t && t[o.id] == o && InSeries(o, from, to, city)
    ensures forall k :: k in t && InSeries(t[k], from, to, city) ==> t[k] in rows
    ensures UniqueIds(rows)
    ensures |rows| == |set k | k in t && InSeries(t[k], from, to, city)|
  {
    var q := SeriesQuery(from, to, city);
    assert forall o :: Matches(q, o) <==> InSeries(o, from, to, city) by {
      forall o ensures Matches(q, o) <==> InSeries(o, from, to, city) {
        SeriesQueryMeans(from, to, city, o);
      }
    }
    assert Matching(t, q) == set k | k in t && InSeries(t[k], from, to, city) by {
      assert forall k :: k in Matching(t, q) <==> k in t && InSeries(t[k], from, to, city);
    }
    var rows := Query(t, q, Ascending);
    assert forall i, j :: 0 <= i < j < |rows| ==> InOrder(rows[i], rows[j], Ascending);
    rows
  }

  /** (timestamp, temperature) of each row, in order. */
  function Temperatures(rows: seq<Observation>): (r: seq<TemperaturePoint>)
    ensures |r| == |rows|
    ensures forall i :: 0 <= i < |r| ==> r[i] == TemperaturePoint(rows[i].timestamp, rows[i].temperature)
  {
    seq(|rows|, i requires 0 <= i < |rows| => TemperaturePoint(rows[i].timestamp, rows[i].temperature))
  }

  /** (timestamp, humidity) of each row, in order. */
  function Humidities(rows: seq<Observation>): (r: seq<HumidityPoint>)
    ensures |r| == |rows|
    ensures forall i :: 0 <= i < |r| ==> r[i] == HumidityPoint(rows[i].timestamp, rows[i].humidity)
  {
    seq(|rows|, i requires 0 <= i < |rows| => HumidityPoint(rows[i].timestamp, rows[i].humidity))
  }

  /** Rows passing the series filters lie between `from` and `to`. */
  lemma SeriesRowsBounded(rows: seq<Observation>, from: Option<Ticks>, to: Option<Ticks>, city: Option<string>)
    requires forall o :: o in rows ==> InSeries(o, from, to, city)
    ensures forall i :: 0 <= i < |rows| ==>
      (from.None? || from.value <= rows[i].timestamp) && (to.None? || rows[i].timestamp <= to.value)
  {
    forall i | 0 <= i < |rows|
      ensures (from.None? || from.value <= rows[i].timestamp) && (to.None? || rows[i].timestamp <= to.value)
    {
      assert rows[i] in rows;
    }
  }

  /** Every matching row gives a point of the projected series. */
  lemma TemperaturesCover(t: map<int, Observation>, from: Option<Ticks>, to: Option<Ticks>, city: Option<string>,
                   rows: seq<Observation>)
    requires forall k :: k in t && InSeries(t[k], from, to, city) ==> t[k] in rows
    ensures forall k :: k in t && InSeries(t[k], from, to, city) ==>
      TemperaturePoint(t[k].timestamp, t[k].temperature) in Temperatures(rows)
  {
    var r := Temperatures(rows);
    forall k | k in t && InSeries(t[k], from, to, city) ensures TemperaturePoint(t[k].timestamp, t[k].temperature) in r {
      var i :| 0 <= i < |rows| && rows[i] == t[k];
      assert r[i] == TemperaturePoint(t[k].timestamp, t[k].temperature);
    }
  }

  /**
   * TemperatureData: (timestamp, temperature) of every reading between `from` and `to`
   * (both inclusive) for the city if one is given, oldest first; point `i`
   * is the projection of row `i` of SeriesRows.
   */
  function TemperatureData(t: map<int, Observation>, from: Option<Ticks>, to: Option<Ticks>, city: Option<string>)
    : (r: seq<TemperaturePoint>)
    requires KeyedById(t)
    ensures |r| == |set k | k in t && InSeries(t[k], from, to, city)|
    ensures forall i, j :: 0 <= i < j < |r| ==> r[i].timestamp <= r[j].timestamp
    ensures forall i :: 0 <= i < |r| ==>
      (from.None? || from.value <= r[i].timestamp) && (to.None? || r[i].timestamp <= to.value)
    ensures forall k :: k in t && InSeries(t[k], from, to, city) ==>
      TemperaturePoint(t[k].timestamp, t[k].temperature) in r
    ensures var rows := SeriesRows(t, from, to, city);
      |r| == |rows| && forall i :: 0 <= i < |r| ==> r[i] == TemperaturePoint(rows[i].timestamp, rows[i].temperature)
  {
    var rows := SeriesRows(t, from, to, city);
    TemperaturesCover(t, from, to, city, rows);
    SeriesRowsBounded(rows, from, to, city);
    Temperatures(rows)
  }

  /** Every matching row gives a point of the projected series. */
  lemma HumiditiesCover(t: map<int, Observation>, from: Option<Ticks>, to: Option<Ticks>, city: Option<string>,
                   rows: seq<Observation>)
    requires forall k :: k in t && InSeries(t[k], from, to, city) ==> t[k] in rows
    ensures forall k :: k in t && InSeries(t[k], from, to, city) ==>
      HumidityPoint(t[k].timestamp, t[k].humidity) in Humidities(rows)
  {
    var r := Humidities(rows);
    forall k | k in t && InSeries(t[k], from, to, city) ensures HumidityPoint(t[k].timestamp, t[k].humidity) in r {
      var i :| 0 <= i < |rows| && rows[i] == t[k];
      assert r[i] == HumidityPoint(t[k].timestamp, t[k].humidity);
    }
  }

  /**
   * HumidityData: (timestamp, humidity) of every reading between `from` and `to`
   * (both inclusive) for the city if one is given, oldest first; point `i`
   * is the projection of row `i` of SeriesRows.
   */
  function HumidityData(t: map<int, Observation>, from: Option<Ticks>, to: Option<Ticks>, city: Option<string>)
    : (r: seq<HumidityPoint>)
    requires KeyedById(t)
    ensures |r| == |set k | k in t && InSeries(t[k], from, to, city)|
    ensures forall i, j :: 0 <= i < j < |r| ==> r[i].timestamp <= r[j].timestamp
    ensures forall i :: 0 <= i < |r| ==>
      (from.None? || from.value <= r[i].timestamp) && (to.None? || r[i].timestamp <= to.value)
    ensures forall k :: k in t && InSeries(t[k], from, to, city) ==>
      HumidityPoint(t[k].timestamp, t[k].humidity) in r
    ensures var rows := SeriesRows(t, from, to, city);
      |r| == |rows| && forall i :: 0 <= i < |r| ==> r[i] == HumidityPoint(rows[i].timestamp, rows[i].humidity)
  {
    var rows := SeriesRows(t, from, to, city);
    HumiditiesCover(t, from, to, city, rows);
    SeriesRowsBounded(rows, from, to, city);
    Humidities(rows)
  }

  /**
   * Unlike Archive's end date, a series' `to` is an instant: a reading one
   * hour into day D is archived for end date D but not charted for `to` = D.
   */
  lemma SeriesEndIsAnInstant(o: Observation, day: Ticks)
    requires day + TicksPerDay <= MaxTicks
    requires o.timestamp == day + 36_000_000_000
    ensures ArchiveMatch(o, None, None, Some(day))
    ensures !InSeries(o, None, Some(day), None)
  {
  }

  // ---------------------------------------------------------------- Create, Edit and Delete pages

  /** Create GET: a blank form stamped with the current time, which cannot be saved as it is. */
  function CreateForm(now: Ticks): (r: ActionResult)
    ensures r.View? && r.model.timestamp == now
    ensures r.model.city == None && r.model.precipitation == None && r.model.humidity == 0
    ensures !IsValid(r.model)
  {
    View(Observation(0, None, now, None, 0, 0, 0))
  }

  /** Edit GET: the stored record, or NotFound for a missing or unknown id. */
  function EditForm(t: map<int, Observation>, id: Option<int>): (r: ActionResult)
    ensures r == NotFound <==> id.None? || id.value !in t
    ensures r != NotFound ==> r == View(t[id.value])
  {
    if id.None? then NotFound
    else if id.value !in t then NotFound
    else View(t[id.value])
  }

  /** Delete GET: the record to confirm, or NotFound for a missing or unknown id. */
  function DeleteForm(t: map<int, Observation>, id: Option<int>): (r: ActionResult)
    ensures r == NotFound <==> id.None? || id.value !in t
    ensures r != NotFound ==> r == View(t[id.value])
  {
    if id.None? then NotFound
    else if id.value !in t then NotFound
    else View(t[id.value])
  }

  // ---------------------------------------------------------------- the table and the write actions

  class ObservationsController {
    /** The Observations table, by primary key. */
    var observations: map<int, Observation>
    /** The table's AUTOINCREMENT counter: the largest key ever assigned. */
    var lastId: int

    /**
     * Keys are the rows' own Ids, assigned from 1 up and never above the
     * counter; every row passed validation, and so fits the NOT NULL columns (`ValidFitsSchema`).
     */
    ghost predicate Valid()
      reads this
    {
      && 0 <= lastId
      && KeyedById(observations)
      && forall k :: k in observations ==>
        0 < k <= lastId && IsValid(observations[k])
    }

    /** The freshly migrated, empty table. */
    constructor ()
      ensures Valid() && observations == map[] && lastId == 0
    {
      observations := map[];
      lastId := 0;
    }

    /**
     * `_context.Add` followed by `SaveChangesAsync`: the row is inserted under
     * the next AUTOINCREMENT key, which no row has had before.
     */
    method Add(observation: Observation)
      requires Valid() && IsValid(observation)
      modifies this
      ensures Valid()
      ensures lastId == old(lastId) + 1 && lastId !in old(observations)
      ensures observations == old(observations)[lastId := observation.(id := lastId)]
    {
      lastId := lastId + 1;
      observations := observations[lastId := observation.(id := lastId)];
    }

    /**
     * Create POST: a valid observation is inserted under a new key and the
     * browser is sent to Index; an invalid one is shown again, unchanged.
     */
    method Create(observation: Observation) returns (r: ActionResult)
      requires Valid()
      modifies this
      ensures Valid()
      ensures !IsValid(observation) ==>
        r == View(observation) && observations == old(observations) && lastId == old(lastId)
      ensures IsValid(observation) ==>
        && r == RedirectToIndex
        && lastId == old(lastId) + 1 && lastId !in old(observations)
        && observations == old(observations)[lastId := observation.(id := lastId)]
    {
      if !IsValid(observation) {
        return View(observation);
      }
      Add(observation);
      r := RedirectToIndex;
    }

    /**
     * Edit POST: replaces the whole row `id` with `observation` when the ids
     * agree, the input is valid and the row still exists. `Update` of an
     * entity whose key is 0, the unset default of a generated `int` key,
     * marks it Added, so that case inserts a new row as Create does.
     */
    method Edit(id: int, observation: Observation) returns (r: ActionResult)
      requires Valid()
      modifies this
      ensures Valid()
      ensures id != observation.id ==>
        r == NotFound && observations == old(observations) && lastId == old(lastId)
      ensures id == observation.id && !IsValid(observation) ==>
        r == View(observation) && observations == old(observations) && lastId == old(lastId)
      ensures id == observation.id && IsValid(observation) && id == 0 ==>
        && r == RedirectToIndex
        && lastId == old(lastId) + 1 && lastId !in old(observations)
        && observations == old(observations)[lastId := observation.(id := lastId)]
      ensures id == observation.id && IsValid(observation) && id != 0 && id !in old(observations) ==>
        r == NotFound && observations == old(observations) && lastId == old(lastId)
      ensures id == observation.id && IsValid(observation) && id in old(observations) ==>
        r == RedirectToIndex && observations == old(observations)[id := observation] && lastId == old(lastId)
    {
      if id != observation.id {
        return NotFound;
      }
      if !IsValid(observation) {
        return View(observation);
      }
      if id == 0 {
        Add(observation);
        return RedirectToIndex;
      }
      if id !in observations {
        // The UPDATE touches no row: DbUpdateConcurrencyException, and the row is gone.
        return NotFound;
      }
      observations := observations[id := observation];
      r := RedirectToIndex;
    }

    /** Delete POST: removes row `id` if there is one; either way the browser goes to Index. */
    method DeleteConfirmed(id: int) returns (r: ActionResult)
      requires Valid()
      modifies this
      ensures Valid() && lastId == old(lastId)
      ensures r == RedirectToIndex
      ensures observations == old(observations) - {id}
      ensures id !in old(observations) ==> observations == old(observations)
    {
      if id in observations {
        observations := observations - {id};
      }
      r := RedirectToIndex;
    }
  }

  /** A created observation is what Edit GET then shows under its new key. */
  method CreateThenEditForm(c: ObservationsController, observation: Observation)
    requires c.Valid() && IsValid(observation)
    modifies c
    ensures c.Valid()
    ensures EditForm(c.observations, Some(c.lastId)) == View(observation.(id := c.lastId))
  {
    var r := c.Create(observation);
  }

  /** After Delete POST the record is gone: Edit GET answers NotFound. */
  method DeleteThenEditForm(c: ObservationsController, id: int)
    requires c.Valid()
    modifies c
    ensures c.Valid()
    ensures EditForm(c.observations, Some(id)) == NotFound
  {
    var r := c.DeleteConfirmed(id);
  }

  /** Deleting a key that does not exist still redirects and changes nothing, not even the row count. */
  method DeleteUnknownKeepsCount(c: ObservationsController) returns (r: ActionResult)
    requires c.Valid() && 9999 !in c.observations
    modifies c
    ensures c.Valid() && r == RedirectToIndex
    ensures c.observations == old(c.observations) && |c.observations| == |old(c.observations)|
  {
    r := c.DeleteConfirmed(9999);
  }
}
