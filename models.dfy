/**
 * The `Observation` record and the validation MVC applies before the
 * controller writes it: `[Required]` on City, Temperature and Humidity,
 * `[Range(0, 100)]` on Humidity, and the implicit `[Required]` that nullable
 * reference types give the non-nullable `string Precipitation`.
 */
module Models {
  import opened Wrappers
  import opened DateTimes

  /** A C# `double`, kept as its IEEE 754 bit pattern: the controller only copies it. */
  type Double = bv64

  /** A C# `int`. */
  type Int32 = x: int | -0x8000_0000 <= x < 0x8000_0000

  /** One weather reading, one row of the Observations table. */
  datatype Observation = Observation(
    id: int,
    city: Option<string>,
    timestamp: Ticks,
    precipitation: Option<string>,
    temperature: Double,
    humidity: Int32,
    windSpeed: Double)

  /** `char.IsWhiteSpace`: the Unicode space, line and paragraph separators and U+0009..U+000D, U+0085. */
  predicate IsWhiteSpace(c: char) {
    var n := c as int;
    (9 <= n <= 13) || n == 0x20 || n == 0x85 || n == 0xA0 || n == 0x1680
    || (0x2000 <= n <= 0x200A) || n == 0x2028 || n == 0x2029 || n == 0x202F
    || n == 0x205F || n == 0x3000
  }

  /** `string.IsNullOrWhiteSpace`. */
  predicate IsNullOrWhiteSpace(s: Option<string>) {
    s.None? || forall i :: 0 <= i < |s.value| ==> IsWhiteSpace(s.value[i])
  }

  /** `string.IsNullOrEmpty`. */
  predicate IsNullOrEmpty(s: Option<string>) {
    s.None? || s.value == ""
  }

  /**
   * `[Required]` with its default `AllowEmptyStrings = false` on a string:
   * fails on null, on "" and on a string of white space only.
   */
  predicate RequiredString(s: Option<string>) {
    !IsNullOrWhiteSpace(s)
  }

  /** `[Range(min, max)]` on an integer: both ends are accepted. */
  predicate InRange(v: int, min: int, max: int) {
    min <= v <= max
  }

  /**
   * `ModelState.IsValid` for a bound Observation. `[Required]` on the
   * non-nullable `double` Temperature and `int` Humidity always holds, so only
   * City's `[Required]`, Precipitation's implicit `[Required]` (it is a
   * non-nullable `string` in a project with nullable reference types, which is
   * also why its column is NOT NULL) and Humidity's `[Range(0, 100)]` can fail.
   */
  predicate IsValid(o: Observation) {
    RequiredString(o.city) && RequiredString(o.precipitation) && InRange(o.humidity, 0, 100)
  }

  /** The NOT NULL text columns of the Observations table: City and Precipitation. */
  predicate FitsSchema(o: Observation) {
    o.city.Some? && o.precipitation.Some?
  }

  /**
   * A valid observation has humidity in [0, 100] and a city and a precipitation
   * with a visible character each.
   */
  lemma ValidMeans(o: Observation)
    requires IsValid(o)
    ensures 0 <= o.humidity <= 100
    ensures o.city.Some? && exists i :: 0 <= i < |o.city.value| && !IsWhiteSpace(o.city.value[i])
    ensures o.precipitation.Some? && exists i :: 0 <= i < |o.precipitation.value| && !IsWhiteSpace(o.precipitation.value[i])
  {
  }

  /** Whatever passes validation also fits the NOT NULL columns, so saving it cannot fail on them. */
  lemma ValidFitsSchema(o: Observation)
    ensures IsValid(o) ==> FitsSchema(o)
  {
  }

  /** Both ends of the humidity range are accepted. */
  lemma HumidityEndpointsAccepted(o: Observation)
    requires RequiredString(o.city) && RequiredString(o.precipitation)
    ensures IsValid(o.(humidity := 0)) && IsValid(o.(humidity := 100))
  {
  }

  /** A humidity outside [0, 100] makes the observation invalid whatever its other fields. */
  lemma HumidityOutOfRangeRejected(o: Observation)
    requires o.humidity < 0 || o.humidity > 100
    ensures !IsValid(o)
  {
  }

  /** A null, empty or all-white-space city is rejected, whatever the other fields. */
  lemma BlankCityRejected(o: Observation)
    requires o.city.None? || forall i :: 0 <= i < |o.city.value| ==> IsWhiteSpace(o.city.value[i])
    ensures !IsValid(o)
  {
  }

  /** A null, empty or all-white-space precipitation is rejected, whatever the other fields. */
  lemma BlankPrecipitationRejected(o: Observation)
    requires o.precipitation.None? || forall i :: 0 <= i < |o.precipitation.value| ==> IsWhiteSpace(o.precipitation.value[i])
    ensures !IsValid(o)
  {
  }

  /** Validity does not look at Id, Timestamp, Temperature or WindSpeed. */
  lemma ValidityIgnoresOtherFields(o: Observation, id: int, ts: Ticks, temperature: Double, windSpeed: Double)
    ensures IsValid(o) <==> IsValid(o.(id := id, timestamp := ts, temperature := temperature, windSpeed := windSpeed))
  {
  }
}
