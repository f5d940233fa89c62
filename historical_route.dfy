/** The historical route's row mapping: the daily arrays of the archive
  * response become one `WeatherRow` per day, with the daily mean taken from
  * the mean series, or else halfway between the maximum and the minimum, and
  * converted from Celsius to Fahrenheit. */
module HistoricalRoute {
  import opened Wrappers
  import opened TransformHelpers

  /** The `daily` object of the response. Each series may be absent, and each
    * entry of a series may be null. */
  datatype DailyArrays = DailyArrays(
    time: Option<seq<string>>,
    mean: Option<seq<Option<real>>>,
    max: Option<seq<Option<real>>>,
    min: Option<seq<Option<real>>>)

  /** `series?.[i]`: null or undefined (here both `None`) when the series is
    * absent, the index is past its end, or the entry is null. */
  function Entry(series: Option<seq<Option<real>>>, i: int): (r: Option<real>)
    ensures r.Some? <==> series.Some? && 0 <= i < |series.value| && series.value[i].Some?
  {
    if series.Some? && 0 <= i < |series.value| then series.value[i] else None
  }

  /** `(tmean * 9/5) + 32` */
  function ToFahrenheit(celsius: real): real
  {
    celsius * 9.0 / 5.0 + 32.0
  }

  /** The inverse conversion, `(f - 32) * 5/9`. */
  function ToCelsius(fahrenheit: real): real
  {
    (fahrenheit - 32.0) * 5.0 / 9.0
  }

  /** The Celsius mean of day `i`: the mean entry when present, otherwise the
    * midpoint of the maximum and the minimum when both are present. */
  function CelsiusMean(daily: DailyArrays, i: int): Option<real>
  {
    var tmean := Entry(daily.mean, i);
    if tmean.Some? then tmean
    else
      var tmax, tmin := Entry(daily.max, i), Entry(daily.min, i);
      if tmax.Some? && tmin.Some? then Some((tmax.value + tmin.value) / 2.0) else None
  }

  /** The row pushed for day `i`. */
  function RowOf(time: seq<string>, daily: DailyArrays, i: int): WeatherRow
    requires 0 <= i < |time|
  {
    var tmean := CelsiusMean(daily, i);
    WeatherRow(time[i], if tmean.Some? then Some(ToFahrenheit(tmean.value)) else None)
  }

  /** The loop over `time`: one row per day, in order. */
  method MapDailyRows(time: seq<string>, daily: DailyArrays) returns (rows: seq<WeatherRow>)
    ensures |rows| == |time|
    ensures forall i :: 0 <= i < |time| ==> rows[i] == RowOf(time, daily, i)
  {
    rows := [];
    for i := 0 to |time|
      invariant |rows| == i
      invariant forall k :: 0 <= k < i ==> rows[k] == RowOf(time, daily, k)
    {
      var tmean := Entry(daily.mean, i);
      if tmean.None? {
        var tmax := Entry(daily.max, i);
        var tmin := Entry(daily.min, i);
        if tmax.Some? && tmin.Some? {
          tmean := Some((tmax.value + tmin.value) / 2.0);
        }
      }
      if tmean.Some? {
        tmean := Some(ToFahrenheit(tmean.value));
      }
      rows := rows + [WeatherRow(time[i], tmean)];
    }
  }

  /** `GET`: a response without `daily` or without `daily.time` is an error
    * (the route answers 502); otherwise the mapped rows. */
  method HistoricalRows(daily: Option<DailyArrays>) returns (result: Option<seq<WeatherRow>>)
    ensures result.None? <==> daily.None? || daily.value.time.None?
    ensures result.Some? ==>
      var time := daily.value.time.value;
      |result.value| == |time| &&
      forall i :: 0 <= i < |time| ==> result.value[i] == RowOf(time, daily.value, i)
  {
    if daily.None? || daily.value.time.None? {
      return None;
    }
    var rows := MapDailyRows(daily.value.time.value, daily.value);
    return Some(rows);
  }

  // ---------------------------------------------------------------------------
  // What the mapping promises

  /** Converting to Fahrenheit and back gives the Celsius value again, and the
    * other way round. */
  lemma FahrenheitRoundTrip(c: real, f: real)
    ensures ToCelsius(ToFahrenheit(c)) == c
    ensures ToFahrenheit(ToCelsius(f)) == f
  {
  }

  /** The conversion keeps the order of temperatures. */
  lemma FahrenheitMonotone(a: real, b: real)
    ensures a <= b <==> ToFahrenheit(a) <= ToFahrenheit(b)
  {
  }

  /** Row `i` carries day `i`'s date, and has a mean exactly when the mean entry
    * is present or both the maximum and the minimum entries are. */
  lemma RowMeanPresentIff(time: seq<string>, daily: DailyArrays, i: int)
    requires 0 <= i < |time|
    ensures var row := RowOf(time, daily, i);
      && row.date == time[i]
      && (row.tmean.Some? <==> Entry(daily.mean, i).Some? || (Entry(daily.max, i).Some? && Entry(daily.min, i).Some?))
  {
  }

  /** A present mean entry wins over the maximum and minimum: the row's mean is
    * its Fahrenheit value. */
  lemma MeanEntryPreferred(time: seq<string>, daily: DailyArrays, i: int)
    requires 0 <= i < |time| && Entry(daily.mean, i).Some?
    ensures RowOf(time, daily, i).tmean == Some(ToFahrenheit(Entry(daily.mean, i).value))
  {
  }

  /** Without a mean entry, the fallback lies between the converted minimum and
    * maximum (whichever way round they are) and is their midpoint. */
  lemma FallbackBetweenMinAndMax(time: seq<string>, daily: DailyArrays, i: int)
    requires 0 <= i < |time|
    requires Entry(daily.mean, i).None? && Entry(daily.max, i).Some? && Entry(daily.min, i).Some?
    ensures var tmax, tmin := Entry(daily.max, i).value, Entry(daily.min, i).value;
      var f := RowOf(time, daily, i).tmean.value;
      && f == (ToFahrenheit(tmax) + ToFahrenheit(tmin)) / 2.0
      && (tmin <= tmax ==> ToFahrenheit(tmin) <= f <= ToFahrenheit(tmax))
      && (tmax <= tmin ==> ToFahrenheit(tmax) <= f <= ToFahrenheit(tmin))
  {
  }
}
