/** What `buildNext12Forecast` promises about its items: calendar order and
  * labels, when a month has no forecast, how far the jitter can move a
  * forecast, and that the climatology the
  * aggregator builds is always fit to forecast from. */
module ForecastProofs {
  import opened Wrappers
  import opened StatsHelpers
  import opened DateHelpers
  import opened TransformHelpers
  import JsMath

  // ---------------------------------------------------------------------------
  // Calendar order and labels

  /** From a day of month up to 28, item `k` is `k` calendar months after the
    * start, its successor is the month after it (December is followed by
    * January of the next year), and its label is the month abbreviation and
    * the year. */
  lemma ForecastCalendarOrder(climatology: seq<MonthSummary>, fromDate: CalendarDate, k: nat, draw: real, nextDraw: real)
    requires ValidDate(fromDate) && fromDate.day <= 28
    ensures var item := ForecastFor(climatology, DateAfter(fromDate, k), draw);
      var next := ForecastFor(climatology, DateAfter(fromDate, k + 1), nextDraw);
      && (item.year, item.month) == AddMonths(fromDate.year, fromDate.month, k)
      && (next.year, next.month) == FollowingMonth(item.year, item.month)
      && item.labelText == MonthYearLabel(item.month, item.year)
  {
    DateAfterEarlyDay(fromDate, k);
    DateAfterEarlyDay(fromDate, k + 1);
  }

  /** The twelve items of a forecast started on a day up to 28 cover twelve
    * different months, each under its own label. */
  lemma ForecastMonthsDistinct(climatology: seq<MonthSummary>, fromDate: CalendarDate, i: nat, j: nat, di: real, dj: real)
    requires ValidDate(fromDate) && fromDate.day <= 28 && i < j < 12
    ensures var a := ForecastFor(climatology, DateAfter(fromDate, i), di);
      var b := ForecastFor(climatology, DateAfter(fromDate, j), dj);
      a.month != b.month && a.labelText != b.labelText
  {
    var da, db := DateAfter(fromDate, i), DateAfter(fromDate, j);
    DateAfterEarlyDay(fromDate, i);
    DateAfterEarlyDay(fromDate, j);
    AddMonthsIndex(fromDate.year, fromDate.month, i);
    AddMonthsIndex(fromDate.year, fromDate.month, j);
    MonthIndexCloseDistinct(da.year, da.month, db.year, db.month);
    var a := ForecastFor(climatology, da, di);
    var b := ForecastFor(climatology, db, dj);
    assert a.month == da.month && a.year == da.year && a.labelText == MonthYearLabel(da.month, da.year);
    assert b.month == db.month && b.year == db.year && b.labelText == MonthYearLabel(db.month, db.year);
    if a.labelText == b.labelText {
      MonthYearLabelInjective(da.month, da.year, db.month, db.year);
    }
  }

  // ---------------------------------------------------------------------------
  // Absent forecasts

  /** A month gets no forecast exactly when the climatology has no summary for
    * it or the summary's mean is null or zero (`monthData?.mean` is falsy). */
  lemma ForecastAbsentIff(climatology: seq<MonthSummary>, date: CalendarDate, draw: real)
    requires ForecastReady(climatology)
    ensures var found := FindMonth(climatology, date.month);
      ForecastMean(climatology, date, draw).None? <==>
        found.None? || found.value.mean.None? || found.value.mean.value == 0.0
  {
    var found := FindMonth(climatology, date.month);
    if found.Some? && Truthy(found.value.mean) {
      ReadyHasLastYear(climatology, date.month);
    }
  }

  // ---------------------------------------------------------------------------
  // How far a forecast can stray

  /** With `Math.random()` in [0, 1) the jitter `(r - 0.5) * 4` lies in [-2, 2),
    * and rounding to one decimal moves the sum by at most 0.05. */
  lemma ForecastTemperatureBounds(mean: real, trend: real, year: int, lastYear: int, draw: real)
    requires 0.0 <= draw < 1.0
    ensures var centre := mean + trend * (year - lastYear) as real;
      centre - 2.05 < ForecastTemperature(mean, trend, year, lastYear, draw) < centre + 2.05
  {
  }

  /** For a month whose summary has mean `mean`, with `lastYear` the last
    * data year, the forecast is present exactly when the mean is not zero,
    * and is then the forecast temperature from that mean, the trend and the
    * years since `lastYear`; `ForecastTemperatureBounds` says how far that
    * lies from the trend line. */
  lemma ForecastMeanOfMonth(climatology: seq<MonthSummary>, date: CalendarDate, draw: real, mean: real, lastYear: int)
    requires FindMonth(climatology, date.month).Some? && FindMonth(climatology, date.month).value.mean == Some(mean)
    requires LastDataYear(climatology) == Some(lastYear)
    ensures ForecastMean(climatology, date, draw) ==
      if mean != 0.0 then Some(ForecastTemperature(mean, WarmingTrend(climatology), date.year, lastYear, draw)) else None
  {
  }

  /** With fewer than two years of data the trend is zero, and every forecast
    * lies within 2.05 degrees of its month's mean. */
  lemma SingleYearForecastNearMean(climatology: seq<MonthSummary>, date: CalendarDate, draw: real, mean: real)
    requires |UniqueYears(climatology)| < 2 && 0.0 <= draw < 1.0
    requires FindMonth(climatology, date.month).Some? && FindMonth(climatology, date.month).value.mean == Some(mean)
    ensures var forecast := ForecastMean(climatology, date, draw);
      forecast.Some? ==> mean - 2.05 < forecast.value < mean + 2.05
  {
    var last := LastDataYear(climatology);
    if last.Some? && mean != 0.0 {
      ForecastMeanOfMonth(climatology, date, draw, mean, last.value);
      ForecastTemperatureBounds(mean, WarmingTrend(climatology), date.year, last.value, draw);
      ZeroProduct(WarmingTrend(climatology), (date.year - last.value) as real);
    }
  }

  // ---------------------------------------------------------------------------
  // The warming trend

  /** With two or more years of data the trend is positive exactly when the
    * monthly averages of the last year add up to more than those of the first
    * year, and negative exactly when they add up to less. */
  lemma WarmingTrendSign(climatology: seq<MonthSummary>)
    requires |UniqueYears(climatology)| >= 2
    ensures var years := UniqueYears(climatology);
      var all := AllYearlyAverages(climatology);
      var first, last := SumAveragesOf(all, years[0]), SumAveragesOf(all, years[|years| - 1]);
      (WarmingTrend(climatology) > 0.0 <==> last > first) &&
      (WarmingTrend(climatology) < 0.0 <==> last < first)
  {
  }

  // ---------------------------------------------------------------------------
  // The aggregator's climatology can always be forecast from

  lemma {:induction false} AllYearlyAveragesContains(climatology: seq<MonthSummary>, i: nat, y: YearlyAverage)
    requires i < |climatology| && y in climatology[i].yearlyAverages
    ensures y in AllYearlyAverages(climatology)
  {
    var n := |climatology| - 1;
    if i < n {
      AllYearlyAveragesContains(climatology[..n], i, y);
    }
  }

  /** A month whose mean is present has a yearly average. */
  lemma TruthyMonthHasYearlyAverage(rows: seq<WeatherRow>, i: nat)
    requires i < 12 && Climatology(rows)[i].mean.Some?
    ensures Climatology(rows)[i].yearlyAverages != []
  {
    ClimatologyAt(rows, i);
    var month: Month := i + 1;
    assert Readings(rows, month) != [];
    var y := ReadingsHaveYear(rows, month);
    YearGroupsKeys(rows, month);
    var groups := YearGroups(rows, month);
    assert y in groups.Keys;
    assert y in IndexKeys(groups.Keys);
  }

  /** Any yearly average in any summary makes its year a data year. */
  lemma YearlyAverageGivesDataYear(climatology: seq<MonthSummary>, i: nat)
    requires i < |climatology| && climatology[i].yearlyAverages != []
    ensures LastDataYear(climatology).Some?
  {
    var entry := climatology[i].yearlyAverages[0];
    AllYearlyAveragesContains(climatology, i, entry);
    var all := AllYearlyAverages(climatology);
    var k :| 0 <= k < |all| && all[k] == entry;
    var yearList := YearList(all);
    assert yearList[k] in yearList;
    var sorted := SortByKey(yearList, Identity);
    assert yearList[k] in multiset(sorted);
    assert yearList[k] in UniqueYears(climatology);
  }

  /** The climatology built by `toMonthlyClimatology` always has a last data
    * year when some month has a mean, as the forecast needs. */
  lemma ClimatologyForecastReady(rows: seq<WeatherRow>)
    ensures ForecastReady(Climatology(rows))
  {
    var climatology := Climatology(rows);
    if i :| 0 <= i < |climatology| && Truthy(climatology[i].mean) {
      TruthyMonthHasYearlyAverage(rows, i);
      YearlyAverageGivesDataYear(climatology, i);
    }
  }
}
