/** What `toMonthlyClimatology` promises about the twelve summaries it returns:
  * month order, the statistics of each month and how they relate, the yearly
  * averages and their readings, and that every counted row lands in exactly
  * one month and one year. */
module ClimatologyProofs {
  import opened Wrappers
  import opened StatsHelpers
  import opened DateHelpers
  import opened TransformHelpers

  // ---------------------------------------------------------------------------
  // Month order

  /** Summary `k` is that of month `k + 1`: January first, December last. */
  lemma ClimatologyMonthOrder(rows: seq<WeatherRow>)
    ensures forall k :: 0 <= k < 12 ==> Climatology(rows)[k].month == k + 1
  {
    forall k | 0 <= k < 12 ensures Climatology(rows)[k].month == k + 1 {
      ClimatologyAt(rows, k);
    }
  }

  // ---------------------------------------------------------------------------
  // Empty months

  /** A month has a year exactly when it has a reading. */
  lemma {:induction false} YearsOfEmptyIff(rows: seq<WeatherRow>, month: Month)
    ensures YearsOf(rows, month) == {} <==> Readings(rows, month) == []
  {
    if |rows| > 0 {
      YearsOfEmptyIff(rows[..|rows| - 1], month);
      var r := rows[|rows| - 1];
      if Counts(r, month) {
        assert RowYear(r) in YearsOf(rows, month);
      }
    }
  }

  /** A month without readings reports a count of zero and null statistics; a
    * month with readings reports every statistic. */
  lemma SummaryEmptyIff(rows: seq<WeatherRow>, month: Month)
    ensures var s := SummaryOf(rows, month);
      && s.month == month
      && s.count == |Readings(rows, month)|
      && (s.count == 0 <==> s.mean.None?)
      && (s.count == 0 <==> s.min.None?)
      && (s.count == 0 <==> s.max.None?)
      && (s.count == 0 <==> s.p25.None?)
      && (s.count == 0 <==> s.p50.None?)
      && (s.count == 0 <==> s.p75.None?)
      && (s.count == 0 <==> s.variance.None?)
  {
  }

  /** A month without readings has no histogram bins and no yearly averages; a
    * month with readings has at least one yearly average. */
  lemma SummaryYearlyEmptyIff(rows: seq<WeatherRow>, month: Month)
    ensures var s := SummaryOf(rows, month);
      && (Readings(rows, month) == [] <==> s.yearlyAverages == [])
      && (Readings(rows, month) == [] ==> s.histogram == [])
  {
    YearGroupsKeys(rows, month);
    assert SummaryOf(rows, month).yearlyAverages == YearlyAveragesOf(rows, month, YearGroups(rows, month));
    GroupedYearlyEmptyIff(rows, month);
  }

  lemma GroupedYearlyEmptyIff(rows: seq<WeatherRow>, month: Month)
    ensures YearKeys(YearGroups(rows, month))
    ensures Readings(rows, month) == [] <==> YearlyAveragesOf(rows, month, YearGroups(rows, month)) == []
  {
    YearsOfEmptyIff(rows, month);
    GroupedYears(rows, month);
    if Readings(rows, month) != [] {
      var y := ReadingsHaveYear(rows, month);
      assert y in IndexKeys(YearGroups(rows, month).Keys);
    }
  }

  // ---------------------------------------------------------------------------
  // The statistics of a month

  /** For a month with readings the statistics are ordered as their names say:
    * min <= p25 <= p50 <= p75 <= max, the mean lies between min and max, and
    * the variance is not negative. */
  lemma SummaryStatsOrdered(rows: seq<WeatherRow>, month: Month)
    requires Readings(rows, month) != []
    ensures var s := SummaryOf(rows, month);
      && s.min.value <= s.p25.value <= s.p50.value <= s.p75.value <= s.max.value
      && s.min.value <= s.mean.value <= s.max.value
      && s.variance.value >= 0.0
  {
    var values := Readings(rows, month);
    QuantileWithinRange(values, 25.0);
    QuantileWithinRange(values, 75.0);
    QuantileMonotone(values, 25.0, 50.0);
    QuantileMonotone(values, 50.0, 75.0);
    MeanWithinRange(values);
  }

  // ---------------------------------------------------------------------------
  // Yearly averages

  /** The yearly averages of a month are listed one per year in which the
    * month has a reading, by strictly ascending year; each counts that year's
    * readings, averages them, and lists them as dated readings in date order. */
  lemma YearlyAveragesByYear(rows: seq<WeatherRow>, month: Month)
    ensures YearKeys(YearGroups(rows, month))
    ensures var ys := SummaryOf(rows, month).yearlyAverages;
      && YearList(ys) == IndexKeys(YearGroups(rows, month).Keys)
      && forall i :: 0 <= i < |ys| ==> YearlyEntryOf(rows, month, ys[i])
  {
    YearGroupsKeys(rows, month);
    var ys := SummaryOf(rows, month).yearlyAverages;
    assert ys == YearlyAveragesOf(rows, month, YearGroups(rows, month));
    GroupedYears(rows, month);
    GroupedEntries(rows, month);
  }

  /** Entry `entry` holds the readings of its year: their number (at least
    * one), their mean, and the dated readings in date order. */
  ghost predicate YearlyEntryOf(rows: seq<WeatherRow>, month: Month, entry: YearlyAverage)
  {
    var readings := YearReadings(rows, month, entry.year);
    && entry.count == |readings| > 0
    && Mean(readings) == Some(entry.average)
    && SortedByKey(entry.dailyTemperatures, DailyKey)
    && multiset(entry.dailyTemperatures) == multiset(DailyReadings(rows, month, entry.year))
  }

  lemma GroupedYears(rows: seq<WeatherRow>, month: Month)
    ensures YearGroups(rows, month).Keys == YearsOf(rows, month)
    ensures YearKeys(YearGroups(rows, month))
    ensures YearList(YearlyAveragesOf(rows, month, YearGroups(rows, month))) == IndexKeys(YearGroups(rows, month).Keys)
  {
    YearGroupsKeys(rows, month);
  }

  lemma GroupedEntries(rows: seq<WeatherRow>, month: Month)
    ensures YearKeys(YearGroups(rows, month))
    ensures var ys := YearlyAveragesOf(rows, month, YearGroups(rows, month));
      forall i :: 0 <= i < |ys| ==> YearlyEntryOf(rows, month, ys[i])
  {
    YearGroupsKeys(rows, month);
    var groups := YearGroups(rows, month);
    var years := IndexKeys(groups.Keys);
    var ys := YearlyAveragesOf(rows, month, groups);
    forall i | 0 <= i < |ys| ensures YearlyEntryOf(rows, month, ys[i]) {
      var y := years[i];
      assert y in groups.Keys;
      YearEntry(rows, month, y);
    }
  }

  /** The entry built for a year with readings holds those readings. */
  lemma YearEntry(rows: seq<WeatherRow>, month: Month, year: int)
    requires year in YearsOf(rows, month)
    ensures YearlyEntryOf(rows, month, YearlyAverageOf(rows, month, year, YearReadings(rows, month, year)))
  {
    YearsOfHaveReadings(rows, month, year);
  }

  // ---------------------------------------------------------------------------
  // Every counted row in exactly one year

  /** The number of readings of the listed years. */
  function YearCountSum(rows: seq<WeatherRow>, month: Month, years: seq<int>): nat
  {
    if |years| == 0 then 0
    else |YearReadings(rows, month, years[0])| + YearCountSum(rows, month, years[1..])
  }

  /** Adding a row that counts for year `year` adds one reading to the listed
    * years if `year` is listed once, and none if it is not listed. */
  lemma {:induction false} YearCountSumStep(rows: seq<WeatherRow>, month: Month, years: seq<int>)
    requires |rows| > 0
    requires forall i, j :: 0 <= i < j < |years| ==> years[i] < years[j]
    ensures var r := rows[|rows| - 1];
      YearCountSum(rows, month, years) ==
        YearCountSum(rows[..|rows| - 1], month, years) +
          (if Counts(r, month) && RowYear(r) in years then 1 else 0)
  {
    if |years| > 0 {
      var r := rows[|rows| - 1];
      var rest := years[1..];
      YearCountSumStep(rows, month, rest);
      if Counts(r, month) && RowYear(r) == years[0] {
        assert RowYear(r) !in rest by {
          forall k | 0 <= k < |rest| ensures rest[k] != years[0] {
            assert rest[k] == years[k + 1];
          }
        }
      }
      assert Counts(r, month) && RowYear(r) in years ==> RowYear(r) == years[0] || RowYear(r) in rest by {
        if Counts(r, month) && RowYear(r) in years {
          var k :| 0 <= k < |years| && years[k] == RowYear(r);
          if k > 0 { assert rest[k - 1] == years[k]; }
        }
      }
    }
  }

  /** Over distinct years that include every year of the month, the years'
    * readings add up to the month's readings. */
  lemma {:induction false} YearCountsPartition(rows: seq<WeatherRow>, month: Month, years: seq<int>)
    requires forall i, j :: 0 <= i < j < |years| ==> years[i] < years[j]
    requires forall y :: y in YearsOf(rows, month) ==> y in years
    ensures YearCountSum(rows, month, years) == |Readings(rows, month)|
  {
    if |rows| == 0 {
      YearCountSumEmpty(rows, month, years);
    } else {
      var init := rows[..|rows| - 1];
      var r := rows[|rows| - 1];
      assert YearsOf(rows, month) == YearsOf(init, month) + (if Counts(r, month) then {RowYear(r)} else {});
      YearCountsPartition(init, month, years);
      YearCountSumStep(rows, month, years);
    }
  }

  lemma {:induction false} YearCountSumEmpty(rows: seq<WeatherRow>, month: Month, years: seq<int>)
    requires |rows| == 0
    ensures YearCountSum(rows, month, years) == 0
  {
    if |years| > 0 {
      YearCountSumEmpty(rows, month, years[1..]);
    }
  }

  /** The counts of a list of yearly averages added up. */
  function CountTotal(ys: seq<YearlyAverage>): nat
  {
    if |ys| == 0 then 0 else ys[0].count + CountTotal(ys[1..])
  }

  lemma {:induction false} CountTotalOfEntries(rows: seq<WeatherRow>, month: Month, ys: seq<YearlyAverage>)
    requires forall i :: 0 <= i < |ys| ==> YearlyEntryOf(rows, month, ys[i])
    ensures CountTotal(ys) == YearCountSum(rows, month, YearList(ys))
  {
    if |ys| > 0 {
      CountTotalOfEntries(rows, month, ys[1..]);
      assert YearList(ys)[1..] == YearList(ys[1..]);
    }
  }

  /** The counts of a month's yearly averages add up to the month's count:
    * every reading belongs to exactly one year. */
  lemma YearlyCountsAddUp(rows: seq<WeatherRow>, month: Month)
    ensures var s := SummaryOf(rows, month);
      CountTotal(s.yearlyAverages) == s.count
  {
    YearGroupsKeys(rows, month);
    var s := SummaryOf(rows, month);
    assert s.count == |Readings(rows, month)|;
    assert s.yearlyAverages == YearlyAveragesOf(rows, month, YearGroups(rows, month));
    GroupedCountsAddUp(rows, month);
  }

  lemma GroupedCountsAddUp(rows: seq<WeatherRow>, month: Month)
    ensures YearKeys(YearGroups(rows, month))
    ensures CountTotal(YearlyAveragesOf(rows, month, YearGroups(rows, month))) == |Readings(rows, month)|
  {
    GroupedYears(rows, month);
    GroupedEntries(rows, month);
    var ys := YearlyAveragesOf(rows, month, YearGroups(rows, month));
    CountTotalOfEntries(rows, month, ys);
    YearCountsPartition(rows, month, YearList(ys));
  }

  // ---------------------------------------------------------------------------
  // Every counted row in exactly one month

  /** A row the aggregator uses: its mean is present and its date reads as
    * `YYYY-MM-DD`. */
  predicate Dated(row: WeatherRow)
  {
    row.tmean.Some? && ParseIsoDate(row.date).Some?
  }

  function DatedCount(rows: seq<WeatherRow>): nat
  {
    if |rows| == 0 then 0
    else DatedCount(rows[..|rows| - 1]) + (if Dated(rows[|rows| - 1]) then 1 else 0)
  }

  /** The readings of months 1 to `n`, added up. */
  function MonthCountSum(rows: seq<WeatherRow>, n: nat): nat
    requires n <= 12
  {
    if n == 0 then 0 else MonthCountSum(rows, n - 1) + |Readings(rows, n)|
  }

  lemma {:induction false} MonthCountSumStep(rows: seq<WeatherRow>, n: nat)
    requires |rows| > 0 && n <= 12
    ensures var r := rows[|rows| - 1];
      MonthCountSum(rows, n) ==
        MonthCountSum(rows[..|rows| - 1], n) +
          (if Dated(r) && ParseIsoDate(r.date).value.month <= n then 1 else 0)
  {
    if n > 0 {
      MonthCountSumStep(rows, n - 1);
    }
  }

  /** Every row with a mean and a readable date is a reading of exactly one
    * month, so the twelve months' readings add up to those rows. */
  lemma {:induction false} MonthsPartitionRows(rows: seq<WeatherRow>)
    ensures MonthCountSum(rows, 12) == DatedCount(rows)
  {
    if |rows| == 0 {
      MonthCountSumEmpty(rows, 12);
    } else {
      MonthsPartitionRows(rows[..|rows| - 1]);
      MonthCountSumStep(rows, 12);
    }
  }

  lemma {:induction false} MonthCountSumEmpty(rows: seq<WeatherRow>, n: nat)
    requires |rows| == 0 && n <= 12
    ensures MonthCountSum(rows, n) == 0
  {
    if n > 0 {
      MonthCountSumEmpty(rows, n - 1);
    }
  }

  /** The counts of the first `n` summaries added up. */
  function SummaryCountTotal(summaries: seq<MonthSummary>, n: nat): nat
    requires n <= |summaries|
  {
    if n == 0 then 0 else SummaryCountTotal(summaries, n - 1) + summaries[n - 1].count
  }

  lemma ClimatologyCount(rows: seq<WeatherRow>, k: nat)
    requires k < 12
    ensures Climatology(rows)[k].count == |Readings(rows, k + 1)|
  {
    ClimatologyAt(rows, k);
  }

  /** Summaries whose counts are those of months 1, 2, ... add up, over the
    * first `n`, to the readings of months 1 to `n`. */
  lemma {:induction false} CountsUpTo(rows: seq<WeatherRow>, summaries: seq<MonthSummary>, n: nat)
    requires n <= |summaries| && n <= 12
    requires forall k :: 0 <= k < n ==> summaries[k].count == |Readings(rows, k + 1)|
    ensures SummaryCountTotal(summaries, n) == MonthCountSum(rows, n)
  {
    if n > 0 {
      CountsUpTo(rows, summaries, n - 1);
    }
  }

  /** The twelve counts of the climatology add up to the number of rows with a
    * mean and a readable date. */
  lemma ClimatologyCountsAddUp(rows: seq<WeatherRow>)
    ensures SummaryCountTotal(Climatology(rows), 12) == DatedCount(rows)
  {
    var climatology := Climatology(rows);
    forall k | 0 <= k < 12 ensures climatology[k].count == |Readings(rows, k + 1)| {
      ClimatologyCount(rows, k);
    }
    CountsUpTo(rows, climatology, 12);
    MonthsPartitionRows(rows);
  }
}
