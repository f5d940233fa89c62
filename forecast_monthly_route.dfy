/** The monthly-forecast route's aggregation: forecast periods are bucketed by
  * the calendar month they start in, each month with readings gets a live
  * climatology entry, the months without readings are filled from a fixed
  * table of Austin averages, the entries are sorted by month, and each entry
  * becomes a forecast item for the current year. */
module ForecastMonthlyRoute {
  import opened Wrappers
  import opened StatsHelpers
  import opened DateHelpers
  import opened TransformHelpers
  import JsMath

  // ---------------------------------------------------------------------------
  // Forecast periods and the readings they contribute

  /** `period.temperature`: a number, a string, or null/undefined. */
  datatype Temperature = Number(degrees: real) | Text(text: string) | Absent

  /** A forecast period: the calendar month of its `startTime` and its temperature. */
  datatype Period = Period(startMonth: Month, temperature: Temperature)

  /** `period.temperature && period.temperature !== null`: zero, the empty
    * string and null are falsy. */
  predicate TruthyTemperature(temperature: Temperature)
  {
    match temperature
    case Number(degrees) => degrees != 0.0
    case Text(text) => text != ""
    case Absent => false
  }

  /** The Fahrenheit value a period contributes: none for a falsy temperature,
    * the number itself, or `parseFloat` of the text, where `parse` returns
    * `None` for NaN. */
  function Reading(temperature: Temperature, parse: string -> Option<real>): (r: Option<real>)
    ensures r.Some? ==> TruthyTemperature(temperature)
  {
    if !TruthyTemperature(temperature) then None
    else if temperature.Number? then Some(temperature.degrees)
    else parse(temperature.text)
  }

  // ---------------------------------------------------------------------------
  // Bucketing by month

  /** `{ temps: number[], count: number }` */
  datatype RouteBucket = RouteBucket(temps: seq<real>, count: nat)

  /** The shape `monthlyData` keeps: a bucket for each month 1..12, and each
    * bucket's count equal to the number of its temperatures. */
  ghost predicate Buckets(monthlyData: map<int, RouteBucket>)
  {
    && (forall m :: m in monthlyData <==> 1 <= m <= 12)
    && (forall m :: m in monthlyData ==> monthlyData[m].count == |monthlyData[m].temps|)
  }

  /** The readings of the periods that start in `month`, in period order. */
  function MonthTemps(periods: seq<Period>, parse: string -> Option<real>, month: Month): seq<real>
  {
    if periods == [] then []
    else
      var last := periods[|periods| - 1];
      var temps := MonthTemps(periods[..|periods| - 1], parse, month);
      var reading := Reading(last.temperature, parse);
      if last.startMonth == month && reading.Some? then temps + [reading.value] else temps
  }

  /** The initialisation loop and the `periods.forEach` that fills the buckets. */
  method BucketPeriods(periods: seq<Period>, parse: string -> Option<real>) returns (monthlyData: map<int, RouteBucket>)
    ensures Buckets(monthlyData)
    ensures forall m: Month :: monthlyData[m].temps == MonthTemps(periods, parse, m)
  {
    monthlyData := map[];
    for month := 1 to 13
      invariant forall m :: m in monthlyData <==> 1 <= m < month
      invariant forall m :: m in monthlyData ==> monthlyData[m] == RouteBucket([], 0)
    {
      monthlyData := monthlyData[month := RouteBucket([], 0)];
    }
    assert forall m: Month :: MonthTemps(periods[..0], parse, m) == [];
    for i := 0 to |periods|
      invariant Buckets(monthlyData)
      invariant forall m: Month :: monthlyData[m].temps == MonthTemps(periods[..i], parse, m)
    {
      var period := periods[i];
      assert periods[..i + 1][..i] == periods[..i];
      if TruthyTemperature(period.temperature) {
        var month := period.startMonth;
        var tempF := if period.temperature.Number? then Some(period.temperature.degrees) else parse(period.temperature.text);
        if tempF.Some? {
          var bucket := monthlyData[month];
          monthlyData := monthlyData[month := RouteBucket(bucket.temps + [tempF.value], bucket.count + 1)];
        }
      }
    }
    assert periods[..|periods|] == periods;
  }

  // ---------------------------------------------------------------------------
  // Live entries

  /** An entry of the route's `climatology`. */
  datatype ClimatologyEntry = ClimatologyEntry(month: Month, meanTemp: real, maxTemp: real, minTemp: real, count: nat)

  function EntryMonth(entry: ClimatologyEntry): int
  {
    entry.month
  }

  /** The entry pushed for a month with temperatures: their average, maximum
    * and minimum, each rounded to one decimal, and the bucket's count. */
  function LiveEntry(month: Month, bucket: RouteBucket): ClimatologyEntry
    requires bucket.temps != []
  {
    var temps := bucket.temps;
    ClimatologyEntry(
      month,
      JsMath.Round1(Mean(temps).value),
      JsMath.Round1(MaxOf(temps)),
      JsMath.Round1(MinOf(temps)),
      bucket.count)
  }

  /** The live entries of months 1..n, in month order. */
  function LiveEntries(monthlyData: map<int, RouteBucket>, n: nat): seq<ClimatologyEntry>
    requires Buckets(monthlyData) && n <= 12
  {
    if n == 0 then []
    else
      var bucket := monthlyData[n];
      LiveEntries(monthlyData, n - 1) + if bucket.temps != [] then [LiveEntry(n, bucket)] else []
  }

  /** The `Object.entries(monthlyData).forEach` that pushes the live entries;
    * the entries of an object whose keys are the integers 1..12 come in
    * ascending key order. */
  method AddLiveEntries(monthlyData: map<int, RouteBucket>) returns (climatology: seq<ClimatologyEntry>)
    requires Buckets(monthlyData)
    ensures climatology == LiveEntries(monthlyData, 12)
  {
    climatology := [];
    for month := 1 to 13
      invariant climatology == LiveEntries(monthlyData, month - 1)
    {
      var data := monthlyData[month];
      if |data.temps| > 0 {
        var avgTemp := Sum(data.temps) / |data.temps| as real;
        climatology := climatology + [ClimatologyEntry(
          month,
          JsMath.Round1(avgTemp),
          JsMath.Round1(MaxOf(data.temps)),
          JsMath.Round1(MinOf(data.temps)),
          data.count)];
      }
    }
  }

  // ---------------------------------------------------------------------------
  // The fallback table and the merge

  datatype FallbackRow = FallbackRow(month: Month, meanTemp: real, maxTemp: real, minTemp: real)

  /** The built-in monthly averages for Austin, TX. */
  function FallbackClimatology(): seq<FallbackRow> { [
    FallbackRow(1, 52.3, 62.0, 42.0),
    FallbackRow(2, 56.8, 67.0, 46.0),
    FallbackRow(3, 64.2, 75.0, 53.0),
    FallbackRow(4, 71.6, 82.0, 61.0),
    FallbackRow(5, 78.8, 89.0, 68.0),
    FallbackRow(6, 85.2, 95.0, 75.0),
    FallbackRow(7, 88.1, 98.0, 78.0),
    FallbackRow(8, 88.5, 98.0, 78.0),
    FallbackRow(9, 82.4, 92.0, 72.0),
    FallbackRow(10, 72.8, 83.0, 62.0),
    FallbackRow(11, 62.1, 72.0, 52.0),
    FallbackRow(12, 54.2, 64.0, 44.0)
  ]
  }

  /** The table lists each month once, in order, with its minimum below its
    * mean and its mean below its maximum. */
  lemma FallbackTableShape()
    ensures |FallbackClimatology()| == 12
    ensures forall i :: 0 <= i < 12 ==> FallbackClimatology()[i].month == i + 1
    ensures forall i :: 0 <= i < 12 ==>
      FallbackClimatology()[i].minTemp < FallbackClimatology()[i].meanTemp < FallbackClimatology()[i].maxTemp
  {
  }

  /** `{ ...fallback, count: 1 }` */
  function FallbackEntry(row: FallbackRow): ClimatologyEntry
  {
    ClimatologyEntry(row.month, row.meanTemp, row.maxTemp, row.minTemp, 1)
  }

  /** `new Set(climatology.map(c => c.month))` */
  function MonthsOf(entries: seq<ClimatologyEntry>): set<int>
  {
    set e | e in entries :: e.month
  }

  /** The fallback entries of the first n table rows whose month is not in
    * `existing`, in table order. */
  function FallbackEntries(existing: set<int>, n: nat): seq<ClimatologyEntry>
    requires n <= |FallbackClimatology()|
  {
    if n == 0 then []
    else
      var row := FallbackClimatology()[n - 1];
      FallbackEntries(existing, n - 1) + if row.month !in existing then [FallbackEntry(row)] else []
  }

  /** The `fallbackClimatology.forEach` that appends the missing months. */
  method AddFallbackEntries(climatology: seq<ClimatologyEntry>) returns (merged: seq<ClimatologyEntry>)
    ensures merged == climatology + FallbackEntries(MonthsOf(climatology), |FallbackClimatology()|)
  {
    var existingMonths := MonthsOf(climatology);
    merged := climatology;
    for i := 0 to |FallbackClimatology()|
      invariant merged == climatology + FallbackEntries(existingMonths, i)
    {
      var fallback := FallbackClimatology()[i];
      if fallback.month !in existingMonths {
        merged := merged + [FallbackEntry(fallback)];
      }
    }
  }

  // ---------------------------------------------------------------------------
  // The merge covers every month once

  /** The entry a month ends up with: the live entry when its bucket has
    * temperatures, the fallback row with count 1 otherwise. */
  function MergedEntry(monthlyData: map<int, RouteBucket>, month: Month): ClimatologyEntry
    requires Buckets(monthlyData)
  {
    var bucket := monthlyData[month];
    if bucket.temps != [] then LiveEntry(month, bucket) else FallbackEntry(FallbackClimatology()[month - 1])
  }

  /** The merged entries of months 1..n, in month order. */
  function MergedUpTo(monthlyData: map<int, RouteBucket>, n: nat): (r: seq<ClimatologyEntry>)
    requires Buckets(monthlyData) && n <= 12
    ensures |r| == n
  {
    if n == 0 then [] else MergedUpTo(monthlyData, n - 1) + [MergedEntry(monthlyData, n)]
  }

  lemma {:induction false} MergedUpToAt(monthlyData: map<int, RouteBucket>, n: nat, i: nat)
    requires Buckets(monthlyData) && i < n <= 12
    ensures MergedUpTo(monthlyData, n)[i] == MergedEntry(monthlyData, i + 1)
  {
    if i < n - 1 {
      MergedUpToAt(monthlyData, n - 1, i);
    }
  }

  lemma MonthsOfAppend(a: seq<ClimatologyEntry>, b: seq<ClimatologyEntry>)
    ensures MonthsOf(a + b) == MonthsOf(a) + MonthsOf(b)
  {
    assert forall e :: e in a + b <==> e in a || e in b;
  }

  /** A month is among the live entries' months exactly when it is one of
    * months 1..n and its bucket has temperatures. */
  lemma {:induction false} LiveMonths(monthlyData: map<int, RouteBucket>, n: nat)
    requires Buckets(monthlyData) && n <= 12
    ensures forall m :: m in MonthsOf(LiveEntries(monthlyData, n)) <==> 1 <= m <= n && monthlyData[m].temps != []
  {
    if n == 0 {
      assert MonthsOf([]) == {};
    } else {
      LiveMonths(monthlyData, n - 1);
      var rest := LiveEntries(monthlyData, n - 1);
      var tail := if monthlyData[n].temps != [] then [LiveEntry(n, monthlyData[n])] else [];
      MonthsOfAppend(rest, tail);
      assert MonthsOf(tail) == if monthlyData[n].temps != [] then {n} else {};
    }
  }

  /** The live entries of months 1..n and the fallback entries of the table's
    * first n rows together are the merged entries of months 1..n. */
  lemma {:induction false} MergeCoversMonths(monthlyData: map<int, RouteBucket>, existing: set<int>, n: nat)
    requires Buckets(monthlyData) && n <= 12
    requires forall m :: 1 <= m <= 12 ==> (m in existing <==> monthlyData[m].temps != [])
    ensures multiset(LiveEntries(monthlyData, n)) + multiset(FallbackEntries(existing, n))
      == multiset(MergedUpTo(monthlyData, n))
  {
    if n > 0 {
      MergeCoversMonths(monthlyData, existing, n - 1);
      FallbackTableShape();
      var row := FallbackClimatology()[n - 1];
      assert row.month == n;
      var live := if monthlyData[n].temps != [] then [LiveEntry(n, monthlyData[n])] else [];
      var fallback := if row.month !in existing then [FallbackEntry(row)] else [];
      assert LiveEntries(monthlyData, n) == LiveEntries(monthlyData, n - 1) + live;
      assert FallbackEntries(existing, n) == FallbackEntries(existing, n - 1) + fallback;
      assert live + fallback == [MergedEntry(monthlyData, n)];
    }
  }

  ghost predicate MonthsNonDecreasing(a: seq<ClimatologyEntry>)
  {
    forall i, j :: 0 <= i <= j < |a| ==> a[i].month <= a[j].month
  }

  ghost predicate MonthsIncreasing(b: seq<ClimatologyEntry>)
  {
    forall i, j :: 0 <= i < j < |b| ==> b[i].month < b[j].month
  }

  lemma PrefixesOrdered(a: seq<ClimatologyEntry>, b: seq<ClimatologyEntry>, n: nat)
    requires MonthsNonDecreasing(a) && MonthsIncreasing(b) && n <= |a| && n <= |b|
    ensures MonthsNonDecreasing(a[..n]) && MonthsIncreasing(b[..n])
  {
    assert forall i :: 0 <= i < n ==> a[..n][i] == a[i] && b[..n][i] == b[i];
  }

  /** The last entries agree: both carry the largest month present. */
  lemma LastEntriesAgree(a: seq<ClimatologyEntry>, b: seq<ClimatologyEntry>)
    requires multiset(a) == multiset(b) && |a| == |b| > 0
    requires MonthsNonDecreasing(a) && MonthsIncreasing(b)
    ensures a[|a| - 1] == b[|b| - 1]
  {
    var n := |b| - 1;
    var x, y := a[n], b[n];
    assert x in multiset(b) && y in multiset(a);
    var j :| 0 <= j < |a| && a[j] == y;
    var k :| 0 <= k < |b| && b[k] == x;
    assert k == n;
  }

  lemma DropLastSameElements(a: seq<ClimatologyEntry>, b: seq<ClimatologyEntry>)
    requires multiset(a) == multiset(b) && |a| == |b| > 0 && a[|a| - 1] == b[|b| - 1]
    ensures multiset(a[..|a| - 1]) == multiset(b[..|b| - 1])
  {
    var n := |a| - 1;
    assert a == a[..n] + [a[n]];
    assert b == b[..n] + [b[n]];
    var ma, mb := multiset(a[..n]), multiset(b[..n]);
    assert multiset(a) == ma + multiset{a[n]};
    assert multiset(b) == mb + multiset{b[n]};
    forall e
      ensures ma[e] == mb[e]
    {
      assert multiset(a)[e] == ma[e] + multiset{a[n]}[e];
      assert multiset(b)[e] == mb[e] + multiset{b[n]}[e];
    }
    assert ma == mb;
  }

  /** Two lists with the same elements, the first sorted by month and the
    * second strictly ascending by month, are the same list. */
  lemma {:induction false} SortedByMonthUnique(a: seq<ClimatologyEntry>, b: seq<ClimatologyEntry>)
    requires multiset(a) == multiset(b)
    requires MonthsNonDecreasing(a) && MonthsIncreasing(b)
    ensures a == b
  {
    assert |a| == |multiset(a)| == |multiset(b)| == |b|;
    if |b| > 0 {
      var n := |b| - 1;
      LastEntriesAgree(a, b);
      PrefixesOrdered(a, b, n);
      DropLastSameElements(a, b);
      SortedByMonthUnique(a[..n], b[..n]);
    }
  }

  lemma SortedMonthsNonDecreasing(a: seq<ClimatologyEntry>)
    requires SortedByKey(a, EntryMonth)
    ensures MonthsNonDecreasing(a)
  {
    forall i, j | 0 <= i <= j < |a|
      ensures a[i].month <= a[j].month
    {
      SortedByKeyPairs(a, EntryMonth, i, j);
    }
  }

  lemma MergedMonthsIncreasing(monthlyData: map<int, RouteBucket>)
    requires Buckets(monthlyData)
    ensures MonthsIncreasing(MergedUpTo(monthlyData, 12))
  {
    var expected := MergedUpTo(monthlyData, 12);
    forall i, j | 0 <= i < j < 12
      ensures expected[i].month < expected[j].month
    {
      MergedUpToAt(monthlyData, 12, i);
      MergedUpToAt(monthlyData, 12, j);
    }
  }

  /** The bucketing, the live entries, the fallback rows and the sort by month. */
  method MonthlyClimatology(periods: seq<Period>, parse: string -> Option<real>) returns (climatology: seq<ClimatologyEntry>)
    ensures climatology == RouteClimatology(periods, parse)
  {
    var monthlyData := BucketPeriods(periods, parse);
    climatology := AddLiveEntries(monthlyData);
    var existing := MonthsOf(climatology);
    climatology := AddFallbackEntries(climatology);
    climatology := SortByKey(climatology, EntryMonth);
    SortedMergeInMonthOrder(monthlyData, existing, climatology);
    MergedIsRouteClimatology(periods, parse, monthlyData);
  }

  /** Sorting the live and fallback entries by month gives the merged entry of
    * each month in turn. */
  lemma SortedMergeInMonthOrder(monthlyData: map<int, RouteBucket>, existing: set<int>, sorted: seq<ClimatologyEntry>)
    requires Buckets(monthlyData) && existing == MonthsOf(LiveEntries(monthlyData, 12))
    requires sorted == SortByKey(LiveEntries(monthlyData, 12) + FallbackEntries(existing, |FallbackClimatology()|), EntryMonth)
    ensures sorted == MergedUpTo(monthlyData, 12)
  {
    LiveMonths(monthlyData, 12);
    MergeCoversMonths(monthlyData, existing, 12);
    SortedMonthsNonDecreasing(sorted);
    MergedMonthsIncreasing(monthlyData);
    SortedByMonthUnique(sorted, MergedUpTo(monthlyData, 12));
  }

  /** With the buckets the periods fill, the merged entries are the route's
    * climatology. */
  lemma MergedIsRouteClimatology(periods: seq<Period>, parse: string -> Option<real>, monthlyData: map<int, RouteBucket>)
    requires Buckets(monthlyData)
    requires forall m: Month :: monthlyData[m].temps == MonthTemps(periods, parse, m)
    ensures MergedUpTo(monthlyData, 12) == RouteClimatology(periods, parse)
  {
    forall i | 0 <= i < 12
      ensures MergedUpTo(monthlyData, 12)[i] == RouteClimatology(periods, parse)[i]
    {
      var month: Month := i + 1;
      MergedUpToAt(monthlyData, 12, i);
      assert monthlyData[month] == RouteBucket(MonthTemps(periods, parse, month), |MonthTemps(periods, parse, month)|);
    }
  }

  // ---------------------------------------------------------------------------
  // What the route promises about its climatology

  /** The specification of the merged, sorted climatology: one entry per month
    * in calendar order, live where the periods have readings for the month,
    * from the fallback table otherwise. */
  function RouteClimatology(periods: seq<Period>, parse: string -> Option<real>): (r: seq<ClimatologyEntry>)
    ensures |r| == 12
  {
    seq(12, i requires 0 <= i < 12 => RouteEntry(periods, parse, i + 1))
  }

  function RouteEntry(periods: seq<Period>, parse: string -> Option<real>, month: Month): ClimatologyEntry
  {
    var temps := MonthTemps(periods, parse, month);
    if temps != [] then LiveEntry(month, RouteBucket(temps, |temps|))
    else FallbackEntry(FallbackClimatology()[month - 1])
  }

  /** Every month appears exactly once, in ascending order, and every entry has
    * a positive count. */
  lemma RouteClimatologyMonths(periods: seq<Period>, parse: string -> Option<real>)
    ensures var r := RouteClimatology(periods, parse);
      && (forall i :: 0 <= i < 12 ==> r[i].month == i + 1 && r[i].count >= 1)
      && (forall i, j :: 0 <= i < j < 12 ==> r[i].month < r[j].month)
  {
    FallbackTableShape();
  }

  /** A month with readings gets the live entry: the count of its readings and
    * their mean, maximum and minimum, each within 0.05 of the exact value and
    * in the order minimum, mean, maximum. */
  lemma LiveEntryPreferred(periods: seq<Period>, parse: string -> Option<real>, month: Month)
    requires MonthTemps(periods, parse, month) != []
    ensures var temps := MonthTemps(periods, parse, month);
      var e := RouteClimatology(periods, parse)[month - 1];
      && e.count == |temps|
      && Mean(temps).Some? && Mean(temps).value - 0.05 < e.meanTemp <= Mean(temps).value + 0.05
      && MaxOf(temps) - 0.05 < e.maxTemp <= MaxOf(temps) + 0.05
      && MinOf(temps) - 0.05 < e.minTemp <= MinOf(temps) + 0.05
      && e.minTemp <= e.meanTemp <= e.maxTemp
  {
    var temps := MonthTemps(periods, parse, month);
    LiveEntryBounds(month, temps);
    assert RouteClimatology(periods, parse)[month - 1] == RouteEntry(periods, parse, month);
  }

  lemma LiveEntryBounds(month: Month, temps: seq<real>)
    requires temps != []
    ensures var e := LiveEntry(month, RouteBucket(temps, |temps|));
      && e.count == |temps|
      && Mean(temps).Some? && Mean(temps).value - 0.05 < e.meanTemp <= Mean(temps).value + 0.05
      && MaxOf(temps) - 0.05 < e.maxTemp <= MaxOf(temps) + 0.05
      && MinOf(temps) - 0.05 < e.minTemp <= MinOf(temps) + 0.05
      && e.minTemp <= e.meanTemp <= e.maxTemp
  {
    MeanWithinRange(temps);
    Round1Monotone(MinOf(temps), Mean(temps).value);
    Round1Monotone(Mean(temps).value, MaxOf(temps));
  }

  /** A month without readings gets the table's row with count 1. */
  lemma FallbackForMissingMonth(periods: seq<Period>, parse: string -> Option<real>, month: Month)
    requires MonthTemps(periods, parse, month) == []
    ensures var e := RouteClimatology(periods, parse)[month - 1];
      var row := FallbackClimatology()[month - 1];
      e == ClimatologyEntry(month, row.meanTemp, row.maxTemp, row.minTemp, 1)
  {
    FallbackTableShape();
  }

  /** Rounding to one decimal keeps the order of values. */
  lemma Round1Monotone(a: real, b: real)
    requires a <= b
    ensures JsMath.Round1(a) <= JsMath.Round1(b)
  {
    assert JsMath.Round(a * 10.0) <= JsMath.Round(b * 10.0);
  }

  // ---------------------------------------------------------------------------
  // Every reading lands in exactly one bucket

  /** The number of periods that contribute a reading. */
  function ReadingCount(periods: seq<Period>, parse: string -> Option<real>): nat
  {
    if periods == [] then 0
    else
      ReadingCount(periods[..|periods| - 1], parse)
        + if Reading(periods[|periods| - 1].temperature, parse).Some? then 1 else 0
  }

  /** The number of readings in the buckets of months 1..n. */
  function BucketedUpTo(periods: seq<Period>, parse: string -> Option<real>, n: nat): nat
    requires n <= 12
  {
    if n == 0 then 0 else BucketedUpTo(periods, parse, n - 1) + |MonthTemps(periods, parse, n)|
  }

  lemma {:induction false} BucketedUpToStep(periods: seq<Period>, parse: string -> Option<real>, n: nat)
    requires periods != [] && n <= 12
    ensures var last := periods[|periods| - 1];
      BucketedUpTo(periods, parse, n) == BucketedUpTo(periods[..|periods| - 1], parse, n)
        + if Reading(last.temperature, parse).Some? && last.startMonth <= n then 1 else 0
  {
    if n > 0 {
      BucketedUpToStep(periods, parse, n - 1);
    }
  }

  /** The bucket sizes add up to the number of periods with a reading: each
    * such period is counted in exactly one month. */
  lemma {:induction false} BucketsPartitionReadings(periods: seq<Period>, parse: string -> Option<real>)
    ensures BucketedUpTo(periods, parse, 12) == ReadingCount(periods, parse)
  {
    if periods == [] {
      assert BucketedUpTo(periods, parse, 12) == 0 by {
        BucketedUpToEmpty(periods, parse, 12);
      }
    } else {
      BucketedUpToStep(periods, parse, 12);
      BucketsPartitionReadings(periods[..|periods| - 1], parse);
    }
  }

  lemma {:induction false} BucketedUpToEmpty(periods: seq<Period>, parse: string -> Option<real>, n: nat)
    requires periods == [] && n <= 12
    ensures BucketedUpTo(periods, parse, n) == 0
  {
    if n > 0 {
      BucketedUpToEmpty(periods, parse, n - 1);
    }
  }

  /** Falsy temperatures (zero, the empty string, null) and text that parses to
    * NaN contribute nothing; any other number or parsed text does. */
  lemma SkippedTemperatures(parse: string -> Option<real>, text: string, degrees: real)
    ensures Reading(Number(0.0), parse).None? && Reading(Text(""), parse).None? && Reading(Absent, parse).None?
    ensures degrees != 0.0 ==> Reading(Number(degrees), parse) == Some(degrees)
    ensures text != "" ==> Reading(Text(text), parse) == parse(text)
  {
  }

  // ---------------------------------------------------------------------------
  // The forecast items

  /** `climatology.map(...)`: the item for each entry, labelled with its month
    * and `year` (today's year in the city's time zone), its forecast the
    * entry's mean. */
  function ForecastNext12(climatology: seq<ClimatologyEntry>, year: int): seq<ForecastItem>
  {
    seq(|climatology|, i requires 0 <= i < |climatology| =>
      var entry := climatology[i];
      ForecastItem(MonthYearLabel(entry.month, year), entry.month, year, Some(entry.meanTemp)))
  }

  /** The route's forecast has twelve items, January to December of `year`,
    * each with a forecast equal to its month's climatology mean and a label
    * no other item shares. */
  lemma RouteForecastItems(periods: seq<Period>, parse: string -> Option<real>, year: int)
    ensures var climatology := RouteClimatology(periods, parse);
      var items := ForecastNext12(climatology, year);
      && |items| == 12
      && (forall i :: 0 <= i < 12 ==>
            items[i].month == i + 1 && items[i].year == year
            && items[i].forecastMean == Some(climatology[i].meanTemp))
      && (forall i, j :: 0 <= i < j < 12 ==> items[i].labelText != items[j].labelText)
  {
    RouteClimatologyMonths(periods, parse);
    var items := ForecastNext12(RouteClimatology(periods, parse), year);
    forall i, j | 0 <= i < j < 12
      ensures items[i].labelText != items[j].labelText
    {
      if items[i].labelText == items[j].labelText {
        MonthYearLabelInjective(items[i].month, year, items[j].month, year);
      }
    }
  }
}
