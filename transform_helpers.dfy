/** The climatology aggregator and the twelve-month forecast built on it:
  * daily rows are grouped by calendar month and by (month, year), each month is
  * summarised with the statistics primitives, and a forecast walks twelve
  * months on from a date. */
module TransformHelpers {
  import opened Wrappers
  import opened StatsHelpers
  import opened DateHelpers
  import JsMath

  /** One day of the historical series; `tmean` is the daily mean in Fahrenheit. */
  datatype WeatherRow = WeatherRow(date: string, tmean: Option<real>)

  datatype DailyTemperature = DailyTemperature(date: string, temperature: real)

  datatype YearlyAverage = YearlyAverage(
    year: int, average: real, count: nat, dailyTemperatures: seq<DailyTemperature>)

  /** The summary of one calendar month. `variance` stands where the source
    * carries the standard deviation, its square root. */
  datatype MonthSummary = MonthSummary(
    month: Month,
    mean: Option<real>,
    count: nat,
    min: Option<real>,
    max: Option<real>,
    p25: Option<real>,
    p50: Option<real>,
    p75: Option<real>,
    // the source's `std` squared: the population variance, without `Math.sqrt`
    variance: Option<real>,
    histogram: seq<HistogramBin>,
    yearlyAverages: seq<YearlyAverage>)

  /** `label` is a reserved word in Dafny, so the label field is `labelText`. */
  datatype ForecastItem = ForecastItem(labelText: string, month: Month, year: int, forecastMean: Option<real>)

  // ---------------------------------------------------------------------------
  // Stable sorting by an integer key (`Array.prototype.sort` with a numeric
  // comparator `(a, b) => key(a) - key(b)`).

  ghost predicate SortedByKey<T>(s: seq<T>, key: T -> int)
  {
    forall i :: 0 <= i < |s| - 1 ==> key(s[i]) <= key(s[i + 1])
  }

  /** Inserts `x` after every element whose key is not above its own. */
  function InsertByKey<T(==)>(x: T, s: seq<T>, key: T -> int): (r: seq<T>)
    requires SortedByKey(s, key)
    ensures |r| == |s| + 1
    ensures multiset(r) == multiset(s) + multiset{x}
    ensures r[|r| - 1] == x || (|s| > 0 && r[|r| - 1] == s[|s| - 1])
    ensures SortedByKey(r, key)
  {
    if |s| == 0 || key(s[|s| - 1]) <= key(x) then s + [x]
    else
      var init := s[..|s| - 1];
      assert s == init + [s[|s| - 1]];
      InsertByKey(x, init, key) + [s[|s| - 1]]
  }

  function SortByKey<T(==)>(s: seq<T>, key: T -> int): (r: seq<T>)
    ensures |r| == |s|
    ensures multiset(r) == multiset(s)
    ensures SortedByKey(r, key)
  {
    if |s| == 0 then []
    else
      var init := s[..|s| - 1];
      assert s == init + [s[|s| - 1]];
      InsertByKey(s[|s| - 1], SortByKey(init, key), key)
  }

  /** The elements of `s` whose key is `k`, in their order in `s`. */
  function WithKey<T>(s: seq<T>, key: T -> int, k: int): seq<T>
  {
    if |s| == 0 then []
    else WithKey(s[..|s| - 1], key, k) + (if key(s[|s| - 1]) == k then [s[|s| - 1]] else [])
  }

  lemma WithKeyAppend<T>(s: seq<T>, x: T, key: T -> int, k: int)
    ensures WithKey(s + [x], key, k) == WithKey(s, key, k) + (if key(x) == k then [x] else [])
  {
    assert (s + [x])[..|s|] == s;
  }

  /** Inserting keeps every key's elements in order, the new one after the
    * others with its key. */
  lemma {:induction false} InsertByKeyStable<T>(x: T, s: seq<T>, key: T -> int, k: int)
    requires SortedByKey(s, key)
    ensures WithKey(InsertByKey(x, s, key), key, k) == WithKey(s, key, k) + (if key(x) == k then [x] else [])
  {
    if |s| == 0 || key(s[|s| - 1]) <= key(x) {
      WithKeyAppend(s, x, key, k);
    } else {
      var init, last := s[..|s| - 1], s[|s| - 1];
      assert s == init + [last];
      assert SortedByKey(init, key);
      InsertByKeyStable(x, init, key, k);
      WithKeyAppend(InsertByKey(x, init, key), last, key, k);
      WithKeyAppend(init, last, key, k);
    }
  }

  /** The sort is stable: for every key, the elements with that key keep their
    * input order, as `Array.prototype.sort` guarantees for a comparator that
    * returns 0. */
  lemma {:induction false} SortByKeyStable<T>(s: seq<T>, key: T -> int, k: int)
    ensures WithKey(SortByKey(s, key), key, k) == WithKey(s, key, k)
  {
    if |s| > 0 {
      var init, last := s[..|s| - 1], s[|s| - 1];
      assert s == init + [last];
      SortByKeyStable(init, key, k);
      InsertByKeyStable(last, SortByKey(init, key), key, k);
      WithKeyAppend(init, last, key, k);
    }
  }

  /** Sorting a list already in key order leaves it as it is. */
  lemma {:induction false} SortByKeyOfSorted<T>(s: seq<T>, key: T -> int)
    requires SortedByKey(s, key)
    ensures SortByKey(s, key) == s
  {
    if |s| > 0 {
      var init := s[..|s| - 1];
      assert SortedByKey(init, key);
      SortByKeyOfSorted(init, key);
    }
  }

  // ---------------------------------------------------------------------------
  // `Object.entries` lists the array-index keys of an object (0 up to 2^32 - 2)
  // in ascending numeric order.

  const ArrayIndexLimit: int := 0x1_0000_0000 - 1

  /** The array-index keys from `lo` up, as `Object.entries` lists them: the
    * specification, which walks every candidate index in turn. */
  ghost function KeysFrom(keys: set<int>, lo: int): (r: seq<int>)
    ensures forall x :: x in r <==> x in keys && lo <= x < ArrayIndexLimit
    ensures forall i, j :: 0 <= i < j < |r| ==> r[i] < r[j]
    decreases ArrayIndexLimit - lo
  {
    if lo >= ArrayIndexLimit then []
    else
      var rest := KeysFrom(keys, lo + 1);
      var r := (if lo in keys then [lo] else []) + rest;
      assert forall x :: x in rest ==> lo < x;
      assert forall i, j :: 0 <= i < j < |r| ==> r[i] < r[j] by {
        forall i, j | 0 <= i < j < |r| ensures r[i] < r[j] {
          if lo in keys && i == 0 {
            assert r[j] == rest[j - 1] && r[j] in rest;
          }
        }
      }
      r
  }

  /** The least of a non-empty set of keys. */
  function LeastKey(keys: set<int>): (m: int)
    requires keys != {}
    ensures m in keys && forall x :: x in keys ==> m <= x
  {
    LeastKeyExists(keys);
    var m :| m in keys && forall x :: x in keys ==> m <= x;
    m
  }

  lemma {:induction false} LeastKeyExists(keys: set<int>)
    requires keys != {}
    ensures exists m :: m in keys && forall x :: x in keys ==> m <= x
    decreases |keys|
  {
    if forall x :: x !in keys {
      assert false;
    }
    var k :| k in keys;
    var rest := keys - {k};
    if rest == {} {
      forall x | x in keys ensures k <= x {
        assert x !in rest;
      }
    } else {
      LeastKeyExists(rest);
      var m :| m in rest && forall x :: x in rest ==> m <= x;
      var least := if k < m then k else m;
      forall x | x in keys ensures least <= x {
        if x != k {
          assert x in rest;
        }
      }
      assert least in keys;
    }
  }

  /** The keys of a finite set in ascending order, listed by taking the least
    * remaining key until none is left. */
  function AscendingKeys(keys: set<int>): (r: seq<int>)
    ensures forall x :: x in r <==> x in keys
    ensures forall i, j :: 0 <= i < j < |r| ==> r[i] < r[j]
    decreases |keys|
  {
    if keys == {} then []
    else
      var m := LeastKey(keys);
      var rest := AscendingKeys(keys - {m});
      var r := [m] + rest;
      assert forall i, j :: 0 <= i < j < |r| ==> r[i] < r[j] by {
        forall i, j | 0 <= i < j < |r| ensures r[i] < r[j] {
          if i == 0 {
            assert r[j] == rest[j - 1] && r[j] in rest;
          }
        }
      }
      r
  }

  /** The keys of an integer-keyed object in `Object.entries` order. */
  function IndexKeys(keys: set<int>): (r: seq<int>)
    requires forall k :: k in keys ==> 0 <= k < ArrayIndexLimit
    ensures forall x :: x in r <==> x in keys
    ensures forall i, j :: 0 <= i < j < |r| ==> r[i] < r[j]
  {
    AscendingKeys(keys)
  }

  /** Members of a strictly ascending list after its first. */
  lemma TailMembers(a: seq<int>)
    requires |a| > 0 && forall i, j :: 0 <= i < j < |a| ==> a[i] < a[j]
    ensures forall x :: x in a[1..] <==> x in a && x != a[0]
  {
    forall x | x in a && x != a[0] ensures x in a[1..] {
      var k :| 0 <= k < |a| && a[k] == x;
      assert a[1..][k - 1] == x;
    }
  }

  lemma SameMembersEmpty(a: seq<int>, b: seq<int>)
    requires forall x :: x in a <==> x in b
    ensures |a| == 0 <==> |b| == 0
  {
    if |a| > 0 {
      var x := a[0];
      assert x in a;
      assert x in b;
    }
    if |b| > 0 {
      var x := b[0];
      assert x in b;
      assert x in a;
    }
  }

  /** Two strictly ascending lists with the same members are the same list. */
  lemma {:induction false} AscendingUnique(a: seq<int>, b: seq<int>)
    requires forall i, j :: 0 <= i < j < |a| ==> a[i] < a[j]
    requires forall i, j :: 0 <= i < j < |b| ==> b[i] < b[j]
    requires forall x :: x in a <==> x in b
    ensures a == b
  {
    SameMembersEmpty(a, b);
    if |a| > 0 {
      assert a[0] in b && b[0] in a;
      var j :| 0 <= j < |b| && b[j] == a[0];
      var i :| 0 <= i < |a| && a[i] == b[0];
      TailMembers(a);
      TailMembers(b);
      AscendingUnique(a[1..], b[1..]);
      assert a == [a[0]] + a[1..] && b == [b[0]] + b[1..];
    }
  }

  /** Listing the least key first gives exactly the specified order. */
  lemma IndexKeysInOrder(keys: set<int>)
    requires forall k :: k in keys ==> 0 <= k < ArrayIndexLimit
    ensures IndexKeys(keys) == KeysFrom(keys, 0)
  {
    AscendingUnique(IndexKeys(keys), KeysFrom(keys, 0));
  }

  // ---------------------------------------------------------------------------
  // Which rows feed which month and year. The month and year of a row are read
  // from its `YYYY-MM-DD` text.

  /** A row contributes to a month when its mean is present and its date, read
    * as `YYYY-MM-DD`, falls in that month. */
  predicate Counts(row: WeatherRow, month: Month)
  {
    row.tmean.Some? && ParseIsoDate(row.date).Some? && ParseIsoDate(row.date).value.month == month
  }

  function RowYear(row: WeatherRow): int
    requires ParseIsoDate(row.date).Some?
  {
    ParseIsoDate(row.date).value.year
  }

  predicate CountsIn(row: WeatherRow, month: Month, year: int)
  {
    Counts(row, month) && RowYear(row) == year
  }

  /** The month's temperatures, in row order. */
  function Readings(rows: seq<WeatherRow>, month: Month): seq<real>
  {
    if |rows| == 0 then []
    else
      var r := rows[|rows| - 1];
      Readings(rows[..|rows| - 1], month) + (if Counts(r, month) then [r.tmean.value] else [])
  }

  /** The temperatures of one month of one year, in row order. */
  function YearReadings(rows: seq<WeatherRow>, month: Month, year: int): seq<real>
  {
    if |rows| == 0 then []
    else
      var r := rows[|rows| - 1];
      YearReadings(rows[..|rows| - 1], month, year) + (if CountsIn(r, month, year) then [r.tmean.value] else [])
  }

  /** The years in which the month has at least one reading. */
  function YearsOf(rows: seq<WeatherRow>, month: Month): set<int>
  {
    if |rows| == 0 then {}
    else
      var r := rows[|rows| - 1];
      YearsOf(rows[..|rows| - 1], month) + (if Counts(r, month) then {RowYear(r)} else {})
  }

  /** The month-year's rows as dated readings, in row order (the filter and map
    * of the per-year aggregation). */
  function DailyReadings(rows: seq<WeatherRow>, month: Month, year: int): (r: seq<DailyTemperature>)
    ensures |r| == |YearReadings(rows, month, year)|
  {
    if |rows| == 0 then []
    else
      var row := rows[|rows| - 1];
      DailyReadings(rows[..|rows| - 1], month, year) +
        (if CountsIn(row, month, year) then [DailyTemperature(row.date, row.tmean.value)] else [])
  }

  /** The per-year groups of a month, as a dictionary from year to readings. */
  ghost function YearGroups(rows: seq<WeatherRow>, month: Month): map<int, seq<real>>
  {
    map y | y in YearsOf(rows, month) :: YearReadings(rows, month, y)
  }

  lemma {:induction false} YearsOfHaveReadings(rows: seq<WeatherRow>, month: Month, year: int)
    ensures year in YearsOf(rows, month) <==> YearReadings(rows, month, year) != []
  {
    if |rows| > 0 {
      YearsOfHaveReadings(rows[..|rows| - 1], month, year);
    }
  }

  /** A month with a reading has a year with a reading. */
  lemma {:induction false} ReadingsHaveYear(rows: seq<WeatherRow>, month: Month) returns (year: int)
    requires Readings(rows, month) != []
    ensures year in YearsOf(rows, month)
  {
    var r := rows[|rows| - 1];
    if Counts(r, month) {
      year := RowYear(r);
    } else {
      year := ReadingsHaveYear(rows[..|rows| - 1], month);
    }
  }

  lemma SplitLast(rows: seq<WeatherRow>, r: WeatherRow)
    ensures (rows + [r])[..|rows|] == rows && (rows + [r])[|rows|] == r
  {
  }

  lemma YearReadingsStep(rows: seq<WeatherRow>, r: WeatherRow, month: Month, year: int)
    ensures YearReadings(rows + [r], month, year) ==
      YearReadings(rows, month, year) + (if CountsIn(r, month, year) then [r.tmean.value] else [])
    ensures YearsOf(rows + [r], month) == YearsOf(rows, month) + (if Counts(r, month) then {RowYear(r)} else {})
  {
    SplitLast(rows, r);
  }

  lemma YearGroupsStep(rows: seq<WeatherRow>, r: WeatherRow, month: Month)
    ensures YearGroups(rows + [r], month) ==
      if Counts(r, month) then
        YearGroups(rows, month)[RowYear(r) := YearBucket(YearGroups(rows, month), RowYear(r)) + [r.tmean.value]]
      else YearGroups(rows, month)
  {
    var before, after := YearGroups(rows, month), YearGroups(rows + [r], month);
    forall y ensures YearReadings(rows + [r], month, y) ==
      YearReadings(rows, month, y) + (if CountsIn(r, month, y) then [r.tmean.value] else [])
    {
      YearReadingsStep(rows, r, month, y);
    }
    YearReadingsStep(rows, r, month, 0);
    if Counts(r, month) {
      var y := RowYear(r);
      YearsOfHaveReadings(rows, month, y);
      var expected := before[y := YearBucket(before, y) + [r.tmean.value]];
      assert after.Keys == expected.Keys;
      forall z | z in after ensures after[z] == expected[z] {
        if z != y {
          assert !CountsIn(r, month, z);
        }
      }
    } else {
      assert after.Keys == before.Keys;
      forall z | z in after ensures after[z] == before[z] {
        assert !CountsIn(r, month, z);
      }
    }
  }

  // ---------------------------------------------------------------------------
  // The dictionaries the aggregator fills.

  /** `monthlyData[month] || []` */
  function MonthBucket(monthlyData: map<Month, seq<real>>, month: Month): seq<real>
  {
    if month in monthlyData then monthlyData[month] else []
  }

  /** `yearlyMonthlyData[month] || {}` */
  function YearMap(yearlyData: map<Month, map<int, seq<real>>>, month: Month): map<int, seq<real>>
  {
    if month in yearlyData then yearlyData[month] else map[]
  }

  function YearBucket(groups: map<int, seq<real>>, year: int): seq<real>
  {
    if year in groups then groups[year] else []
  }

  // ---------------------------------------------------------------------------
  // The per-year aggregation of one month.

  function YearOf(y: YearlyAverage): int { y.year }

  /** The order of two dated readings: chronological for `YYYY-MM-DD` dates. */
  function DailyKey(t: DailyTemperature): int
  {
    match ParseIsoDate(t.date)
    case Some(d) => DateKey(d)
    case None => 0
  }

  /** `mean(temps) || 0` */
  function OrZero(r: Option<real>): real
  {
    match r
    case Some(v) => v
    case None => 0.0
  }

  function YearlyAverageOf(rows: seq<WeatherRow>, month: Month, year: int, temps: seq<real>): YearlyAverage
  {
    YearlyAverage(year, OrZero(Mean(temps)), |temps|, SortByKey(DailyReadings(rows, month, year), DailyKey))
  }

  /** Readings of one year that share a date keep their row order: the date
    * sort's comparator returns 0 for them and the sort is stable. */
  lemma YearlyAverageDailyStable(rows: seq<WeatherRow>, month: Month, year: int, temps: seq<real>, k: int)
    ensures WithKey(YearlyAverageOf(rows, month, year, temps).dailyTemperatures, DailyKey, k)
      == WithKey(DailyReadings(rows, month, year), DailyKey, k)
  {
    SortByKeyStable(DailyReadings(rows, month, year), DailyKey, k);
  }

  ghost predicate YearKeys(yearlyData: map<int, seq<real>>)
  {
    forall y :: y in yearlyData ==> 0 <= y < ArrayIndexLimit
  }

  /** The `map` step: one entry per listed year. */
  function YearlyEntries(rows: seq<WeatherRow>, month: Month, yearlyData: map<int, seq<real>>, years: seq<int>): (r: seq<YearlyAverage>)
    requires forall y :: y in years ==> y in yearlyData
    ensures |r| == |years|
    ensures forall i :: 0 <= i < |r| ==> r[i] == YearlyAverageOf(rows, month, years[i], yearlyData[years[i]])
  {
    if |years| == 0 then []
    else [YearlyAverageOf(rows, month, years[0], yearlyData[years[0]])] + YearlyEntries(rows, month, yearlyData, years[1..])
  }

  lemma EntriesInYearOrder(entries: seq<YearlyAverage>, years: seq<int>)
    requires |entries| == |years| && forall i :: 0 <= i < |entries| ==> entries[i].year == years[i]
    requires forall i, j :: 0 <= i < j < |years| ==> years[i] < years[j]
    ensures SortedByKey(entries, YearOf)
  {
    forall i | 0 <= i < |entries| - 1 ensures YearOf(entries[i]) <= YearOf(entries[i + 1]) {
      assert years[i] < years[i + 1];
    }
  }

  /** One entry per year of the month's dictionary, in ascending year order; the
    * closing sort by year finds them already in order. */
  function YearlyAveragesOf(rows: seq<WeatherRow>, month: Month, yearlyData: map<int, seq<real>>): (r: seq<YearlyAverage>)
    requires YearKeys(yearlyData)
    ensures var years := IndexKeys(yearlyData.Keys);
      && |r| == |years|
      && (forall i :: 0 <= i < |r| ==> r[i].year == years[i])
      && forall i :: 0 <= i < |r| ==> r[i] == YearlyAverageOf(rows, month, years[i], yearlyData[years[i]])
  {
    var years := IndexKeys(yearlyData.Keys);
    var entries := YearlyEntries(rows, month, yearlyData, years);
    // `.sort((a, b) => a.year - b.year)` leaves the entries where they are
    // (`YearlyAveragesSorted`)
    entries
  }

  /** The closing `.sort((a, b) => a.year - b.year)` returns the yearly
    * averages unchanged: they are built in ascending year order. */
  lemma YearlyAveragesSorted(rows: seq<WeatherRow>, month: Month, yearlyData: map<int, seq<real>>)
    requires YearKeys(yearlyData)
    ensures var ys := YearlyAveragesOf(rows, month, yearlyData);
      SortedByKey(ys, YearOf) && SortByKey(ys, YearOf) == ys
  {
    var ys := YearlyAveragesOf(rows, month, yearlyData);
    EntriesInYearOrder(ys, IndexKeys(yearlyData.Keys));
    SortByKeyOfSorted(ys, YearOf);
  }

  lemma {:induction false} YearsOfInRange(rows: seq<WeatherRow>, month: Month)
    ensures forall y :: y in YearsOf(rows, month) ==> 0 <= y <= 9999
  {
    if |rows| > 0 {
      YearsOfInRange(rows[..|rows| - 1], month);
    }
  }

  lemma YearGroupsKeys(rows: seq<WeatherRow>, month: Month)
    ensures YearKeys(YearGroups(rows, month))
  {
    YearsOfInRange(rows, month);
  }

  /** The summary record of a month's values (`climatology.push({...})`). */
  function Summarise(month: Month, values: seq<real>, histogram: seq<HistogramBin>,
                     yearlyAverages: seq<YearlyAverage>): MonthSummary
  {
    MonthSummary(
      month, Mean(values), |values|, Min(values), Max(values),
      Quantile(values, 25.0), Quantile(values, 50.0), Quantile(values, 75.0),
      Variance(values), histogram, yearlyAverages)
  }

  /** What the aggregator reports for one month. */
  ghost function SummaryOf(rows: seq<WeatherRow>, month: Month): MonthSummary
  {
    var values := Readings(rows, month);
    YearGroupsKeys(rows, month);
    Summarise(month, values, HistogramOf(values, 1.0), YearlyAveragesOf(rows, month, YearGroups(rows, month)))
  }

  /** `[f(1), ..., f(n)]`: a value per month, months 1 to `n` in order. */
  function UpTo<T>(f: Month -> T, n: nat): (r: seq<T>)
    requires n <= 12
    ensures |r| == n
  {
    if n == 0 then [] else UpTo(f, n - 1) + [f(n)]
  }

  lemma {:induction false} UpToAt<T>(f: Month -> T, n: nat, k: nat)
    requires k < n <= 12
    ensures UpTo(f, n)[k] == f(k + 1)
  {
    if k < n - 1 {
      UpToAt(f, n - 1, k);
    }
  }

  /** The summaries of months 1 to `n`, in month order. */
  ghost function SummariesUpTo(rows: seq<WeatherRow>, n: nat): (r: seq<MonthSummary>)
    requires n <= 12
    ensures |r| == n
  {
    UpTo(month => SummaryOf(rows, month), n)
  }

  /** The twelve month summaries of `rows`, January first. */
  ghost function Climatology(rows: seq<WeatherRow>): (r: seq<MonthSummary>)
    ensures |r| == 12
  {
    SummariesUpTo(rows, 12)
  }

  /** Summary `k` of the climatology is that of month `k + 1`. */
  lemma ClimatologyAt(rows: seq<WeatherRow>, k: nat)
    requires k < 12
    ensures Climatology(rows)[k] == SummaryOf(rows, k + 1)
  {
    UpToAt(month => SummaryOf(rows, month), 12, k);
  }

  /** The month dictionary holds exactly the month readings of `rows`. */
  ghost predicate MonthsGrouped(rows: seq<WeatherRow>, monthlyData: map<Month, seq<real>>)
  {
    forall m: Month :: MonthBucket(monthlyData, m) == Readings(rows, m)
  }

  /** The (month, year) dictionary holds exactly the per-year groups of `rows`. */
  ghost predicate YearsGrouped(rows: seq<WeatherRow>, yearlyMonthlyData: map<Month, map<int, seq<real>>>)
  {
    forall m: Month :: YearMap(yearlyMonthlyData, m) == YearGroups(rows, m)
  }

  /** Pushing one more row into the month dictionary keeps it the grouping of
    * the longer list. */
  lemma MonthsGroupedStep(rows: seq<WeatherRow>, row: WeatherRow, monthlyData: map<Month, seq<real>>)
    requires MonthsGrouped(rows, monthlyData)
    ensures row.tmean.Some? && ParseIsoDate(row.date).Some? ==>
      var month := ParseIsoDate(row.date).value.month;
      MonthsGrouped(rows + [row], monthlyData[month := MonthBucket(monthlyData, month) + [row.tmean.value]])
    ensures !(row.tmean.Some? && ParseIsoDate(row.date).Some?) ==> MonthsGrouped(rows + [row], monthlyData)
  {
    SplitLast(rows, row);
    forall m: Month ensures Readings(rows + [row], m) ==
        Readings(rows, m) + (if Counts(row, m) then [row.tmean.value] else [])
    {
    }
  }

  /** The same for the (month, year) dictionary. */
  lemma YearsGroupedStep(rows: seq<WeatherRow>, row: WeatherRow, yearlyMonthlyData: map<Month, map<int, seq<real>>>)
    requires YearsGrouped(rows, yearlyMonthlyData)
    ensures row.tmean.Some? && ParseIsoDate(row.date).Some? ==>
      var month, year := ParseIsoDate(row.date).value.month, RowYear(row);
      var years := YearMap(yearlyMonthlyData, month);
      YearsGrouped(rows + [row], yearlyMonthlyData[month := years[year := YearBucket(years, year) + [row.tmean.value]]])
    ensures !(row.tmean.Some? && ParseIsoDate(row.date).Some?) ==> YearsGrouped(rows + [row], yearlyMonthlyData)
  {
    forall m: Month ensures YearGroups(rows + [row], m) ==
        if Counts(row, m) then
          YearGroups(rows, m)[RowYear(row) := YearBucket(YearGroups(rows, m), RowYear(row)) + [row.tmean.value]]
        else YearGroups(rows, m)
    {
      YearGroupsStep(rows, row, m);
    }
  }

  /** The first half of `toMonthlyClimatology`: buckets the non-null rows by
    * month and by (month, year). */
  method GroupRows(rows: seq<WeatherRow>)
    returns (monthlyData: map<Month, seq<real>>, yearlyMonthlyData: map<Month, map<int, seq<real>>>)
    ensures MonthsGrouped(rows, monthlyData) && YearsGrouped(rows, yearlyMonthlyData)
  {
    monthlyData, yearlyMonthlyData := map[], map[];
    for i := 0 to |rows|
      invariant MonthsGrouped(rows[..i], monthlyData)
      invariant YearsGrouped(rows[..i], yearlyMonthlyData)
    {
      var row := rows[i];
      assert rows[..i + 1] == rows[..i] + [row];
      MonthsGroupedStep(rows[..i], row, monthlyData);
      YearsGroupedStep(rows[..i], row, yearlyMonthlyData);
      if row.tmean.Some? {
        var parsed := ParseIsoDate(row.date);
        if parsed.Some? {
          var month, year, t := parsed.value.month, parsed.value.year, row.tmean.value;
          // `if (!monthlyData[month]) monthlyData[month] = [];` then push
          var bucket := if month in monthlyData then monthlyData[month] else [];
          monthlyData := monthlyData[month := bucket + [t]];
          // the same for `yearlyMonthlyData[month][year]`, creating both levels
          var years := if month in yearlyMonthlyData then yearlyMonthlyData[month] else map[];
          var yearBucket := if year in years then years[year] else [];
          yearlyMonthlyData := yearlyMonthlyData[month := years[year := yearBucket + [t]]];
        }
      }
    }
    assert rows[..|rows|] == rows;
  }

  /** One `climatology.push({...})` of `toMonthlyClimatology`: appends the
    * statistics of a month's readings and its yearly averages, read from the
    * grouped dictionaries. */
  method PushSummary(rows: seq<WeatherRow>, month: Month, monthlyData: map<Month, seq<real>>,
                     yearlyMonthlyData: map<Month, map<int, seq<real>>>, climatology: seq<MonthSummary>)
    returns (pushed: seq<MonthSummary>)
    requires MonthsGrouped(rows, monthlyData) && YearsGrouped(rows, yearlyMonthlyData)
    requires climatology == SummariesUpTo(rows, month - 1)
    ensures pushed == SummariesUpTo(rows, month)
  {
    var values := MonthBucket(monthlyData, month);
    var yearlyData := YearMap(yearlyMonthlyData, month);
    YearGroupsKeys(rows, month);
    var yearlyAverages := YearlyAveragesOf(rows, month, yearlyData);
    var histogram := Histogram(values, 1.0);
    pushed := climatology + [Summarise(month, values, histogram, yearlyAverages)];
  }

  /** `toMonthlyClimatology`: buckets the non-null rows by month and by
    * (month, year), then summarises months 1 to 12 in order. */
  method ToMonthlyClimatology(rows: seq<WeatherRow>) returns (climatology: seq<MonthSummary>)
    ensures climatology == Climatology(rows)
  {
    var monthlyData, yearlyMonthlyData := GroupRows(rows);
    climatology := [];
    for month := 1 to 13
      invariant climatology == SummariesUpTo(rows, month - 1)
    {
      climatology := PushSummary(rows, month, monthlyData, yearlyMonthlyData, climatology);
    }
    assert climatology == SummariesUpTo(rows, 12);
  }

  // ---------------------------------------------------------------------------
  // The forecast.

  /** `climatology.flatMap(c => c.yearlyAverages)` */
  function AllYearlyAverages(climatology: seq<MonthSummary>): seq<YearlyAverage>
  {
    if |climatology| == 0 then []
    else AllYearlyAverages(climatology[..|climatology| - 1]) + climatology[|climatology| - 1].yearlyAverages
  }

  function YearList(averages: seq<YearlyAverage>): (r: seq<int>)
    ensures |r| == |averages| && forall i :: 0 <= i < |r| ==> r[i] == averages[i].year
  {
    if |averages| == 0 then [] else YearList(averages[..|averages| - 1]) + [averages[|averages| - 1].year]
  }

  function Identity(x: int): int { x }

  /** `[...new Set(s)]`: the first occurrence of each value, in order. */
  function Dedupe(s: seq<int>): (r: seq<int>)
    ensures forall x :: x in r <==> x in s
    ensures forall i, j :: 0 <= i < j < |r| ==> r[i] != r[j]
  {
    if |s| == 0 then []
    else
      var init := s[..|s| - 1];
      var d := Dedupe(init);
      assert forall x :: x in s <==> x in init || x == s[|s| - 1];
      if s[|s| - 1] in init then d else d + [s[|s| - 1]]
  }

  lemma SortedBelowLast(s: seq<int>)
    requires SortedByKey(s, Identity) && |s| > 0
    ensures forall x :: x in s ==> x <= s[|s| - 1]
  {
    forall x | x in s ensures x <= s[|s| - 1] {
      var i :| 0 <= i < |s| && s[i] == x;
      SortedByKeyPairs(s, Identity, i, |s| - 1);
    }
  }

  /** Removing repeats from an ascending list leaves it strictly ascending and
    * ending where it ended. */
  lemma {:induction false} DedupeSorted(s: seq<int>)
    requires SortedByKey(s, Identity)
    ensures var r := Dedupe(s);
      (forall i :: 0 <= i < |r| - 1 ==> r[i] < r[i + 1]) &&
      (|s| > 0 ==> |r| > 0 && r[|r| - 1] == s[|s| - 1])
  {
    if |s| > 0 {
      var init := s[..|s| - 1];
      var last := s[|s| - 1];
      var d := Dedupe(init);
      assert Dedupe(s) == if last in init then d else d + [last];
      SortedInit(s);
      DedupeSorted(init);
      if last !in init {
        assert init == [] || init[|init| - 1] in init;
        AppendAscending(d, last);
      } else {
        SortedBelowLast(init);
      }
    }
  }

  /** The prefix of an ascending list is ascending and ends at or below the
    * list's last element. */
  lemma SortedInit(s: seq<int>)
    requires SortedByKey(s, Identity) && |s| > 0
    ensures SortedByKey(s[..|s| - 1], Identity)
    ensures |s| > 1 ==> s[|s| - 2] <= s[|s| - 1]
  {
    if |s| > 1 {
      SortedByKeyPairs(s, Identity, |s| - 2, |s| - 1);
    }
  }

  lemma AppendAscending(d: seq<int>, x: int)
    requires forall i :: 0 <= i < |d| - 1 ==> d[i] < d[i + 1]
    requires d == [] || d[|d| - 1] < x
    ensures var r := d + [x]; forall i :: 0 <= i < |r| - 1 ==> r[i] < r[i + 1]
  {
  }

  lemma {:induction false} SortedByKeyPairs<T>(s: seq<T>, key: T -> int, i: int, j: int)
    requires SortedByKey(s, key) && 0 <= i <= j < |s|
    ensures key(s[i]) <= key(s[j])
    decreases j - i
  {
    if i < j {
      SortedByKeyPairs(s, key, i + 1, j);
    }
  }

  lemma StrictlyAscendingPairs(r: seq<int>, i: int, j: int)
    requires forall k :: 0 <= k < |r| - 1 ==> r[k] < r[k + 1]
    requires 0 <= i < j < |r|
    ensures r[i] < r[j]
    decreases j - i
  {
    if i + 1 < j {
      StrictlyAscendingPairs(r, i + 1, j);
    }
  }

  /** The distinct years of all yearly averages, ascending (`uniqueYears`). */
  function UniqueYears(climatology: seq<MonthSummary>): seq<int>
  {
    Dedupe(SortByKey(YearList(AllYearlyAverages(climatology)), Identity))
  }

  lemma UniqueYearsAscending(climatology: seq<MonthSummary>)
    ensures var years := UniqueYears(climatology);
      forall i, j :: 0 <= i < j < |years| ==> years[i] < years[j]
  {
    var sorted := SortByKey(YearList(AllYearlyAverages(climatology)), Identity);
    DedupeSorted(sorted);
    var years := UniqueYears(climatology);
    forall i, j | 0 <= i < j < |years| ensures years[i] < years[j] {
      StrictlyAscendingPairs(years, i, j);
    }
  }

  /** `filter(y => y.year === year).reduce((sum, y) => sum + y.average, 0)` */
  function SumAveragesOf(averages: seq<YearlyAverage>, year: int): real
  {
    if |averages| == 0 then 0.0
    else
      var last := averages[|averages| - 1];
      SumAveragesOf(averages[..|averages| - 1], year) + (if last.year == year then last.average else 0.0)
  }

  /** The two-point warming trend in degrees per year: the change between the
    * last and the first year's summed monthly averages, each divided by 12,
    * over the years between them; 0 with fewer than two years. */
  function WarmingTrend(climatology: seq<MonthSummary>): (trend: real)
    ensures |UniqueYears(climatology)| < 2 ==> trend == 0.0
  {
    var years := UniqueYears(climatology);
    if |years| >= 2 then
      UniqueYearsAscending(climatology);
      var all := AllYearlyAverages(climatology);
      TwoPointTrend(SumAveragesOf(all, years[0]), SumAveragesOf(all, years[|years| - 1]), years[0], years[|years| - 1])
    else 0.0
  }

  /** The change of the yearly mean (a sum of monthly averages over 12) per
    * year between `firstYear` and `lastYear`. */
  function TwoPointTrend(firstSum: real, lastSum: real, firstYear: int, lastYear: int): (trend: real)
    requires firstYear < lastYear
    ensures trend > 0.0 <==> lastSum > firstSum
    ensures trend < 0.0 <==> lastSum < firstSum
  {
    QuotientSign(lastSum / 12.0 - firstSum / 12.0, (lastYear - firstYear) as real);
    var firstYearAvg := firstSum / 12.0;
    var lastYearAvg := lastSum / 12.0;
    (lastYearAvg - firstYearAvg) / (lastYear - firstYear) as real
  }

  /** Entry `i` is the first summary of `month`. */
  ghost predicate FirstOfMonth(climatology: seq<MonthSummary>, month: Month, i: int)
  {
    0 <= i < |climatology| && climatology[i].month == month &&
    forall j :: 0 <= j < i ==> climatology[j].month != month
  }

  /** `climatology.find(c => c.month === month)` */
  function FindMonth(climatology: seq<MonthSummary>, month: Month): (r: Option<MonthSummary>)
    ensures r.None? <==> forall i :: 0 <= i < |climatology| ==> climatology[i].month != month
    ensures r.Some? ==> exists i :: FirstOfMonth(climatology, month, i) && climatology[i] == r.value
  {
    if |climatology| == 0 then None
    else if climatology[0].month == month then Some(climatology[0])
    else
      var rest := climatology[1..];
      var r := FindMonth(rest, month);
      assert r.Some? ==> exists i :: FirstOfMonth(climatology, month, i) && climatology[i] == r.value
      by {
        if r.Some? {
          var i :| FirstOfMonth(rest, month, i) && rest[i] == r.value;
          assert climatology[i + 1] == r.value;
          assert forall j :: 0 <= j < i + 1 ==> climatology[j].month != month by {
            forall j | 0 <= j < i + 1 ensures climatology[j].month != month {
              if j > 0 { assert climatology[j] == rest[j - 1]; }
            }
          }
        }
      }
      r
  }

  /** JavaScript truthiness of a possibly-null number: present and not zero. */
  predicate Truthy(x: Option<real>)
  {
    x.Some? && x.value != 0.0
  }

  /** The last year with data (`uniqueYears[uniqueYears.length - 1]`), absent
    * when no month has a yearly average. */
  function LastDataYear(climatology: seq<MonthSummary>): (r: Option<int>)
    ensures r.Some? <==> |UniqueYears(climatology)| > 0
  {
    var years := UniqueYears(climatology);
    if |years| == 0 then None else Some(years[|years| - 1])
  }

  /** The forecast needs a last data year whenever a summary has a truthy mean
    * (otherwise `year - undefined` is NaN). */
  ghost predicate ForecastReady(climatology: seq<MonthSummary>)
  {
    (exists i :: 0 <= i < |climatology| && Truthy(climatology[i].mean)) ==> LastDataYear(climatology).Some?
  }

  lemma ReadyHasLastYear(climatology: seq<MonthSummary>, month: Month)
    requires ForecastReady(climatology)
    requires FindMonth(climatology, month).Some? && Truthy(FindMonth(climatology, month).value.mean)
    ensures |UniqueYears(climatology)| > 0
  {
    var found := FindMonth(climatology, month).value;
    var j :| FirstOfMonth(climatology, month, j) && climatology[j] == found;
    assert Truthy(climatology[j].mean);
  }

  /** The forecast temperature of a month whose mean is `mean`: the mean moved
    * along the trend from the last data year to `year`, plus a jitter of up
    * to two degrees either way from `draw`, rounded to one decimal. */
  function ForecastTemperature(mean: real, trend: real, year: int, lastYear: int, draw: real): real
  {
    var yearsSinceData := year - lastYear;
    var trendAdjustment := trend * yearsSinceData as real;
    var randomVariation := (draw - 0.5) * 4.0;
    JsMath.Round1(mean + trendAdjustment + randomVariation)
  }

  /** The forecast temperature for the month of `date`, with `draw` the value
    * `Math.random()` returns for it: present when the month's summary exists
    * and has a truthy mean, absent otherwise. */
  function ForecastMean(climatology: seq<MonthSummary>, date: CalendarDate, draw: real): Option<real>
  {
    var found := FindMonth(climatology, date.month);
    var last := LastDataYear(climatology);
    if found.Some? && Truthy(found.value.mean) && last.Some? then
      Some(ForecastTemperature(found.value.mean.value, WarmingTrend(climatology), date.year, last.value, draw))
    else None
  }

  /** The forecast item for the month of `date`. */
  function ForecastFor(climatology: seq<MonthSummary>, date: CalendarDate, draw: real): ForecastItem
  {
    ForecastItem(MonthYearLabel(date.month, date.year), date.month, date.year, ForecastMean(climatology, date, draw))
  }

  lemma ForecastMeanUnfolded(climatology: seq<MonthSummary>, date: CalendarDate, draw: real)
    requires ForecastReady(climatology)
    ensures var found := FindMonth(climatology, date.month);
      var years := UniqueYears(climatology);
      ForecastMean(climatology, date, draw) ==
        if found.Some? && Truthy(found.value.mean) then
          Some(ForecastTemperature(found.value.mean.value, WarmingTrend(climatology), date.year, years[|years| - 1], draw))
        else None
  {
    var found := FindMonth(climatology, date.month);
    if found.Some? && Truthy(found.value.mean) {
      ReadyHasLastYear(climatology, date.month);
    }
  }

  /** One step of `buildNext12Forecast`'s loop: the item for the month of
    * `date`, given the unique years and the warming trend computed before the
    * loop. */
  method ForecastItemAt(climatology: seq<MonthSummary>, date: CalendarDate, draw: real,
                        uniqueYears: seq<int>, warmingTrend: real)
    returns (item: ForecastItem)
    requires ForecastReady(climatology)
    requires uniqueYears == UniqueYears(climatology) && warmingTrend == WarmingTrend(climatology)
    ensures item == ForecastFor(climatology, date, draw)
  {
    var month, year := date.month, date.year;
    var monthData := FindMonth(climatology, month);
    if monthData.Some? && Truthy(monthData.value.mean) {
      ReadyHasLastYear(climatology, month);
      var lastYear := uniqueYears[|uniqueYears| - 1];
      var forecastTemp := ForecastTemperature(monthData.value.mean.value, warmingTrend, year, lastYear, draw);
      item := ForecastItem(MonthYearLabel(month, year), month, year, Some(forecastTemp));
    } else {
      item := ForecastItem(MonthYearLabel(month, year), month, year, None);
    }
    ForecastMeanUnfolded(climatology, date, draw);
  }

  /** `[f(0), ..., f(n - 1)]` */
  function Tabulate<T>(f: nat --> T, n: nat): (r: seq<T>)
    requires forall k: nat :: k < n ==> f.requires(k)
    ensures |r| == n
  {
    if n == 0 then [] else Tabulate(f, n - 1) + [f(n - 1)]
  }

  lemma {:induction false} TabulateAt<T>(f: nat --> T, n: nat, k: nat)
    requires forall k: nat :: k < n ==> f.requires(k)
    requires k < n
    ensures Tabulate(f, n)[k] == f(k)
  {
    if k < n - 1 {
      TabulateAt(f, n - 1, k);
    }
  }

  /** Step `k` of the forecast: the item for the date `k` month steps after
    * `fromDate`, with draw `k`. */
  function ForecastStep(climatology: seq<MonthSummary>, fromDate: CalendarDate, draws: seq<real>): nat --> ForecastItem
  {
    (k: nat) requires k < |draws| => ForecastFor(climatology, DateAfter(fromDate, k), draws[k])
  }

  /** The first `n` forecast items. */
  function ForecastUpTo(climatology: seq<MonthSummary>, fromDate: CalendarDate, draws: seq<real>, n: nat): (r: seq<ForecastItem>)
    requires n <= |draws|
    ensures |r| == n
  {
    Tabulate(ForecastStep(climatology, fromDate, draws), n)
  }

  lemma ForecastUpToAt(climatology: seq<MonthSummary>, fromDate: CalendarDate, draws: seq<real>, n: nat, k: nat)
    requires k < n <= |draws|
    ensures ForecastUpTo(climatology, fromDate, draws, n)[k] == ForecastFor(climatology, DateAfter(fromDate, k), draws[k])
  {
    TabulateAt(ForecastStep(climatology, fromDate, draws), n, k);
  }

  /** `buildNext12Forecast`: twelve items, one per `setMonth` step from
    * `fromDate`; `draws[i]` is what `Math.random()` returns in step `i`. */
  method BuildNext12Forecast(climatology: seq<MonthSummary>, fromDate: CalendarDate, draws: seq<real>)
    returns (forecast: seq<ForecastItem>)
    requires ValidDate(fromDate) && |draws| == 12
    requires ForecastReady(climatology)
    ensures |forecast| == 12
    ensures forall i :: 0 <= i < 12 ==> forecast[i] == ForecastFor(climatology, DateAfter(fromDate, i), draws[i])
  {
    forecast := [];
    var currentDate := fromDate;
    var uniqueYears := UniqueYears(climatology);
    var warmingTrend := WarmingTrend(climatology);
    for i := 0 to 12
      invariant currentDate == DateAfter(fromDate, i)
      invariant forecast == ForecastUpTo(climatology, fromDate, draws, i)
    {
      var item := ForecastItemAt(climatology, currentDate, draws[i], uniqueYears, warmingTrend);
      forecast := forecast + [item];
      currentDate := NextMonthDate(currentDate);
    }
    forall k | 0 <= k < 12
      ensures forecast[k] == ForecastFor(climatology, DateAfter(fromDate, k), draws[k])
    {
      ForecastUpToAt(climatology, fromDate, draws, 12, k);
    }
  }
}
