# Austin weather forecast — verified model of the data flow

The application shows Austin's monthly temperature climatology and a
twelve-month outlook. This project models its data flow in Dafny and
proves properties of the model:

- **Statistics primitives** (`StatsHelpers`): mean, spread, linear-interpolation
  quantile, minimum, maximum and the fixed-width histogram.
- **Climatology aggregator** (`TransformHelpers.ToMonthlyClimatology`): daily rows
  are grouped by calendar month and by (month, year), and each month gets a
  summary with per-year averages and the day-by-day readings behind them.
- **Twelve-month forecast** (`TransformHelpers.BuildNext12Forecast`): walks twelve
  months on from a date with `setMonth` semantics, moves each month's mean along
  a warming trend and adds a bounded jitter.
- **Historical route** (`HistoricalRoute`): maps the archive API's daily arrays
  to weather rows. The daily mean falls back to the midpoint of the maximum and
  minimum, and the result is converted to Fahrenheit.
- **Monthly-forecast route** (`ForecastMonthlyRoute`): buckets forecast periods
  by month, builds live entries and fills missing months from a fixed table of
  Austin averages. It merges and sorts the entries and turns them into forecast
  items.
- **City registry** (`CityConfig`): the city table, lookup by id and the default
  city.

Supporting modules:

- `Wrappers`: the `Option` type.
- `JsMath`: `Math.round` and rounding to one decimal.
- `DateHelpers`: `YYYY-MM-DD` dates, month labels and month stepping.
- `DecimalText`: the decimal text of a year.
- `ClimatologyProofs` and `ForecastProofs`: the properties that relate several
  operations.

Loops and in-place updates in the source are modelled as methods with loop
invariants. Each method is proved equal to a specification function, and the
properties are proved about those functions. Values are exact reals, not
IEEE-754 doubles.

## Model

| member | source | states |
|---|---|---|
| StatsHelpers.Mean | lib/stats-helpers.ts:1-4 | null exactly for an empty list; otherwise the value times the length is the sum |
| StatsHelpers.Variance | lib/stats-helpers.ts:6-12 | null exactly for an empty list; otherwise the mean squared deviation from the mean, never negative |
| StatsHelpers.VarianceZeroIffConstant | lib/stats-helpers.ts:6-12 | the spread is zero if and only if every value equals the mean |
| StatsHelpers.MinOf | lib/stats-helpers.ts:30 | `Math.min(...values)` is a member of the list and no larger than any member |
| StatsHelpers.MaxOf | lib/stats-helpers.ts:35 | `Math.max(...values)` is a member of the list and no smaller than any member |
| StatsHelpers.Min | lib/stats-helpers.ts:28-31 | null exactly for an empty list; otherwise the least member |
| StatsHelpers.Max | lib/stats-helpers.ts:33-36 | null exactly for an empty list; otherwise the greatest member |
| StatsHelpers.MeanWithinRange | lib/stats-helpers.ts:1-4 | the mean lies between the minimum and the maximum |
| StatsHelpers.MeanBetween | lib/stats-helpers.ts:1-4 | if every value lies in [lo, hi], so does the mean |
| StatsHelpers.SortAscending | lib/stats-helpers.ts:16 | the sorted copy is ascending and is a permutation of the input |
| StatsHelpers.SortAscendingKeepsSorted | lib/stats-helpers.ts:16 | sorting an ascending list returns it unchanged |
| StatsHelpers.SortedEnds | lib/stats-helpers.ts:16 | the sorted copy starts with the minimum and ends with the maximum |
| StatsHelpers.Ceil | lib/stats-helpers.ts:19 | `Math.ceil`: the least integer not below x |
| StatsHelpers.QuantileIndex | lib/stats-helpers.ts:17 | the fractional index is non-negative, at most n-1 for q <= 100, and at least n-1 for q >= 100 |
| StatsHelpers.QuantileIndexMonotone | lib/stats-helpers.ts:17 | a larger q gives a larger index |
| StatsHelpers.Quantile | lib/stats-helpers.ts:14-26 | null exactly for an empty list |
| StatsHelpers.QuantileBetweenNeighbours | lib/stats-helpers.ts:17-25 | for q in [0, 100] the quantile lies between the sorted values at the floor and the ceiling of the index, and both indices are in range |
| StatsHelpers.QuantileWithinRange | lib/stats-helpers.ts:14-26 | every quantile lies between the minimum and the maximum |
| StatsHelpers.QuantileAtZero | lib/stats-helpers.ts:17-23 | the 0th quantile is the minimum |
| StatsHelpers.QuantileFromHundred | lib/stats-helpers.ts:22 | any q >= 100 gives the maximum (the `upper >= sorted.length` guard) |
| StatsHelpers.QuantileMonotone | lib/stats-helpers.ts:14-26 | the quantile does not decrease as q grows |
| StatsHelpers.QuantileMedianEven | lib/stats-helpers.ts:25 | the median of 10, 20, 30, 40 interpolates to 25 |
| StatsHelpers.QuantileMedianOdd | lib/stats-helpers.ts:23 | the median of 30, 10, 20 is the middle value, 20 |
| StatsHelpers.CountInRange | lib/stats-helpers.ts:57 | a bin's count is at most the number of values |
| StatsHelpers.CountInRangeSplit | lib/stats-helpers.ts:57 | the counts of adjacent half-open ranges add up to the count of their union |
| StatsHelpers.Histogram | lib/stats-helpers.ts:44-62 | the loop builds exactly the histogram specified by `HistogramOf` (empty for an empty list) |
| StatsHelpers.HistogramContiguous | lib/stats-helpers.ts:50-59 | one bin per multiple of the width from floor(min/w) to ceil(max/w); each bin is [start, start + w), starts where the previous one ends, and counts the values in it |
| StatsHelpers.HistogramCountsSum | lib/stats-helpers.ts:50-59 | the counts add up to the number of values below the last bin's end |
| StatsHelpers.HistogramCountsAllUnlessMaxOnBoundary | lib/stats-helpers.ts:50-59 | the counts add up to the number of values if and only if the maximum lies strictly below the last bin's end |
| StatsHelpers.HistogramOfConstantIntegerIsEmpty | lib/stats-helpers.ts:45-55 | two readings of exactly 70 with width 1 give no bins at all |
| JsMath.Round | app/api/weather/forecast-monthly/route.ts:150 | `Math.round` is within one half of x, with halves going up |
| JsMath.Round1 | app/api/weather/forecast-monthly/route.ts:150-152 | rounding to one decimal moves the value by at most 0.05 and yields a whole number of tenths |
| ForecastMonthlyRoute.Round1Monotone | app/api/weather/forecast-monthly/route.ts:150-152 | rounding to one decimal keeps the order of values |
| DateHelpers.MonthLabel | lib/date-helpers.ts:33-35 | a month's label has three letters |
| DateHelpers.MonthLabelInjective | lib/date-helpers.ts:23-26 | distinct months have distinct labels |
| DateHelpers.MonthYearLabel | lib/transform-helpers.ts:154 | the label has at least five characters |
| DateHelpers.MonthYearLabelParts | lib/transform-helpers.ts:154 | the label is the month's abbreviation, a space, then the year's decimal text |
| DateHelpers.MonthYearLabelInjective | lib/transform-helpers.ts:154 | equal labels mean the same month and year |
| DecimalText.NatToStringDigits | lib/transform-helpers.ts:154 | a natural number's text is all digits, with no leading zero, and reads back as the number |
| DecimalText.IntToStringDigits | lib/transform-helpers.ts:154 | an integer's text starts with '-' exactly when it is negative; the rest is the digits of its magnitude |
| DecimalText.IntToStringInjective | lib/transform-helpers.ts:154 | distinct years have distinct texts |
| DecimalText.PadDigitsValue | lib/date-helpers.ts:41-43 | a zero-padded field reads back as the number it was padded from |
| DecimalText.PadDigitsOfValue | lib/date-helpers.ts:41-43 | re-padding a digit field's value to its width gives the field back |
| DateHelpers.DaysInMonth | lib/transform-helpers.ts:169 | 28 to 31 days; February has 29 exactly in a Gregorian leap year; April, June, September and November have 30 |
| DateHelpers.ParseIsoDate | lib/date-helpers.ts:41-43 | a parsed `YYYY-MM-DD` string is a valid calendar date with year 0..9999 |
| DateHelpers.ParseFormatIsoDate | lib/date-helpers.ts:41-43 | the parse reads year, month and day exactly: formatting a valid date as `YYYY-MM-DD` (`FormatIsoDate`, its inverse) and parsing it gives the date back |
| DateHelpers.FormatParseIsoDate | lib/date-helpers.ts:41-43 | formatting a parsed string gives the string back |
| DateHelpers.DateKeyOrder | lib/transform-helpers.ts:87 | the sort key of a date orders dates by year, then month, then day; equal keys mean equal dates |
| DateHelpers.FollowingMonth | lib/transform-helpers.ts:169 | the month after December is January of the next year; otherwise it is the next month of the same year |
| DateHelpers.AddMonthsIndex | lib/transform-helpers.ts:169 | stepping k months advances the absolute month index by k |
| DateHelpers.NextMonthDateValid | lib/transform-helpers.ts:169 | `setMonth(getMonth() + 1)` yields a valid date: the same day of the next month, or, when that month is too short, an overflow into the month after with day 1..3 |
| DateHelpers.DateAfterShift | lib/transform-helpers.ts:169 | k steps from the next month's date equal k + 1 steps from the date |
| DateHelpers.DateAfterValid | lib/transform-helpers.ts:138-170 | every date the forecast loop visits is valid |
| DateHelpers.DateAfterEarlyDay | lib/transform-helpers.ts:138-170 | from a day <= 28 the loop visits consecutive months and keeps the day |
| DateHelpers.DateAfterSkipsAtMostOnce | lib/transform-helpers.ts:169 | after k steps the date is k months on with the same day, or (from a day > 28) k + 1 months on with day <= 3 |
| DateHelpers.JanuaryThirtyFirstSkipsFebruary | lib/transform-helpers.ts:169 | stepping from 31 January 2025 lands on 3 March 2025 |
| TransformHelpers.SortByKey | lib/transform-helpers.ts:87-96 | a sort by a numeric key: the result is ordered by the key and is a permutation of the input |
| TransformHelpers.SortByKeyStable | lib/transform-helpers.ts:87-96 | the sort is stable: for every key value, the elements with that key appear in the result in their input order |
| TransformHelpers.InsertByKeyStable | lib/transform-helpers.ts:87-96 | one insertion step keeps each key's elements in order and places the new element after the others with its key |
| TransformHelpers.YearlyAverageDailyStable | lib/transform-helpers.ts:77-87 | readings of one year that share a date keep their row order after the date sort |
| TransformHelpers.SortByKeyOfSorted | lib/transform-helpers.ts:96 | sorting a list already in key order leaves it unchanged |
| TransformHelpers.KeysFrom | lib/transform-helpers.ts:74 | the specification of `Object.entries` order: the array-index keys from `lo` up, each exactly once, in ascending order |
| TransformHelpers.IndexKeys | lib/transform-helpers.ts:74 | `Object.entries` lists every integer key of an object exactly once, in ascending order |
| TransformHelpers.IndexKeysInOrder | lib/transform-helpers.ts:74 | listing the least remaining key first gives exactly the specified order `KeysFrom(keys, 0)` |
| TransformHelpers.DailyReadings | lib/transform-helpers.ts:77-87 | one daily temperature per reading of that month and year |
| TransformHelpers.YearsOfHaveReadings | lib/transform-helpers.ts:47-65 | a year gets a group for a month if and only if some row with a mean falls in that month and year |
| TransformHelpers.YearGroupsStep | lib/transform-helpers.ts:57-63 | a row with a mean appends its mean to its (month, year) group; any other row changes nothing |
| TransformHelpers.YearlyEntries | lib/transform-helpers.ts:74-95 | one yearly average per listed year, built from that year's group |
| TransformHelpers.EntriesInYearOrder | lib/transform-helpers.ts:96 | entries listed in ascending year order are sorted by year |
| TransformHelpers.YearlyAveragesOf | lib/transform-helpers.ts:74-96 | one entry per year of the month, in ascending year order, each built from its own year's group |
| TransformHelpers.YearlyAveragesSorted | lib/transform-helpers.ts:96 | the yearly averages are in year order, so the closing sort by year returns them unchanged |
| TransformHelpers.ClimatologyAt | lib/transform-helpers.ts:69-111 | the k-th summary is the summary of month k + 1 |
| TransformHelpers.MonthsGroupedStep | lib/transform-helpers.ts:47-55 | after each row, every month's list holds exactly the means of the rows so far that fall in that month |
| TransformHelpers.YearsGroupedStep | lib/transform-helpers.ts:57-63 | after each row, every (month, year) list holds exactly the means of the rows so far in that month and year |
| TransformHelpers.GroupRows | lib/transform-helpers.ts:43-65 | after the grouping pass the month dictionary holds exactly each month's readings and the (month, year) dictionary exactly each month's per-year groups |
| TransformHelpers.PushSummary | lib/transform-helpers.ts:70-110 | pushing month m's summary onto the summaries of months 1 to m - 1 gives those of months 1 to m |
| TransformHelpers.ToMonthlyClimatology | lib/transform-helpers.ts:42-114 | the grouping pass and the month loop return exactly the specified twelve summaries |
| TransformHelpers.YearList | lib/transform-helpers.ts:124 | the years of the yearly averages, in order |
| TransformHelpers.Dedupe | lib/transform-helpers.ts:125 | `[...new Set(s)]` has the same members as s, each exactly once |
| TransformHelpers.DedupeSorted | lib/transform-helpers.ts:124-125 | deduplicating a sorted list gives a strictly ascending list with the same last element |
| TransformHelpers.UniqueYearsAscending | lib/transform-helpers.ts:123-125 | the unique years are strictly ascending and are exactly the years of the yearly averages |
| TransformHelpers.WarmingTrend | lib/transform-helpers.ts:127-136 | zero when there are fewer than two distinct years |
| TransformHelpers.TwoPointTrend | lib/transform-helpers.ts:129-135 | the slope is positive exactly when the last year's sum exceeds the first's, and negative exactly when it is below |
| TransformHelpers.FindMonth | lib/transform-helpers.ts:141 | `find` returns nothing exactly when no summary has the month; otherwise it returns the first summary that has it |
| TransformHelpers.LastDataYear | lib/transform-helpers.ts:145 | the last data year exists exactly when some yearly average exists |
| TransformHelpers.ReadyHasLastYear | lib/transform-helpers.ts:143-145 | a month with a truthy mean implies a last data year to measure the trend from |
| TransformHelpers.ForecastMeanUnfolded | lib/transform-helpers.ts:143-166 | the forecast is present exactly for a found month with a truthy mean; it is that mean moved along the trend from the last data year, plus the jitter, rounded |
| TransformHelpers.ForecastItemAt | lib/transform-helpers.ts:139-166 | one loop iteration pushes the specified item for the current month |
| TransformHelpers.ForecastUpToAt | lib/transform-helpers.ts:138-170 | the k-th item built is the item for the date k months on, using the k-th draw |
| TransformHelpers.BuildNext12Forecast | lib/transform-helpers.ts:116-173 | twelve items; item i is the forecast for the date i `setMonth` steps after the start date, using draw i |
| ClimatologyProofs.ClimatologyMonthOrder | lib/transform-helpers.ts:69-99 | the summaries run January to December |
| ClimatologyProofs.YearsOfEmptyIff | lib/transform-helpers.ts:47-65 | a month has no year groups if and only if it has no readings |
| ClimatologyProofs.SummaryEmptyIff | lib/transform-helpers.ts:98-110 | a summary's count is its number of readings; mean, min, max, quartiles and spread are null exactly when the count is zero |
| ClimatologyProofs.SummaryYearlyEmptyIff | lib/transform-helpers.ts:74-110 | a month without readings has no yearly averages and no histogram bins, and a month with readings has yearly averages |
| ClimatologyProofs.GroupedYearlyEmptyIff | lib/transform-helpers.ts:70-96 | the yearly averages are empty exactly when the month has no readings |
| ClimatologyProofs.SummaryStatsOrdered | lib/transform-helpers.ts:100-107 | for a month with readings, min <= p25 <= p50 <= p75 <= max, the mean lies between min and max, and the spread is non-negative |
| ClimatologyProofs.YearlyAveragesByYear | lib/transform-helpers.ts:74-96 | the yearly averages list the month's years in ascending order; each holds its year's readings: their count (at least one), their mean, and the dated readings re-ordered by date |
| ClimatologyProofs.GroupedYears | lib/transform-helpers.ts:57-74 | the year groups are exactly the years that have readings for the month |
| ClimatologyProofs.GroupedEntries | lib/transform-helpers.ts:74-95 | every yearly average is built from its own year's readings |
| ClimatologyProofs.YearEntry | lib/transform-helpers.ts:89-94 | a year's entry carries that year's reading count, mean, and its dated readings as a permutation sorted by date |
| ClimatologyProofs.YearCountsPartition | lib/transform-helpers.ts:57-63 | counting a month's readings year by year, over all its years, gives the month's count |
| ClimatologyProofs.YearlyCountsAddUp | lib/transform-helpers.ts:92-101 | the yearly counts of a summary add up to its count |
| ClimatologyProofs.GroupedCountsAddUp | lib/transform-helpers.ts:74-96 | the yearly counts add up to the number of the month's readings |
| ClimatologyProofs.MonthsPartitionRows | lib/transform-helpers.ts:47-55 | every dated row with a mean is counted under exactly one month |
| ClimatologyProofs.ClimatologyCount | lib/transform-helpers.ts:101 | the k-th summary's count is the number of readings of month k + 1 |
| ClimatologyProofs.ClimatologyCountsAddUp | lib/transform-helpers.ts:42-111 | the twelve counts add up to the number of dated rows with a mean |
| ForecastProofs.ForecastCalendarOrder | lib/transform-helpers.ts:138-170 | from a day <= 28, item k is for the month k months after the start, and item k + 1 for the month after that |
| ForecastProofs.ForecastMonthsDistinct | lib/transform-helpers.ts:138-170 | from a day <= 28, the twelve items have distinct months and distinct labels |
| ForecastProofs.ForecastAbsentIff | lib/transform-helpers.ts:143-166 | the forecast is null exactly when the month is missing or its mean is null or zero |
| ForecastProofs.ForecastTemperatureBounds | lib/transform-helpers.ts:145-157 | the forecast lies within 2.05 degrees of the trend-adjusted mean |
| ForecastProofs.ForecastMeanOfMonth | lib/transform-helpers.ts:141-158 | for a month whose mean is m: no forecast when m is zero; otherwise m moved along the trend plus the jitter |
| ForecastProofs.SingleYearForecastNearMean | lib/transform-helpers.ts:127-157 | with fewer than two data years there is no trend, and a forecast lies within 2.05 of the month's mean |
| ForecastProofs.WarmingTrendSign | lib/transform-helpers.ts:127-136 | the trend is positive exactly when the last year's averages sum above the first year's, and negative exactly when below |
| ForecastProofs.AllYearlyAveragesContains | lib/transform-helpers.ts:123 | the flattened list holds every month's yearly averages |
| ForecastProofs.TruthyMonthHasYearlyAverage | lib/transform-helpers.ts:98-110 | a summary with a mean has at least one yearly average |
| ForecastProofs.YearlyAverageGivesDataYear | lib/transform-helpers.ts:123-145 | any yearly average gives the forecast a last data year |
| ForecastProofs.ClimatologyForecastReady | lib/transform-helpers.ts:42-145 | the aggregator's output meets the forecast's precondition |
| HistoricalRoute.Entry | app/api/weather/historical/route.ts:29-34 | `series?.[i]` is present exactly when the series exists, i is in range and the entry is not null |
| HistoricalRoute.MapDailyRows | app/api/weather/historical/route.ts:26-49 | one row per day, in order; row i is the day's date and its converted mean |
| HistoricalRoute.HistoricalRows | app/api/weather/historical/route.ts:20-49 | an error exactly when `daily` or `daily.time` is missing; otherwise the mapped rows |
| HistoricalRoute.FahrenheitRoundTrip | app/api/weather/historical/route.ts:42 | converting Celsius to Fahrenheit is inverted by the Fahrenheit to Celsius formula, both ways |
| HistoricalRoute.FahrenheitMonotone | app/api/weather/historical/route.ts:42 | the conversion keeps the order of temperatures |
| HistoricalRoute.RowMeanPresentIff | app/api/weather/historical/route.ts:28-48 | a row has the day's date, and has a mean exactly when the mean entry exists or both the max and min entries exist |
| HistoricalRoute.MeanEntryPreferred | app/api/weather/historical/route.ts:29-43 | a present mean entry is used, converted |
| HistoricalRoute.FallbackBetweenMinAndMax | app/api/weather/historical/route.ts:32-43 | without a mean, the row holds the midpoint of the converted max and min, between the two |
| ForecastMonthlyRoute.Reading | app/api/weather/forecast-monthly/route.ts:125-133 | a reading is produced only for a truthy temperature |
| ForecastMonthlyRoute.SkippedTemperatures | app/api/weather/forecast-monthly/route.ts:125-133 | zero, the empty string and null give no reading; a non-zero number is taken as is; non-empty text goes through `parseFloat` |
| ForecastMonthlyRoute.BucketPeriods | app/api/weather/forecast-monthly/route.ts:116-138 | twelve buckets, each count equal to its number of temperatures; each bucket holds exactly the readings of the periods starting in its month, in period order |
| ForecastMonthlyRoute.BucketsPartitionReadings | app/api/weather/forecast-monthly/route.ts:124-138 | every reading lands in exactly one bucket |
| ForecastMonthlyRoute.AddLiveEntries | app/api/weather/forecast-monthly/route.ts:144-156 | one live entry per month with temperatures, in month order |
| ForecastMonthlyRoute.LiveMonths | app/api/weather/forecast-monthly/route.ts:144-156 | the live entries cover exactly the months with temperatures |
| ForecastMonthlyRoute.LiveEntryBounds | app/api/weather/forecast-monthly/route.ts:147-153 | a live entry's mean, max and min are within 0.05 of the true values, ordered min <= mean <= max, and its count is the number of temperatures |
| ForecastMonthlyRoute.FallbackTableShape | app/api/weather/forecast-monthly/route.ts:159-172 | the fallback table lists months 1..12 in order, each with min < mean < max |
| ForecastMonthlyRoute.AddFallbackEntries | app/api/weather/forecast-monthly/route.ts:175-183 | appends, in table order, a count-1 fallback entry for each month without a live entry |
| ForecastMonthlyRoute.MergeCoversMonths | app/api/weather/forecast-monthly/route.ts:175-183 | the live and fallback entries together are, as a multiset, one entry per month |
| ForecastMonthlyRoute.SortedByMonthUnique | app/api/weather/forecast-monthly/route.ts:186 | two lists with the same elements, one ordered by month and one strictly ordered by month, are equal |
| ForecastMonthlyRoute.SortedMergeInMonthOrder | app/api/weather/forecast-monthly/route.ts:175-186 | sorting the merged entries by month gives one entry per month, January to December |
| ForecastMonthlyRoute.MonthlyClimatology | app/api/weather/forecast-monthly/route.ts:116-186 | bucketing, the live entries, the fallback merge and the sort return exactly the specified route climatology |
| ForecastMonthlyRoute.MergedIsRouteClimatology | app/api/weather/forecast-monthly/route.ts:116-186 | the merged list built from the buckets is the route climatology of the periods |
| ForecastMonthlyRoute.RouteClimatology | app/api/weather/forecast-monthly/route.ts:141-186 | the climatology has twelve entries |
| ForecastMonthlyRoute.RouteClimatologyMonths | app/api/weather/forecast-monthly/route.ts:141-186 | entry i is month i + 1, months strictly increase, and every count is at least 1 |
| ForecastMonthlyRoute.LiveEntryPreferred | app/api/weather/forecast-monthly/route.ts:144-183 | a month with readings keeps its live entry (rounded mean, max and min of its readings; count = number of readings) |
| ForecastMonthlyRoute.FallbackForMissingMonth | app/api/weather/forecast-monthly/route.ts:175-183 | a month without readings gets its fallback row with count 1 |
| ForecastMonthlyRoute.RouteForecastItems | app/api/weather/forecast-monthly/route.ts:245-251 | twelve items, January to December of the current year, each forecasting its month's climatology mean, with distinct labels |
| CityConfig.FindById | lib/city-config.ts:23-25 | `find` returns nothing exactly when no city has the id; otherwise it returns a city from the table with that id |
| CityConfig.FindByIdFirst | lib/city-config.ts:24 | `find` returns the earliest city with the id |
| CityConfig.AustinIsTheDefault | lib/city-config.ts:11-29 | "austin" is the only known id; it names the default city, Austin, in the America/Chicago time zone |
| CityConfig.EveryRequestGetsTheDefault | app/api/weather/forecast-monthly/route.ts:96-98 | whatever city id a request carries, the route serves the default city |

## Left out

- Network and I/O are not modelled: the archive and forecast fetches, the grid-point lookup and the JSON responses. The routes start from the parsed response. The historical route's error response is `None`.
- Time is an input. The host clock (`getChicagoToday`, `getCityToday`) is replaced by a `year` parameter in the monthly-forecast route and a start date in the forecast.
- `Math.random` is an input. The forecast takes twelve draws in [0, 1), one per month, and uses draw i for month i. The source calls `Math.random` only for months with a truthy mean. The sequence of values it consumes differs, but each month's forecast is the same function of its draw.
- Numbers are exact reals. IEEE-754 rounding, NaN and the infinities are not modelled, so the rounding lemmas hold for exact arithmetic only.
- StatsHelpers.Variance: models `std` without its final `Math.sqrt`. Square roots of reals are not expressible here, so `MonthSummary` carries the population variance in a `variance` field where the source has `std`. Because a root is zero exactly when its argument is, the zero/null cases carry over.
- StatsHelpers.Histogram: follows the code, not the documented intent. The documentation promises that the bin counts add up to the number of values. The code drops the maximum when it lies exactly on a multiple of the bin width, and gives no bins for a list whose values are all the same integer. HistogramCountsAllUnlessMaxOnBoundary and HistogramOfConstantIntegerIsEmpty state exactly when that happens.
- StatsHelpers.Histogram: requires a positive bin width. With a negative width w the bin loop (lib/stats-helpers.ts:55) counts downwards. It never stops when floor(min/w) > ceil(max/w), and otherwise gives no bins; for example, [1.5] and [70, 70] with width -1 both give []. With width zero the divisions at lib/stats-helpers.ts:50-51 give NaN bounds and no bins. The only caller passes width 1 (lib/transform-helpers.ts:108).
- StatsHelpers.Quantile: requires q >= 0. For a negative q the index at lib/stats-helpers.ts:17 is -0 or below, and the result depends on the list. For a single value the index is -0, and line 23 returns that value. For a negative whole-number index, line 23 reads a negative position and returns `undefined`. Otherwise line 25 reads `sorted[lower]` at a negative position and returns NaN. Every caller passes 25, 50 or 75 (lib/transform-helpers.ts:104-106).
- The bin starts are the repeated sums `binStart += binWidth`, taken exactly. Floating-point drift in that loop is not modelled.
- DateHelpers.ParseIsoDate: keeps only exact, valid `YYYY-MM-DD` text (four-digit year, two-digit month 1-12, two-digit day within the month). JavaScript's `Date` also accepts other spellings such as "2025/03/05" or "2025-3-5" and rolls an overflowing day such as "2025-02-30" into the next month; a row with a mean and such a date is counted under a month by the code but dropped by the model. Rows whose date `Date` cannot read at all are filed by the code under a NaN month key that is never read, so for them the two agree. For the text the model accepts, `new Date(s)` reads UTC midnight and `getMonth` uses the host's time zone, so the two agree on a UTC host; west of UTC, JavaScript files the first of each month under the previous month, and the model does not reproduce that shift.
- TransformHelpers.BuildNext12Forecast: requires that some yearly average exists whenever some month has a truthy mean. Without one, JavaScript computes NaN from `uniqueYears[-1]`. ClimatologyForecastReady proves that the aggregator's output always meets the requirement.
- `fromDate` is a valid calendar date. The twelve steps use `setMonth` overflow on the Gregorian calendar, so an invalid `Date` is not modelled.
- ForecastMonthlyRoute.BucketPeriods: a period's start month is given as a month 1..12. A `startTime` that does not parse gives JavaScript a NaN month, and then `monthlyData[NaN].temps` throws. That error path is not modelled.
- `parseFloat` is a function parameter that returns `None` for NaN. Temperatures that are neither numbers nor strings, and NaN numbers, are not modelled.
- `Object.entries` over objects whose keys are integers lists them in ascending order. The yearly groups use `IndexKeys` for this. In the monthly-forecast route the twelve bucket keys are visited as months 1..12.
- The monthly-forecast route's historical-data synthesis and its `historicalData` result are not part of this model.
- The NWS and Open-Meteo request helpers, `getTenYearStartDate`, `getYesterdayISO` and `getMonthEmoji` are not part of this model. Neither are the page and its UI components.
- The forecast item's `label` field is named `labelText`, because `label` is reserved in Dafny.
