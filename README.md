# Bike-rental dashboard: the aggregation layer

This project models the data-aggregation layer of a Streamlit dashboard over
hourly bike-rental records. The data set is filtered to the chosen date range
(`main_df`), and the filtered records feed six summary tables:

- `create_relative_optimal`: each record's count relative to the mean count
  of its hour, averaged per (season, temperature bucket, humidity bucket,
  weather situation). Groups with fewer than `MIN_SAMPLE_SIZE` = 10 samples
  are dropped.
- `create_hourly_usage`: mean casual, registered and total counts per
  (hour, weekend) with a casual-to-registered ratio. The table is split
  into weekday rows and weekend rows.
- `create_monthly_trends`: sums per (year, month) with the date of the
  first of that month.
- `create_seasonal_ratio`: sums per season with each user type's
  percentage of the total.
- the mean-count tables by temperature bucket and by weather situation.

Files:

- `wrappers.dfy`: `Option` and `Result`.
- `keys.dfy`: group keys as integer sequences in lexicographic order.
- `group_by.dfy`: a generic sorting group-by (`Grouping.GroupBy`) with
  sums, means, row masks (`Grouping.Where`) and their laws.
- `rental.dfy`: the hourly record and its dates.
- `dashboard.dfy`: the date filter and the five functions and panels above.

A pandas group-by is `Grouping.GroupBy`. It yields one group per observed
key, with keys strictly ascending, and each group holds the rows with its
key in input order. Means and ratios are exact `real`s. Where the dashboard
divides by zero and gets NaN or infinity, the model gives `None`. Every
table also gets a reference definition stated directly on the input
records, and a lemma proves that the pipeline equals it.

Modelling decisions:

- The one mutation of the caller's frame is the `is_weekend` column that
  `create_hourly_usage` adds to its argument. Adding `relative_performance`
  to the merged frame is another column write. Both become functions that
  return the extended frame (`WithWeekendFlag`, `WithRelativePerformance`).
  Nothing later reads those columns back from the caller's frame.
- The bucket columns (season, temperature and humidity buckets, weather
  situation) are integer codes numbered in the order in which pandas sorts
  the column's values. The data set is read without dtypes, so no column is
  a pandas categorical, `observed=True` has no effect, and a group-by sorts
  by the raw values. The "ascending" claims below are about that order.
- The weekend flag is a key column coded 0/1, so weekday rows sort before
  weekend rows, as booleans do in pandas.
- Every division by zero gets `None` instead of a precondition that rules it
  out:
  - a zero hourly baseline;
  - a zero registered mean;
  - a season with no rentals.
  
  `UndefinedOnlyForZeroCount` shows that a zero baseline occurs only for
  records whose count is 0. Those ratios are 0/0 = NaN, which pandas' `mean`
  and `count` skip, and the model skips them too.
- The filter follows the dashboard: a start date after the end date selects
  no record, every table is then empty, and nothing raises an error
  (`FilterDateRange`).
- The monthly date is assembled as pandas does it. The number
  year * 10000 + month * 100 + 1 is read back as YYYYMMDD, so a month
  outside 1 to 12 carries into the year (`AssembledDate`). Month 112 of
  2011 is December 2012. The model's assembly fails only when the carried
  month is 0 or above 12; pandas' further failures on the carried year are
  listed under "## Left out".

## Model

| member | source | states |
|---|---|---|
| Dashboard.FilterDateRange | dashboard.py:92-93 | keeps exactly the records with start <= dteday <= end, each as often as in the data set, in original order; nothing when start is after end |
| Dashboard.MinDate | dashboard.py:79 | an occurring date that no record's date precedes |
| Dashboard.MaxDate | dashboard.py:80 | an occurring date that no record's date follows |
| Dashboard.DefaultRangeKeepsAll | dashboard.py:87-93 | the picker's initial range, first to last date, keeps every record |
| Grouping.GroupBy | dashboard.py:15 | one group per observed key, keys strictly ascending, each group exactly the rows with its key and never empty |
| Grouping.GroupByConservesSum | dashboard.py:56-60 | summing a column per group and then over the groups gives the input total |
| Grouping.WherePartition | dashboard.py:48-49 | a mask and its negation split the rows, each row into exactly one side |
| Grouping.WhereKeepsOrder | dashboard.py:48-49 | a row mask keeps the relative order of the rows it keeps |
| Dashboard.HourlyBaselineCorrect | dashboard.py:15-16 | `HourlyBaseline` has one baseline row per observed hour, hours ascending, each the mean count of its hour's records |
| Dashboard.LookupBaseline | dashboard.py:17 | finds a baseline exactly when the table has the hour, and the one it finds belongs to that hour |
| Dashboard.MergeKeepsEveryRecord | dashboard.py:17 | for `MergeBaseline`: when every hour has a baseline, the inner join on hour keeps every record in order, each with its own hour's baseline |
| Dashboard.ScoredMatchesReference | dashboard.py:15-21 | in `Scored`, the baseline join followed by `WithRelativePerformance`, each scored record is the input record at that position, with the mean count of its hour and relative performance cnt / mean (NaN where the mean is 0) |
| Dashboard.UndefinedOnlyForZeroCount | dashboard.py:21 | a relative performance is NaN only for a record with count 0 (0/0, never a non-zero count over 0) |
| Dashboard.RelativeOptimal | dashboard.py:24-30 | every returned group has at least 10 samples and a defined mean |
| Dashboard.RelativeOptimalCorrect | dashboard.py:8-30 | the filter over `PerfTable` (dashboard.py:24-27) is exact: a group is returned exactly when it is observed and has at least 10 non-NaN samples, with that count and their mean relative performance |
| Dashboard.RelativeOptimalSorted | dashboard.py:24-27 | the groups come in strictly ascending (season, temp, humidity, weather) order |
| Dashboard.WithWeekendFlag | dashboard.py:37 | keeps every record in place and flags it weekend exactly when its weekday is Saturday or Sunday |
| Dashboard.HourlyUsage | dashboard.py:47-51 | weekday rows all unflagged, weekend rows all flagged, and the two together are the hourly table, each row once |
| Dashboard.HourlyUsageRows | dashboard.py:40-47 | each row of `HourlyUsageTable`, as split into the two outputs, has casual, registered and total values that are the means over its hour's records of its day kind; its ratio is casual mean / registered mean, undefined when the registered mean is 0 |
| Dashboard.HourlyUsageKeys | dashboard.py:40-49 | the weekday output has a row for exactly the hours observed on weekdays; the weekend output for exactly those observed on Saturday or Sunday |
| Dashboard.HourlyUsageSorted | dashboard.py:40-49 | each output is strictly ascending by hour |
| Dashboard.HourlyUsageConstantWeekdays | dashboard.py:35-51 | weekday-only records with casual 0 and registered and total 100 give no weekend rows, and one row per observed hour with means 0/100/100 and ratio 0 |
| Dashboard.AssembledDate | dashboard.py:63 | keeps year * 100 + month (the YYYYMM digits) with a month of 0 to 99 and day 1, and is the first of that month for months 1 to 12 |
| Dashboard.AssembledDateCarries | dashboard.py:63 | moving hundreds of months into the year does not change the assembled date |
| Dashboard.FoldedMonthsShareADate | dashboard.py:56-63 | (2011, 101) and (2012, 1) are different keys that assemble the same date, 2012-01-01 |
| Dashboard.MonthlyTrends | dashboard.py:54-64 | succeeds exactly when every record's month, after carrying into the year, is 1 to 12, and always when every month is 1 to 12 |
| Dashboard.MonthlyTrendsRows | dashboard.py:56-63 | the rows of `MonthTable`: one per observed (year, month), strictly ascending by (year, month); each holds its month's sums and its assembled date; with every month 1 to 12, dates ascend strictly |
| Dashboard.MonthlyTrendsTotals | dashboard.py:56-60 | the monthly casual, registered and total sums add up to the input totals |
| Dashboard.SeasonalRatioRows | dashboard.py:67-72 | `SeasonalRatio` has one row per observed season, ascending, each with its season's sums and its two percentages of its total, casual / cnt * 100 and registered / cnt * 100, undefined when cnt is 0 |
| Dashboard.SeasonalRatioHasSeason | dashboard.py:68-72 | a season has a row of the seasonal table exactly when it occurs in the records |
| Dashboard.SeasonalPercentsOfTotals | dashboard.py:74-75 | a season with sums 30/70/100 shows 30% casual and 70% registered; one with 50/50/100 shows 50% and 50% |
| Dashboard.SeasonalRatioTotals | dashboard.py:68-72 | the seasonal sums add up to the input totals |
| Dashboard.SeasonalPercentsAddUp | dashboard.py:74-75 | when every record has cnt = casual + registered, a season with rentals has two percentages in [0, 100] summing to exactly 100, and a season without rentals has neither |
| Dashboard.MeanCntByCorrect | dashboard.py:158-160 | a mean-count table `MeanCntBy` has one row per observed column value, ascending, each with the mean count of its records |
| Dashboard.TempImpact | dashboard.py:158-160 | one row per observed temperature bucket, ascending, each with the mean count of its records |
| Dashboard.WeatherImpact | dashboard.py:173-175 | one row per observed weather situation, ascending, each with the mean count of its records |

## Left out

- Loading the CSV file (dashboard.py:10): file I/O. The data set is a parameter.
- The Streamlit widgets, headers, tabs and columns, and all matplotlib and seaborn plotting: these are presentation. The date picker appears only as the two dates it returns.
- The `seasons` label list (dashboard.py:11): it is used only for tick labels.
- IEEE floating-point rounding: means, ratios and percentages are exact reals.
- NaN versus infinity: both are `None`. Equality with 100 holds in exact arithmetic, not within a rounding tolerance.
- pandas internals: `reset_index`, the MultiIndex column names such as `('relative_performance', 'count')`, and the in-place rename to `baseline_cnt`. Rows are plain datatypes with named fields.
- The string comparison of `dteday` with `str(start_date)`: dates are (year, month, day) triples compared lexicographically, which is how ISO date strings compare.
- Dashboard.MonthlyTrends: pandas also rejects dates whose carried year does not read as four digits or lies outside what its timestamps can hold (a negative assembled number, for one). The model checks only the carried month, and day 1 is always valid.
- The in-place `is_weekend` column that `create_hourly_usage` adds to the caller's frame: the model returns the extended frame instead. No aliasing between frames is modelled.
- The inner join's row order: the model keeps the left frame's order, which pandas versions before 2.2 do not for an inner merge. The next step is a group-by, and its groups do not depend on row order.
- Dashboard.MergeBaseline: with a repeated hour in the baseline table it keeps one joined row per record where an inner merge keeps one per match. The baseline table the dashboard builds has distinct hours.
