# market-data: daily append and two-week charts, modelled in Dafny

The repository keeps a table of daily market prices (`market_data.csv`) and
draws charts from it. Two programs make up its logic:

- `fetch_market_data.py` runs once a day: it takes the latest close of the
  Nikkei 225 (`^N225`), the S&P 500 (`^GSPC`) and gold futures (`GC=F`),
  rounds each to two decimals, and appends one row dated today
  (`nikkei_225`, `sp500`, `gold_usd`) to the table, or starts the table with
  that row if there is no file yet. It never removes duplicates and never
  computes changes.
- `plot_market_chart.py` sorts the table by date, keeps the 14 latest rows,
  flags each as a holiday (from a `market_open` column when the table has
  one, otherwise Saturday or Sunday), and for each of three configured
  charts (S&P 500, WTI, US 10-year yield) either skips it, when its price or
  change column is missing, or plots the non-holiday rows and shades one
  band per holiday row.

Files:

- `wrappers.dfy`: `Option` and `Result`.
- `calendar.dfy`: dates as day numbers since 1970-01-01 (a Thursday) and
  `Weekday(n) = (n + 3) % 7` with Monday = 0.
- `market_table.dfy`: a `Row` is a date and a map from column name to a
  fixed-point integer; a column missing from the map is an empty (NaN)
  cell. A `Table` is its set of column names and its rows.
- `chart_window.dfy`: the chart step, as functions for the sort, the tail,
  the holiday flag and the trading-day filter, and as methods with loops for
  the band loop and the chart loop.
- `market_fetch.dfy`: the daily update. Building the row and appending are
  functions; the persisted file is the class `MarketStore`, whose `Update`
  method is one run.
- `pipeline.dfy`: facts about the two programs together.

Neither program computes forward-filled calendar windows, change columns,
the `market_open` flag, an overwrite mode or a gold migration. The chart
step reads `sp500_change`, `wti`, `us10y` and `market_open`, which the daily
update never writes. One consequence is proved in
`Pipeline.FetchedTableSkipsEveryChart`: a table written only by the daily
update has no change columns, so the chart step skips all three charts.

## Model

| member | source | states |
|---|---|---|
| Calendar.Weekday | plot_market_chart.py:15 | the weekday lies in 0..6 and is the one congruent to the day number plus 3 modulo 7, so day 0 (1970-01-01) is a Thursday and Monday is 0 |
| Calendar.WeekdayPeriodic | plot_market_chart.py:15 | the weekday repeats every seven days, for any number of weeks forward or back |
| Calendar.NextWeekday | plot_market_chart.py:15 | the next day's weekday is one more, with Sunday followed by Monday |
| Calendar.TwoWeekendDaysPerWeek | plot_market_chart.py:15 | the weekend fallback marks exactly two days of any seven consecutive days |
| ChartWindow.InsertByDate | plot_market_chart.py:8 | inserting a row adds exactly that row to the multiset and puts either it or the old first row first |
| ChartWindow.InsertByDateSorted | plot_market_chart.py:8 | inserting into a date-ordered sequence keeps it date-ordered |
| ChartWindow.SortByDate | plot_market_chart.py:8 | `SortByDate` computes `sort_values('date')`: the sorted table is a permutation of the stored rows and is in non-decreasing date order |
| ChartWindow.SortByDateKeepsSorted | plot_market_chart.py:8 | a table already in date order is returned unchanged by the sort |
| ChartWindow.LastRowsSplit | plot_market_chart.py:9 | `LastRows` computes `tail(n)`: the tail of a date-ordered sequence has min(n, length) rows, is its final part, is date-ordered and is dated on or after every earlier row |
| ChartWindow.LatestSplit | plot_market_chart.py:8-9 | for any date-ordered sequence, its last 14 rows and the rows dropped before them split it, with no dropped row dated after a kept one |
| ChartWindow.ChartRowsAreLatest | plot_market_chart.py:8-9 | `ChartRows` computes the window (sort, then `LastRows(_, 14)`): the window holds min(14, n) rows in date order; the sorted table is the dropped rows followed by the window; no dropped row is dated after a kept row; dropped plus kept rows are exactly the stored rows |
| ChartWindow.HolidayRule | plot_market_chart.py:12-15 | `IsHoliday` computes the is_holiday flag: with a market_open column a row is a holiday iff its market_open cell exists and equals 0; without it iff its weekday is 5 or 6 |
| ChartWindow.RowsWhereAppend | plot_market_chart.py:63 | `RowsWhere` computes the boolean-mask selection (`TradingDays` for `df[~df['is_holiday']]`, `HolidayRows` for the rows the band loop shades): selecting rows by flag distributes over concatenation, so the selection keeps window order |
| ChartWindow.RowsWhereExact | plot_market_chart.py:63 | a row is selected iff it is in the window and its holiday flag has the requested value |
| ChartWindow.RowsWherePartition | plot_market_chart.py:54-63 | trading rows and holiday rows together are exactly the window's rows (as a multiset and in number) |
| ChartWindow.RowsWhereSorted | plot_market_chart.py:63 | the rows selected from a date-ordered window are in date order |
| ChartWindow.HolidayBands | plot_market_chart.py:54-60 | the `iterrows` loop, proved equal to `BandsOver(HolidayRows(...))`: the band loop emits exactly one band per holiday row, in row order, each from 12 hours before to 12 hours after that day's midnight |
| ChartWindow.ChartSkipRule | plot_market_chart.py:44-49 | `ChartFor` computes one chart's outcome: a chart is skipped iff its price column or its change column is missing, and its outcome keeps its file name |
| ChartWindow.ChartDrawn | plot_market_chart.py:54-67 | `ChartFor` draws `BandsOver` of the holiday rows and `PlotPoints` of the trading rows: a drawn chart has one band per holiday row and one point per trading row, together as many as the window's rows; the points are the trading rows' dates and price cells, in date order over a date-ordered window |
| ChartWindow.RenderCharts | plot_market_chart.py:44-67 | the chart loop yields one outcome per configured chart, each decided by that chart alone, so a skipped chart does not stop the ones after it |
| MarketFetch.LastClose | fetch_market_data.py:17-19 | a close exists iff the history is non-empty, and it is the history's last element |
| MarketFetch.RoundToHundredths | fetch_market_data.py:24-26 | the stored price in hundredths is within half a hundredth of the close, and an exact tie goes to the even neighbour |
| MarketFetch.RoundingIsUnique | fetch_market_data.py:24-26 | those two properties determine the rounded price: any value meeting both is the one returned |
| MarketFetch.RoundingKeepsHundredths | fetch_market_data.py:24-26 | a close that already has at most two decimals is stored unchanged |
| MarketFetch.NewRowSpec | fetch_market_data.py:17-27 | `NewRow` computes the run's row or error: a run yields a row iff all three histories are non-empty, and otherwise names the first instrument, in fetch order, whose history is empty; the row is dated today, fills exactly nikkei_225, sp500 and gold_usd, each the instrument's last close rounded |
| MarketFetch.AppendKeepsHistory | fetch_market_data.py:31-32 | `Appended` computes the table written back (`concat`, or the new row alone): with a stored table the new table has one more row, the stored rows unchanged and in order before it, the new row last, and every old column |
| MarketFetch.AppendToNothing | fetch_market_data.py:33-34 | without a stored table the new table is the single new row with the new row's columns |
| MarketFetch.AppendKeepsWellFormed | fetch_market_data.py:32 | after appending, every row's cells still belong to the table's columns (earlier rows are empty in the new columns) |
| MarketFetch.NoDeduplication | fetch_market_data.py:32 | two appends with the same date add two rows with that date, whatever the table held |
| MarketFetch.MarketStore.constructor | fetch_market_data.py:30-34 | the store starts as the file read from disk, or absent |
| MarketFetch.MarketStore.Append | fetch_market_data.py:30-36 | the stored table becomes the appended table (old rows plus the new row, or the new row alone) and stays well formed |
| MarketFetch.MarketStore.Update | fetch_market_data.py:17-36 | one run returns the row of NewRow; on a missing close the store is unchanged, otherwise it holds the appended table |
| Pipeline.FetchedTableSkipsEveryChart | plot_market_chart.py:44-49 | a table holding only the daily update's columns makes every configured chart skip |
| Pipeline.SortEndsWithLatest | plot_market_chart.py:8 | any date-ordered arrangement of rows ends with the row dated strictly after all others |
| Pipeline.AppendedRowEndsWindow | plot_market_chart.py:8-9 | after appending a row dated later than every stored row, the chart window holds min(14, n + 1) rows and ends with that row |

## Left out

- Quote retrieval (`yf.Ticker(...).history(period="1d")`): network I/O; each instrument's history is an input sequence of closes.
- Reading and writing `market_data.csv` and pandas parsing (`read_csv`, `to_csv`, `to_datetime`): file I/O; the file is `MarketStore`'s state, and a missing file is `present == false` (an `Option` input to the constructor).
- A stored file that exists but is empty or unparsable makes the update crash before writing; the model has no malformed-file state.
- The chart step crashes when `market_data.csv` is missing; the model starts from a table.
- `datetime.now()` and date formatting: "today" is a day-number input.
- matplotlib rendering (figure size, colours, titles, labels, ticks, saving the SVG): presentation. Bands are kept as exact hour intervals and points as (day, cell) pairs.
- Console output (`print`) in both programs.
- ChartWindow.SortByDate: pandas' default sort is not stable, so rows with equal dates may come out in another order; the model keeps their stored order. The window lemmas other than `SortByDateKeepsSorted` hold for any date-ordered permutation.
- MarketFetch.RoundToHundredths: closes are exact ten-thousandths; the binary floating-point value behind a close, and rounding errors of `round(x, 2)` on it, are not modelled.
- The chart step also sees `date` and the added `is_holiday` as columns; the model's column set holds only the price and flag columns, which is the same for the three configured charts, since none names those two.
- Forward-fill, change and percent-change computation, deriving `market_open`, overwrite mode and the gold_usd to gold_jpy migration: not implemented by either program.
