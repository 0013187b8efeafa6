/** The charting step of plot_market_chart.py: which stored rows make up
    the two-week window, which of them are non-trading days, and what each
    configured chart draws (points for trading days, one shaded band per
    non-trading day) or whether it is skipped. */
module ChartWindow {
  import opened Wrappers
  import opened MarketTable
  import Calendar

  /** Number of most recent rows a chart shows. */
  const WindowSize: nat := 14

  /** Optional column whose value 0 marks a day the markets were closed. */
  const MarketOpenColumn: string := "market_open"

  predicate SortedByDate(s: seq<Row>)
  {
    forall i, j :: 0 <= i < j < |s| ==> s[i].date <= s[j].date
  }

  // ---------------------------------------------------------------------
  // Window selection: sort by date, keep the last WindowSize rows
  // ---------------------------------------------------------------------

  /** Puts `r` in front of the first row of `s` dated on or after it. */
  function InsertByDate(r: Row, s: seq<Row>): (t: seq<Row>)
    ensures multiset(t) == multiset(s) + multiset{r}
    ensures |t| == |s| + 1
    ensures t[0] == r || (|s| > 0 && t[0] == s[0])
  {
    if s == [] || r.date <= s[0].date then
      [r] + s
    else
      assert s == [s[0]] + s[1..];
      [s[0]] + InsertByDate(r, s[1..])
  }

  /** Inserting into a date-ordered sequence keeps it date-ordered. */
  lemma {:induction false} InsertByDateSorted(r: Row, s: seq<Row>)
    requires SortedByDate(s)
    ensures SortedByDate(InsertByDate(r, s))
  {
    if s != [] && r.date > s[0].date {
      assert SortedByDate(s[1..]);
      InsertByDateSorted(r, s[1..]);
      var rest := InsertByDate(r, s[1..]);
      forall j | 0 <= j < |rest|
        ensures s[0].date <= rest[j].date
      {
        assert s[0].date <= rest[0].date;
        if j > 0 {
          assert rest[0].date <= rest[j].date;
        }
      }
      var t := InsertByDate(r, s);
      assert t == [s[0]] + rest;
      forall i, j | 0 <= i < j < |t|
        ensures t[i].date <= t[j].date
      {
        if i > 0 {
          assert t[i] == rest[i - 1] && t[j] == rest[j - 1];
        } else {
          assert t[j] == rest[j - 1];
        }
      }
    }
  }

  /** The rows ordered by date (`sort_values('date')`); rows with equal
      dates keep their stored order. */
  function SortByDate(s: seq<Row>): (t: seq<Row>)
    ensures multiset(t) == multiset(s)
    ensures |t| == |s|
    ensures SortedByDate(t)
  {
    if s == [] then [] else
      assert s == [s[0]] + s[1..];
      var sortedRest := SortByDate(s[1..]);
      InsertByDateSorted(s[0], sortedRest);
      InsertByDate(s[0], sortedRest)
  }

  /** A table already in date order is left as it is by the sort. */
  lemma {:induction false} SortByDateKeepsSorted(s: seq<Row>)
    requires SortedByDate(s)
    ensures SortByDate(s) == s
  {
    if s != [] {
      assert SortedByDate(s[1..]);
      SortByDateKeepsSorted(s[1..]);
      assert s == [s[0]] + s[1..];
    }
  }

  /** The last `n` rows of `s` (`tail(n)`), or all of them when there are fewer. */
  function LastRows(s: seq<Row>, n: nat): seq<Row>
  {
    if |s| <= n then s else s[|s| - n..]
  }

  /** The rows a chart shows: the latest WindowSize rows of the table in date order. */
  function ChartRows(t: Table): seq<Row>
  {
    LastRows(SortByDate(t.rows), WindowSize)
  }

  /** Over a date-ordered sequence, the last `n` rows are its final part,
      in date order, and dated on or after every row before them. */
  lemma LastRowsSplit(s: seq<Row>, n: nat)
    requires SortedByDate(s)
    ensures |LastRows(s, n)| == if |s| < n then |s| else n
    ensures s == s[..|s| - |LastRows(s, n)|] + LastRows(s, n)
    ensures SortedByDate(LastRows(s, n))
    ensures forall i, j :: 0 <= i < |s| - |LastRows(s, n)| <= j < |s| ==> s[i].date <= s[j].date
  {
  }

  /** The window holds min(14, n) rows, in date order, and is the latest
      part of the sorted table: the sorted table is the dropped rows followed
      by the window, no dropped row is dated after any kept row, and
      dropped and kept rows together are exactly the stored rows. */
  lemma ChartRowsAreLatest(t: Table, sorted: seq<Row>, window: seq<Row>, dropped: seq<Row>)
    requires sorted == SortByDate(t.rows)
    requires window == ChartRows(t)
    requires dropped == sorted[..|sorted| - |window|]
    ensures |window| == if |t.rows| < WindowSize then |t.rows| else WindowSize
    ensures SortedByDate(window)
    ensures sorted == dropped + window
    ensures multiset(dropped) + multiset(window) == multiset(t.rows)
    ensures forall i, j :: 0 <= i < |dropped| && 0 <= j < |window| ==> dropped[i].date <= window[j].date
  {
    assert window == LastRows(sorted, WindowSize);
    assert multiset(sorted) == multiset(t.rows) && |sorted| == |t.rows| && SortedByDate(sorted);
    LatestSplit(sorted, window, dropped);
  }

  /** The same facts for any date-ordered sequence and its last WindowSize rows. */
  lemma LatestSplit(sorted: seq<Row>, window: seq<Row>, dropped: seq<Row>)
    requires SortedByDate(sorted)
    requires window == LastRows(sorted, WindowSize)
    requires dropped == sorted[..|sorted| - |window|]
    ensures |window| == if |sorted| < WindowSize then |sorted| else WindowSize
    ensures SortedByDate(window)
    ensures sorted == dropped + window
    ensures multiset(dropped) + multiset(window) == multiset(sorted)
    ensures forall i, j :: 0 <= i < |dropped| && 0 <= j < |window| ==> dropped[i].date <= window[j].date
  {
    LastRowsSplit(sorted, WindowSize);
    forall i, j | 0 <= i < |dropped| && 0 <= j < |window|
      ensures dropped[i].date <= window[j].date
    {
      assert dropped[i] == sorted[i] && window[j] == sorted[|dropped| + j];
    }
  }

  // ---------------------------------------------------------------------
  // Trading-day classification
  // ---------------------------------------------------------------------

  /** The `is_holiday` flag of a row: with a market_open column, the row is
      a holiday exactly when its market_open cell is 0 (an empty cell does
      not compare equal to 0); without it, exactly when it falls on a
      Saturday or Sunday. */
  predicate IsHoliday(columns: set<string>, r: Row)
  {
    if MarketOpenColumn in columns then Cell(r, MarketOpenColumn) == Some(0)
    else Calendar.IsWeekend(r.date)
  }

  /** Both branches of the flag, each as an if-and-only-if. */
  lemma HolidayRule(columns: set<string>, r: Row)
    ensures MarketOpenColumn in columns ==>
              (IsHoliday(columns, r) <==> MarketOpenColumn in r.cells && r.cells[MarketOpenColumn] == 0)
    ensures MarketOpenColumn !in columns ==>
              (IsHoliday(columns, r) <==> Calendar.Weekday(r.date) == 5 || Calendar.Weekday(r.date) == 6)
  {
  }

  /** The rows whose flag equals `holiday`, in their original order. */
  function RowsWhere(columns: set<string>, rows: seq<Row>, holiday: bool): seq<Row>
  {
    if rows == [] then []
    else (if IsHoliday(columns, rows[0]) == holiday then [rows[0]] else [])
         + RowsWhere(columns, rows[1..], holiday)
  }

  /** What is plotted: the window's rows that are not holidays (`df[~df['is_holiday']]`). */
  function TradingDays(columns: set<string>, rows: seq<Row>): seq<Row>
  {
    RowsWhere(columns, rows, false)
  }

  /** What gets shaded: the window's holiday rows. */
  function HolidayRows(columns: set<string>, rows: seq<Row>): seq<Row>
  {
    RowsWhere(columns, rows, true)
  }

  /** Selecting rows distributes over concatenation, so it keeps their order. */
  lemma {:induction false} RowsWhereAppend(columns: set<string>, a: seq<Row>, b: seq<Row>, holiday: bool)
    ensures RowsWhere(columns, a + b, holiday) == RowsWhere(columns, a, holiday) + RowsWhere(columns, b, holiday)
  {
    if a == [] {
      assert a + b == b;
    } else {
      assert a + b == [a[0]] + (a[1..] + b);
      assert (a + b)[1..] == a[1..] + b;
      RowsWhereAppend(columns, a[1..], b, holiday);
    }
  }

  /** The trading days and the holidays split the rows: together they hold
      every row as many times as the input does. */
  lemma {:induction false} RowsWherePartition(columns: set<string>, rows: seq<Row>)
    ensures multiset(TradingDays(columns, rows)) + multiset(HolidayRows(columns, rows)) == multiset(rows)
    ensures |TradingDays(columns, rows)| + |HolidayRows(columns, rows)| == |rows|
  {
    if rows != [] {
      RowsWherePartition(columns, rows[1..]);
      assert rows == [rows[0]] + rows[1..];
    }
  }

  /** A row is selected exactly when it is in the input with the requested flag. */
  lemma {:induction false} RowsWhereExact(columns: set<string>, rows: seq<Row>, holiday: bool)
    ensures forall x :: x in RowsWhere(columns, rows, holiday) <==> x in rows && IsHoliday(columns, x) == holiday
  {
    if rows != [] {
      RowsWhereExact(columns, rows[1..], holiday);
      assert rows == [rows[0]] + rows[1..];
    }
  }

  /** A selection from rows in date order is in date order. */
  lemma {:induction false} RowsWhereSorted(columns: set<string>, rows: seq<Row>, holiday: bool)
    requires SortedByDate(rows)
    ensures SortedByDate(RowsWhere(columns, rows, holiday))
  {
    if rows != [] {
      var rest := RowsWhere(columns, rows[1..], holiday);
      assert SortedByDate(rows[1..]);
      RowsWhereSorted(columns, rows[1..], holiday);
      RowsWhereExact(columns, rows[1..], holiday);
      forall j | 0 <= j < |rest|
        ensures rows[0].date <= rest[j].date
      {
        assert rest[j] in rows[1..];
      }
    }
  }

  // ---------------------------------------------------------------------
  // What one chart draws
  // ---------------------------------------------------------------------

  /** A shaded interval, in hours since the epoch. */
  datatype Band = Band(startHour: int, endHour: int)

  /** A plotted point: the day and the chart column's cell (empty cells stay empty). */
  datatype Point = Point(day: int, value: Option<int>)

  /** The band of one non-trading day: from twelve hours before its
      midnight to twelve hours after. */
  function BandAround(day: int): Band
  {
    Band(24 * day - 12, 24 * day + 12)
  }

  /** One band per holiday row, in row order. */
  function BandsOver(holidays: seq<Row>): seq<Band>
  {
    seq(|holidays|, k requires 0 <= k < |holidays| => BandAround(holidays[k].date))
  }

  /** The points of one chart: the trading days' dates against the chart column. */
  function PlotPoints(columns: set<string>, rows: seq<Row>, column: string): seq<Point>
  {
    var trading := TradingDays(columns, rows);
    seq(|trading|, k requires 0 <= k < |trading| => Point(trading[k].date, Cell(trading[k], column)))
  }

  /** The band loop: walks the window row by row and emits one band for
      each holiday row. */
  method HolidayBands(columns: set<string>, rows: seq<Row>) returns (bands: seq<Band>)
    ensures bands == BandsOver(HolidayRows(columns, rows))
  {
    bands := [];
    var i := 0;
    while i < |rows|
      invariant 0 <= i <= |rows|
      invariant |bands| == |HolidayRows(columns, rows[..i])|
      invariant forall k :: 0 <= k < |bands| ==> bands[k] == BandAround(HolidayRows(columns, rows[..i])[k].date)
    {
      assert rows[..i + 1] == rows[..i] + [rows[i]];
      RowsWhereAppend(columns, rows[..i], [rows[i]], true);
      if IsHoliday(columns, rows[i]) {
        bands := bands + [BandAround(rows[i].date)];
      }
      i := i + 1;
    }
    assert rows[..i] == rows;
  }

  // ---------------------------------------------------------------------
  // The configured charts and the chart loop
  // ---------------------------------------------------------------------

  /** One configured chart: its price column, the change column it also
      needs, its title and its output file. */
  datatype ChartSpec = ChartSpec(column: string, changeColumn: string, title: string, filename: string)

  /** What happened to one chart. */
  datatype ChartOutcome =
    | Skipped(filename: string)
    | Saved(filename: string, bands: seq<Band>, points: seq<Point>)

  /** The three charts, in the order they are drawn. */
  const Charts: seq<ChartSpec> := [
    ChartSpec("sp500", "sp500_change", "S&P 500 (Last 14 Days)", "chart_sp500.svg"),
    ChartSpec("wti", "wti_change", "WTI Crude Oil (Last 14 Days)", "chart_wti.svg"),
    ChartSpec("us10y", "us10y_change", "US 10-Year Treasury Yield (Last 14 Days)", "chart_us10y.svg")
  ]

  /** The outcome of one chart over the window of a table with the given columns. */
  function ChartFor(columns: set<string>, window: seq<Row>, spec: ChartSpec): ChartOutcome
  {
    if spec.column !in columns || spec.changeColumn !in columns then Skipped(spec.filename)
    else Saved(spec.filename, BandsOver(HolidayRows(columns, window)), PlotPoints(columns, window, spec.column))
  }

  /** A chart is skipped exactly when its price or change column is missing. */
  lemma ChartSkipRule(columns: set<string>, window: seq<Row>, spec: ChartSpec)
    ensures ChartFor(columns, window, spec).filename == spec.filename
    ensures ChartFor(columns, window, spec).Skipped? <==>
              spec.column !in columns || spec.changeColumn !in columns
  {
  }

  /** A drawn chart has one band per holiday row of the window and one point
      per trading row, together as many as the window's rows; its points are
      the trading rows' dates and cells, and over a window in date order
      (as ChartRowsAreLatest shows ChartRows to be) they are in date order. */
  lemma ChartDrawn(columns: set<string>, window: seq<Row>, spec: ChartSpec)
    requires spec.column in columns && spec.changeColumn in columns
    ensures ChartFor(columns, window, spec).Saved?
    ensures var o := ChartFor(columns, window, spec);
            var trading := TradingDays(columns, window);
            && |o.bands| == |HolidayRows(columns, window)|
            && |o.bands| + |o.points| == |window|
            && |o.points| == |trading|
            && (forall k :: 0 <= k < |o.points| ==>
                  o.points[k].day == trading[k].date && o.points[k].value == Cell(trading[k], spec.column))
            && (SortedByDate(window) ==> forall i, j :: 0 <= i < j < |o.points| ==> o.points[i].day <= o.points[j].day)
  {
    var o := ChartFor(columns, window, spec);
    var trading := TradingDays(columns, window);
    RowsWherePartition(columns, window);
    if SortedByDate(window) {
      RowsWhereSorted(columns, window, false);
      forall i, j | 0 <= i < j < |o.points|
        ensures o.points[i].day <= o.points[j].day
      {
        assert o.points[i].day == trading[i].date && o.points[j].day == trading[j].date;
      }
    }
  }

  /** The chart loop: every chart is handled on its own; a chart whose
      columns are missing is skipped and the loop goes on with the next. */
  method RenderCharts(t: Table, charts: seq<ChartSpec>) returns (outcomes: seq<ChartOutcome>)
    ensures |outcomes| == |charts|
    ensures forall k :: 0 <= k < |charts| ==> outcomes[k] == ChartFor(t.columns, ChartRows(t), charts[k])
  {
    var window := ChartRows(t);
    outcomes := [];
    for i := 0 to |charts|
      invariant |outcomes| == i
      invariant forall k :: 0 <= k < i ==> outcomes[k] == ChartFor(t.columns, window, charts[k])
    {
      var spec := charts[i];
      if spec.column !in t.columns || spec.changeColumn !in t.columns {
        outcomes := outcomes + [Skipped(spec.filename)];
        continue;
      }
      var bands := HolidayBands(t.columns, window);
      outcomes := outcomes + [Saved(spec.filename, bands, PlotPoints(t.columns, window, spec.column))];
    }
  }
}
