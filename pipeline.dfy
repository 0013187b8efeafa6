/** How the two programs meet: the chart step reads the table the daily
    update writes. */
module Pipeline {
  import opened Wrappers
  import opened MarketTable
  import MarketFetch
  import ChartWindow

  /** A table holding only what the daily update writes has no change
      columns (and no wti or us10y column), so every configured chart is
      skipped. */
  lemma FetchedTableSkipsEveryChart(t: Table, window: seq<Row>)
    requires t.columns <= MarketFetch.FetchedColumns
    ensures forall k :: 0 <= k < |ChartWindow.Charts| ==>
              ChartWindow.ChartFor(t.columns, window, ChartWindow.Charts[k]).Skipped?
  {
    forall k | 0 <= k < |ChartWindow.Charts|
      ensures ChartWindow.ChartFor(t.columns, window, ChartWindow.Charts[k]).Skipped?
    {
      assert ChartWindow.Charts[k].changeColumn !in MarketFetch.FetchedColumns;
    }
  }

  /** The latest row of a sorted sequence is dated on or after every row. */
  lemma LastIsLatest(s: seq<Row>, x: Row)
    requires ChartWindow.SortedByDate(s) && x in s
    ensures x.date <= s[|s| - 1].date
  {
    var j :| 0 <= j < |s| && s[j] == x;
    if j < |s| - 1 {
      assert s[j].date <= s[|s| - 1].date;
    }
  }

  /** Any date-ordered arrangement of some rows puts last a row dated
      strictly after all the others. */
  lemma SortEndsWithLatest(earlier: seq<Row>, row: Row, sorted: seq<Row>)
    requires forall i :: 0 <= i < |earlier| ==> earlier[i].date < row.date
    requires ChartWindow.SortedByDate(sorted)
    requires multiset(sorted) == multiset(earlier + [row])
    ensures |sorted| == |earlier| + 1
    ensures sorted[|sorted| - 1] == row
  {
    assert |multiset(sorted)| == |sorted|;
    assert row in multiset(earlier + [row]);
    var last := sorted[|sorted| - 1];
    assert last in multiset(sorted);
    LastIsLatest(sorted, row);
  }

  /** When the appended row is dated after every stored row, the chart
      window after the update holds min(14, n + 1) rows and ends with it. */
  lemma AppendedRowEndsWindow(t: Table, row: Row)
    requires forall i :: 0 <= i < |t.rows| ==> t.rows[i].date < row.date
    ensures var window := ChartWindow.ChartRows(MarketFetch.Appended(Some(t), row));
            && |window| == (if |t.rows| + 1 < ChartWindow.WindowSize then |t.rows| + 1 else ChartWindow.WindowSize)
            && window[|window| - 1] == row
  {
    var u := MarketFetch.Appended(Some(t), row);
    assert u.rows == t.rows + [row];
    var sorted := ChartWindow.SortByDate(u.rows);
    SortEndsWithLatest(t.rows, row, sorted);
  }
}
