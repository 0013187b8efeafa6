/** The stored market table (`market_data.csv`) as values. */
module MarketTable {
  import opened Wrappers

  /** One row of the table: its date as a day number and its numeric cells.
      A column that has no key in `cells` is an empty (NaN) cell of that row.
      Prices are fixed-point integers (hundredths for the fetched prices). */
  datatype Row = Row(date: int, cells: map<string, int>)

  /** A table: the set of its column names besides `date`, and its rows in file order. */
  datatype Table = Table(columns: set<string>, rows: seq<Row>)

  /** The value of a cell, or None for an empty cell. */
  function Cell(r: Row, column: string): Option<int>
  {
    if column in r.cells then Some(r.cells[column]) else None
  }

  /** Every cell of every row belongs to one of the table's columns. */
  predicate WellFormed(t: Table)
  {
    forall i :: 0 <= i < |t.rows| ==> t.rows[i].cells.Keys <= t.columns
  }
}
