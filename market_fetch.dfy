/** The daily update of fetch_market_data.py: take the latest close of three
    instruments, round each to hundredths, and append one row dated today
    to the stored table, or start the table with that row when there is
    none. */
module MarketFetch {
  import opened Wrappers
  import opened MarketTable

  /** The three instruments fetched on every run: the Nikkei 225 (`^N225`),
      the S&P 500 (`^GSPC`) and gold futures (`GC=F`). */
  datatype Instrument = Nikkei225 | SP500 | Gold

  /** The table column the instrument's price is stored in. */
  function Column(i: Instrument): string
  {
    match i
    case Nikkei225 => "nikkei_225"
    case SP500 => "sp500"
    case Gold => "gold_usd"
  }

  /** The columns a fetched row fills. */
  const FetchedColumns: set<string> := {Column(Nikkei225), Column(SP500), Column(Gold)}

  /** Why a run stops before writing: an instrument's history had no close. */
  datatype FetchError = NoClose(instrument: Instrument)

  // ---------------------------------------------------------------------
  // Closes and rounding
  // ---------------------------------------------------------------------

  /** The last close of a history (`['Close'].iloc[-1]`); None when the
      history is empty, where the lookup raises. */
  function LastClose(closes: seq<int>): (last: Option<int>)
    ensures last.Some? <==> |closes| > 0
    ensures last.Some? ==> last.value == closes[|closes| - 1]
  {
    if |closes| == 0 then None else Some(closes[|closes| - 1])
  }

  /** `round(close, 2)`: a close given in ten-thousandths becomes the nearest
      whole number of hundredths, an exact tie going to the even neighbour. */
  function RoundToHundredths(close: int): (cents: int)
    ensures -50 <= close - 100 * cents <= 50
    ensures close - 100 * cents == 50 || close - 100 * cents == -50 ==> cents % 2 == 0
  {
    var q := close / 100;
    var rem := close % 100;
    if rem < 50 then q
    else if rem > 50 then q + 1
    else if q % 2 == 0 then q
    else q + 1
  }

  /** The two properties of RoundToHundredths determine its result: no other
      number of hundredths is as near, or as near and even. */
  lemma RoundingIsUnique(close: int, cents: int)
    requires -50 <= close - 100 * cents <= 50
    requires close - 100 * cents == 50 || close - 100 * cents == -50 ==> cents % 2 == 0
    ensures cents == RoundToHundredths(close)
  {
    var r := RoundToHundredths(close);
    var d := cents - r;
    assert 100 * d == (close - 100 * r) - (close - 100 * cents);
    assert -100 <= 100 * d <= 100;
    assert d == -1 || d == 0 || d == 1;
  }

  /** A close that already has at most two decimals is stored unchanged. */
  lemma RoundingKeepsHundredths(cents: int)
    ensures RoundToHundredths(100 * cents) == cents
  {
    RoundingIsUnique(100 * cents, cents);
  }

  // ---------------------------------------------------------------------
  // The new row
  // ---------------------------------------------------------------------

  /** The row of one run: today's date and the rounded last close of each
      instrument; the first instrument (in fetch order) whose history is
      empty makes the run fail. */
  function NewRow(today: int, nikkei: seq<int>, sp500: seq<int>, gold: seq<int>): Result<Row, FetchError>
  {
    match (LastClose(nikkei), LastClose(sp500), LastClose(gold))
    case (None, _, _) => Failure(NoClose(Nikkei225))
    case (Some(_), None, _) => Failure(NoClose(SP500))
    case (Some(_), Some(_), None) => Failure(NoClose(Gold))
    case (Some(n), Some(s), Some(g)) =>
      Success(Row(today, map[Column(Nikkei225) := RoundToHundredths(n),
                             Column(SP500) := RoundToHundredths(s),
                             Column(Gold) := RoundToHundredths(g)]))
  }

  /** A run produces a row exactly when every history has a close, and
      otherwise names the first instrument without one. The row is dated
      today, fills exactly the three price columns, and each price is the
      instrument's last close rounded to hundredths. */
  lemma NewRowSpec(today: int, nikkei: seq<int>, sp500: seq<int>, gold: seq<int>)
    ensures NewRow(today, nikkei, sp500, gold).Success? <==> |nikkei| > 0 && |sp500| > 0 && |gold| > 0
    ensures NewRow(today, nikkei, sp500, gold).Failure? ==>
              NewRow(today, nikkei, sp500, gold).error.instrument ==
                (if |nikkei| == 0 then Nikkei225 else if |sp500| == 0 then SP500 else Gold)
    ensures NewRow(today, nikkei, sp500, gold).Success? ==>
              var row := NewRow(today, nikkei, sp500, gold).value;
              && row.date == today
              && row.cells.Keys == FetchedColumns
              && row.cells[Column(Nikkei225)] == RoundToHundredths(nikkei[|nikkei| - 1])
              && row.cells[Column(SP500)] == RoundToHundredths(sp500[|sp500| - 1])
              && row.cells[Column(Gold)] == RoundToHundredths(gold[|gold| - 1])
  {
  }

  // ---------------------------------------------------------------------
  // The store update
  // ---------------------------------------------------------------------

  /** The table written back: the stored rows followed by the new row, or
      the new row alone when there was no stored table. Cells the new row
      does not fill stay empty; the table gains the new row's columns. */
  function Appended(stored: Option<Table>, row: Row): Table
  {
    match stored
    case None => Table(row.cells.Keys, [row])
    case Some(t) => Table(t.columns + row.cells.Keys, t.rows + [row])
  }

  /** With a stored table, appending adds exactly one row at the end and
      leaves every earlier row where it was; no column is lost. */
  lemma AppendKeepsHistory(t: Table, row: Row)
    ensures var u := Appended(Some(t), row);
            && |u.rows| == |t.rows| + 1
            && u.rows[..|t.rows|] == t.rows
            && u.rows[|t.rows|] == row
            && t.columns <= u.columns
  {
    var u := Appended(Some(t), row);
    assert u.rows[..|t.rows|] == t.rows;
  }

  /** Without a stored table, the result holds the new row and nothing else. */
  lemma AppendToNothing(row: Row)
    ensures Appended(None, row).rows == [row]
    ensures Appended(None, row).columns == row.cells.Keys
  {
  }

  /** Every row's cells stay within the table's columns. */
  lemma AppendKeepsWellFormed(stored: Option<Table>, row: Row)
    requires stored.Some? ==> WellFormed(stored.value)
    ensures WellFormed(Appended(stored, row))
  {
    if stored.Some? {
      var t := stored.value;
      var u := Appended(stored, row);
      forall i | 0 <= i < |u.rows|
        ensures u.rows[i].cells.Keys <= u.columns
      {
        if i < |t.rows| {
          assert u.rows[i] == t.rows[i];
        }
      }
    }
  }

  /** How many rows carry a given date. */
  function RowsDated(rows: seq<Row>, day: int): nat
  {
    if rows == [] then 0 else (if rows[0].date == day then 1 else 0) + RowsDated(rows[1..], day)
  }

  lemma {:induction false} RowsDatedAppend(a: seq<Row>, b: seq<Row>, day: int)
    ensures RowsDated(a + b, day) == RowsDated(a, day) + RowsDated(b, day)
  {
    if a == [] {
      assert a + b == b;
    } else {
      assert (a + b)[1..] == a[1..] + b;
      RowsDatedAppend(a[1..], b, day);
    }
  }

  /** No duplicate check: two runs on the same day leave two more rows with
      that date, whatever the table already held. */
  lemma NoDeduplication(stored: Option<Table>, first: Row, second: Row)
    requires first.date == second.date
    ensures var before := if stored.Some? then stored.value.rows else [];
            RowsDated(Appended(Some(Appended(stored, first)), second).rows, first.date)
              == RowsDated(before, first.date) + 2
  {
    var before := if stored.Some? then stored.value.rows else [];
    assert Appended(stored, first).rows == before + [first];
    RowsDatedAppend(before, [first], first.date);
    RowsDatedAppend(before + [first], [second], first.date);
    assert RowsDated([first], first.date) == 1;
    assert RowsDated([second], first.date) == 1;
  }

  /** The persisted market table: absent until the first run writes it
      (`present` false), otherwise its columns and rows. Every run reads it
      whole and replaces it whole. */
  class MarketStore {
    var present: bool
    var columns: set<string>
    var rows: seq<Row>

    ghost predicate Valid()
      reads this
    {
      (present || (columns == {} && rows == [])) && WellFormed(Table(columns, rows))
    }

    /** The stored table, or None when there is no file yet. */
    function Stored(): Option<Table>
      reads this
    {
      if present then Some(Table(columns, rows)) else None
    }

    constructor (initial: Option<Table>)
      requires initial.Some? ==> WellFormed(initial.value)
      ensures Valid() && Stored() == initial
    {
      match initial
      case None =>
        present, columns, rows := false, {}, [];
      case Some(t) =>
        present, columns, rows := true, t.columns, t.rows;
    }

    /** Appends one row (or creates the table with it) and writes the
      table back. */
    method Append(row: Row)
      requires Valid()
      modifies this
      ensures Valid()
      ensures Stored() == Some(Appended(old(Stored()), row))
    {
      AppendKeepsWellFormed(Stored(), row);
      if present {
        columns, rows := columns + row.cells.Keys, rows + [row];
      } else {
        present, columns, rows := true, row.cells.Keys, [row];
      }
    }

    /** One run: read each instrument's last close, failing on the first
      empty history before anything is written; build today's row and
      append it. */
    method Update(today: int, nikkei: seq<int>, sp500: seq<int>, gold: seq<int>)
      returns (outcome: Result<Row, FetchError>)
      requires Valid()
      modifies this
      ensures Valid()
      ensures outcome == NewRow(today, nikkei, sp500, gold)
      ensures outcome.Failure? ==> Stored() == old(Stored())
      ensures outcome.Success? ==> Stored() == Some(Appended(old(Stored()), outcome.value))
    {
      var nikkeiClose := LastClose(nikkei);
      if nikkeiClose.None? {
        return Failure(NoClose(Nikkei225));
      }
      var sp500Close := LastClose(sp500);
      if sp500Close.None? {
        return Failure(NoClose(SP500));
      }
      var goldClose := LastClose(gold);
      if goldClose.None? {
        return Failure(NoClose(Gold));
      }
      var row := Row(today, map[Column(Nikkei225) := RoundToHundredths(nikkeiClose.value),
                                Column(SP500) := RoundToHundredths(sp500Close.value),
                                Column(Gold) := RoundToHundredths(goldClose.value)]);
      Append(row);
      outcome := Success(row);
    }
  }
}
