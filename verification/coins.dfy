/**
 * The `Coin` class of models.py, without its network access: the candle
 * field table `get_property_index` and the loop of `get_history` that fills
 * the history columns from the rows of an exchange response.
 *
 * The response is given as its status code and its decoded rows; a row is
 * a sequence of JSON values of type `J`, and Python's `float()` on one of
 * them is a partial function into an opaque number type `F`. The keys of
 * the history dictionary are the datatype `Key`, whose `KeyName` is the
 * string the dictionary uses.
 */
module Coins {
  import opened Optional

  /** The price columns of the history. */
  datatype Column = Open | High | Low | Close | Vol

  /** The columns in the order the history dictionary lists them. */
  const Columns: seq<Column> := [Open, High, Low, Close, Vol]

  /** A key of the history dictionary: a column, or the `is_field` flag. */
  datatype Key = ColumnKey(column: Column) | IsFieldKey

  /** The keys of the history dictionary in iteration order. */
  const HistoryKeys: seq<Key> :=
    [ColumnKey(Open), ColumnKey(High), ColumnKey(Low), ColumnKey(Close), ColumnKey(Vol), IsFieldKey]

  /** The keys are the columns in order, then `is_field`, as the history dictionary lists them. */
  lemma HistoryKeysOrder()
    ensures |HistoryKeys| == |Columns| + 1 && HistoryKeys[|Columns|] == IsFieldKey
    ensures forall i | 0 <= i < |Columns| :: HistoryKeys[i] == ColumnKey(Columns[i])
    ensures [KeyName(HistoryKeys[0]), KeyName(HistoryKeys[1]), KeyName(HistoryKeys[2]),
             KeyName(HistoryKeys[3]), KeyName(HistoryKeys[4]), KeyName(HistoryKeys[5])]
         == ["open", "high", "low", "close", "vol", "is_field"]
  {
  }

  /** The dictionary key of a column. */
  function Name(c: Column): string {
    match c
    case Open => "open"
    case High => "high"
    case Low => "low"
    case Close => "close"
    case Vol => "vol"
  }

  /** The dictionary key of a history key. */
  function KeyName(k: Key): string {
    match k
    case ColumnKey(c) => Name(c)
    case IsFieldKey => "is_field"
  }

  /** A column's place in `Columns`. */
  function Place(c: Column): (p: nat)
    ensures p < |Columns| && Columns[p] == c
  {
    match c
    case Open => 0
    case High => 1
    case Low => 2
    case Close => 3
    case Vol => 4
  }

  /**
   * `get_property_index`: the position of a column's field in a kline row.
   * The columns are sent in their own order from position 1 on, and no
   * other name has a position.
   */
  function PropertyIndex(property: string): (index: Option<nat>)
    ensures index.Some? ==> 1 <= index.value <= |Columns| && Name(Columns[index.value - 1]) == property
    ensures index.None? ==> forall c: Column :: Name(c) != property
  {
    if property == "open" then Some(1)
    else if property == "high" then Some(2)
    else if property == "low" then Some(3)
    else if property == "close" then Some(4)
    else if property == "vol" then Some(5)
    else None
  }

  /** Every column has a position: the one after its place in `Columns`. */
  lemma PropertyIndexOfColumn(c: Column)
    ensures PropertyIndex(Name(c)) == Some(Place(c) + 1)
  {
  }

  /** The table itself: open, high, low, close and vol at 1 to 5, and nothing for `is_field`. */
  lemma PropertyIndexTable()
    ensures PropertyIndex("open") == Some(1) && PropertyIndex("high") == Some(2)
    ensures PropertyIndex("low") == Some(3) && PropertyIndex("close") == Some(4)
    ensures PropertyIndex("vol") == Some(5) && PropertyIndex(KeyName(IsFieldKey)) == None
  {
  }

  /** Distinct names are read from distinct positions. */
  lemma PropertyIndexInjective(a: string, b: string)
    requires PropertyIndex(a).Some? && PropertyIndex(a) == PropertyIndex(b)
    ensures a == b
  {
  }

  /** The history dictionary: one list per column and the `is_field` flag. */
  datatype History<F> = History(columns: map<Column, seq<F>>, isField: bool)

  /** The columns of a fresh history, all empty. */
  function EmptyColumns<F>(): map<Column, seq<F>> {
    map c: Column | c in Columns :: []
  }

  /** A map with a list for every column. */
  ghost predicate Complete<F>(columns: map<Column, seq<F>>) {
    forall c: Column :: c in columns
  }

  /** What the exchange answered: a status code and the decoded kline rows. */
  datatype Response<J> = Response(statusCode: int, rows: seq<seq<J>>)

  /** How `get_history` ends: it returns the history, returns None, or raises. */
  datatype Fetch<F> = Fetched(history: History<F>) | NotFetched | Faulted

  /** `float(row[get_property_index(key)])` for column `c`: None when the row is too short or the conversion raises. */
  function Cell<J, F>(row: seq<J>, c: Column, float: J -> Option<F>): Option<F> {
    var i := Place(c) + 1;
    if i < |row| then float(row[i]) else None
  }

  /** A cell is the row's field at the position `get_property_index` gives the column's name, and missing when the row is shorter. */
  lemma CellAtPropertyIndex<J, F>(row: seq<J>, c: Column, float: J -> Option<F>)
    ensures PropertyIndex(Name(c)).Some?
    ensures var i := PropertyIndex(Name(c)).value; Cell(row, c, float) == if i < |row| then float(row[i]) else None
  {
    PropertyIndexOfColumn(c);
  }

  /** Every row has a convertible value for column `c`. */
  ghost predicate ColumnConverts<J, F>(rows: seq<seq<J>>, c: Column, float: J -> Option<F>) {
    forall i | 0 <= i < |rows| :: Cell(rows[i], c, float).Some?
  }

  /** Every row has a convertible value for every column. */
  ghost predicate AllConvert<J, F>(rows: seq<seq<J>>, float: J -> Option<F>) {
    forall c: Column :: ColumnConverts(rows, c, float)
  }

  /** The values column `c` takes from `rows`, oldest first. */
  ghost function ColumnValues<J, F>(rows: seq<seq<J>>, c: Column, float: J -> Option<F>): (values: seq<F>)
    requires ColumnConverts(rows, c, float)
    ensures |values| == |rows|
  {
    if rows == [] then []
    else ColumnValues(rows[..|rows| - 1], c, float) + [Cell(rows[|rows| - 1], c, float).value]
  }

  /** The i-th value taken for a column is that column's field of the i-th row. */
  lemma {:induction false} ColumnValuesAt<J, F>(rows: seq<seq<J>>, c: Column, float: J -> Option<F>, i: nat)
    requires ColumnConverts(rows, c, float) && i < |rows|
    ensures ColumnValues(rows, c, float)[i] == float(rows[i][PropertyIndex(Name(c)).value]).value
  {
    var init := rows[..|rows| - 1];
    if i < |rows| - 1 {
      assert ColumnConverts(init, c, float) by {
        forall j | 0 <= j < |init| ensures Cell(init[j], c, float).Some? {
          assert init[j] == rows[j];
        }
      }
      ColumnValuesAt(init, c, float, i);
      assert init[i] == rows[i];
    }
  }

  /** Taking one more row appends that row's field to the column. */
  lemma ColumnValuesSnoc<J, F>(rows: seq<seq<J>>, c: Column, float: J -> Option<F>, i: nat)
    requires i < |rows| && ColumnConverts(rows[..i + 1], c, float)
    ensures ColumnConverts(rows[..i], c, float)
    ensures ColumnValues(rows[..i + 1], c, float) == ColumnValues(rows[..i], c, float) + [Cell(rows[i], c, float).value]
  {
    assert rows[..i + 1][..i] == rows[..i];
    assert forall j | 0 <= j < i :: rows[..i][j] == rows[..i + 1][j];
  }

  /** The columns after the first `i` rows: each extended by the values those rows give it. */
  ghost function Advanced<J, F>(columns: map<Column, seq<F>>, rows: seq<seq<J>>, float: J -> Option<F>, i: nat)
    : map<Column, seq<F>>
    requires Complete(columns) && i <= |rows| && AllConvert(rows[..i], float)
  {
    map c: Column :: columns[c] + ColumnValues(rows[..i], c, float)
  }

  /** Before the first row, the columns are as they were. */
  lemma AdvancedNone<J, F>(columns: map<Column, seq<F>>, rows: seq<seq<J>>, float: J -> Option<F>)
    requires Complete(columns)
    ensures AllConvert(rows[..0], float)
    ensures Advanced(columns, rows, float, 0) == columns
  {
    assert rows[..0] == [];
    forall c: Column ensures Advanced(columns, rows, float, 0)[c] == columns[c] {
      assert columns[c] + [] == columns[c];
    }
  }

  /** The history after a successful fill: every column extended by the values taken from `rows`, and the flag set. */
  ghost function Filled<J, F>(h: History<F>, rows: seq<seq<J>>, float: J -> Option<F>): History<F>
    requires Complete(h.columns) && AllConvert(rows, float)
  {
    History(map c: Column :: h.columns[c] + ColumnValues(rows, c, float), true)
  }

  /** After the last row, the advanced columns are the filled ones. */
  lemma AdvancedAll<J, F>(h: History<F>, rows: seq<seq<J>>, float: J -> Option<F>)
    requires Complete(h.columns) && AllConvert(rows, float)
    ensures AllConvert(rows[..|rows|], float)
    ensures Advanced(h.columns, rows, float, |rows|) == Filled(h, rows, float).columns
  {
    assert rows[..|rows|] == rows;
  }

  /** Every column of a filled history grew by one value per row, and that value is the row's field for the column. */
  lemma FilledColumnsAt<J, F>(h: History<F>, rows: seq<seq<J>>, float: J -> Option<F>, c: Column, i: nat)
    requires Complete(h.columns) && AllConvert(rows, float) && i < |rows|
    ensures Filled(h, rows, float).isField
    ensures |Filled(h, rows, float).columns[c]| == |h.columns[c]| + |rows|
    ensures Filled(h, rows, float).columns[c][..|h.columns[c]|] == h.columns[c]
    ensures Some(Filled(h, rows, float).columns[c][|h.columns[c]| + i]) == Cell(rows[i], c, float)
  {
    ColumnValuesAt(rows, c, float, i);
  }

  /** The first `n` columns of `row` convert. */
  ghost predicate RowConverts<J, F>(row: seq<J>, float: J -> Option<F>, n: nat) {
    n <= |Columns| && forall d | 0 <= d < n :: Cell(row, Columns[d], float).Some?
  }

  /** The first field of `row` that fails is that of column `Columns[n]`. */
  ghost predicate RowFault<J, F>(row: seq<J>, float: J -> Option<F>, n: nat) {
    n < |Columns| && RowConverts(row, float, n) && Cell(row, Columns[n], float).None?
  }

  /** The columns after the first `n` fields of `row` are appended: those columns took one value, the others none. */
  ghost function Appended<J, F>(columns: map<Column, seq<F>>, row: seq<J>, float: J -> Option<F>, n: nat)
    : map<Column, seq<F>>
    requires Complete(columns) && RowConverts(row, float, n)
  {
    map c: Column :: columns[c] + (if Place(c) < n then [Cell(row, c, float).value] else [])
  }

  /** Appending no field changes nothing. */
  lemma AppendedNone<J, F>(columns: map<Column, seq<F>>, row: seq<J>, float: J -> Option<F>)
    requires Complete(columns)
    ensures RowConverts(row, float, 0)
    ensures Appended(columns, row, float, 0) == columns
  {
    forall c: Column ensures Appended(columns, row, float, 0)[c] == columns[c] {
      assert columns[c] + [] == columns[c];
    }
  }

  /** Appending field `n` extends column `Columns[n]` by it and leaves the other columns alone. */
  lemma AppendedExtend<J, F>(columns: map<Column, seq<F>>, row: seq<J>, float: J -> Option<F>, n: nat, x: F)
    requires Complete(columns) && RowConverts(row, float, n)
    requires n < |Columns| && Cell(row, Columns[n], float) == Some(x)
    ensures RowConverts(row, float, n + 1)
    ensures Appended(columns, row, float, n + 1)
         == Appended(columns, row, float, n)[Columns[n] := Appended(columns, row, float, n)[Columns[n]] + [x]]
  {
    var col := Columns[n];
    var before := Appended(columns, row, float, n);
    var after := Appended(columns, row, float, n + 1);
    forall c: Column ensures after[c] == before[col := before[col] + [x]][c] {
      if c == col {
        assert Place(c) == n;
      }
    }
  }

  /** If the first `i` rows convert and so does row `i`, the first `i + 1` rows convert. */
  lemma AllConvertStep<J, F>(rows: seq<seq<J>>, float: J -> Option<F>, i: nat)
    requires i < |rows| && AllConvert(rows[..i], float) && RowConverts(rows[i], float, |Columns|)
    ensures AllConvert(rows[..i + 1], float)
  {
    var upTo := rows[..i + 1];
    forall c: Column ensures ColumnConverts(upTo, c, float) {
      assert Columns[Place(c)] == c;
      forall r | 0 <= r < |upTo| ensures Cell(upTo[r], c, float).Some? {
        if r < i {
          assert upTo[r] == rows[..i][r];
          assert ColumnConverts(rows[..i], c, float);
        }
      }
    }
  }

  /** A full row appended after the first `i` rows gives the columns after `i + 1` rows. */
  lemma AdvancedStep<J, F>(columns: map<Column, seq<F>>, rows: seq<seq<J>>, float: J -> Option<F>, i: nat)
    requires Complete(columns) && i < |rows| && AllConvert(rows[..i], float)
    requires RowConverts(rows[i], float, |Columns|)
    ensures AllConvert(rows[..i + 1], float)
    ensures Advanced(columns, rows, float, i + 1) == Appended(Advanced(columns, rows, float, i), rows[i], float, |Columns|)
  {
    AllConvertStep(rows, float, i);
    forall c: Column
      ensures Advanced(columns, rows, float, i + 1)[c] == Appended(Advanced(columns, rows, float, i), rows[i], float, |Columns|)[c]
    {
      AdvancedStepAt(columns, rows, float, i, c);
    }
  }

  /** One column of `AdvancedStep`. */
  lemma AdvancedStepAt<J, F>(columns: map<Column, seq<F>>, rows: seq<seq<J>>, float: J -> Option<F>, i: nat, c: Column)
    requires Complete(columns) && i < |rows| && AllConvert(rows[..i], float) && AllConvert(rows[..i + 1], float)
    requires RowConverts(rows[i], float, |Columns|)
    ensures Advanced(columns, rows, float, i + 1)[c] == Appended(Advanced(columns, rows, float, i), rows[i], float, |Columns|)[c]
  {
    ColumnValuesSnoc(rows, c, float, i);
    var x := Cell(rows[i], c, float).value;
    assert columns[c] + (ColumnValues(rows[..i], c, float) + [x]) == (columns[c] + ColumnValues(rows[..i], c, float)) + [x];
  }

  /**
   * The first field that fails is in row `i`, column `Columns[n]`: every
   * field of the earlier rows converts, and so do the earlier columns of row `i`.
   */
  ghost predicate FirstFault<J, F>(rows: seq<seq<J>>, float: J -> Option<F>, i: nat, n: nat) {
    i < |rows| && AllConvert(rows[..i], float) && RowFault(rows[i], float, n)
  }

  /** A history whose fill raises did not have every field convertible. */
  lemma FirstFaultNotAllConvert<J, F>(rows: seq<seq<J>>, float: J -> Option<F>, i: nat, n: nat)
    requires FirstFault(rows, float, i, n)
    ensures !AllConvert(rows, float)
  {
    assert !ColumnConverts(rows, Columns[n], float) by {
      assert Cell(rows[i], Columns[n], float).None?;
    }
  }

  /** The columns when the fill raises at row `i`, column `Columns[n]`: the rows before `i`, then the first `n` fields of row `i`. */
  ghost function PartialColumns<J, F>(columns: map<Column, seq<F>>, rows: seq<seq<J>>, float: J -> Option<F>, i: nat, n: nat)
    : map<Column, seq<F>>
    requires Complete(columns) && FirstFault(rows, float, i, n)
  {
    Appended(Advanced(columns, rows, float, i), rows[i], float, n)
  }

  /** Columns left by a fill that raised at row `i`, field `n` are the partial columns of some first fault. */
  lemma FaultLeavesPartialColumns<J, F>(columns: map<Column, seq<F>>, rows: seq<seq<J>>, float: J -> Option<F>, i: nat, n: nat, after: map<Column, seq<F>>)
    requires Complete(columns) && FirstFault(rows, float, i, n)
    requires after == Appended(Advanced(columns, rows, float, i), rows[i], float, n)
    ensures !AllConvert(rows, float)
    ensures exists i': nat, n': nat :: FirstFault(rows, float, i', n') && after == PartialColumns(columns, rows, float, i', n')
  {
    FirstFaultNotAllConvert(rows, float, i, n);
    assert after == PartialColumns(columns, rows, float, i, n);
  }

  class Coin<J, F> {
    const symbol: string
    const timeframe: string
    var history: History<F>

    /** The history has a list for every column. */
    ghost predicate Valid()
      reads this
    {
      Complete(history.columns)
    }

    /** `Coin(symbol, timeframe)`: empty columns, flag unset. */
    constructor(symbol: string, timeframe: string)
      ensures Valid()
      ensures this.symbol == symbol && this.timeframe == timeframe
      ensures history == History(EmptyColumns(), false)
    {
      this.symbol := symbol;
      this.timeframe := timeframe;
      history := History(EmptyColumns(), false);
      new;
      forall c: Column ensures c in history.columns {
        assert Columns[Place(c)] == c;
      }
    }

    /**
     * The inner loop of `get_history`, over the keys of the history for one
     * row: `is_field` is skipped and each column appends its field of the
     * row. A row that is too short or a field that does not convert raises,
     * and the columns before it keep what they appended.
     */
    method AppendRow(row: seq<J>, float: J -> Option<F>) returns (ok: bool)
      requires Valid()
      modifies this
      ensures Valid() && history.isField == old(history.isField)
      ensures ok ==> RowConverts(row, float, |Columns|) && history.columns == Appended(old(history.columns), row, float, |Columns|)
      ensures !ok ==> exists n: nat :: RowFault(row, float, n) && history.columns == Appended(old(history.columns), row, float, n)
    {
      ghost var start := history.columns;
      AppendedNone(start, row, float);
      var j := 0;
      ghost var n := 0;
      while j < |HistoryKeys|
        invariant 0 <= j <= |HistoryKeys| && n <= |Columns|
        invariant n == j || (j == |HistoryKeys| && n == |Columns|)
        invariant history.isField == old(history.isField)
        invariant RowConverts(row, float, n)
        invariant history.columns == Appended(start, row, float, n)
      {
        var key := HistoryKeys[j];
        if key == IsFieldKey {
          j := j + 1;
          continue;
        }
        var column := key.column;
        assert column == Columns[n];
        var x := Cell(row, column, float);
        if x.None? {
          assert RowFault(row, float, n);
          return false;
        }
        AppendedExtend(start, row, float, n, x.value);
        history := history.(columns := history.columns[column := history.columns[column] + [x.value]]);
        j := j + 1;
        n := n + 1;
      }
      return true;
    }

    /**
     * `get_history`, given the exchange's response. A non-200 status returns
     * None and leaves the history alone. Otherwise each row appends its five
     * fields to the five columns and the flag is set; a row that is too short
     * or a field that does not convert raises, leaving the columns filled up
     * to that field and the flag as it was.
     */
    method GetHistory(response: Response<J>, float: J -> Option<F>) returns (result: Fetch<F>)
      requires Valid()
      modifies this
      ensures Valid()
      ensures response.statusCode != 200 ==> result == NotFetched && history == old(history)
      ensures response.statusCode == 200 && AllConvert(response.rows, float) ==>
                result == Fetched(history) && history == Filled(old(history), response.rows, float)
      ensures response.statusCode == 200 && !AllConvert(response.rows, float) ==>
                && result == Faulted
                && history.isField == old(history.isField)
                && exists i: nat, n: nat :: FirstFault(response.rows, float, i, n)
                     && history.columns == PartialColumns(old(history.columns), response.rows, float, i, n)
    {
      if response.statusCode != 200 {
        return NotFetched;
      }
      ghost var start := history.columns;
      var data := response.rows;
      AdvancedNone(start, data, float);
      var i := 0;
      while i < |data|
        invariant 0 <= i <= |data|
        invariant Valid() && history.isField == old(history.isField)
        invariant AllConvert(data[..i], float)
        invariant history.columns == Advanced(start, data, float, i)
      {
        var ok := AppendRow(data[i], float);
        if !ok {
          ghost var n: nat :| RowFault(data[i], float, n) && history.columns == Appended(Advanced(start, data, float, i), data[i], float, n);
          FaultLeavesPartialColumns(start, data, float, i, n, history.columns);
          return Faulted;
        }
        AdvancedStep(start, data, float, i);
        i := i + 1;
      }
      assert data[..i] == data;
      AdvancedAll(old(history), data, float);
      history := history.(isField := true);
      return Fetched(history);
    }
  }
}
