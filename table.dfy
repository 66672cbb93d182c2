/**
 * One row of an uploaded spreadsheet as the tabular reader hands it over
 * (DataFrame.to_dict(orient='records')): column names in column order, each
 * with a scalar cell.
 */
module Table {
  import opened Optional

  /** A cell: text, a number (stored opaquely), or Python's None. */
  datatype Value = Str(text: string) | Num(number: real) | Null

  type Row = seq<(string, Value)>

  /** A dict has no repeated keys. */
  predicate DistinctColumns(row: Row) {
    forall i, j :: 0 <= i < j < |row| ==> row[i].0 != row[j].0
  }

  /** row.get(column): the cell of the first column with that name, or None. */
  function Get(row: Row, column: string): Option<Value> {
    if row == [] then None
    else if row[0].0 == column then Some(row[0].1)
    else Get(row[1..], column)
  }

  /**
   * Get finds nothing exactly when no column has that name; what it finds is
   * the cell of a column with that name, and in a row with distinct columns
   * the cell of every (that is, the one) column with that name.
   */
  lemma {:induction false} GetSpec(row: Row, column: string)
    ensures Get(row, column).None? <==> forall i :: 0 <= i < |row| ==> row[i].0 != column
    ensures Get(row, column).Some? ==> exists i :: 0 <= i < |row| && row[i] == (column, Get(row, column).value)
    ensures DistinctColumns(row) ==>
      forall i :: 0 <= i < |row| && row[i].0 == column ==> Get(row, column) == Some(row[i].1)
  {
    if row != [] && row[0].0 != column {
      GetSpec(row[1..], column);
      var r := Get(row, column);
      if r.Some? {
        var i :| 0 <= i < |row[1..]| && row[1..][i] == (column, r.value);
        assert row[i + 1] == row[1..][i];
      }
      assert forall i :: 1 <= i < |row| ==> row[i] == row[1..][i - 1];
    }
  }

  /** row.get(column, default). */
  function GetOr(row: Row, column: string, default: Value): Value {
    match Get(row, column)
    case Some(v) => v
    case None => default
  }

  /**
   * str(v): a string is itself and None is "None"; how a number prints is
   * left to the parameter numText.
   */
  function Render(v: Value, numText: real -> string): string {
    match v
    case Str(s) => s
    case Num(x) => numText(x)
    case Null => "None"
  }
}
