/**
 * The remote worksheet, held in memory: a sequence of rows, and the three
 * operations the exporter uses (`clear`, `append_row`, `row_values`).
 */
module Sheets {
  import opened Wrappers

  /** A value handed to `append_row`: a string, or `None` for a column the item lacks. */
  type Cell = Option<string>

  type Row = seq<Cell>

  /** A row of strings as `append_row` writes it. */
  function TextRow(values: seq<string>): Row {
    seq(|values|, i requires 0 <= i < |values| => Some(values[i]))
  }

  /** A cell read back: a cell written as `None` is blank and reads as "". */
  function CellText(c: Cell): string {
    c.GetOr("")
  }

  /** `row_values(n)` (1-based): the cells of row `n` as text, or [] past the last row. */
  function RowValues(rows: seq<Row>, n: nat): (values: seq<string>)
    ensures !(1 <= n <= |rows|) ==> values == []
    ensures 1 <= n <= |rows| ==> |values| == |rows[n - 1]|
  {
    if 1 <= n <= |rows| then seq(|rows[n - 1]|, i requires 0 <= i < |rows[n - 1]| => CellText(rows[n - 1][i]))
    else []
  }

  /** A header written as row 1 is read back unchanged by `row_values(1)`. */
  lemma HeaderReadBack(header: seq<string>, rest: seq<Row>)
    ensures RowValues([TextRow(header)] + rest, 1) == header
  {
    var rows := [TextRow(header)] + rest;
    assert rows[0] == TextRow(header);
  }

  class Worksheet {
    var rows: seq<Row>

    constructor (initial: seq<Row>)
      ensures rows == initial
    {
      rows := initial;
    }

    /** `clear()`: every row is removed. */
    method Clear()
      modifies this
      ensures rows == []
    {
      rows := [];
    }

    /** `append_row(values)`: one row is added after the last one. */
    method AppendRow(values: Row)
      modifies this
      ensures rows == old(rows) + [values]
    {
      rows := rows + [values];
    }
  }
}
