/** A pandas DataFrame that the code changes in place (`df[c] = ...`,
    `dropna(inplace=True)`, `rename`): its header and rows are fields, and each
    operation says what the new table is in terms of the old one. */
module Frames {
  import opened Tables

  class Frame {
    var columns: seq<string>
    var rows: seq<Line>

    constructor (t: Table)
      ensures columns == t.columns && rows == t.rows
    {
      columns := t.columns;
      rows := t.rows;
    }

    function View(): Table
      reads this
    {
      Table(columns, rows)
    }

    /** `df[c] = <conversion of df[c]>` */
    method Convert(c: string, conv: Conversion)
      requires c in columns
      modifies this
      ensures View() == ConvertColumn(old(View()), c, conv)
    {
      var r := ConvertColumn(View(), c, conv);
      columns, rows := r.columns, r.rows;
    }

    /** `df.dropna(subset=subset, inplace=True)` */
    method DropMissing(subset: seq<string>)
      modifies this
      ensures View() == Where(old(View()), Present(subset))
    {
      rows := Filter(columns, rows, Present(subset));
    }

    /** `df.dropna(how='all', inplace=True)` */
    method DropBlankRows()
      modifies this
      ensures View() == Where(old(View()), AnyValue)
    {
      rows := Filter(columns, rows, AnyValue);
    }

    /** `df.dropna(axis=1, how='all', inplace=True)` */
    method DropEmptyColumns()
      modifies this
      ensures View() == Tables.DropEmptyColumns(old(View()))
    {
      var r := Tables.DropEmptyColumns(View());
      columns, rows := r.columns, r.rows;
    }

    /** `df[c] = cells` */
    method Assign(c: string, cells: seq<Cell>)
      requires |cells| == |rows|
      modifies this
      ensures View() == SetColumn(old(View()), c, cells)
    {
      var r := SetColumn(View(), c, cells);
      columns, rows := r.columns, r.rows;
    }

    /** `df.rename(columns={from: to}, inplace=True)` */
    method RenameColumn(from: string, to: string)
      modifies this
      ensures View() == Rename(old(View()), from, to)
    {
      columns := Rename(View(), from, to).columns;
    }
  }
}
