/**
 * The data frame that the script changes in place while it cleans the sheet:
 * the hours columns are added to it one pair at a time, exact duplicate rows
 * are dropped from it, and then one row per employee id is kept.
 */
module Frames {
  import opened Strings
  import opened Tables
  import opened Derivation
  import opened Dedup

  /** The hours_ columns, in frame order, that the per-row total sums. */
  function HoursColumns(columns: seq<string>): (r: seq<string>)
    ensures forall c :: c in r <==> c in columns && StartsWith(c, HoursPrefix)
  {
    ColumnsWithPrefix(columns, HoursPrefix)
  }

  class Frame {
    var columns: seq<string>
    var rows: seq<Row>

    /** The frame's contents as a sheet value. */
    function View(): Sheet
      reads this
    {
      Sheet(columns, rows)
    }

    constructor (t: Sheet)
      ensures View() == t
    {
      columns := t.columns;
      rows := t.rows;
    }

    /**
     * The loop over zip(in_cols, out_cols): each pair, in order, writes the
     * column named after its in_ column, holding the hours of every row.
     */
    method DeriveHours()
      modifies this
      ensures View() == Derivation.DeriveHours(old(View()))
    {
      ghost var start := View();
      var pairs := Zip(ColumnsWithPrefix(columns, InPrefix), ColumnsWithPrefix(columns, OutPrefix));
      assert pairs == HourPairs(start);
      var i := 0;
      while i < |pairs|
        invariant 0 <= i <= |pairs|
        invariant View() == ApplyPairs(start, pairs[..i])
      {
        ghost var done := pairs[..i + 1];
        assert done[..|done| - 1] == pairs[..i] && done[|done| - 1] == pairs[i];
        var hoursCol := HoursName(pairs[i].0);
        var next := AssignColumn(View(), hoursCol, HoursValues(View(), pairs[i].0, pairs[i].1));
        assert next == ApplyPairs(start, done);
        columns, rows := next.columns, next.rows;
        i := i + 1;
      }
      assert pairs[..i] == pairs;
    }

    /** drop_duplicates(inplace=True): the first of every group of equal rows stays, in order. */
    method DropDuplicateRows()
      modifies this
      ensures columns == old(columns)
      ensures rows == DistinctRows(old(rows))
    {
      rows := DistinctRows(rows);
    }

    /**
     * The total_hours helper column is added, the frame is sorted on it in
     * descending order, the first row of every employee id is kept, and the
     * helper column is dropped again. The sort is not stable, so the kept row
     * is any row of largest total, and the order of the rows is left open.
     */
    method ResolveDuplicateIds()
      modifies this
      ensures columns == RemoveName(old(columns), TotalColumn)
      ensures exists kept :: IsBestPerId(old(rows), kept, HoursColumns(old(columns)))
                          && rows == DropColumn(kept, TotalColumn)
    {
      var kept := KeepMaxPerId(rows, HoursColumns(columns));
      columns := RemoveName(columns, TotalColumn);
      rows := DropColumn(kept, TotalColumn);
    }
  }

  /**
   * The cleaning part of the script from the parsed sheet to the frame that
   * is reshaped: hours derivation, exact-duplicate removal, the report of the
   * ids still repeated, and resolution to one row per id.
   */
  method Prepare(t: Sheet) returns (clean: Sheet, duplicates: set<string>)
    ensures var derived := Derivation.DeriveHours(t);
      && duplicates == DuplicateIds(DistinctRows(derived.rows))
      && clean.columns == RemoveName(derived.columns, TotalColumn)
      && exists kept :: IsBestPerId(DistinctRows(derived.rows), kept, HoursColumns(derived.columns))
                     && clean.rows == DropColumn(kept, TotalColumn)
    ensures WellFormed(t) ==> Distinct(clean.columns) && UniqueIds(clean.rows)
  {
    var frame := new Frame(t);
    frame.DeriveHours();
    frame.DropDuplicateRows();
    duplicates := DuplicateIds(frame.rows);
    ghost var before, columns := frame.rows, frame.columns;
    frame.ResolveDuplicateIds();
    clean := frame.View();
    ghost var kept :| IsBestPerId(before, kept, HoursColumns(columns)) && clean.rows == DropColumn(kept, TotalColumn);
    if WellFormed(t) {
      DeriveHoursShape(t);
      ResolvedUnique(columns, before, kept, HoursColumns(columns));
    }
  }
}
