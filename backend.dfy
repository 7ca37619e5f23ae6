/** The spreadsheet the store works against (`sheet1` of one spreadsheet),
    reduced to its two primitives: read every record, and replace everything. */
module Backend {
  import opened Tables

  class Sheet {
    /** The header row. */
    var header: seq<string>
    /** The data rows, one cell per header column. */
    var rows: seq<Row>

    /** A table, and one without NaN: `get_all_records` never yields NaN,
        and `Overwrite` never stores it. */
    ghost predicate Valid()
      reads this
    {
      WellFormed(Frame(header, rows)) && NanFree(Frame(header, rows))
    }

    /** Header and data rows as one table. */
    function Table(): Frame
      reads this
    {
      Frame(header, rows)
    }

    constructor (initial: Frame)
      requires WellFormed(initial) && NanFree(initial)
      ensures Valid() && Table() == initial
    {
      header := initial.columns;
      rows := initial.rows;
    }

    /** `pd.DataFrame(sheet.get_all_records())`: the whole table, except that a
        sheet without data rows reads as a table without columns. */
    method GetAllRecords() returns (f: Frame)
      requires Valid()
      ensures WellFormed(f) && f == AsRead(Table())
    {
      if |rows| == 0 {
        f := Frame([], []);
      } else {
        f := Frame(header, rows);
      }
    }

    /** `sheet.clear()` followed by `sheet.update([header] + rows)`. The
        update sends the cells as JSON, which has no NaN: for a table holding
        NaN it raises after the clear has run, so the call reports failure
        and the sheet is left empty. */
    method Overwrite(f: Frame) returns (ok: bool)
      requires WellFormed(f)
      modifies this
      ensures Valid() && ok == NanFree(f)
      ensures Table() == if ok then f else Frame([], [])
    {
      header := [];
      rows := [];
      ok := NanFree(f);
      if ok {
        header := f.columns;
        rows := f.rows;
      }
    }
  }
}
