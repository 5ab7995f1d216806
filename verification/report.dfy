/**
 * The report: a workbook of named sheets, each an ordered list of rows.
 * The workbook on disk is modelled as the in-memory list of its sheets.
 */
module Report {

  /** A spreadsheet cell: the scan writes strings and row numbers. */
  datatype Cell = Str(s: string) | Num(n: int)

  type Row = seq<Cell>

  datatype Sheet = Sheet(name: string, rows: seq<Row>)

  /** The lock-guarded workbook writer (`_DiscoveryWorkbook`). */
  class Workbook {
    /** Path of the output file (`fname`). */
    const path: string
    /** Whether the file has been written at least once (`init`). */
    var init: bool
    /** The sheets of the file, in creation order. */
    var sheets: seq<Sheet>

    /** Before the first write there is no file, hence no sheet. */
    ghost predicate Valid()
      reads this
    {
      !init ==> sheets == []
    }

    constructor (path: string)
      ensures Valid()
      ensures this.path == path && !init && sheets == []
    {
      this.path := path;
      init := false;
      sheets := [];
    }

    /**
     * `new_sheet`: the first call starts a fresh workbook, later ones reopen
     * the existing one; either way exactly one sheet, with the given name
     * and rows, is appended and the earlier sheets are kept as they were.
     */
    method NewSheet(name: string, rows: seq<Row>)
      requires Valid()
      modifies this
      ensures Valid() && init
      ensures sheets == old(sheets) + [Sheet(name, rows)]
      ensures old(sheets) <= sheets
    {
      var existing := if init then sheets else [];
      var written: seq<Row> := [];
      for i := 0 to |rows|
        invariant written == rows[..i]
      {
        written := written + [rows[i]];
      }
      assert written == rows;
      sheets := existing + [Sheet(name, written)];
      init := true;
    }
  }
}
