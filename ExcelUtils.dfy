/**
 * `ExcelUtils`: finding, adding and listing worksheets of a workbook and
 * reading and writing grids of strings. A workbook and a worksheet are
 * objects the helpers change in place; a worksheet's cells are a map from
 * (row, column), both counted from 1, to text.
 */
module ExcelUtils {
  import opened Wrappers
  import opened Strings
  import opened DataUtils

  /** A worksheet: its name and the text of its non-empty cells. */
  class Worksheet {
    var Name: string
    var Cells: map<(int, int), string>

    /** A new, empty worksheet. */
    constructor (name: string)
      ensures Name == name && Cells == map[]
    {
      Name := name;
      Cells := map[];
    }
  }

  /** A workbook: its worksheets, in order. */
  class Workbook {
    var Worksheets: seq<Worksheet>

    constructor (worksheets: seq<Worksheet>)
      ensures Worksheets == worksheets
    {
      Worksheets := worksheets;
    }
  }

  // ---------------------------------------------------------------------------
  // Worksheets of a workbook
  // ---------------------------------------------------------------------------

  /** `GetWorksheetNames(workbook)`: the sheet names in workbook order; none for a null workbook. */
  function GetWorksheetNames(workbook: Workbook?): (names: seq<string>)
    reads workbook, if workbook == null then [] else workbook.Worksheets
    ensures workbook == null ==> names == []
    ensures workbook != null ==>
      && |names| == |workbook.Worksheets|
      && forall i :: 0 <= i < |names| ==> names[i] == workbook.Worksheets[i].Name
  {
    if workbook == null then []
    else seq(|workbook.Worksheets|, i reads workbook, workbook.Worksheets
               requires 0 <= i < |workbook.Worksheets| => workbook.Worksheets[i].Name)
  }

  /**
   * `GetWorkSheet(workbook, worksheetName, getFirstOtherwise)`: the first
   * sheet with that name; else the first sheet when asked (which throws on a
   * workbook without sheets), else null. A null workbook gives null.
   */
  method GetWorkSheet(workbook: Workbook?, worksheetName: string, getFirstOtherwise: bool) returns (r: Outcome<Worksheet?>)
    ensures workbook == null ==> r == Returns(null)
    ensures workbook != null && worksheetName in GetWorksheetNames(workbook) ==>
      r == Returns(workbook.Worksheets[IndexOf(GetWorksheetNames(workbook), worksheetName)])
    ensures workbook != null && worksheetName !in GetWorksheetNames(workbook) ==>
      r == (if !getFirstOtherwise then Returns(null)
            else if workbook.Worksheets == [] then Throws(InvalidOperation)
            else Returns(workbook.Worksheets[0]))
  {
    if workbook == null { return Returns(null); }
    var sheets := workbook.Worksheets;
    ghost var names := GetWorksheetNames(workbook);
    for i := 0 to |sheets|
      invariant forall k :: 0 <= k < i ==> names[k] != worksheetName
    {
      if sheets[i].Name == worksheetName {
        assert IndexOf(names, worksheetName) == i;
        return Returns(sheets[i]);
      }
    }
    assert worksheetName !in names;
    if getFirstOtherwise {
      if sheets == [] { return Throws(InvalidOperation); }
      return Returns(sheets[0]);
    }
    return Returns(null);
  }

  /** The lookup finds a sheet with the requested name exactly when the workbook lists that name. */
  lemma GetWorkSheetFindsListedNames(workbook: Workbook, worksheetName: string, sheet: Worksheet)
    requires sheet in workbook.Worksheets && sheet.Name == worksheetName
    ensures worksheetName in GetWorksheetNames(workbook)
    ensures workbook.Worksheets[IndexOf(GetWorksheetNames(workbook), worksheetName)].Name == worksheetName
  {
    var names := GetWorksheetNames(workbook);
    var k :| 0 <= k < |workbook.Worksheets| && workbook.Worksheets[k] == sheet;
    assert names[k] == worksheetName;
  }

  /**
   * `AddWorksheet(workbook, worksheetName)`: an existing sheet of that name is
   * returned and nothing is added; otherwise a new empty sheet is appended,
   * or, when the workbook refuses the name (`addSucceeds` false), null is
   * returned and nothing changes.
   */
  method AddWorksheet(workbook: Workbook?, worksheetName: string, addSucceeds: bool) returns (r: Worksheet?)
    modifies workbook
    ensures workbook == null ==> r == null
    ensures workbook != null && worksheetName in old(GetWorksheetNames(workbook)) ==>
      && workbook.Worksheets == old(workbook.Worksheets)
      && r == old(workbook.Worksheets[IndexOf(GetWorksheetNames(workbook), worksheetName)])
    ensures workbook != null && worksheetName !in old(GetWorksheetNames(workbook)) && addSucceeds ==>
      && r != null && fresh(r) && r.Name == worksheetName && r.Cells == map[]
      && workbook.Worksheets == old(workbook.Worksheets) + [r]
    ensures workbook != null && worksheetName !in old(GetWorksheetNames(workbook)) && !addSucceeds ==>
      r == null && workbook.Worksheets == old(workbook.Worksheets)
  {
    if workbook == null { return null; }
    var found := GetWorkSheet(workbook, worksheetName, false);
    if found.value != null {
      return found.value;
    }
    if addSucceeds {
      r := new Worksheet(worksheetName);
      workbook.Worksheets := workbook.Worksheets + [r];
    } else {
      r := null;
    }
  }

  // ---------------------------------------------------------------------------
  // Reading
  // ---------------------------------------------------------------------------

  /**
   * What `RangeUsed()` reports for a worksheet: its row and column counts and,
   * for each used row in order, the text of the cells in that row.
   */
  datatype UsedRange = UsedRange(RowCount: int, ColumnCount: int, RowsUsed: seq<seq<string>>)

  /** A read limit at or above the available count means "all" (0). */
  function EffectiveLimit(available: int, limit: int): int {
    if available <= limit then 0 else limit
  }

  /** The cells read from one row: the first `readCols` of them, trimmed, or all when `readCols` is 0. */
  function ReadCells(cells: seq<string>, readCols: int): (r: seq<string>)
    ensures readCols == 0 ==> |r| == |cells|
    ensures readCols < 0 ==> r == []
    ensures readCols > 0 ==> |r| == Min(readCols, |cells|)
    ensures forall j :: 0 <= j < |r| ==> r[j] == Trim(cells[j])
  {
    var n := if readCols == 0 then |cells| else if readCols < 0 then 0 else Min(readCols, |cells|);
    seq(n, j requires 0 <= j < n => Trim(cells[j]))
  }

  /** `c` is a contiguous piece of `s`. */
  ghost predicate PieceOf(c: string, s: string) {
    exists a, b :: 0 <= a <= b <= |s| && c == s[a..b]
  }

  /** Every cell read is a piece of its cell's text that neither starts nor ends with white space. */
  lemma CellsReadAreTrimmed(cells: seq<string>, readCols: int)
    ensures |ReadCells(cells, readCols)| <= |cells|
    ensures forall j :: 0 <= j < |ReadCells(cells, readCols)| ==> PieceOf(ReadCells(cells, readCols)[j], cells[j])
    ensures forall j :: 0 <= j < |ReadCells(cells, readCols)| ==>
      ReadCells(cells, readCols)[j] == [] ||
      (!IsWhiteSpace(ReadCells(cells, readCols)[j][0]) &&
       !IsWhiteSpace(ReadCells(cells, readCols)[j][|ReadCells(cells, readCols)[j]| - 1]))
  {
    var r := ReadCells(cells, readCols);
    forall j | 0 <= j < |r|
      ensures PieceOf(r[j], cells[j])
      ensures r[j] == [] || (!IsWhiteSpace(r[j][0]) && !IsWhiteSpace(r[j][|r[j]| - 1]))
    {
      TrimLeavesNoOuterWhiteSpace(cells[j]);
    }
  }

  /** The matrix read from the used rows under the effective limits. */
  function ReadRows(rows: seq<seq<string>>, readRows: int, readCols: int): (m: seq<seq<string>>)
    ensures |m| == |rows|
    ensures forall i :: 0 <= i < |rows| ==>
      m[i] == (if i < readRows || readRows == 0 then ReadCells(rows[i], readCols) else [])
  {
    seq(|rows|, i requires 0 <= i < |rows| =>
      if i < readRows || readRows == 0 then ReadCells(rows[i], readCols) else [])
  }

  /** The cell loop of `ReadFromWorksheet`. */
  method ReadRow(cells: seq<string>, readCols: int) returns (dataList: seq<string>)
    ensures dataList == ReadCells(cells, readCols)
  {
    dataList := [];
    var colsRead := 0;
    for j := 0 to |cells|
      invariant colsRead == j
      invariant |dataList| == (if readCols == 0 then j else if readCols < 0 then 0 else Min(readCols, j))
      invariant forall k :: 0 <= k < |dataList| ==> dataList[k] == Trim(cells[k])
    {
      if colsRead < readCols || readCols == 0 {
        dataList := dataList + [Trim(cells[j])];
      }
      colsRead := colsRead + 1;
    }
    var expected := ReadCells(cells, readCols);
    assert |dataList| == |expected|;
    assert forall k :: 0 <= k < |dataList| ==> dataList[k] == expected[k];
  }

  /** The row loop of `ReadFromWorksheet`, under limits already reset. */
  method ReadUsedRows(rows: seq<seq<string>>, rowLimit: int, colLimit: int) returns (matrix: seq<seq<string>>)
    ensures matrix == ReadRows(rows, rowLimit, colLimit)
  {
    matrix := [];
    var rowsRead := 0;
    for i := 0 to |rows|
      invariant rowsRead == i && |matrix| == i
      invariant forall k :: 0 <= k < i ==>
        matrix[k] == (if k < rowLimit || rowLimit == 0 then ReadCells(rows[k], colLimit) else [])
    {
      var dataList: seq<string> := [];
      if rowsRead < rowLimit || rowLimit == 0 {
        dataList := ReadRow(rows[i], colLimit);
      }
      matrix := matrix + [dataList];
      rowsRead := rowsRead + 1;
    }
    var expected := ReadRows(rows, rowLimit, colLimit);
    assert forall k :: 0 <= k < |matrix| ==> matrix[k] == expected[k];
  }

  /**
   * `ReadFromWorksheet(worksheet, readRows, readCols)`: nothing for a null
   * worksheet; a worksheet with no used range throws. Otherwise one entry per
   * used row, read under the limits once a limit at or above the range's
   * size has been reset to 0.
   */
  method ReadFromWorksheet(worksheet: Worksheet?, rangeUsed: Option<UsedRange>, readRows: int, readCols: int)
    returns (r: Outcome<seq<seq<string>>>)
    ensures worksheet == null ==> r == Returns([])
    ensures worksheet != null && rangeUsed.None? ==> r == Throws(NullReference)
    ensures worksheet != null && rangeUsed.Some? ==>
      r == Returns(ReadRows(rangeUsed.value.RowsUsed,
                            EffectiveLimit(rangeUsed.value.RowCount, readRows),
                            EffectiveLimit(rangeUsed.value.ColumnCount, readCols)))
  {
    if worksheet == null { return Returns([]); }
    if rangeUsed.None? { return Throws(NullReference); }
    var range := rangeUsed.value;
    var rowLimit := readRows;
    var colLimit := readCols;
    if range.RowCount <= rowLimit { rowLimit := 0; }
    if range.ColumnCount <= colLimit { colLimit := 0; }
    var matrix := ReadUsedRows(range.RowsUsed, rowLimit, colLimit);
    return Returns(matrix);
  }

  /** A row limit at or above the used row count reads every row in full, as 0 does. */
  lemma LimitAtRowCountReadsAll(range: UsedRange, readRows: int, readCols: int)
    requires range.RowCount <= readRows
    ensures ReadRows(range.RowsUsed, EffectiveLimit(range.RowCount, readRows), readCols)
         == ReadRows(range.RowsUsed, 0, readCols)
  {
  }

  /** Under a positive row limit below the row count, rows from the limit on are read as empty lists. */
  lemma RowsPastLimitAreEmpty(range: UsedRange, readRows: int, readCols: int, i: int)
    requires 0 < readRows < range.RowCount && readRows <= i < |range.RowsUsed|
    ensures ReadRows(range.RowsUsed, EffectiveLimit(range.RowCount, readRows), readCols)[i] == []
  {
  }

  /** A negative row limit is neither "all" nor reached, so every row is read as empty. */
  lemma NegativeRowLimitReadsNothing(range: UsedRange, readRows: int, readCols: int)
    requires readRows < 0 && 0 <= range.RowCount
    ensures forall i :: 0 <= i < |range.RowsUsed| ==>
      ReadRows(range.RowsUsed, EffectiveLimit(range.RowCount, readRows), readCols)[i] == []
  {
  }

  // ---------------------------------------------------------------------------
  // Writing
  // ---------------------------------------------------------------------------

  /** The matrix entry that lands on `cell` when the matrix is written from (startRow, startCol). */
  function EntryAt(matrix: seq<seq<Option<string>>>, startRow: int, startCol: int, cell: (int, int)): (e: Option<string>)
    ensures e.Some? <==>
      && 0 <= cell.0 - startRow < |matrix| && 0 <= cell.1 - startCol < |matrix[cell.0 - startRow]|
      && matrix[cell.0 - startRow][cell.1 - startCol].Some?
    ensures e.Some? ==> e == matrix[cell.0 - startRow][cell.1 - startCol]
  {
    var r := cell.0 - startRow;
    var c := cell.1 - startCol;
    if 0 <= r < |matrix| && 0 <= c < |matrix[r]| then matrix[r][c] else None
  }

  /** `after` is `before` with every non-null entry written to its cell and every other cell as it was. */
  ghost predicate Written(before: map<(int, int), string>, after: map<(int, int), string>,
                          matrix: seq<seq<Option<string>>>, startRow: int, startCol: int)
  {
    && (forall cell: (int, int) :: EntryAt(matrix, startRow, startCol, cell).Some? ==>
          cell in after && after[cell] == EntryAt(matrix, startRow, startCol, cell).value)
    && (forall cell: (int, int) :: EntryAt(matrix, startRow, startCol, cell).None? ==>
          (cell in after <==> cell in before) && (cell in after ==> after[cell] == before[cell]))
  }

  /** `Written` pins the new cells down completely. */
  lemma WrittenIsDeterministic(before: map<(int, int), string>, a1: map<(int, int), string>, a2: map<(int, int), string>,
                               matrix: seq<seq<Option<string>>>, startRow: int, startCol: int)
    requires Written(before, a1, matrix, startRow, startCol) && Written(before, a2, matrix, startRow, startCol)
    ensures a1 == a2
  {
    forall cell: (int, int) | cell in a1
      ensures cell in a2 && a1[cell] == a2[cell]
    {
    }
    forall cell: (int, int) | cell in a2
      ensures cell in a1
    {
    }
  }

  /** The column loop of `WriteToWorksheet` for matrix row `r`. */
  method WriteRow(worksheet: Worksheet, matrix: seq<seq<Option<string>>>, r: int, startRow: int, startCol: int)
    requires 0 <= r < |matrix|
    modifies worksheet`Cells
    ensures forall cell: (int, int) :: cell.0 == r + startRow && EntryAt(matrix, startRow, startCol, cell).Some? ==>
      cell in worksheet.Cells && worksheet.Cells[cell] == EntryAt(matrix, startRow, startCol, cell).value
    ensures forall cell: (int, int) :: (cell.0 != r + startRow || EntryAt(matrix, startRow, startCol, cell).None?) ==>
      (cell in worksheet.Cells <==> cell in old(worksheet.Cells))
      && (cell in worksheet.Cells ==> worksheet.Cells[cell] == old(worksheet.Cells)[cell])
  {
    for c := 0 to |matrix[r]|
      invariant forall cell: (int, int) ::
        (cell.0 == r + startRow && startCol <= cell.1 < c + startCol && EntryAt(matrix, startRow, startCol, cell).Some?) ==>
        cell in worksheet.Cells && worksheet.Cells[cell] == EntryAt(matrix, startRow, startCol, cell).value
      invariant forall cell: (int, int) :: (cell.0 != r + startRow || !(startCol <= cell.1 < c + startCol)
        || EntryAt(matrix, startRow, startCol, cell).None?) ==>
        (cell in worksheet.Cells <==> cell in old(worksheet.Cells))
        && (cell in worksheet.Cells ==> worksheet.Cells[cell] == old(worksheet.Cells)[cell])
    {
      var cellValue := matrix[r][c];
      if cellValue.Some? {
        worksheet.Cells := worksheet.Cells[(r + startRow, c + startCol) := cellValue.value];
      }
    }
  }

  /**
   * `WriteToWorksheet(worksheet, matrix, startRow, startCol)`: nothing for a
   * null worksheet; otherwise each non-null entry `matrix[r][c]` lands on
   * cell (r + startRow, c + startCol), which are counted from 1.
   */
  method WriteToWorksheet(worksheet: Worksheet?, matrix: seq<seq<Option<string>>>, startRow: int, startCol: int)
    requires startRow >= 1 && startCol >= 1
    modifies worksheet
    ensures worksheet != null ==> Written(old(worksheet.Cells), worksheet.Cells, matrix, startRow, startCol)
    ensures worksheet != null ==> worksheet.Name == old(worksheet.Name)
  {
    if worksheet == null { return; }
    for r := 0 to |matrix|
      invariant worksheet.Name == old(worksheet.Name)
      invariant forall cell: (int, int) :: startRow <= cell.0 < r + startRow && EntryAt(matrix, startRow, startCol, cell).Some? ==>
        cell in worksheet.Cells && worksheet.Cells[cell] == EntryAt(matrix, startRow, startCol, cell).value
      invariant forall cell: (int, int) :: (!(startRow <= cell.0 < r + startRow) || EntryAt(matrix, startRow, startCol, cell).None?) ==>
        (cell in worksheet.Cells <==> cell in old(worksheet.Cells))
        && (cell in worksheet.Cells ==> worksheet.Cells[cell] == old(worksheet.Cells)[cell])
    {
      WriteRow(worksheet, matrix, r, startRow, startCol);
    }
  }
}
