/**
 * The row and column layout of the two workbooks ReportService writes (the
 * cafeteria pivot and the evacuation workbook with one sheet per face list), and
 * the string rules behind them: sheet names, SUM formulas, null-safe text cells.
 * A sheet is its name, its rows of cells and the rows its status dropdown covers.
 *
 * Styles, fonts, widths, heights and file output are not modelled; a picture cell
 * records the image path whose bytes would be downloaded and anchored there.
 */
module ReportLayout {
  import opened Wrappers
  import opened Dto
  import opened JavaStrings
  import Decimal
  import CafeteriaPivot

  // ---------------------------------------------------------------------------
  // Cells and sheets

  /** What a cell holds once written; Blank is a created cell with no value. */
  datatype Cell = Blank | Text(text: string) | Number(value: int) | Bool(flag: bool)
                | Formula(formula: string) | Picture(path: string)

  /** The first and last row (0-based, inclusive) of a data validation on column A. */
  datatype RowRange = RowRange(first: int, last: int)

  /** A written sheet: its name, its rows in order from row 0, and its dropdown. */
  datatype Sheet = Sheet(name: string, rows: seq<seq<Cell>>, validation: Option<RowRange>)

  /** The header cells for the given column titles. */
  function HeaderCells(titles: seq<string>): (r: seq<Cell>)
    ensures |r| == |titles|
    ensures forall i | 0 <= i < |titles| :: r[i] == Text(titles[i])
  {
    seq(|titles|, i requires 0 <= i < |titles| => Text(titles[i]))
  }

  /** nullSafe: null becomes "". */
  function NullSafe(s: Option<string>): string {
    s.GetOr("")
  }

  // ---------------------------------------------------------------------------
  // Sheet names

  /** The longest sheet name the workbook format allows. */
  const MaxSheetNameLength := 31

  /** The characters the sheet-name pattern replaces: colon, backslash, slash, star, question mark and square brackets. */
  predicate IsForbidden(c: char) {
    c == ':' || c == '\\' || c == '/' || c == '*' || c == '?' || c == '[' || c == ']'
  }

  /** replaceAll of the forbidden characters by '_'. */
  function Cleaned(s: string): (r: string)
    ensures |r| == |s|
    ensures forall i | 0 <= i < |s| :: r[i] == (if IsForbidden(s[i]) then '_' else s[i])
  {
    seq(|s|, i requires 0 <= i < |s| => if IsForbidden(s[i]) then '_' else s[i])
  }

  /** sanitizeSheetName: null becomes "", forbidden characters become '_', and the
      result is cut to 31 characters. */
  function SanitizeSheetName(raw: Option<string>): (r: string)
    ensures |r| <= MaxSheetNameLength
  {
    var cleaned := Cleaned(raw.GetOr(""));
    if |cleaned| <= MaxSheetNameLength then cleaned else cleaned[..MaxSheetNameLength]
  }

  /** The sanitised name is the first min(31, |raw|) characters of the raw name,
      each forbidden one replaced by '_', so no forbidden character is left. */
  lemma SanitizedSheetName(raw: Option<string>)
    ensures var s := raw.GetOr("");
      |SanitizeSheetName(raw)| == (if |s| <= MaxSheetNameLength then |s| else MaxSheetNameLength)
    ensures forall i | 0 <= i < |SanitizeSheetName(raw)| ::
      SanitizeSheetName(raw)[i] == (if IsForbidden(raw.GetOr("")[i]) then '_' else raw.GetOr("")[i])
    ensures forall i | 0 <= i < |SanitizeSheetName(raw)| :: !IsForbidden(SanitizeSheetName(raw)[i])
  {
  }

  /** A name that is already safe and short enough is kept as it is. */
  lemma SanitizeKeepsSafeNames(name: string)
    requires |name| <= MaxSheetNameLength
    requires forall i | 0 <= i < |name| :: !IsForbidden(name[i])
    ensures SanitizeSheetName(Some(name)) == name
  {
  }

  /** Sanitising a sanitised name changes nothing. */
  lemma SanitizeIdempotent(raw: Option<string>)
    ensures SanitizeSheetName(Some(SanitizeSheetName(raw))) == SanitizeSheetName(raw)
  {
    SanitizedSheetName(raw);
    SanitizeKeepsSafeNames(SanitizeSheetName(raw));
  }

  /** "List:Unsafe*Name?" becomes "List_Unsafe_Name_". */
  lemma SanitizeExample()
    ensures SanitizeSheetName(Some("List:Unsafe*Name?")) == "List_Unsafe_Name_"
  {
    var r := SanitizeSheetName(Some("List:Unsafe*Name?"));
    SanitizedSheetName(Some("List:Unsafe*Name?"));
    assert r == "List_Unsafe_Name_";
  }

  /** Long.toString of a boxed id, "null" when the id is null. */
  function IdText(id: Option<int>): string {
    if id.None? then "null" else Decimal.LongToString(id.value)
  }

  /** The sheet name of a list: its name when that has text, else "List_" and the
      id, then sanitised. */
  function SheetTitle(list: FaceList): (r: string)
    ensures HasText(list.name) ==> r == SanitizeSheetName(list.name)
    ensures !HasText(list.name) ==> r == SanitizeSheetName(Some("List_" + IdText(list.id)))
  {
    SanitizeSheetName(Some(if HasText(list.name) then list.name.value else "List_" + IdText(list.id)))
  }

  /** A list named "List:Unsafe*Name?" gets the sheet "List_Unsafe_Name_"; a list
      with id 10 and no name gets the sheet "List_10". */
  lemma SheetTitleExamples()
    ensures SheetTitle(FaceList(Some(10), Some("List:Unsafe*Name?"), None)) == "List_Unsafe_Name_"
    ensures SheetTitle(FaceList(Some(10), None, None)) == "List_10"
  {
    assert !IsWhitespace("List:Unsafe*Name?"[0]);
    SanitizeExample();
    assert Decimal.NatToString(10) == "10";
    SanitizeKeepsSafeNames("List_10");
  }

  /** The names createSheet accepts (POI's WorkbookUtil.validateSheetName): 1 to 31
      characters, none of them forbidden, and no apostrophe first or last. */
  predicate AcceptedSheetName(n: string) {
    && 1 <= |n| <= MaxSheetNameLength
    && (forall i | 0 <= i < |n| :: !IsForbidden(n[i]))
    && n[0] != '\'' && n[|n| - 1] != '\''
  }

  /** The IllegalArgumentException createSheet throws for a name that begins or ends
      with an apostrophe. */
  function InvalidSheetNameMessage(n: string): string {
    "Invalid sheet name '" + n + "'. Sheet names must not begin or end with (')."
  }

  /** A sheet title is never empty, too long or holding a forbidden character, so
      createSheet refuses it exactly when it begins or ends with an apostrophe,
      which sanitising keeps. */
  lemma SheetTitleAccepted(list: FaceList)
    ensures |SheetTitle(list)| >= 1
    ensures var t := SheetTitle(list);
      AcceptedSheetName(t) <==> t[0] != '\'' && t[|t| - 1] != '\''
  {
    var raw := if HasText(list.name) then list.name.value else "List_" + IdText(list.id);
    assert |raw| >= 1;
    SanitizedSheetName(Some(raw));
  }

  /** A list named "'Guests'" gets the sheet title "'Guests'", which createSheet
      refuses. */
  lemma QuotedNameRefused(id: Option<int>)
    ensures SheetTitle(FaceList(id, Some("'Guests'"), None)) == "'Guests'"
    ensures !AcceptedSheetName(SheetTitle(FaceList(id, Some("'Guests'"), None)))
  {
    assert !IsWhitespace("'Guests'"[0]);
    SanitizeKeepsSafeNames("'Guests'");
  }

  // ---------------------------------------------------------------------------
  // The cafeteria pivot

  /** COLUMNS of the pivot sheet. */
  const PivotColumns: seq<string> := ["Category", "Breakfast", "Lunch", "Dinner", "Total"]

  /** The text of the grand-total row. */
  const GrandTotalText := "Grand Total"

  /** The body row of one pivot row: category, the three counts and the total. */
  function PivotDataRow(rd: CafeteriaPivot.CafeteriaPivotRow): seq<Cell> {
    [Text(NullSafe(rd.category)), Number(rd.breakfast), Number(rd.lunch), Number(rd.dinner), Number(rd.Total())]
  }

  /** String.format("SUM(X%d:X%d)") for a column letter X and the first and last
      data rows (1-based). */
  function SumFormula(column: char, firstDataRow: nat, lastDataRow: nat): string {
    "SUM(" + [column] + Decimal.NatToString(firstDataRow) + ":" + [column] + Decimal.NatToString(lastDataRow) + ")"
  }

  /** The column letters B to E of the four numeric columns. */
  const SumColumns: seq<char> := ['B', 'C', 'D', 'E']

  /** The grand-total row after n body rows: SUM formulas over spreadsheet rows
      2..n+1 when there are body rows, zeros otherwise. */
  function GrandTotalRow(n: nat): seq<Cell> {
    [Text(GrandTotalText)] +
      if n > 0 then seq(4, k requires 0 <= k < 4 => Formula(SumFormula(SumColumns[k], 2, n + 1)))
      else [Number(0), Number(0), Number(0), Number(0)]
  }

  /** The rows of the pivot sheet. */
  function PivotRows(rows: seq<CafeteriaPivot.CafeteriaPivotRow>): seq<seq<Cell>> {
    [HeaderCells(PivotColumns)]
      + seq(|rows|, i requires 0 <= i < |rows| => PivotDataRow(rows[i]))
      + [GrandTotalRow(|rows|)]
  }

  /** exportCafeteriaPivot's layout: the header at row 0, input row i at row i+1,
      the grand total right after; the sheet name is used as given. */
  method ExportCafeteriaPivot(sheetName: string, rows: seq<CafeteriaPivot.CafeteriaPivotRow>) returns (sheet: Sheet)
    ensures sheet == Sheet(sheetName, PivotRows(rows), None)
  {
    var written: seq<seq<Cell>> := [];
    var header: seq<Cell> := [];
    var c := 0;
    while c < |PivotColumns|
      invariant 0 <= c <= |PivotColumns|
      invariant header == HeaderCells(PivotColumns[..c])
    {
      header := header + [Text(PivotColumns[c])];
      c := c + 1;
    }
    assert PivotColumns[..|PivotColumns|] == PivotColumns;
    written := [header];
    var rowIdx := 1;
    while rowIdx <= |rows|
      invariant 1 <= rowIdx <= |rows| + 1
      invariant |written| == rowIdx && written[0] == HeaderCells(PivotColumns)
      invariant forall i | 0 <= i < rowIdx - 1 :: written[i + 1] == PivotDataRow(rows[i])
    {
      var rd := rows[rowIdx - 1];
      written := written + [[Text(NullSafe(rd.category)), Number(rd.breakfast), Number(rd.lunch),
                             Number(rd.dinner), Number(rd.Total())]];
      rowIdx := rowIdx + 1;
    }
    var total: seq<Cell> := [Text(GrandTotalText)];
    if |rows| > 0 {
      var firstDataRow, lastDataRow := 2, 1 + |rows|;
      total := total + [Formula(SumFormula('B', firstDataRow, lastDataRow)),
                        Formula(SumFormula('C', firstDataRow, lastDataRow)),
                        Formula(SumFormula('D', firstDataRow, lastDataRow)),
                        Formula(SumFormula('E', firstDataRow, lastDataRow))];
    } else {
      total := total + [Number(0), Number(0), Number(0), Number(0)];
    }
    assert total == GrandTotalRow(|rows|);
    written := written + [total];
    assert written == PivotRows(rows);
    sheet := Sheet(sheetName, written, None);
  }

  /** The pivot sheet has the header, one row per input row in order (its total in
      column E) and the grand-total row last. */
  lemma PivotRowsShape(rows: seq<CafeteriaPivot.CafeteriaPivotRow>)
    ensures |PivotRows(rows)| == |rows| + 2
    ensures PivotRows(rows)[0] == [Text("Category"), Text("Breakfast"), Text("Lunch"), Text("Dinner"), Text("Total")]
    ensures forall i | 0 <= i < |rows| :: (PivotRows(rows)[i + 1] == PivotDataRow(rows[i])
      && PivotRows(rows)[i + 1][0] == Text(NullSafe(rows[i].category))
      && PivotRows(rows)[i + 1][4] == Number(rows[i].Total()))
    ensures PivotRows(rows)[|rows| + 1][0] == Text(GrandTotalText)
  {
  }

  /** The grand-total formulas name exactly the body rows: the sheet rows 1 to n,
      which the spreadsheet numbers 2 to n+1, and the printed last row reads back
      as n+1. Without body rows the totals are zeros. */
  lemma GrandTotalCoversBody(rows: seq<CafeteriaPivot.CafeteriaPivotRow>)
    ensures var total := PivotRows(rows)[|rows| + 1];
      |total| == 5 &&
      (|rows| > 0 ==> forall k | 1 <= k < 5 :: total[k] == Formula(SumFormula(SumColumns[k - 1], 2, |rows| + 1)))
    ensures |rows| == 0 ==> PivotRows(rows)[1] == [Text(GrandTotalText), Number(0), Number(0), Number(0), Number(0)]
    ensures Decimal.DigitsValue(Decimal.NatToString(|rows| + 1)) == |rows| + 1
    ensures forall i | 1 <= i <= |rows| :: PivotRows(rows)[i] == PivotDataRow(rows[i - 1])
  {
    Decimal.DigitsValueOfNatToString(|rows| + 1);
  }

  /** One row (Alpha, 1, 2, 3): its total cell is 6 and the grand total of column E
      is "SUM(E2:E2)". */
  lemma PivotOneRowExample()
    ensures var sheet := PivotRows([CafeteriaPivot.CafeteriaPivotRow(Some("Alpha"), 1, 2, 3)]);
      sheet[1][0] == Text("Alpha") && sheet[1][4] == Number(6)
      && sheet[2][0] == Text("Grand Total") && sheet[2][4] == Formula("SUM(E2:E2)")
  {
    CafeteriaPivot.TotalExample(Some("Alpha"));
    assert Decimal.NatToString(2) == "2";
    assert SumFormula('E', 2, 2) == "SUM(E2:E2)";
  }

  // ---------------------------------------------------------------------------
  // The evacuation workbook

  /** EvacuationReportRow: a roster item and the time of the entrance that put the
      person on site. */
  datatype EvacuationReportRow = EvacuationReportRow(item: ListItem, entranceTime: Option<int>)

  /** The header of an evacuation sheet. */
  const EvacuationColumns: seq<string> := ["Status", "Entrance time", "Photo", "ID", "Name", "Comment"]

  /** formatEntranceTime: "" for a null time; otherwise the zone-dependent text,
      which is a parameter. */
  function FormatEntranceTime(entranceTime: Option<int>, format: int -> string): (r: string)
    ensures entranceTime.None? ==> r == ""
    ensures entranceTime.Some? ==> r == format(entranceTime.value)
  {
    if entranceTime.None? then "" else format(entranceTime.value)
  }

  /** firstImagePath: the path of the first image; null without images, and null
      when the first image is itself null (the exception is swallowed). */
  function FirstImagePath(item: ListItem): (r: Option<string>)
    ensures (item.images.None? || item.images.value == []) ==> r.None?
    ensures item.images.Some? && item.images.value != [] && item.images.value[0].Some? ==>
      r == item.images.value[0].value.path
    ensures r.Some? ==> item.images.Some? && item.images.value != [] && item.images.value[0].Some?
  {
    if item.images.Some? && item.images.value != [] then
      match item.images.value[0]
      case None => None
      case Some(img) => img.path
    else None
  }

  /** The photo column: a picture of the first image when its path has text. */
  function PhotoCell(item: ListItem): Cell {
    var path := FirstImagePath(item);
    if HasText(path) then Picture(path.value) else Blank
  }

  /** The ID column: the id when there is one, else an empty cell. */
  function IdCell(item: ListItem): Cell {
    if item.id.Some? then Number(item.id.value) else Blank
  }

  /** The cells of one data row. */
  function EvacuationDataRow(row: EvacuationReportRow, format: int -> string): seq<Cell> {
    [Bool(true), Text(FormatEntranceTime(row.entranceTime, format)), PhotoCell(row.item),
     IdCell(row.item), Text(NullSafe(row.item.name)), Text(NullSafe(row.item.comment))]
  }

  /** The dropdown rows: from the first data row to Math.max(1, getLastRowNum()). */
  function ValidationRange(lastRowNum: nat): (r: RowRange)
    ensures r.first == 1 && r.first <= r.last
    ensures lastRowNum >= 1 ==> r.last == lastRowNum
  {
    RowRange(1, if lastRowNum > 1 then lastRowNum else 1)
  }

  /** The sheet of one list: header, one row per report row in order, and the
      dropdown over the data rows; the last row number is the count of report rows. */
  function EvacuationSheet(list: FaceList, items: seq<EvacuationReportRow>, format: int -> string): Sheet {
    Sheet(SheetTitle(list),
          [HeaderCells(EvacuationColumns)]
            + seq(|items|, i requires 0 <= i < |items| => EvacuationDataRow(items[i], format)),
          Some(ValidationRange(|items|)))
  }

  /** The whole workbook: a sheet per entry, in the map's iteration order; the
      first entry whose title createSheet refuses throws IllegalArgumentException. */
  function EvacuationWorkbook(data: seq<(FaceList, seq<EvacuationReportRow>)>, format: int -> string)
    : (wb: Result<seq<Sheet>>)
    ensures wb.Success? ==> |wb.value| == |data|
    decreases |data|
  {
    if data == [] then Success([])
    else
      var init := data[..|data| - 1];
      var last := data[|data| - 1];
      match EvacuationWorkbook(init, format)
      case Failure(e) => Failure(e)
      case Success(sheets) =>
        var title := SheetTitle(last.0);
        if TitleAccepted(last.0) then Success(sheets + [EvacuationSheet(last.0, last.1, format)])
        else Failure(IllegalArgument(InvalidSheetNameMessage(title)))
  }

  /** The workbook is written exactly when createSheet accepts every title. */
  lemma {:induction false} WorkbookWritten(data: seq<(FaceList, seq<EvacuationReportRow>)>, format: int -> string)
    ensures EvacuationWorkbook(data, format).Success? <==> forall i | 0 <= i < |data| :: TitleAccepted(data[i].0)
    decreases |data|
  {
    if data != [] {
      var init := data[..|data| - 1];
      assert forall i | 0 <= i < |init| :: init[i] == data[i];
      WorkbookWritten(init, format);
    }
  }

  /** A written workbook holds the sheet of every entry, in order. */
  lemma {:induction false} WorkbookSheets(data: seq<(FaceList, seq<EvacuationReportRow>)>, format: int -> string)
    ensures var wb := EvacuationWorkbook(data, format);
      wb.Success? ==> forall i | 0 <= i < |data| :: wb.value[i] == EvacuationSheet(data[i].0, data[i].1, format)
    decreases |data|
  {
    var wb := EvacuationWorkbook(data, format);
    if data != [] && wb.Success? {
      var init := data[..|data| - 1];
      assert forall i | 0 <= i < |init| :: init[i] == data[i];
      WorkbookSheets(init, format);
      var w0 := EvacuationWorkbook(init, format);
      var n := |data| - 1;
      var sheet := EvacuationSheet(data[n].0, data[n].1, format);
      assert wb.value == w0.value + [sheet];
      forall i | 0 <= i < |data| ensures wb.value[i] == EvacuationSheet(data[i].0, data[i].1, format) {
        if i < n {
          assert wb.value[i] == w0.value[i];
        }
      }
    }
  }

  /** A refused workbook throws for the first title createSheet refuses. */
  lemma {:induction false} WorkbookRefused(data: seq<(FaceList, seq<EvacuationReportRow>)>, format: int -> string)
    ensures var wb := EvacuationWorkbook(data, format);
      wb.Failure? ==> exists k | 0 <= k < |data| ::
        (FirstRefused(data, k) && wb.error == IllegalArgument(InvalidSheetNameMessage(SheetTitle(data[k].0))))
    decreases |data|
  {
    var wb := EvacuationWorkbook(data, format);
    if data != [] && wb.Failure? {
      var init := data[..|data| - 1];
      assert forall i | 0 <= i < |init| :: init[i] == data[i];
      var w0 := EvacuationWorkbook(init, format);
      if w0.Failure? {
        WorkbookRefused(init, format);
        var k :| 0 <= k < |init| && FirstRefused(init, k)
          && w0.error == IllegalArgument(InvalidSheetNameMessage(SheetTitle(init[k].0)));
        assert FirstRefused(data, k);
      } else {
        WorkbookWritten(init, format);
        assert FirstRefused(data, |data| - 1);
      }
    }
  }

  /** createSheet accepts the list's sheet title. */
  predicate TitleAccepted(list: FaceList) {
    AcceptedSheetName(SheetTitle(list))
  }

  /** Entry k is the first whose title createSheet refuses. */
  predicate FirstRefused(data: seq<(FaceList, seq<EvacuationReportRow>)>, k: int)
    requires 0 <= k < |data|
  {
    && !TitleAccepted(data[k].0)
    && forall i | 0 <= i < k :: TitleAccepted(data[i].0)
  }

  /** Once a prefix of the entries throws, the whole workbook throws the same. */
  lemma {:induction false} WorkbookFailurePersists(data: seq<(FaceList, seq<EvacuationReportRow>)>, format: int -> string, n: nat)
    requires n <= |data| && EvacuationWorkbook(data[..n], format).Failure?
    ensures EvacuationWorkbook(data, format) == EvacuationWorkbook(data[..n], format)
    decreases |data|
  {
    if n < |data| {
      assert data[..|data| - 1][..n] == data[..n];
      WorkbookFailurePersists(data[..|data| - 1], format, n);
    } else {
      assert data[..n] == data;
    }
  }

  /** The dropdown of an evacuation sheet is never an inverted range and covers
      every data row. */
  lemma ValidationCoversDataRows(list: FaceList, items: seq<EvacuationReportRow>, format: int -> string)
    ensures var sh := EvacuationSheet(list, items, format);
      sh.validation.Some? && sh.validation.value.first <= sh.validation.value.last
    ensures var sh := EvacuationSheet(list, items, format);
      forall i | 1 <= i < |sh.rows| :: sh.rows[i][0] == Bool(true)
        && sh.validation.value.first <= i <= sh.validation.value.last
  {
  }

  /** exportEvacuationWorkbook's layout: the sheets of the entries in order, each
      filled row by row from row 1, until createSheet refuses a title. */
  method ExportEvacuationWorkbook(data: seq<(FaceList, seq<EvacuationReportRow>)>, format: int -> string)
    returns (r: Result<seq<Sheet>>)
    ensures r == EvacuationWorkbook(data, format)
  {
    var wb: seq<Sheet> := [];
    var e := 0;
    while e < |data|
      invariant 0 <= e <= |data|
      invariant EvacuationWorkbook(data[..e], format) == Success(wb)
    {
      var list := data[e].0;
      var items := data[e].1;
      assert data[..e + 1][..e] == data[..e];
      var title := SheetTitle(list);
      if !TitleAccepted(list) {
        WorkbookFailurePersists(data, format, e + 1);
        return Failure(IllegalArgument(InvalidSheetNameMessage(title)));
      }
      var rows: seq<seq<Cell>> := [HeaderCells(EvacuationColumns)];
      var r := 1;
      while r <= |items|
        invariant 1 <= r <= |items| + 1
        invariant rows == [HeaderCells(EvacuationColumns)]
          + seq(r - 1, i requires 0 <= i < r - 1 => EvacuationDataRow(items[i], format))
      {
        var rowData := items[r - 1];
        var item := rowData.item;
        var idCell := Blank;
        if item.id.Some? {
          idCell := Number(item.id.value);
        }
        rows := rows + [[Bool(true), Text(FormatEntranceTime(rowData.entranceTime, format)), PhotoCell(item),
                         idCell, Text(NullSafe(item.name)), Text(NullSafe(item.comment))]];
        r := r + 1;
      }
      var lastRowNum := |rows| - 1;
      wb := wb + [Sheet(title, rows, Some(ValidationRange(lastRowNum)))];
      e := e + 1;
    }
    assert data[..|data|] == data;
    return Success(wb);
  }

  /** Each evacuation sheet has the six header titles, then report row i at row
      i+1: status true, the formatted entrance time, the id only when it is set,
      null-safe name and comment; the dropdown covers rows 1 to max(1, n). */
  lemma EvacuationSheetShape(list: FaceList, items: seq<EvacuationReportRow>, format: int -> string)
    ensures var sh := EvacuationSheet(list, items, format);
      |sh.rows| == |items| + 1
      && sh.rows[0] == [Text("Status"), Text("Entrance time"), Text("Photo"), Text("ID"), Text("Name"), Text("Comment")]
      && sh.validation == Some(RowRange(1, if |items| > 1 then |items| else 1))
    ensures var sh := EvacuationSheet(list, items, format);
      forall i | 0 <= i < |items| ::
        |sh.rows[i + 1]| == 6
        && sh.rows[i + 1][0] == Bool(true)
        && sh.rows[i + 1][1] == Text(FormatEntranceTime(items[i].entranceTime, format))
        && (sh.rows[i + 1][3] != Blank <==> items[i].item.id.Some?)
        && (items[i].item.id.Some? ==> sh.rows[i + 1][3] == Number(items[i].item.id.value))
        && (items[i].item.name.Some? ==> sh.rows[i + 1][4] == Text(items[i].item.name.value))
        && (items[i].item.name.None? ==> sh.rows[i + 1][4] == Text(""))
        && (items[i].item.comment.Some? ==> sh.rows[i + 1][5] == Text(items[i].item.comment.value))
        && (items[i].item.comment.None? ==> sh.rows[i + 1][5] == Text(""))
  {
  }
}
