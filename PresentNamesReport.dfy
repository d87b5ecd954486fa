/**
 * The present-names evacuation report (domain/evacuation/service/EvacuationReportService):
 * for each requested face list the presence CSV of the face API is reduced to
 * the set of employees marked present on ANY row, and the roster items of those
 * employees, ordered by name, make up the list's sheet. A list id the face API
 * does not know ends the report with NoSuchElementException.
 *
 * The clock reading is the parameter now.
 */
module PresentNamesReport {
  import opened Wrappers
  import opened Dto
  import opened JavaStrings
  import opened Sorting
  import FaceApi
  import EvacuationRefresh
  import PresenceReport
  import ReportLayout

  // ---------------------------------------------------------------------------
  // Header columns

  /** The two columns this parser reads. */
  datatype NameColumns = NameColumns(employee: nat, present: nat) {
    /** The larger of the two: a row needs more fields than this. */
    function MaxIndex(): (m: nat)
      ensures employee <= m && present <= m && (m == employee || m == present)
    {
      if employee >= present then employee else present
    }
  }

  /** The columns chosen from a header, with the fallbacks 1 and 2. */
  function DetectedNameColumns(header: seq<string>): NameColumns {
    var keys := PresenceReport.HeaderKeys(header);
    NameColumns(
      PresenceReport.FirstColumn(keys, PresenceReport.EmployeeColumn).GetOr(1),
      PresenceReport.FirstColumn(keys, PresenceReport.PresentColumn).GetOr(2))
  }

  /** The employee column is the first header cell that contains "employee" or is
      "name" (after trim and lower-case), 1 when there is none; the present column
      the first containing "present", 2 when there is none. */
  lemma DetectedNameColumnsMeaning(header: seq<string>)
    ensures var c := DetectedNameColumns(header);
      (forall j | 0 <= j < |header| && j < c.employee ::
         !PresenceReport.Matches(PresenceReport.EmployeeColumn, PresenceReport.NormalizeName(Some(header[j]))))
      && ((c.employee < |header|
           && PresenceReport.Matches(PresenceReport.EmployeeColumn, PresenceReport.NormalizeName(Some(header[c.employee]))))
          || (c.employee == 1 && forall j | 0 <= j < |header| ::
                !PresenceReport.Matches(PresenceReport.EmployeeColumn, PresenceReport.NormalizeName(Some(header[j])))))
    ensures var c := DetectedNameColumns(header);
      (forall j | 0 <= j < |header| && j < c.present ::
         !PresenceReport.Matches(PresenceReport.PresentColumn, PresenceReport.NormalizeName(Some(header[j]))))
      && ((c.present < |header|
           && PresenceReport.Matches(PresenceReport.PresentColumn, PresenceReport.NormalizeName(Some(header[c.present]))))
          || (c.present == 2 && forall j | 0 <= j < |header| ::
                !PresenceReport.Matches(PresenceReport.PresentColumn, PresenceReport.NormalizeName(Some(header[j])))))
  {
    PresenceReport.ColumnChoice(header, PresenceReport.EmployeeColumn, 1);
    PresenceReport.ColumnChoice(header, PresenceReport.PresentColumn, 2);
  }

  method DetectNameColumns(header: seq<string>) returns (c: NameColumns)
    ensures c == DetectedNameColumns(header)
  {
    var employeeIdx, presentIdx := -1, -1;
    ghost var keys := PresenceReport.HeaderKeys(header);
    var i := 0;
    while i < |header|
      invariant 0 <= i <= |header|
      invariant PresenceReport.Tracks(keys, PresenceReport.EmployeeColumn, i, employeeIdx)
      invariant PresenceReport.Tracks(keys, PresenceReport.PresentColumn, i, presentIdx)
    {
      var col := Trim(header[i]);
      col := ToLower(col);
      employeeIdx := PresenceReport.NoteColumn(keys, PresenceReport.EmployeeColumn, i, employeeIdx, col);
      presentIdx := PresenceReport.NoteColumn(keys, PresenceReport.PresentColumn, i, presentIdx, col);
      i := i + 1;
    }
    assert keys[..|header|] == keys;
    if employeeIdx < 0 { employeeIdx := 1; }
    if presentIdx < 0 { presentIdx := 2; }
    c := NameColumns(employeeIdx, presentIdx);
  }

  // ---------------------------------------------------------------------------
  // Rows

  /** The present field, trimmed and lower-cased, is "true", "1", "yes" or "да". */
  predicate IsPresentToken(s: string) {
    var t := ToLower(Trim(s));
    t == "true" || t == "1" || t == "yes" || t == "да"
  }

  /** The name a data line contributes: none for an empty line, a line with too few
      fields (split drops trailing empty fields), a line not marked present, or an
      empty name; otherwise the normalised trimmed name. */
  function PresentName(line: string, c: NameColumns): Option<string> {
    var t := Trim(line);
    if t == "" then None
    else
      var parts := Split(t, ';');
      if |parts| <= c.MaxIndex() then None
      else if !IsPresentToken(parts[c.present]) then None
      else
        var name := Trim(parts[c.employee]);
        if name == "" then None else Some(PresenceReport.NormalizeName(Some(name)))
  }

  /** A contributed name is non-empty and already in normal form. */
  lemma PresentNameWellFormed(line: string, c: NameColumns)
    requires PresentName(line, c).Some?
    ensures PresentName(line, c).value != ""
    ensures PresenceReport.NormalizeName(Some(PresentName(line, c).value)) == PresentName(line, c).value
  {
    var parts := Split(Trim(line), ';');
    var name := Trim(parts[c.employee]);
    TrimIdempotent(parts[c.employee]);
    PresenceReport.NormalizeNameIdempotent(Some(name));
  }

  /** LinkedHashSet.add on an insertion-ordered set held as a sequence. */
  function AddName(names: seq<string>, n: string): (r: seq<string>)
    ensures n in names ==> r == names
    ensures n !in names ==> r == names + [n]
  {
    if n in names then names else names + [n]
  }

  /** What each data line contributes. */
  function Contributions(lines: seq<string>, c: NameColumns): (opts: seq<Option<string>>)
    ensures |opts| == |lines|
    ensures forall i | 0 <= i < |lines| :: opts[i] == PresentName(lines[i], c)
  {
    seq(|lines|, i requires 0 <= i < |lines| => PresentName(lines[i], c))
  }

  /** The contributed names, each once, in order of first appearance. */
  function Collect(opts: seq<Option<string>>): seq<string> {
    if opts == [] then []
    else
      var prev := Collect(opts[..|opts| - 1]);
      match opts[|opts| - 1]
      case None => prev
      case Some(n) => AddName(prev, n)
  }

  /** No name twice. */
  predicate Distinct(names: seq<string>) {
    forall i, j | 0 <= i < j < |names| :: names[i] != names[j]
  }

  /** A name is collected exactly when some line contributes it. */
  lemma {:induction false} CollectMembers(opts: seq<Option<string>>, n: string)
    ensures n in Collect(opts) <==> Some(n) in opts
    decreases |opts|
  {
    if opts != [] {
      var prefix := opts[..|opts| - 1];
      CollectMembers(prefix, n);
      assert opts == prefix + [opts[|opts| - 1]];
    }
  }

  /** The collected names are distinct. */
  lemma {:induction false} CollectDistinct(opts: seq<Option<string>>)
    ensures Distinct(Collect(opts))
    decreases |opts|
  {
    if opts != [] {
      CollectDistinct(opts[..|opts| - 1]);
    }
  }

  /** Insertion order: the names of the first k lines come first, in the same order. */
  lemma {:induction false} CollectPrefix(opts: seq<Option<string>>, k: nat)
    requires k <= |opts|
    ensures |Collect(opts[..k])| <= |Collect(opts)| && Collect(opts)[..|Collect(opts[..k])|] == Collect(opts[..k])
    decreases |opts|
  {
    if k < |opts| {
      var prefix := opts[..|opts| - 1];
      assert prefix[..k] == opts[..k];
      CollectPrefix(prefix, k);
    } else {
      assert opts[..k] == opts;
    }
  }

  /** One more line appends its name unless the name is already there. */
  lemma CollectStep(opts: seq<Option<string>>, i: int)
    requires 0 <= i < |opts|
    ensures Collect(opts[..i + 1]) == match opts[i] case None => Collect(opts[..i]) case Some(n) => AddName(Collect(opts[..i]), n)
  {
    assert opts[..i + 1][..i] == opts[..i];
  }

  // ---------------------------------------------------------------------------
  // parseCsvPresentNames

  /** The data lines and the columns they are read with, when the text has text and
      more than one line. */
  function CsvParts(csv: string): Option<(seq<string>, NameColumns)> {
    if !HasText(Some(csv)) then None
    else
      var lines := SplitLines(PresenceReport.StripBom(csv));
      if |lines| <= 1 then None
      else Some((lines[1..], DetectedNameColumns(Split(lines[0], ';'))))
  }

  /** What parseCsvPresentNames returns, in the LinkedHashSet's order. */
  function PresentNameList(csv: string): seq<string> {
    match CsvParts(csv)
    case None => []
    case Some(parts) => Collect(Contributions(parts.0, parts.1))
  }

  /** The returned set. */
  function PresentNameSet(csv: string): set<string> {
    set n | n in PresentNameList(csv)
  }

  /** A blank text, or a text of a single line, holds no names. */
  lemma PresentNamesOfBlankOrSingleLine(csv: string)
    requires !HasText(Some(csv)) || '\n' !in csv
    ensures PresentNameList(csv) == []
  {
    if HasText(Some(csv)) {
      assert '\n' !in PresenceReport.StripBom(csv);
    }
  }

  /** A leading byte-order mark makes no difference. */
  lemma PresentNamesIgnoreBom(csv: string)
    requires HasText(Some(csv)) && csv[0] != PresenceReport.Bom
    ensures PresentNameList([PresenceReport.Bom] + csv) == PresentNameList(csv)
  {
    var marked := [PresenceReport.Bom] + csv;
    assert marked[1..] == csv;
    assert !IsWhitespace(marked[0]);
    assert HasText(Some(marked));
  }

  /** A name is present exactly when one of the data lines contributes it; the
      names are distinct, non-empty and normalised. */
  lemma PresentNamesMeaning(csv: string, n: string)
    ensures n in PresentNameList(csv) <==>
      CsvParts(csv).Some? && exists i | 0 <= i < |CsvParts(csv).value.0| ::
        PresentName(CsvParts(csv).value.0[i], CsvParts(csv).value.1) == Some(n)
    ensures Distinct(PresentNameList(csv))
    ensures n in PresentNameList(csv) ==> n != "" && PresenceReport.NormalizeName(Some(n)) == n
  {
    if CsvParts(csv).Some? {
      var lines := CsvParts(csv).value.0;
      var c := CsvParts(csv).value.1;
      var opts := Contributions(lines, c);
      CollectMembers(opts, n);
      CollectDistinct(opts);
      if n in PresentNameList(csv) {
        var i :| 0 <= i < |lines| && opts[i] == Some(n);
        PresentNameWellFormed(lines[i], c);
      }
    }
  }

  /** The names of a text with text and more than one line come from its data lines. */
  lemma PresentNameListOfLines(csv: string, lines: seq<string>)
    requires HasText(Some(csv)) && lines == SplitLines(PresenceReport.StripBom(csv)) && |lines| > 1
    ensures PresentNameList(csv) == Collect(Contributions(lines[1..], DetectedNameColumns(Split(lines[0], ';'))))
  {
  }

  /** The body of the parsing loop for one line: the name it adds, if any. */
  method LineName(rawLine: string, c: NameColumns) returns (contributed: Option<string>)
    ensures contributed == PresentName(rawLine, c)
  {
    contributed := None;
    var line := Trim(rawLine);
    if line != "" {
      var parts := Split(line, ';');
      if |parts| > c.MaxIndex() {
        var presentStr := ToLower(Trim(parts[c.present]));
        var present := presentStr == "true" || presentStr == "1" || presentStr == "yes" || presentStr == "да";
        if present {
          var name := Trim(parts[c.employee]);
          if name != "" {
            contributed := Some(PresenceReport.NormalizeName(Some(name)));
          }
        }
      }
    }
  }

  /** The parsing loop of parseCsvPresentNames. */
  method ParseCsvPresentNames(csv: string) returns (result: seq<string>)
    ensures result == PresentNameList(csv)
  {
    if !HasText(Some(csv)) {
      return [];
    }
    var text := csv;
    if |text| > 0 && text[0] == PresenceReport.Bom {
      text := text[1..];
    }
    assert text == PresenceReport.StripBom(csv);
    var lines := SplitLines(text);
    if |lines| <= 1 {
      assert CsvParts(csv).None?;
      return [];
    }
    var c := DetectNameColumns(Split(lines[0], ';'));
    PresentNameListOfLines(csv, lines);
    result := CollectPresentNames(lines, c);
  }

  /** The loop over the data lines (from the second line on), adding each line's
      name to the insertion-ordered set. */
  method CollectPresentNames(lines: seq<string>, c: NameColumns) returns (result: seq<string>)
    requires |lines| >= 1
    ensures result == Collect(Contributions(lines[1..], c))
  {
    ghost var opts := Contributions(lines[1..], c);
    result := [];
    var i := 1;
    while i < |lines|
      invariant 1 <= i <= |lines|
      invariant result == Collect(opts[..i - 1])
    {
      CollectStep(opts, i - 1);
      var contributed := LineName(lines[i], c);
      assert contributed == opts[i - 1];
      if contributed.Some? {
        result := AddName(result, contributed.value);
      }
      i := i + 1;
    }
    assert opts[..|lines| - 1] == opts;
  }

  // ---------------------------------------------------------------------------
  // buildEvacuationReport up to the workbook

  /** getListItems(listId, "", "", 0, 1000, "asc", "name"): one call with limit 1000. */
  const ListItemLimit := 1000

  /** fetchFaceListMeta(listId).get(): the list with that id among the first 100
      lists; NoSuchElementException when there is none. */
  function ListMeta(api: FaceApi.Remote, listId: int): (r: Result<FaceList>)
    ensures r.Success? ==> r.value.id == Some(listId)
    ensures r.Failure? ==> r.error in {RemoteFailure, NullPointer, NoSuchElement}
    ensures r == Failure(NoSuchElement) <==> PresenceReport.FaceListMeta(api, listId) == Success(None)
  {
    match PresenceReport.FaceListMeta(api, listId)
    case Failure(e) => Failure(e)
    case Success(None) => Failure(NoSuchElement)
    case Success(Some(fl)) => Success(fl)
  }

  /** What one list id contributes: its list with an empty sheet when nobody is
      present, otherwise with the present roster items ordered by name. */
  function SheetFor(api: FaceApi.Remote, listId: int, now: int): (r: Result<(FaceList, seq<ListItem>)>)
    ensures r.Success? ==> ListMeta(api, listId) == Success(r.value.0)
    ensures r.Failure? ==> r.error in {RemoteFailure, NullPointer, NoSuchElement}
  {
    var faceList :- ListMeta(api, listId);
    var csv :- FaceApi.PresenceCsv(api, listId, now);
    var present := PresentNameSet(csv);
    if present == {} then Success((faceList, []))
    else
      var all :- EvacuationRefresh.ListItemsOf(api, Some(listId));
      Success((faceList, PresenceReport.PresentItems(all, present)))
  }

  /** A sheet holds the list of its id; nobody present means no items; otherwise
      exactly the roster items with a name that has text and whose normalised name
      is present, ordered by lower-cased name. */
  lemma SheetHoldsPresentItems(api: FaceApi.Remote, listId: int, now: int, fl: FaceList, items: seq<ListItem>)
    requires SheetFor(api, listId, now) == Success((fl, items))
    ensures fl.id == Some(listId)
    ensures SortedBy(items, PresenceReport.ByName)
    ensures FaceApi.PresenceCsv(api, listId, now).Success?
    ensures PresentNameSet(FaceApi.PresenceCsv(api, listId, now).value) == {} ==> items == []
    ensures PresentNameSet(FaceApi.PresenceCsv(api, listId, now).value) != {} ==>
      EvacuationRefresh.ListItemsOf(api, Some(listId)).Success?
      && forall it :: it in items <==>
           (it in EvacuationRefresh.ListItemsOf(api, Some(listId)).value
            && PresenceReport.IsPresentItem(it, PresentNameSet(FaceApi.PresenceCsv(api, listId, now).value)))
  {
  }

  /** A result lifted into the shape of the LinkedHashMap fold: every id that does
      not throw puts a sheet. */
  function Lift(r: Result<(FaceList, seq<ListItem>)>): PresenceReport.SheetResult {
    match r
    case Failure(e) => Failure(e)
    case Success(sheet) => Success(Some(sheet))
  }

  /** The result of each id in turn. */
  function SheetResults(api: FaceApi.Remote, ids: seq<int>, now: int): (rs: seq<PresenceReport.SheetResult>)
    ensures |rs| == |ids|
    ensures forall i | 0 <= i < |ids| :: rs[i] == Lift(SheetFor(api, ids[i], now))
  {
    seq(|ids|, i requires 0 <= i < |ids| => Lift(SheetFor(api, ids[i], now)))
  }

  /** buildEvacuationReport up to buildWorkbook: null or empty ids are refused,
      otherwise the sheets of the ids in ascending order. */
  function EvacuationReport(api: FaceApi.Remote, listIds: Option<seq<int>>, now: int): Result<PresenceReport.Sheets> {
    if listIds.None? || listIds.value == [] then Failure(IllegalArgument(PresenceReport.EmptyIdsMessage))
    else PresenceReport.SheetsFrom(SheetResults(api, SortInts(listIds.value), now))
  }

  /** The report throws IllegalArgumentException exactly for a null or empty id
      list; any other exception is a remote failure, a null body or a missing list. */
  lemma EvacuationReportRefusesNoIds(api: FaceApi.Remote, listIds: Option<seq<int>>, now: int)
    ensures (listIds.None? || listIds.value == []) <==>
      EvacuationReport(api, listIds, now) == Failure(IllegalArgument(PresenceReport.EmptyIdsMessage))
    ensures EvacuationReport(api, listIds, now).Failure? && listIds.Some? && listIds.value != [] ==>
      EvacuationReport(api, listIds, now).error in {RemoteFailure, NullPointer, NoSuchElement}
  {
    if listIds.Some? && listIds.value != [] {
      PresenceReport.SheetsSucceed(SheetResults(api, SortInts(listIds.value), now));
    }
  }

  /** A requested id that the face API does not know makes the report fail. */
  lemma UnknownListFails(api: FaceApi.Remote, listIds: Option<seq<int>>, now: int, id: int)
    requires listIds.Some? && id in listIds.value
    requires PresenceReport.FaceListMeta(api, id) == Success(None)
    ensures EvacuationReport(api, listIds, now).Failure?
  {
    var ids := SortInts(listIds.value);
    assert id in multiset(ids);
    var i :| 0 <= i < |ids| && ids[i] == id;
    PresenceReport.SheetsSucceed(SheetResults(api, ids, now));
  }

  /** Every requested id has its sheet in the report, and every sheet holds what its
      id supplied. */
  lemma EvacuationReportSheets(api: FaceApi.Remote, listIds: Option<seq<int>>, now: int, id: int)
    requires EvacuationReport(api, listIds, now).Success?
    requires id in listIds.value
    ensures SheetFor(api, id, now).Success?
    ensures var sheet := SheetFor(api, id, now).value;
      sheet.0 in EvacuationReport(api, listIds, now).value.items
      && EvacuationReport(api, listIds, now).value.items[sheet.0] == sheet.1
  {
    var ids := SortInts(listIds.value);
    var results := SheetResults(api, ids, now);
    assert id in multiset(ids);
    var i :| 0 <= i < |ids| && ids[i] == id;
    PresenceReport.SheetsSucceed(results);
    PresenceReport.SheetsCoverResults(results, i);
    var fl := results[i].value.value.0;
    PresenceReport.SheetsComeFromResults(results, fl);
    var j :| 0 <= j < |results| && results[j] == Success(Some((fl, PresenceReport.SheetsFrom(results).value.items[fl])));
    assert ListMeta(api, ids[j]) == Success(fl) && ListMeta(api, ids[i]) == Success(fl);
    assert ids[j] == ids[i];
  }

  /** The report's sheets come in strictly ascending list-id order. */
  lemma EvacuationReportAscending(api: FaceApi.Remote, listIds: Option<seq<int>>, now: int)
    requires EvacuationReport(api, listIds, now).Success?
    ensures PresenceReport.Ascending(EvacuationReport(api, listIds, now).value.order)
  {
    var ids := SortInts(listIds.value);
    SortIntsSorted(listIds.value);
    PresenceReport.SheetsAscending(SheetResults(api, ids, now), ids);
  }

  /** The gathering loop of buildEvacuationReport. */
  method BuildEvacuationReport(api: FaceApi.Remote, listIds: Option<seq<int>>, now: int)
    returns (r: Result<PresenceReport.Sheets>)
    ensures r == EvacuationReport(api, listIds, now)
  {
    if listIds.None? || listIds.value == [] {
      return Failure(IllegalArgument(PresenceReport.EmptyIdsMessage));
    }
    var sortedIds := SortInts(listIds.value);
    ghost var results := SheetResults(api, sortedIds, now);
    var data := PresenceReport.Sheets([], map[]);
    var i := 0;
    while i < |sortedIds|
      invariant 0 <= i <= |sortedIds|
      invariant PresenceReport.SheetsFrom(results[..i]) == Success(data)
    {
      var listId := sortedIds[i];
      PresenceReport.SheetsStep(results, i);
      var faceList := ListMeta(api, listId);
      if faceList.Failure? {
        PresenceReport.SheetsFailurePersists(results, i + 1);
        return Failure(faceList.error);
      }
      var csv := FaceApi.PresenceCsv(api, listId, now);
      if csv.Failure? {
        PresenceReport.SheetsFailurePersists(results, i + 1);
        return Failure(csv.error);
      }
      var names := ParseCsvPresentNames(csv.value);
      var presentNames := set n | n in names;
      if presentNames == {} {
        data := PresenceReport.Put(data, faceList.value, []);
      } else {
        var allItems := EvacuationRefresh.ListItemsOf(api, Some(listId));
        if allItems.Failure? {
          PresenceReport.SheetsFailurePersists(results, i + 1);
          return Failure(allItems.error);
        }
        data := PresenceReport.Put(data, faceList.value, PresenceReport.PresentItems(allItems.value, presentNames));
      }
      i := i + 1;
    }
    assert results[..|sortedIds|] == results;
    return Success(data);
  }

  // ---------------------------------------------------------------------------
  // The sheet dropdown of buildWorkbook

  /** new CellRangeAddressList(1, r - 1, 0, 0) after writing the data rows from row
      1, r being one past the last written row. */
  function DropdownRowsAsWritten(itemCount: nat): (range: ReportLayout.RowRange)
    ensures range.first == 1 && range.last == itemCount
  {
    var r := 1 + itemCount;
    ReportLayout.RowRange(1, r - 1)
  }

  /** For a list nobody is present on (an empty sheet, which buildEvacuationReport
      puts for every such list) the range runs from row 1 to row 0: its last row is
      before its first. */
  lemma EmptySheetDropdownInverted()
    ensures DropdownRowsAsWritten(0).last < DropdownRowsAsWritten(0).first
  {
  }

  /** With at least one data row the range as written is the corrected one. */
  lemma DropdownAgreesWithCorrected(itemCount: nat)
    requires itemCount >= 1
    ensures DropdownRowsAsWritten(itemCount) == ReportLayout.ValidationRange(itemCount)
  {
  }
}
