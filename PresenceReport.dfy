/**
 * The presence-CSV evacuation report (domain/evacuation/EvacuationReportService):
 * for each requested face list, the presence report of the face API is parsed
 * into records per employee, the chronologically last record of each employee
 * decides whether that employee is on site, and the roster items of the people
 * on site, ordered by name, make up the list's sheet.
 *
 * Date parsing (parseHumanDateToMillis) is a parameter of the model; the clock
 * reading is the parameter now.
 */
module PresenceReport {
  import opened Wrappers
  import opened Dto
  import opened JavaStrings
  import opened Sorting
  import FaceApi
  import EvacuationRefresh
  import Decimal

  /** The getFaceLists limit used to look up a list's metadata. */
  const MetaListLimit := 100

  /** The message of the exception thrown for a missing or empty id list. */
  const EmptyIdsMessage := "listIds cannot be empty"

  // ---------------------------------------------------------------------------
  // Names

  /** normalizeName: trimmed and lower-cased; null becomes "". */
  function NormalizeName(s: Option<string>): (r: string)
    ensures s.None? ==> r == ""
    ensures s.Some? ==> |r| <= |s.value|
  {
    if s.None? then "" else ToLower(Trim(s.value))
  }

  /** Normalising a normalised name changes nothing. */
  lemma NormalizeNameIdempotent(s: Option<string>)
    ensures NormalizeName(Some(NormalizeName(s))) == NormalizeName(s)
  {
    if s.Some? {
      var t := Trim(s.value);
      TrimToLowerCommute(t);
      TrimIdempotent(s.value);
      ToLowerIdempotent(t);
    }
  }

  /** A trimmed name that has text normalises to a non-empty name in normal form. */
  lemma NormalizeTrimmedName(raw: string)
    requires HasText(Some(Trim(raw)))
    ensures NormalizeName(Some(Trim(raw))) != ""
    ensures NormalizeName(Some(NormalizeName(Some(Trim(raw))))) == NormalizeName(Some(Trim(raw)))
  {
    TrimIdempotent(raw);
    NormalizeNameIdempotent(Some(Trim(raw)));
  }

  // ---------------------------------------------------------------------------
  // Header columns

  /** The three columns the parser looks for. */
  datatype Column = DateColumn | EmployeeColumn | PresentColumn

  /** A header cell as compared: trimmed and lower-cased. */
  function HeaderKeys(header: seq<string>): (keys: seq<string>)
    ensures |keys| == |header|
    ensures forall i | 0 <= i < |header| :: keys[i] == NormalizeName(Some(header[i]))
  {
    seq(|header|, i requires 0 <= i < |header| => NormalizeName(Some(header[i])))
  }

  /** The compared header cell names the column. */
  predicate Matches(kind: Column, col: string) {
    match kind
    case DateColumn => Contains(col, "date")
    case EmployeeColumn => Contains(col, "employee") || col == "name"
    case PresentColumn => Contains(col, "present")
  }

  /** The first compared header cell that names the column, if any. */
  function FirstColumn(keys: seq<string>, kind: Column): (r: Option<nat>)
    ensures r.Some? ==> r.value < |keys| && Matches(kind, keys[r.value])
    ensures r.Some? ==> forall j | 0 <= j < r.value :: !Matches(kind, keys[j])
    ensures r.None? ==> forall j | 0 <= j < |keys| :: !Matches(kind, keys[j])
  {
    if keys == [] then None
    else
      var prev := FirstColumn(keys[..|keys| - 1], kind);
      if prev.Some? then prev
      else if Matches(kind, keys[|keys| - 1]) then Some(|keys| - 1)
      else None
  }

  /** The column read for `kind`: the first header cell naming it, or `fallback`
      when no cell does. */
  lemma ColumnChoice(header: seq<string>, kind: Column, fallback: nat)
    ensures var k := FirstColumn(HeaderKeys(header), kind).GetOr(fallback);
      (forall j | 0 <= j < |header| && j < k :: !Matches(kind, NormalizeName(Some(header[j]))))
      && ((k < |header| && Matches(kind, NormalizeName(Some(header[k]))))
          || (k == fallback && forall j | 0 <= j < |header| :: !Matches(kind, NormalizeName(Some(header[j])))))
  {
    var keys := HeaderKeys(header);
    assert forall j | 0 <= j < |header| :: keys[j] == NormalizeName(Some(header[j]));
  }

  /** One more header cell: the earlier match stays, or this cell is the first. */
  lemma FirstColumnStep(keys: seq<string>, kind: Column, i: nat)
    requires i < |keys|
    ensures FirstColumn(keys[..i + 1], kind) ==
      if FirstColumn(keys[..i], kind).Some? then FirstColumn(keys[..i], kind)
      else if Matches(kind, keys[i]) then Some(i) else None
  {
    assert keys[..i + 1][..i] == keys[..i];
  }

  /** The column indexes a data row is read with. */
  datatype Columns = Columns(date: nat, employee: nat, present: nat) {
    /** The largest of the three: a row needs more fields than this. */
    function MaxIndex(): (m: nat)
      ensures date <= m && employee <= m && present <= m
      ensures m == date || m == employee || m == present
    {
      if date >= employee && date >= present then date
      else if employee >= present then employee
      else present
    }
  }

  /** The columns chosen from a header, with the fallbacks 0, 1 and 2. */
  function DetectedColumns(header: seq<string>): Columns {
    var keys := HeaderKeys(header);
    Columns(
      FirstColumn(keys, DateColumn).GetOr(0),
      FirstColumn(keys, EmployeeColumn).GetOr(1),
      FirstColumn(keys, PresentColumn).GetOr(2))
  }

  /** A header that names none of the columns reads date, employee and present
      from the first three fields. */
  lemma UnnamedHeaderFallsBack(header: seq<string>)
    requires forall j | 0 <= j < |HeaderKeys(header)| :: var col := HeaderKeys(header)[j];
      !Matches(DateColumn, col) && !Matches(EmployeeColumn, col) && !Matches(PresentColumn, col)
    ensures DetectedColumns(header) == Columns(0, 1, 2)
  {
  }

  /** The index a header scan holds for one column after the first `i` cells: -1
      while no cell has matched. */
  predicate Tracks(keys: seq<string>, kind: Column, i: nat, idx: int)
    requires i <= |keys|
  {
    if idx < 0 then FirstColumn(keys[..i], kind).None? else FirstColumn(keys[..i], kind) == Some(idx)
  }

  /** One step of the header scan for one column: the first matching cell is kept. */
  method NoteColumn(ghost keys: seq<string>, kind: Column, i: nat, idx: int, col: string) returns (next: int)
    requires i < |keys| && col == keys[i]
    requires Tracks(keys, kind, i, idx)
    ensures Tracks(keys, kind, i + 1, next)
  {
    FirstColumnStep(keys, kind, i);
    next := idx;
    if idx < 0 && Matches(kind, col) {
      next := i;
    }
  }

  /** The header loop: the first matching index of each column, then the fallbacks. */
  method DetectColumns(header: seq<string>) returns (c: Columns)
    ensures c == DetectedColumns(header)
  {
    var dateIdx, employeeIdx, presentIdx := -1, -1, -1;
    ghost var keys := HeaderKeys(header);
    var i := 0;
    while i < |header|
      invariant 0 <= i <= |header|
      invariant Tracks(keys, DateColumn, i, dateIdx)
      invariant Tracks(keys, EmployeeColumn, i, employeeIdx)
      invariant Tracks(keys, PresentColumn, i, presentIdx)
    {
      var col := NormalizeName(Some(header[i]));
      dateIdx := NoteColumn(keys, DateColumn, i, dateIdx, col);
      employeeIdx := NoteColumn(keys, EmployeeColumn, i, employeeIdx, col);
      presentIdx := NoteColumn(keys, PresentColumn, i, presentIdx, col);
      i := i + 1;
    }
    assert keys[..|header|] == keys;
    if dateIdx < 0 { dateIdx := 0; }
    if employeeIdx < 0 { employeeIdx := 1; }
    if presentIdx < 0 { presentIdx := 2; }
    c := Columns(dateIdx, employeeIdx, presentIdx);
  }

  // ---------------------------------------------------------------------------
  // Rows

  /** EvacRecord: the date text as written, its parsed time, and the present flag. */
  datatype EvacRecord = EvacRecord(parsedTime: string, timestamp: Option<int>, presence: bool)

  /** The fields of a data row: the trimmed line split on ';', empty fields kept. */
  function Fields(line: string): seq<string> {
    SplitAll(Trim(line), ';')
  }

  /** "true".equalsIgnoreCase(s.trim()). */
  predicate IsTrue(s: string) {
    ToLower(Trim(s)) == "true"
  }

  /** The row is kept: it is not blank, it has a field at every chosen column,
      and its name and date have text and the date parses. */
  predicate Kept(line: string, c: Columns, parseDate: string -> Option<int>) {
    var parts := Fields(line);
    && Trim(line) != ""
    && c.MaxIndex() < |parts|
    && HasText(Some(Trim(parts[c.employee])))
    && HasText(Some(Trim(parts[c.date])))
    && parseDate(Trim(parts[c.date])).Some?
  }

  /** What a kept row contributes: its name in normal form, and a record with a
      parsed date. */
  predicate WellFormedRow(row: (string, EvacRecord), parseDate: string -> Option<int>) {
    && row.0 != ""
    && NormalizeName(Some(row.0)) == row.0
    && HasText(Some(row.1.parsedTime))
    && row.1.timestamp.Some?
    && row.1.timestamp == parseDate(row.1.parsedTime)
  }

  /** One data row of parsePresenceCsv: skipped, or a name and its record. */
  function ParseRow(line: string, c: Columns, parseDate: string -> Option<int>): (r: Option<(string, EvacRecord)>)
    ensures r.Some? <==> Kept(line, c, parseDate)
  {
    var trimmed := Trim(line);
    if trimmed == "" then None
    else
      var parts := SplitAll(trimmed, ';');
      if |parts| <= c.MaxIndex() then None
      else
        var dateStr := Trim(parts[c.date]);
        var rawName := Trim(parts[c.employee]);
        var presentStr := Trim(parts[c.present]);
        if !HasText(Some(rawName)) || !HasText(Some(dateStr)) then None
        else
          match parseDate(dateStr)
          case None => None
          case Some(ts) => Some((NormalizeName(Some(rawName)), EvacRecord(dateStr, Some(ts), IsTrue(presentStr))))
  }

  /** A kept row is well formed; its name is the normalised employee field, its
      date text the trimmed date field, and it is present exactly when the present
      field equals "true" ignoring case. */
  lemma ParseRowKept(line: string, c: Columns, parseDate: string -> Option<int>)
    requires ParseRow(line, c, parseDate).Some?
    ensures WellFormedRow(ParseRow(line, c, parseDate).value, parseDate)
    ensures var row := ParseRow(line, c, parseDate).value;
      && row.0 == NormalizeName(Some(Fields(line)[c.employee]))
      && row.1.parsedTime == Trim(Fields(line)[c.date])
      && (row.1.presence <==> IsTrue(Fields(line)[c.present]))
  {
    var parts := Fields(line);
    NormalizeTrimmedName(parts[c.employee]);
    TrimIdempotent(parts[c.employee]);
    TrimIdempotent(parts[c.present]);
  }

  /** The kept rows of the data lines, in input order. */
  function KeptRows(lines: seq<string>, c: Columns, parseDate: string -> Option<int>): (r: seq<(string, EvacRecord)>)
    ensures |r| <= |lines|
  {
    if lines == [] then []
    else
      var prev := KeptRows(lines[..|lines| - 1], c, parseDate);
      match ParseRow(lines[|lines| - 1], c, parseDate)
      case None => prev
      case Some(row) => prev + [row]
  }

  /** Every kept row is well formed. */
  lemma {:induction false} KeptRowsWellFormed(lines: seq<string>, c: Columns, parseDate: string -> Option<int>, i: int)
    requires 0 <= i < |KeptRows(lines, c, parseDate)|
    ensures WellFormedRow(KeptRows(lines, c, parseDate)[i], parseDate)
    decreases |lines|
  {
    var n := |lines| - 1;
    var prev := KeptRows(lines[..n], c, parseDate);
    if i < |prev| {
      KeptRowsWellFormed(lines[..n], c, parseDate, i);
    } else {
      ParseRowKept(lines[n], c, parseDate);
    }
  }

  // ---------------------------------------------------------------------------
  // Grouping

  /** The records of the rows with the given name, in input order. */
  function RecordsOf(rows: seq<(string, EvacRecord)>, name: string): (r: seq<EvacRecord>)
    ensures |r| <= |rows|
  {
    if rows == [] then []
    else
      RecordsOf(rows[..|rows| - 1], name)
        + (if rows[|rows| - 1].0 == name then [rows[|rows| - 1].1] else [])
  }

  /** Each record of a name comes from a row with that name. */
  lemma {:induction false} RecordsOfFrom(rows: seq<(string, EvacRecord)>, name: string, k: int)
    requires 0 <= k < |RecordsOf(rows, name)|
    ensures exists i | 0 <= i < |rows| :: rows[i] == (name, RecordsOf(rows, name)[k])
    decreases |rows|
  {
    var prev := RecordsOf(rows[..|rows| - 1], name);
    if k < |prev| {
      RecordsOfFrom(rows[..|rows| - 1], name, k);
      var i :| 0 <= i < |rows| - 1 && rows[..|rows| - 1][i] == (name, prev[k]);
      assert rows[i] == (name, RecordsOf(rows, name)[k]);
    } else {
      assert rows[|rows| - 1] == (name, RecordsOf(rows, name)[k]);
    }
  }

  /** out.computeIfAbsent(name, ...).add(record) over the rows. */
  function Group(rows: seq<(string, EvacRecord)>): (g: map<string, seq<EvacRecord>>)
  {
    if rows == [] then map[]
    else
      var g := Group(rows[..|rows| - 1]);
      var row := rows[|rows| - 1];
      g[row.0 := (if row.0 in g then g[row.0] else []) + [row.1]]
  }

  /** A name is a key of the grouping exactly when some row has it, and it maps
      to the records of its rows in input order. */
  lemma {:induction false} GroupAt(rows: seq<(string, EvacRecord)>, name: string)
    ensures name in Group(rows) <==> RecordsOf(rows, name) != []
    ensures name in Group(rows) ==> Group(rows)[name] == RecordsOf(rows, name)
    decreases |rows|
  {
    if rows != [] {
      GroupAt(rows[..|rows| - 1], name);
    }
  }

  // ---------------------------------------------------------------------------
  // parsePresenceCsv

  /** The byte-order mark U+FEFF. */
  const Bom: char := '\U{FEFF}'

  /** One leading byte-order mark removed. */
  function StripBom(csv: string): (r: string)
    ensures |csv| > 0 && csv[0] == Bom ==> r == csv[1..]
    ensures (|csv| == 0 || csv[0] != Bom) ==> r == csv
  {
    if |csv| > 0 && csv[0] == Bom then csv[1..] else csv
  }

  /** The kept data rows of the text: none for a text without text or without a
      data line, otherwise those of the lines after the header. */
  function CsvRows(csv: string, parseDate: string -> Option<int>): seq<(string, EvacRecord)> {
    if !HasText(Some(csv)) then []
    else
      var lines := SplitLines(StripBom(csv));
      if |lines| <= 1 then []
      else KeptRows(lines[1..], DetectedColumns(SplitAll(lines[0], ';')), parseDate)
  }

  /** What parsePresenceCsv returns: the kept rows grouped by normalised name. */
  function PresenceRecords(csv: string, parseDate: string -> Option<int>): map<string, seq<EvacRecord>> {
    Group(CsvRows(csv, parseDate))
  }

  /** A blank text, or a text of a single line, holds no records. */
  lemma PresenceRecordsOfBlankOrSingleLine(csv: string, parseDate: string -> Option<int>)
    requires !HasText(Some(csv)) || '\n' !in csv
    ensures PresenceRecords(csv, parseDate) == map[]
  {
    if HasText(Some(csv)) {
      assert '\n' !in StripBom(csv);
    }
  }

  /** A leading byte-order mark makes no difference. */
  lemma PresenceRecordsIgnoreBom(csv: string, parseDate: string -> Option<int>)
    requires HasText(Some(csv)) && csv[0] != Bom
    ensures PresenceRecords([Bom] + csv, parseDate) == PresenceRecords(csv, parseDate)
  {
    var marked := [Bom] + csv;
    assert marked[1..] == csv;
    assert !IsWhitespace(marked[0]);
    assert HasText(Some(marked));
  }

  /** Every key is a non-empty name in normal form holding at least one record,
      and every record carries the time its date text parses to. */
  lemma PresenceRecordsWellFormed(csv: string, parseDate: string -> Option<int>, name: string)
    requires name in PresenceRecords(csv, parseDate)
    ensures name != "" && NormalizeName(Some(name)) == name
    ensures PresenceRecords(csv, parseDate)[name] != []
    ensures forall rec | rec in PresenceRecords(csv, parseDate)[name] ::
      rec.timestamp.Some? && rec.timestamp == parseDate(rec.parsedTime)
  {
    var rows := CsvRows(csv, parseDate);
    assert PresenceRecords(csv, parseDate) == Group(rows);
    forall i | 0 <= i < |rows| ensures WellFormedRow(rows[i], parseDate) {
      RowOfCsvWellFormed(csv, parseDate, i);
    }
    GroupWellFormed(rows, parseDate, name);
  }

  /** The grouping of well-formed rows: each key is a well-formed name with
      records, each record well formed. */
  lemma GroupWellFormed(rows: seq<(string, EvacRecord)>, parseDate: string -> Option<int>, name: string)
    requires forall i | 0 <= i < |rows| :: WellFormedRow(rows[i], parseDate)
    requires name in Group(rows)
    ensures name != "" && NormalizeName(Some(name)) == name
    ensures Group(rows)[name] != []
    ensures forall rec | rec in Group(rows)[name] :: rec.timestamp.Some? && rec.timestamp == parseDate(rec.parsedTime)
  {
    GroupAt(rows, name);
    var recs := RecordsOf(rows, name);
    RecordsOfFrom(rows, name, 0);
    var i0 :| 0 <= i0 < |rows| && rows[i0] == (name, recs[0]);
    assert WellFormedRow(rows[i0], parseDate);
    forall k | 0 <= k < |recs|
      ensures recs[k].timestamp.Some? && recs[k].timestamp == parseDate(recs[k].parsedTime)
    {
      RecordsOfFrom(rows, name, k);
      var i :| 0 <= i < |rows| && rows[i] == (name, recs[k]);
      assert WellFormedRow(rows[i], parseDate);
    }
  }

  /** Every kept row of the text is well formed. */
  lemma RowOfCsvWellFormed(csv: string, parseDate: string -> Option<int>, i: int)
    requires 0 <= i < |CsvRows(csv, parseDate)|
    ensures WellFormedRow(CsvRows(csv, parseDate)[i], parseDate)
  {
    var lines := SplitLines(StripBom(csv));
    KeptRowsWellFormed(lines[1..], DetectedColumns(SplitAll(lines[0], ';')), parseDate, i);
  }

  /** The records of a text with text and more than one line come from its data lines. */
  lemma PresenceRecordsOfLines(csv: string, parseDate: string -> Option<int>, lines: seq<string>)
    requires HasText(Some(csv)) && lines == SplitLines(StripBom(csv)) && |lines| > 1
    ensures PresenceRecords(csv, parseDate) == Group(KeptRows(lines[1..], DetectedColumns(SplitAll(lines[0], ';')), parseDate))
  {
  }

  /** parsePresenceCsv: the text without its byte-order mark, split into lines, the
      columns read from the first line and the records from the others. */
  method ParsePresenceCsv(csv: string, parseDate: string -> Option<int>) returns (out: map<string, seq<EvacRecord>>)
    ensures out == PresenceRecords(csv, parseDate)
  {
    if !HasText(Some(csv)) {
      return map[];
    }
    var text := csv;
    if |text| > 0 && text[0] == Bom {
      text := text[1..];
    }
    assert text == StripBom(csv);
    var lines := SplitLines(text);
    if |lines| <= 1 {
      assert CsvRows(csv, parseDate) == [];
      return map[];
    }
    var c := DetectColumns(SplitAll(lines[0], ';'));
    PresenceRecordsOfLines(csv, parseDate, lines);
    out := GroupDataLines(lines, c, parseDate);
  }

  /** The parsing loop of parsePresenceCsv over the data lines (from the second
      line on): each kept row appended to the records of its name. */
  method GroupDataLines(lines: seq<string>, c: Columns, parseDate: string -> Option<int>) returns (out: map<string, seq<EvacRecord>>)
    requires |lines| >= 1
    ensures out == Group(KeptRows(lines[1..], c, parseDate))
  {
    ghost var data := lines[1..];
    ghost var rows: seq<(string, EvacRecord)> := [];
    out := map[];
    var i := 1;
    while i < |lines|
      invariant 1 <= i <= |lines|
      invariant rows == KeptRows(data[..i - 1], c, parseDate)
      invariant out == Group(rows)
    {
      KeptRowsStep(data, c, parseDate, i - 1);
      assert data[i - 1] == lines[i];
      var row := ParseRow(lines[i], c, parseDate);
      if row.Some? {
        var name := row.value.0;
        GroupStep(rows, row.value);
        out := out[name := (if name in out then out[name] else []) + [row.value.1]];
        rows := rows + [row.value];
      }
      i := i + 1;
    }
    assert data[..|lines| - 1] == data;
  }

  /** One more data line adds its row when the row is kept. */
  lemma KeptRowsStep(lines: seq<string>, c: Columns, parseDate: string -> Option<int>, i: int)
    requires 0 <= i < |lines|
    ensures KeptRows(lines[..i + 1], c, parseDate) == KeptRows(lines[..i], c, parseDate)
      + (if ParseRow(lines[i], c, parseDate).Some? then [ParseRow(lines[i], c, parseDate).value] else [])
  {
    assert lines[..i + 1][..i] == lines[..i];
    assert lines[..i + 1][i] == lines[i];
  }

  /** One more row is appended to the records of its name. */
  lemma GroupStep(rows: seq<(string, EvacRecord)>, row: (string, EvacRecord))
    ensures Group(rows + [row]) == Group(rows)[row.0 := (if row.0 in Group(rows) then Group(rows)[row.0] else []) + [row.1]]
  {
    assert (rows + [row])[..|rows|] == rows;
  }

  // ---------------------------------------------------------------------------
  // resolvePresentNames

  /** The sort key: the timestamp, Long.MIN_VALUE for a missing one. */
  function TimeKey(rec: EvacRecord): int {
    if rec.timestamp.None? then Decimal.LongMin else rec.timestamp.value
  }

  /** Comparator.comparingLong on the sort key, as an ordering. */
  predicate ByTimestamp(a: EvacRecord, b: EvacRecord) {
    TimeKey(a) <= TimeKey(b)
  }

  /** The last record after the stable sort by timestamp. */
  function LastRecord(rs: seq<EvacRecord>): EvacRecord
    requires rs != []
  {
    var sorted := SortBy(rs, ByTimestamp);
    sorted[|sorted| - 1]
  }

  /** rs[i] is the deciding record: no record has a greater time, and every later
      record has a smaller one, so among equal times the last row wins. */
  predicate IsDecidingAt(rs: seq<EvacRecord>, i: int) {
    && 0 <= i < |rs|
    && (forall j | 0 <= j < i :: TimeKey(rs[j]) <= TimeKey(rs[i]))
    && (forall j | i < j < |rs| :: TimeKey(rs[j]) < TimeKey(rs[i]))
  }

  /** The last record of the stable sort is the deciding record. */
  lemma {:induction false} LastRecordDecides(rs: seq<EvacRecord>)
    requires rs != []
    ensures exists i :: IsDecidingAt(rs, i) && LastRecord(rs) == rs[i]
    decreases |rs|
  {
    var n := |rs| - 1;
    if n == 0 {
      assert rs[..0] == [];
      assert SortBy(rs, ByTimestamp) == [rs[0]];
      assert IsDecidingAt(rs, 0);
    } else {
      var p := rs[..n];
      LastRecordDecides(p);
      var k :| IsDecidingAt(p, k) && LastRecord(p) == p[k];
      LastOfSortBy(rs, ByTimestamp);
      assert rs[..|rs| - 1] == p;
      if ByTimestamp(p[k], rs[n]) {
        DecidingMovesToLast(rs, k);
      } else {
        DecidingStays(rs, k);
      }
    }
  }

  /** A last record not earlier than the deciding record of the rest decides. */
  lemma DecidingMovesToLast(rs: seq<EvacRecord>, k: int)
    requires |rs| >= 2 && IsDecidingAt(rs[..|rs| - 1], k)
    requires TimeKey(rs[k]) <= TimeKey(rs[|rs| - 1])
    ensures IsDecidingAt(rs, |rs| - 1)
  {
    var p := rs[..|rs| - 1];
    forall j | 0 <= j < |rs| - 1 ensures TimeKey(rs[j]) <= TimeKey(rs[|rs| - 1]) {
      assert rs[j] == p[j];
    }
  }

  /** A last record earlier than the deciding record of the rest leaves it deciding. */
  lemma DecidingStays(rs: seq<EvacRecord>, k: int)
    requires |rs| >= 2 && IsDecidingAt(rs[..|rs| - 1], k)
    requires TimeKey(rs[|rs| - 1]) < TimeKey(rs[k])
    ensures IsDecidingAt(rs, k)
  {
    var p := rs[..|rs| - 1];
    forall j | 0 <= j < |rs| - 1 ensures rs[j] == p[j] {
    }
  }

  /** There is at most one deciding record. */
  lemma DecidingIsUnique(rs: seq<EvacRecord>, i: int, j: int)
    requires IsDecidingAt(rs, i) && IsDecidingAt(rs, j)
    ensures i == j
  {
    DecidingOrder(rs, i, j);
    DecidingOrder(rs, j, i);
  }

  /** How the deciding record compares with any other record. */
  lemma DecidingOrder(rs: seq<EvacRecord>, i: int, j: int)
    requires IsDecidingAt(rs, i) && 0 <= j < |rs|
    ensures j < i ==> TimeKey(rs[j]) <= TimeKey(rs[i])
    ensures i < j ==> TimeKey(rs[j]) < TimeKey(rs[i])
  {
  }

  /** The names whose deciding record says present. */
  function PresentNames(groups: map<string, seq<EvacRecord>>): set<string> {
    set name | name in groups && groups[name] != [] && LastRecord(groups[name]).presence
  }

  /** A name is present exactly when it has a deciding record and that record is
      present. */
  lemma PresentNamesDecided(groups: map<string, seq<EvacRecord>>, name: string)
    ensures name in PresentNames(groups) <==>
      name in groups && exists i :: IsDecidingAt(groups[name], i) && groups[name][i].presence
  {
    if name in groups && groups[name] != [] {
      var rs := groups[name];
      LastRecordDecides(rs);
      var k :| IsDecidingAt(rs, k) && LastRecord(rs) == rs[k];
      forall i | IsDecidingAt(rs, i) ensures i == k {
        DecidingIsUnique(rs, i, k);
      }
    }
  }

  /** The case from the report's own test: Alice was present and later absent,
      Bob was present; only Bob is on site. */
  lemma AliceLeftBobStayed(t1: int, t2: int)
    requires t1 < t2
    ensures PresentNames(map[
      "alice" := [EvacRecord("01-09-2023", Some(t1), true), EvacRecord("02-09-2023", Some(t2), false)],
      "bob" := [EvacRecord("01-09-2023", Some(t1), true)]]) == {"bob"}
  {
    var alice := [EvacRecord("01-09-2023", Some(t1), true), EvacRecord("02-09-2023", Some(t2), false)];
    var bob := [EvacRecord("01-09-2023", Some(t1), true)];
    var groups := map["alice" := alice, "bob" := bob];
    PresentNamesDecided(groups, "alice");
    PresentNamesDecided(groups, "bob");
    assert IsDecidingAt(bob, 0);
    forall i | IsDecidingAt(alice, i) ensures !alice[i].presence {
      assert IsDecidingAt(alice, 1);
      DecidingIsUnique(alice, i, 1);
    }
  }

  /** Two rows with the same time: the one further down the file decides. */
  lemma SameTimeLaterRowWins(name: string, t: int, first: bool, second: bool)
    ensures name in PresentNames(map[name := [EvacRecord("d", Some(t), first), EvacRecord("d", Some(t), second)]]) <==> second
  {
    var rs := [EvacRecord("d", Some(t), first), EvacRecord("d", Some(t), second)];
    PresentNamesDecided(map[name := rs], name);
    assert IsDecidingAt(rs, 1);
    forall i | IsDecidingAt(rs, i) ensures i == 1 {
      DecidingIsUnique(rs, i, 1);
    }
  }

  /** The names among the given keys whose deciding record says present. */
  function PresentAmong(groups: map<string, seq<EvacRecord>>, keys: set<string>): set<string> {
    set name | name in keys && name in groups && groups[name] != [] && LastRecord(groups[name]).presence
  }


  /** Visiting one more name adds it exactly when its deciding record is present. */
  lemma PresentAmongStep(groups: map<string, seq<EvacRecord>>, done: set<string>, name: string)
    requires name in groups
    ensures PresentAmong(groups, done + {name}) ==
      PresentAmong(groups, done) + (if groups[name] != [] && LastRecord(groups[name]).presence then {name} else {})
  {
  }

  /** Having visited every name, the loop has the present names. */
  lemma PresentAmongAll(groups: map<string, seq<EvacRecord>>)
    ensures PresentAmong(groups, groups.Keys) == PresentNames(groups)
  {
  }

  /** The loop of resolvePresentNames over the groups. */
  method ResolvePresentNames(groups: map<string, seq<EvacRecord>>) returns (present: set<string>)
    ensures present == PresentNames(groups)
  {
    if |groups| == 0 {
      return {};
    }
    present := {};
    var todo := groups.Keys;
    while todo != {}
      invariant todo <= groups.Keys
      invariant present == PresentAmong(groups, groups.Keys - todo)
      decreases |todo|
    {
      ghost var some := NonEmptyHasElement(todo);
      var name :| name in todo;
      PresentAmongStep(groups, groups.Keys - todo, name);
      assert groups.Keys - (todo - {name}) == (groups.Keys - todo) + {name};
      var records := groups[name];
      if records != [] {
        var sorted := SortBy(records, ByTimestamp);
        var last := sorted[|sorted| - 1];
        assert last == LastRecord(records);
        if last.presence {
          present := present + {name};
        }
      }
      todo := todo - {name};
    }
    assert groups.Keys - todo == groups.Keys;
    PresentAmongAll(groups);
  }

  // ---------------------------------------------------------------------------
  // Present roster items

  /** The sort key of an item: its name lower-cased. */
  function SortName(it: ListItem): string {
    ToLower(it.name.GetOr(""))
  }

  /** Comparator.comparing on the lower-cased name, as an ordering. */
  predicate ByName(a: ListItem, b: ListItem) {
    LexLe(SortName(a), SortName(b))
  }

  /** Ordering items by lower-cased name is a total preorder. */
  lemma ByNameIsTotalPreorder()
    ensures TotalPreorder(ByName)
  {
    forall a: ListItem, b: ListItem ensures ByName(a, b) || ByName(b, a) {
      LexLeTotal(SortName(a), SortName(b));
    }
    forall a: ListItem, b: ListItem, c: ListItem | ByName(a, b) && ByName(b, c) ensures ByName(a, c) {
      LexLeTrans(SortName(a), SortName(b), SortName(c));
    }
  }

  /** The item passes both filters: its name has text and, normalised, is present. */
  predicate IsPresentItem(it: ListItem, present: set<string>) {
    HasText(it.name) && NormalizeName(it.name) in present
  }

  /** The items that pass the filters, in roster order. */
  function MatchingItems(items: seq<ListItem>, present: set<string>): (r: seq<ListItem>)
    ensures forall it :: it in r <==> it in items && IsPresentItem(it, present)
    ensures |r| <= |items|
  {
    if items == [] then []
    else (if IsPresentItem(items[0], present) then [items[0]] else []) + MatchingItems(items[1..], present)
  }

  /** The present items, sorted by lower-cased name. */
  function PresentItems(items: seq<ListItem>, present: set<string>): (r: seq<ListItem>)
    ensures multiset(r) == multiset(MatchingItems(items, present))
    ensures forall it :: it in r <==> it in items && IsPresentItem(it, present)
    ensures SortedBy(r, ByName)
  {
    var matching := MatchingItems(items, present);
    ByNameIsTotalPreorder();
    SortBySorted(matching, ByName);
    var sorted := SortBy(matching, ByName);
    assert forall it :: it in sorted <==> it in multiset(matching);
    sorted
  }

  /** Stream.sorted is stable: items whose lower-cased names are equal keep the
      order in which the roster lists them. */
  lemma PresentItemsStable(items: seq<ListItem>, present: set<string>, it: ListItem)
    ensures Ties(PresentItems(items, present), it, ByName) == Ties(MatchingItems(items, present), it, ByName)
  {
    ByNameIsTotalPreorder();
    SortByStable(MatchingItems(items, present), it, ByName);
  }

  // ---------------------------------------------------------------------------
  // Sheets

  /** The first list of the response with the id. */
  function FirstWithId(lists: seq<FaceList>, id: int): (r: Option<FaceList>)
    ensures r.Some? ==> r.value in lists && r.value.id == Some(id)
    ensures r.None? ==> forall fl | fl in lists :: fl.id != Some(id)
  {
    if lists == [] then None
    else if lists[0].id == Some(id) then Some(lists[0])
    else FirstWithId(lists[1..], id)
  }

  /** fetchFaceListMeta: getFaceLists(100).getData(), then the first list with the
      id; a null response or null data throws. */
  function FaceListMeta(api: FaceApi.Remote, listId: int): (r: Result<Option<FaceList>>)
    ensures r.Failure? ==> r.error == RemoteFailure || r.error == NullPointer
    ensures r.Success? && r.value.Some? ==> r.value.value.id == Some(listId)
  {
    match api.faceLists(MetaListLimit)
    case Thrown => Failure(RemoteFailure)
    case Body(None) => Failure(NullPointer)
    case Body(Some(resp)) =>
      if resp.data.None? then Failure(NullPointer) else Success(FirstWithId(resp.data.value, listId))
  }

  /** LinkedHashMap<FaceListDto, List<ListItemDto>>: the keys in insertion order
      and the value of each key. */
  datatype Sheets = Sheets(order: seq<FaceList>, items: map<FaceList, seq<ListItem>>) {
    /** Each key once in the order, and the order holds exactly the keys. */
    predicate Valid() {
      && (forall i, j | 0 <= i < j < |order| :: order[i] != order[j])
      && (forall fl | fl in order :: fl in items)
      && (forall fl | fl in items :: fl in order)
    }
  }

  /** LinkedHashMap.put: a new key goes last, a known key keeps its place and gets
      the new value. */
  function Put(data: Sheets, fl: FaceList, value: seq<ListItem>): (r: Sheets)
    requires data.Valid()
    ensures r.Valid()
    ensures r.items == data.items[fl := value]
    ensures fl in data.items ==> r.order == data.order
    ensures fl !in data.items ==> r.order == data.order + [fl]
  {
    if fl in data.items then Sheets(data.order, data.items[fl := value])
    else Sheets(data.order + [fl], data.items[fl := value])
  }

  /** What one list id contributes: nothing when the list is unknown, an empty
      sheet when nobody is present, otherwise the present roster items. */
  function SheetFor(api: FaceApi.Remote, listId: int, now: int, parseDate: string -> Option<int>)
    : (r: Result<Option<(FaceList, seq<ListItem>)>>)
    ensures r.Failure? ==> r.error == RemoteFailure || r.error == NullPointer
    ensures r.Success? && r.value.Some? ==> FaceListMeta(api, listId) == Success(Some(r.value.value.0))
    ensures FaceListMeta(api, listId) == Success(None) ==> r == Success(None)
    ensures r.Success? && FaceListMeta(api, listId).Success? && FaceListMeta(api, listId).value.Some? ==>
      r.value.Some? && r.value.value.0 == FaceListMeta(api, listId).value.value
  {
    match FaceListMeta(api, listId)
    case Failure(e) => Failure(e)
    case Success(None) => Success(None)
    case Success(Some(fl)) =>
      match FaceApi.PresenceCsv(api, listId, now)
      case Failure(e) => Failure(e)
      case Success(csv) =>
        var present := PresentNames(PresenceRecords(csv, parseDate));
        if present == {} then Success(Some((fl, [])))
        else
          match EvacuationRefresh.ListItemsOf(api, Some(listId))
          case Failure(e) => Failure(e)
          case Success(items) => Success(Some((fl, PresentItems(items, present))))
  }

  /** A list with its sheet holds exactly its present roster items, in name order;
      with nobody present that is the empty list. */
  lemma SheetHoldsPresentItems(api: FaceApi.Remote, listId: int, now: int, parseDate: string -> Option<int>,
                               fl: FaceList, items: seq<ListItem>)
    requires SheetFor(api, listId, now, parseDate) == Success(Some((fl, items)))
    ensures fl.id == Some(listId) && SortedBy(items, ByName)
    ensures FaceApi.PresenceCsv(api, listId, now).Success?
    ensures var present := PresentNames(PresenceRecords(FaceApi.PresenceCsv(api, listId, now).value, parseDate));
      present == {} ==> items == []
    ensures var present := PresentNames(PresenceRecords(FaceApi.PresenceCsv(api, listId, now).value, parseDate));
      present != {} ==> EvacuationRefresh.ListItemsOf(api, Some(listId)).Success? && forall it :: it in items <==>
        it in EvacuationRefresh.ListItemsOf(api, Some(listId)).value && IsPresentItem(it, present)
  {
    assert FaceListMeta(api, listId) == Success(Some(fl));
    var csv := FaceApi.PresenceCsv(api, listId, now);
    assert csv.Success?;
    var present := PresentNames(PresenceRecords(csv.value, parseDate));
    if present != {} {
      var roster := EvacuationRefresh.ListItemsOf(api, Some(listId));
      assert roster.Success?;
      assert items == PresentItems(roster.value, present);
    }
  }

  /** What one list id contributes, or the exception it throws. */
  type SheetResult = Result<Option<(FaceList, seq<ListItem>)>>

  /** The LinkedHashMap after the per-id results, taken in order: the first
      exception ends the report, an unknown list adds nothing, a sheet is put. */
  function SheetsFrom(results: seq<SheetResult>): (r: Result<Sheets>)
    ensures r.Success? ==> r.value.Valid()
  {
    if results == [] then Success(Sheets([], map[]))
    else
      match SheetsFrom(results[..|results| - 1])
      case Failure(e) => Failure(e)
      case Success(data) =>
        match results[|results| - 1]
        case Failure(e) => Failure(e)
        case Success(None) => Success(data)
        case Success(Some(sheet)) => Success(Put(data, sheet.0, sheet.1))
  }

  /** The result of each id in turn. */
  function SheetResults(api: FaceApi.Remote, ids: seq<int>, now: int, parseDate: string -> Option<int>)
    : (rs: seq<SheetResult>)
    ensures |rs| == |ids|
    ensures forall i | 0 <= i < |ids| :: rs[i] == SheetFor(api, ids[i], now, parseDate)
  {
    seq(|ids|, i requires 0 <= i < |ids| => SheetFor(api, ids[i], now, parseDate))
  }

  /** The sheets after the given ids, processed in order. */
  function ReportFrom(api: FaceApi.Remote, ids: seq<int>, now: int, parseDate: string -> Option<int>): Result<Sheets> {
    SheetsFrom(SheetResults(api, ids, now, parseDate))
  }

  /** The sheets after one more result. */
  lemma SheetsStep(results: seq<SheetResult>, i: int)
    requires 0 <= i < |results| && SheetsFrom(results[..i]).Success?
    ensures SheetsFrom(results[..i + 1]) ==
      match results[i]
      case Failure(e) => Failure(e)
      case Success(None) => SheetsFrom(results[..i])
      case Success(Some(sheet)) => Success(Put(SheetsFrom(results[..i]).value, sheet.0, sheet.1))
  {
    assert results[..i + 1][..i] == results[..i];
    assert results[..i + 1][i] == results[i];
  }

  /** The report is produced exactly when no id throws; otherwise it throws what
      the first throwing id throws. */
  lemma {:induction false} SheetsSucceed(results: seq<SheetResult>)
    ensures SheetsFrom(results).Success? <==> forall i | 0 <= i < |results| :: results[i].Success?
    ensures SheetsFrom(results).Failure? ==> exists i | 0 <= i < |results| ::
      results[i] == Failure(SheetsFrom(results).error) && forall j | 0 <= j < i :: results[j].Success?
    decreases |results|
  {
    if results != [] {
      var n := |results| - 1;
      var prefix := results[..n];
      SheetsSucceed(prefix);
      assert forall i | 0 <= i < |prefix| :: prefix[i] == results[i];
      if SheetsFrom(prefix).Failure? {
        var k :| 0 <= k < |prefix| && prefix[k] == Failure(SheetsFrom(prefix).error)
          && forall j | 0 <= j < k :: prefix[j].Success?;
        assert results[k] == Failure(SheetsFrom(results).error);
      } else if results[n].Failure? {
        assert results[n] == Failure(SheetsFrom(results).error);
      }
    }
  }

  /** Every sheet of the report is the sheet of one of the ids, with the value
      that id supplied. */
  lemma {:induction false} SheetsComeFromResults(results: seq<SheetResult>, fl: FaceList)
    requires SheetsFrom(results).Success? && fl in SheetsFrom(results).value.items
    ensures exists i | 0 <= i < |results| :: results[i] == Success(Some((fl, SheetsFrom(results).value.items[fl])))
    decreases |results|
  {
    var prefix := results[..|results| - 1];
    var last := results[|results| - 1];
    if last.value.Some? && last.value.value.0 == fl {
      assert results[|results| - 1] == Success(Some((fl, SheetsFrom(results).value.items[fl])));
    } else {
      SheetsComeFromResults(prefix, fl);
      var i :| 0 <= i < |prefix| && prefix[i] == Success(Some((fl, SheetsFrom(prefix).value.items[fl])));
      assert results[i] == prefix[i];
    }
  }

  /** Every id that names a list has that list's sheet in the report. */
  lemma {:induction false} SheetsCoverResults(results: seq<SheetResult>, i: int)
    requires SheetsFrom(results).Success?
    requires 0 <= i < |results| && results[i].Success? && results[i].value.Some?
    ensures results[i].value.value.0 in SheetsFrom(results).value.items
    decreases |results|
  {
    var prefix := results[..|results| - 1];
    if i < |prefix| {
      assert prefix[i] == results[i];
      SheetsCoverResults(prefix, i);
    }
  }

  /** Once a prefix of the results throws, the whole report throws the same. */
  lemma {:induction false} SheetsFailurePersists(results: seq<SheetResult>, n: nat)
    requires n <= |results| && SheetsFrom(results[..n]).Failure?
    ensures SheetsFrom(results) == SheetsFrom(results[..n])
    decreases |results|
  {
    if n < |results| {
      assert results[..|results| - 1][..n] == results[..n];
      SheetsFailurePersists(results[..|results| - 1], n);
    } else {
      assert results[..n] == results;
    }
  }

  /** buildEvacuationReport up to the workbook: null or empty ids are refused,
      otherwise the sheets of the ids in ascending order. */
  function EvacuationReport(api: FaceApi.Remote, listIds: Option<seq<int>>, now: int, parseDate: string -> Option<int>)
    : Result<Sheets>
  {
    if listIds.None? || listIds.value == [] then Failure(IllegalArgument(EmptyIdsMessage))
    else ReportFrom(api, SortInts(listIds.value), now, parseDate)
  }

  /** The report throws IllegalArgumentException exactly for a null or empty id
      list; any other exception is one a remote call threw. */
  lemma EvacuationReportRefusesNoIds(api: FaceApi.Remote, listIds: Option<seq<int>>, now: int,
                                     parseDate: string -> Option<int>)
    ensures (listIds.None? || listIds.value == []) <==>
      EvacuationReport(api, listIds, now, parseDate) == Failure(IllegalArgument(EmptyIdsMessage))
    ensures EvacuationReport(api, listIds, now, parseDate).Failure? && listIds.Some? && listIds.value != [] ==>
      EvacuationReport(api, listIds, now, parseDate).error in {RemoteFailure, NullPointer}
  {
    if listIds.Some? && listIds.value != [] {
      var results := SheetResults(api, SortInts(listIds.value), now, parseDate);
      SheetsSucceed(results);
    }
  }

  /** Each sheet of the report belongs to one of the requested ids and holds what
      that id supplied. */
  lemma EvacuationReportSheets(api: FaceApi.Remote, listIds: Option<seq<int>>, now: int,
                               parseDate: string -> Option<int>, fl: FaceList)
    requires EvacuationReport(api, listIds, now, parseDate).Success?
    requires fl in EvacuationReport(api, listIds, now, parseDate).value.items
    ensures fl.id.Some? && fl.id.value in listIds.value
    ensures SheetFor(api, fl.id.value, now, parseDate) ==
      Success(Some((fl, EvacuationReport(api, listIds, now, parseDate).value.items[fl])))
  {
    var ids := SortInts(listIds.value);
    var results := SheetResults(api, ids, now, parseDate);
    var data := SheetsFrom(results).value;
    SheetsComeFromResults(results, fl);
    var i :| 0 <= i < |results| && results[i] == Success(Some((fl, data.items[fl])));
    assert ids[i] in multiset(listIds.value);
  }

  /** Every requested id whose list is known has a sheet in the report. */
  lemma EvacuationReportCoversIds(api: FaceApi.Remote, listIds: Option<seq<int>>, now: int,
                                  parseDate: string -> Option<int>, id: int)
    requires EvacuationReport(api, listIds, now, parseDate).Success?
    requires id in listIds.value && FaceListMeta(api, id).Success? && FaceListMeta(api, id).value.Some?
    ensures FaceListMeta(api, id).value.value in EvacuationReport(api, listIds, now, parseDate).value.items
  {
    var ids := SortInts(listIds.value);
    var results := SheetResults(api, ids, now, parseDate);
    assert EvacuationReport(api, listIds, now, parseDate) == SheetsFrom(results);
    assert id in multiset(ids);
    var i :| 0 <= i < |ids| && ids[i] == id;
    SheetsSucceed(results);
    assert results[i] == SheetFor(api, id, now, parseDate);
    assert results[i].Success?;
    SheetsCoverResults(results, i);
  }

  /** Each result carries the list of its own id, and equal ids give equal results. */
  predicate KeyedBy(results: seq<SheetResult>, ids: seq<int>) {
    |results| == |ids|
    && (forall i | 0 <= i < |results| && results[i].Success? && results[i].value.Some? ::
          results[i].value.value.0.id == Some(ids[i]))
    && (forall i, j | 0 <= i < |results| && 0 <= j < |results| && ids[i] == ids[j] :: results[i] == results[j])
  }

  /** Strictly ascending list ids along an order. */
  predicate Ascending(order: seq<FaceList>) {
    forall i, j | 0 <= i < j < |order| :: order[i].id.Some? && order[j].id.Some? && order[i].id.value < order[j].id.value
  }

  /** Over ascending ids, the sheets come in strictly ascending list-id order. */
  lemma {:induction false} SheetsAscending(results: seq<SheetResult>, ids: seq<int>)
    requires KeyedBy(results, ids) && SheetsFrom(results).Success?
    requires forall i, j | 0 <= i < j < |ids| :: ids[i] <= ids[j]
    ensures forall fl | fl in SheetsFrom(results).value.order :: fl.id.Some? && fl.id.value in ids
    ensures Ascending(SheetsFrom(results).value.order)
    decreases |results|
  {
    if results != [] {
      var n := |results| - 1;
      SheetsSucceed(results);
      SheetsSucceed(results[..n]);
      KeyedPrefix(results, ids, n);
      SheetsAscending(results[..n], ids[..n]);
      SheetsStep(results, n);
      assert results[..n + 1] == results;
      var data := SheetsFrom(results[..n]).value;
      if results[n].value.Some? && results[n].value.value.0 !in data.items {
        forall fl | fl in data.order ensures fl.id.Some? && fl.id.value < ids[n] {
          EarlierSheetHasSmallerId(results, ids, fl);
        }
        assert forall fl | fl in data.order :: fl.id.Some? && fl.id.value < ids[n];
        AppendAscending(data.order, results[n].value.value.0, ids[n]);
      }
    }
  }

  /** A prefix of keyed results is keyed by the prefix of the ids. */
  lemma KeyedPrefix(results: seq<SheetResult>, ids: seq<int>, n: int)
    requires KeyedBy(results, ids) && 0 <= n <= |results|
    ensures KeyedBy(results[..n], ids[..n])
  {
  }

  /** Appending a list with a larger id keeps the order ascending. */
  lemma AppendAscending(order: seq<FaceList>, fl: FaceList, x: int)
    requires Ascending(order) && fl.id == Some(x)
    requires forall k | k in order :: k.id.Some? && k.id.value < x
    ensures Ascending(order + [fl])
  {
    assert forall i | 0 <= i < |order| :: order[i] in order;
  }

  /** A sheet already present before the last result, when the last result's own
      list is new, belongs to a smaller id. */
  lemma EarlierSheetHasSmallerId(results: seq<SheetResult>, ids: seq<int>, fl: FaceList)
    requires KeyedBy(results, ids) && |results| > 0
    requires forall i, j | 0 <= i < j < |ids| :: ids[i] <= ids[j]
    requires SheetsFrom(results[..|results| - 1]).Success?
    requires fl in SheetsFrom(results[..|results| - 1]).value.order
    requires results[|results| - 1].Success? && results[|results| - 1].value.Some?
    requires results[|results| - 1].value.value.0 !in SheetsFrom(results[..|results| - 1]).value.items
    ensures fl.id.Some? && fl.id.value < ids[|results| - 1]
  {
    var n := |results| - 1;
    var data := SheetsFrom(results[..n]).value;
    assert fl in data.items;
    SheetsComeFromResults(results[..n], fl);
    var j :| 0 <= j < n && results[..n][j] == Success(Some((fl, data.items[fl])));
    assert results[j] == results[..n][j];
    assert results[j] != results[n];
  }

  /** The report's sheets come in strictly ascending list-id order. */
  lemma EvacuationReportAscending(api: FaceApi.Remote, listIds: Option<seq<int>>, now: int,
                                  parseDate: string -> Option<int>)
    requires EvacuationReport(api, listIds, now, parseDate).Success?
    ensures var order := EvacuationReport(api, listIds, now, parseDate).value.order;
      forall i, j | 0 <= i < j < |order| :: order[i].id.Some? && order[j].id.Some? && order[i].id.value < order[j].id.value
  {
    var ids := SortInts(listIds.value);
    SortIntsSorted(listIds.value);
    SheetsAscending(SheetResults(api, ids, now, parseDate), ids);
  }

  /** The gathering loop of buildEvacuationReport. */
  method BuildEvacuationReport(api: FaceApi.Remote, listIds: Option<seq<int>>, now: int, parseDate: string -> Option<int>)
    returns (r: Result<Sheets>)
    ensures r == EvacuationReport(api, listIds, now, parseDate)
  {
    if listIds.None? || listIds.value == [] {
      return Failure(IllegalArgument(EmptyIdsMessage));
    }
    var sortedIds := SortInts(listIds.value);
    ghost var results := SheetResults(api, sortedIds, now, parseDate);
    var data := Sheets([], map[]);
    var i := 0;
    while i < |sortedIds|
      invariant 0 <= i <= |sortedIds|
      invariant SheetsFrom(results[..i]) == Success(data)
    {
      var listId := sortedIds[i];
      SheetsStep(results, i);
      var meta := FaceListMeta(api, listId);
      if meta.Failure? {
        SheetsFailurePersists(results, i + 1);
        return Failure(meta.error);
      }
      if meta.value.Some? {
        var faceList := meta.value.value;
        var csv := FaceApi.PresenceCsv(api, listId, now);
        if csv.Failure? {
          SheetsFailurePersists(results, i + 1);
          return Failure(csv.error);
        }
        var records := ParsePresenceCsv(csv.value, parseDate);
        var presentNames := ResolvePresentNames(records);
        if presentNames == {} {
          data := Put(data, faceList, []);
        } else {
          var allItems := EvacuationRefresh.ListItemsOf(api, Some(listId));
          if allItems.Failure? {
            SheetsFailurePersists(results, i + 1);
            return Failure(allItems.error);
          }
          data := Put(data, faceList, PresentItems(allItems.value, presentNames));
        }
      }
      i := i + 1;
    }
    assert results[..|sortedIds|] == results;
    return Success(data);
  }
}
