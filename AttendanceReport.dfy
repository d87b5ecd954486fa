/**
 * AttendanceReportService: the daily cafeteria report. It reads the face lists'
 * names, keeps the lists the caller asked for that are not excluded by name,
 * counts for each list and each meal window the distinct people (list items)
 * detected, and orders the rows by list name.
 *
 * The meal windows' epoch milliseconds are parameters (they depend on the
 * configured time zone and clock).
 */
module AttendanceReport {
  import opened Wrappers
  import opened Dto
  import opened JavaStrings
  import opened Sorting
  import Decimal
  import FaceApi
  import CafeteriaPivot
  import ReportLayout

  /** DEFAULT_FACE_LIST_LIMIT */
  const FaceListLimit: int := 200
  /** DETECTION_PAGE_LIMIT */
  const DetectionPageLimit: int := 500
  /** DEFAULT_SHEET_NAME */
  const SheetName: string := "Cafeteria"

  /** The settings the report reads: the analytics to count and the names of the
      lists to leave out (an unset set is null). */
  datatype CafeteriaConfig = CafeteriaConfig(
    analyticsIds: Option<seq<int>>,
    excludedListNames: Option<set<Option<string>>>)

  /** The six window bounds, in epoch milliseconds. */
  datatype MealWindows = MealWindows(
    breakfastStart: int, breakfastEnd: int,
    lunchStart: int, lunchEnd: int,
    dinnerStart: int, dinnerEnd: int)

  // ---------------------------------------------------------------------------
  // fetchListNames

  /** The entry a list contributes to the name map: its id and trimmed name, when
      the id is set and the name has text. */
  function NameEntry(l: FaceList): (e: Option<(int, string)>)
    ensures e.Some? <==> l.id.Some? && HasText(l.name)
    ensures e.Some? ==> e.value == (l.id.value, Trim(l.name.value))
  {
    if l.id.Some? && HasText(l.name) then Some((l.id.value, Trim(l.name.value))) else None
  }

  function NameEntries(lists: seq<FaceList>): (es: seq<Option<(int, string)>>)
    ensures |es| == |lists|
    ensures forall i | 0 <= i < |lists| :: es[i] == NameEntry(lists[i])
  {
    seq(|lists|, i requires 0 <= i < |lists| => NameEntry(lists[i]))
  }

  /** Putting the entries into a map in order, a later entry for a key replacing
      an earlier one. */
  function PutAll(es: seq<Option<(int, string)>>): map<int, string>
    decreases |es|
  {
    if es == [] then map[]
    else
      var m := PutAll(es[..|es| - 1]);
      match es[|es| - 1]
      case None => m
      case Some(e) => m[e.0 := e.1]
  }

  /** Entry i is the last one for key k. */
  predicate LastFor(es: seq<Option<(int, string)>>, k: int, i: int) {
    0 <= i < |es| && es[i].Some? && es[i].value.0 == k
    && forall j | i < j < |es| :: es[j].None? || es[j].value.0 != k
  }

  /** A key is in the map exactly when some entry has it, and its value is the one
      of the last such entry. */
  lemma {:induction false} PutAllMeaning(es: seq<Option<(int, string)>>, k: int)
    ensures k in PutAll(es) <==> exists i :: 0 <= i < |es| && es[i].Some? && es[i].value.0 == k
    ensures k in PutAll(es) ==> exists i :: LastFor(es, k, i) && es[i].value.1 == PutAll(es)[k]
    decreases |es|
  {
    if es != [] {
      var n := |es| - 1;
      var init := es[..n];
      PutAllMeaning(init, k);
      if es[n].Some? && es[n].value.0 == k {
        assert LastFor(es, k, n);
      } else if k in PutAll(init) {
        var i :| LastFor(init, k, i) && init[i].value.1 == PutAll(init)[k];
        assert es[i] == init[i];
        assert LastFor(es, k, i);
      } else {
        if exists i :: 0 <= i < |es| && es[i].Some? && es[i].value.0 == k {
          var i :| 0 <= i < |es| && es[i].Some? && es[i].value.0 == k;
          assert init[i] == es[i];
        }
      }
    }
  }

  /** The name map of a list of face lists. */
  function ListNames(lists: seq<FaceList>): map<int, string> {
    PutAll(NameEntries(lists))
  }

  /** A list id is named exactly when a list with that id has a name with text; its
      name is the trimmed name of the last such list. */
  lemma ListNamesMeaning(lists: seq<FaceList>, id: int)
    ensures id in ListNames(lists) <==> exists i :: 0 <= i < |lists| && lists[i].id == Some(id) && HasText(lists[i].name)
    ensures id in ListNames(lists) ==>
      exists i :: (0 <= i < |lists| && lists[i].id == Some(id) && HasText(lists[i].name)
        && ListNames(lists)[id] == Trim(lists[i].name.value)
        && forall j | i < j < |lists| :: !(lists[j].id == Some(id) && HasText(lists[j].name)))
  {
    var es := NameEntries(lists);
    PutAllMeaning(es, id);
    assert ListNames(lists) == PutAll(es);
    if id in ListNames(lists) {
      var i :| LastFor(es, id, i) && es[i].value.1 == PutAll(es)[id];
      assert es[i] == NameEntry(lists[i]);
      assert lists[i].id == Some(id) && HasText(lists[i].name);
      assert ListNames(lists)[id] == Trim(lists[i].name.value);
      forall j | i < j < |lists| ensures !(lists[j].id == Some(id) && HasText(lists[j].name)) {
        assert es[j] == NameEntry(lists[j]);
      }
    } else {
      forall i | 0 <= i < |lists| ensures !(lists[i].id == Some(id) && HasText(lists[i].name)) {
        assert es[i] == NameEntry(lists[i]);
      }
    }
  }

  /** fetchListNames: getFaceLists(200); a null answer or null data gives the empty
      map; an exception of the call propagates. */
  function FetchListNames(api: FaceApi.Remote): (r: Result<map<int, string>>)
    ensures r.Failure? <==> api.faceLists(FaceListLimit).Thrown?
    ensures r.Failure? ==> r.error == RemoteFailure
    ensures (api.faceLists(FaceListLimit).Body? && (api.faceLists(FaceListLimit).body.None?
             || api.faceLists(FaceListLimit).body.value.data.None?)) ==> r == Success(map[])
  {
    match api.faceLists(FaceListLimit)
    case Thrown => Failure(RemoteFailure)
    case Body(None) => Success(map[])
    case Body(Some(resp)) =>
      if resp.data.None? then Success(map[]) else Success(ListNames(resp.data.value))
  }

  // ---------------------------------------------------------------------------
  // resolveTargetListIds

  /** safeLower: "" for null, otherwise toLowerCase(Locale.ROOT) then trim. */
  function SafeLower(s: Option<string>): (r: string)
    ensures s.Some? ==> r == Trim(ToLower(s.value)) && r == ToLower(Trim(s.value))
    ensures s.None? ==> r == ""
  {
    match s
    case None => ""
    case Some(v) => TrimToLowerCommute(v); Trim(ToLower(v))
  }

  /** The excluded names, each through safeLower; an unset collection is null and
      streaming it throws. */
  function ExcludedNames(cfg: CafeteriaConfig): (r: Result<set<string>>)
    ensures r.Failure? <==> cfg.excludedListNames.None?
    ensures r.Failure? ==> r.error == NullPointer
    ensures r.Success? ==> forall n :: n in r.value <==> exists s :: s in cfg.excludedListNames.value && n == SafeLower(s)
  {
    match cfg.excludedListNames
    case None => Failure(NullPointer)
    case Some(names) => Success(set s | s in names :: SafeLower(s))
  }

  /** The onlyListIds filter: null or empty admits every id. */
  predicate Admitted(only: Option<seq<int>>, id: int) {
    only.None? || only.value == [] || id in only.value
  }

  /** The ids a report covers: the named lists the filter admits whose lower-cased
      name is not excluded. */
  function TargetIds(only: Option<seq<int>>, names: map<int, string>, excluded: set<string>): set<int> {
    set id | id in names && Admitted(only, id) && SafeLower(Some(names[id])) !in excluded
  }

  /** resolveTargetListIds: the target ids in ascending order. */
  function TargetListIds(only: Option<seq<int>>, names: map<int, string>, excluded: set<string>): (r: seq<int>)
    ensures forall i, j | 0 <= i < j < |r| :: r[i] < r[j]
    ensures forall id :: id in r <==> (id in names && Admitted(only, id) && SafeLower(Some(names[id])) !in excluded)
  {
    SortedElements(TargetIds(only, names, excluded))
  }

  /** Without a filter and with nothing excluded, every named list is a target. */
  lemma NoFilterCoversAllLists(names: map<int, string>)
    ensures |TargetListIds(None, names, {})| == |names|
    ensures |TargetListIds(Some([]), names, {})| == |names|
  {
    assert TargetIds(None, names, {}) == names.Keys;
    assert TargetIds(Some([]), names, {}) == names.Keys;
  }

  /** Exclusion ignores case and surrounding blanks: a list whose name matches an
      excluded name after lower-casing and trimming is never a target. */
  lemma ExcludedListIsNoTarget(cfg: CafeteriaConfig, only: Option<seq<int>>, names: map<int, string>, id: int, s: string)
    requires cfg.excludedListNames.Some? && Some(s) in cfg.excludedListNames.value
    requires id in names && ToLower(Trim(names[id])) == ToLower(Trim(s))
    ensures id !in TargetListIds(only, names, ExcludedNames(cfg).value)
  {
    var excluded := ExcludedNames(cfg).value;
    var key := SafeLower(Some(s));
    assert key == ToLower(Trim(s));
    assert Some(s) in cfg.excludedListNames.value && key == SafeLower(Some(s));
    assert key in excluded;
    assert SafeLower(Some(names[id])) == key;
    assert id !in TargetListIds(only, names, excluded);
  }

  // ---------------------------------------------------------------------------
  // collectUniqueListItemIds and queryUniqueListItemIds

  /** The list-item id of a detection, when its list item and that item's id are set. */
  predicate HasItemId(d: Option<Detection>) {
    d.Some? && d.value.listItem.Some? && d.value.listItem.value.id.Some?
  }

  /** collectUniqueListItemIds: the set of list-item ids of the detections; a null
      detection makes the stream throw. */
  function ItemIdsOf(dets: seq<Option<Detection>>): (r: Result<set<int>>)
    ensures r.Failure? <==> None in dets
    ensures r.Failure? ==> r.error == NullPointer
  {
    if None in dets then Failure(NullPointer)
    else Success(set i | 0 <= i < |dets| && HasItemId(dets[i]) :: dets[i].value.listItem.value.id.value)
  }

  /** An id is collected exactly when some detection carries a list item with that id. */
  lemma ItemIdsMeaning(dets: seq<Option<Detection>>, x: int)
    requires None !in dets
    ensures x in ItemIdsOf(dets).value <==>
      exists d :: Some(d) in dets && d.listItem.Some? && d.listItem.value.id == Some(x)
  {
    if exists d :: Some(d) in dets && d.listItem.Some? && d.listItem.value.id == Some(x) {
      var d :| Some(d) in dets && d.listItem.Some? && d.listItem.value.id == Some(x);
      var i :| 0 <= i < |dets| && dets[i] == Some(d);
      assert HasItemId(dets[i]);
    }
  }

  /** Appending a detection adds its list-item id, or makes the collection throw
      when it is null. */
  lemma ItemIdsSnoc(dets: seq<Option<Detection>>, d: Option<Detection>)
    requires None !in dets
    ensures d.None? ==> ItemIdsOf(dets + [d]) == Failure(NullPointer)
    ensures d.Some? ==> (ItemIdsOf(dets + [d]) ==
      Success(ItemIdsOf(dets).value + (if HasItemId(d) then {d.value.listItem.value.id.value} else {})))
  {
    var ds := dets + [d];
    assert d in ds;
    if d.Some? {
      assert None !in ds;
      var extra := if HasItemId(d) then {d.value.listItem.value.id.value} else {};
      forall x ensures x in ItemIdsOf(ds).value <==> x in ItemIdsOf(dets).value + extra {
        if x in ItemIdsOf(ds).value {
          var i :| 0 <= i < |ds| && HasItemId(ds[i]) && ds[i].value.listItem.value.id.value == x;
          if i < |dets| {
            assert ds[i] == dets[i];
          }
        }
        if x in ItemIdsOf(dets).value {
          var i :| 0 <= i < |dets| && HasItemId(dets[i]) && dets[i].value.listItem.value.id.value == x;
          assert ds[i] == dets[i];
        }
        if x in extra {
          assert ds[|dets|] == d;
        }
      }
      assert ItemIdsOf(ds).value == ItemIdsOf(dets).value + extra;
    }
  }

  /** The detection query getAllDetectionsInWindow runs for a list and a window. */
  function Window(analyticsIds: Option<seq<int>>, listId: int, start: int, end: int): FaceApi.DetectionsQuery {
    FaceApi.WindowQuery(Some(listId), analyticsIds, Some(start), Some(end))
  }

  /** The paging loop for a list and a window comes to an end. */
  ghost predicate WindowEnds(api: FaceApi.Remote, analyticsIds: Option<seq<int>>, listId: int, start: int, end: int) {
    FaceApi.PagingEnds(api, Window(analyticsIds, listId, start, end), DetectionPageLimit)
  }

  /** The distinct list-item ids detected for one list in one window. */
  ghost function WindowItemIds(api: FaceApi.Remote, analyticsIds: Option<seq<int>>, listId: int, start: int, end: int): Result<set<int>>
    requires WindowEnds(api, analyticsIds, listId, start, end)
  {
    match FaceApi.AllDetections(api, Window(analyticsIds, listId, start, end), DetectionPageLimit)
    case Failure(e) => Failure(e)
    case Success(dets) => ItemIdsOf(dets)
  }

  ghost predicate AllWindowsEnd(api: FaceApi.Remote, analyticsIds: Option<seq<int>>, ids: seq<int>, start: int, end: int) {
    forall id | id in ids :: WindowEnds(api, analyticsIds, id, start, end)
  }

  /** queryUniqueListItemIds: the lists in order, each one's set created on first use
      and grown by the window's ids; the first exception ends it. */
  ghost function UniqueItemIds(api: FaceApi.Remote, analyticsIds: Option<seq<int>>, ids: seq<int>, start: int, end: int): Result<map<int, set<int>>>
    requires AllWindowsEnd(api, analyticsIds, ids, start, end)
    decreases |ids|
  {
    if ids == [] then Success(map[])
    else
      var id := ids[|ids| - 1];
      assert AllWindowsEnd(api, analyticsIds, ids[..|ids| - 1], start, end);
      match UniqueItemIds(api, analyticsIds, ids[..|ids| - 1], start, end)
      case Failure(e) => Failure(e)
      case Success(m) =>
        match WindowItemIds(api, analyticsIds, id, start, end)
        case Failure(e) => Failure(e)
        case Success(s) => Success(m[id := (if id in m then m[id] else {}) + s])
  }

  /** The query succeeds exactly when every list's window does; it then maps exactly
      the given ids, each to the distinct list-item ids detected for it. */
  lemma {:induction false} UniqueItemIdsMeaning(api: FaceApi.Remote, analyticsIds: Option<seq<int>>, ids: seq<int>, start: int, end: int)
    requires AllWindowsEnd(api, analyticsIds, ids, start, end)
    ensures UniqueItemIds(api, analyticsIds, ids, start, end).Success? <==>
      forall id | id in ids :: WindowItemIds(api, analyticsIds, id, start, end).Success?
    ensures UniqueItemIds(api, analyticsIds, ids, start, end).Success? ==>
      var m := UniqueItemIds(api, analyticsIds, ids, start, end).value;
      (forall id :: id in m <==> id in ids)
      && forall id | id in ids :: m[id] == WindowItemIds(api, analyticsIds, id, start, end).value
    decreases |ids|
  {
    if ids != [] {
      var init := ids[..|ids| - 1];
      var id := ids[|ids| - 1];
      assert AllWindowsEnd(api, analyticsIds, init, start, end);
      UniqueItemIdsMeaning(api, analyticsIds, init, start, end);
      assert forall x :: x in ids <==> x in init || x == id;
    }
  }

  /** Once a prefix of the lists fails, the whole query fails the same way. */
  lemma {:induction false} UniqueItemIdsFailurePersists(api: FaceApi.Remote, analyticsIds: Option<seq<int>>, ids: seq<int>, start: int, end: int, n: nat)
    requires AllWindowsEnd(api, analyticsIds, ids, start, end)
    requires n <= |ids|
    requires AllWindowsEnd(api, analyticsIds, ids[..n], start, end)
    requires UniqueItemIds(api, analyticsIds, ids[..n], start, end).Failure?
    ensures UniqueItemIds(api, analyticsIds, ids, start, end) == UniqueItemIds(api, analyticsIds, ids[..n], start, end)
    decreases |ids| - n
  {
    if n < |ids| {
      var next := ids[..n + 1];
      assert next[..n] == ids[..n];
      assert AllWindowsEnd(api, analyticsIds, next, start, end);
      UniqueItemIdsFailurePersists(api, analyticsIds, ids, start, end, n + 1);
    } else {
      assert ids[..n] == ids;
    }
  }

  /** queryUniqueListItemIds, proved to compute UniqueItemIds. */
  method QueryUniqueListItemIds(api: FaceApi.Remote, analyticsIds: Option<seq<int>>, start: int, end: int, listIds: seq<int>)
    returns (r: Result<map<int, set<int>>>)
    requires AllWindowsEnd(api, analyticsIds, listIds, start, end)
    ensures r == UniqueItemIds(api, analyticsIds, listIds, start, end)
  {
    var uniques: map<int, set<int>> := map[];
    assert listIds[..0] == [];
    for i := 0 to |listIds|
      invariant AllWindowsEnd(api, analyticsIds, listIds[..i], start, end)
      invariant UniqueItemIds(api, analyticsIds, listIds[..i], start, end) == Success(uniques)
    {
      var listId := listIds[i];
      assert listIds[..i + 1][..i] == listIds[..i];
      assert AllWindowsEnd(api, analyticsIds, listIds[..i + 1], start, end);
      assert listId in listIds[..i + 1];
      assert WindowEnds(api, analyticsIds, listId, start, end);
      ghost var base := Window(analyticsIds, listId, start, end);
      assert FaceApi.PagingEnds(api, base, DetectionPageLimit);
      assert base == FaceApi.DetectionsQuery(Some(listId), analyticsIds, Some(start), Some(end), None, None, None);
      ghost var last: nat :| FaceApi.Stops(api, base, DetectionPageLimit, last);
      FaceApi.AllDetectionsAt(api, base, DetectionPageLimit, last);
      var dets, _ := FaceApi.GetAllDetectionsInWindow(api, Some(listId), analyticsIds, Some(start), Some(end),
                                                      DetectionPageLimit, last);
      if dets.Failure? {
        UniqueItemIdsFailurePersists(api, analyticsIds, listIds, start, end, i + 1);
        return Failure(dets.error);
      }
      var unique := if listId in uniques then uniques[listId] else {};
      var collected := ItemIdsOf(dets.value);
      if collected.Failure? {
        UniqueItemIdsFailurePersists(api, analyticsIds, listIds, start, end, i + 1);
        return Failure(collected.error);
      }
      uniques := uniques[listId := unique + collected.value];
    }
    assert listIds[..|listIds|] == listIds;
    UniqueItemIdsMeaning(api, analyticsIds, listIds, start, end);
    // every list already has its set, so the second loop adds nothing
    for i := 0 to |listIds|
      invariant UniqueItemIds(api, analyticsIds, listIds, start, end) == Success(uniques)
    {
      var id := listIds[i];
      if id !in uniques {
        uniques := uniques[id := {}];
      }
    }
    return Success(uniques);
  }

  // ---------------------------------------------------------------------------
  // buildPivotRows

  /** Set.size(): the number of elements, capped at Integer.MAX_VALUE. */
  function SetSize(s: set<int>): (n: CafeteriaPivot.Int32)
    ensures n >= 0
    ensures |s| <= Decimal.IntMax ==> n == |s|
  {
    if |s| > Decimal.IntMax then Decimal.IntMax else |s|
  }

  /** sizeOf(counts.get(id)): 0 for a list without a set. */
  function SizeOf(counts: map<int, set<int>>, id: int): (n: CafeteriaPivot.Int32)
    ensures id !in counts ==> n == 0
    ensures id in counts && |counts[id]| <= Decimal.IntMax ==> n == |counts[id]|
  {
    if id in counts then SetSize(counts[id]) else 0
  }

  /** The sort key: the list's name, or "", lower-cased. */
  function SortKey(names: map<int, string>, id: int): string {
    ToLower(if id in names then names[id] else "")
  }

  /** The comparator of buildPivotRows: by the sort key, as String.compareTo. */
  function ByListName(names: map<int, string>): (int, int) -> bool {
    (a: int, b: int) => LexLe(SortKey(names, a), SortKey(names, b))
  }

  lemma ByListNameIsTotalPreorder(names: map<int, string>)
    ensures TotalPreorder(ByListName(names))
  {
    forall a: int, b: int ensures ByListName(names)(a, b) || ByListName(names)(b, a) {
      LexLeTotal(SortKey(names, a), SortKey(names, b));
    }
    forall a: int, b: int, c: int | ByListName(names)(a, b) && ByListName(names)(b, c)
      ensures ByListName(names)(a, c)
    {
      LexLeTrans(SortKey(names, a), SortKey(names, b), SortKey(names, c));
    }
  }

  /** The list's display name: its name, or "list_" followed by its id. */
  function DisplayName(names: map<int, string>, id: int): (s: string)
    ensures id in names ==> s == names[id]
    ensures id !in names ==> s == "list_" + Decimal.LongToString(id)
  {
    if id in names then names[id] else "list_" + Decimal.LongToString(id)
  }

  /** The row of one list. */
  function PivotRow(names: map<int, string>, breakfast: map<int, set<int>>, lunch: map<int, set<int>>,
                    dinner: map<int, set<int>>, id: int): CafeteriaPivot.CafeteriaPivotRow
  {
    CafeteriaPivot.CafeteriaPivotRow(Some(DisplayName(names, id)), SizeOf(breakfast, id), SizeOf(lunch, id), SizeOf(dinner, id))
  }

  /** The target ids in the order of the rows: a stable sort by lower-cased name. */
  function RowOrder(names: map<int, string>, targets: seq<int>): (order: seq<int>)
    ensures multiset(order) == multiset(targets)
    ensures SortedBy(order, ByListName(names))
  {
    ByListNameIsTotalPreorder(names);
    SortBySorted(targets, ByListName(names));
    SortBy(targets, ByListName(names))
  }

  /** The row sort is stable: targets whose lower-cased names are equal keep their
      input order, which for the resolved target ids is ascending id order. */
  lemma RowOrderStable(names: map<int, string>, targets: seq<int>, id: int)
    ensures Ties(RowOrder(names, targets), id, ByListName(names)) == Ties(targets, id, ByListName(names))
  {
    ByListNameIsTotalPreorder(names);
    SortByStable(targets, id, ByListName(names));
  }

  /** Rows of lists with equal lower-cased names come in ascending id order. */
  lemma TiedRowsByAscendingId(only: Option<seq<int>>, names: map<int, string>, excluded: set<string>, id: int)
    ensures var targets := TargetListIds(only, names, excluded);
      Ascending(Ties(RowOrder(names, targets), id, ByListName(names)))
  {
    var targets := TargetListIds(only, names, excluded);
    RowOrderStable(names, targets, id);
    TiesAscending(targets, id, ByListName(names));
  }

  /** buildPivotRows: one row per target id, in name order. */
  function PivotRows(names: map<int, string>, targets: seq<int>, breakfast: map<int, set<int>>,
                     lunch: map<int, set<int>>, dinner: map<int, set<int>>): (rows: seq<CafeteriaPivot.CafeteriaPivotRow>)
    ensures |rows| == |targets|
  {
    var order := RowOrder(names, targets);
    seq(|order|, i requires 0 <= i < |order| => PivotRow(names, breakfast, lunch, dinner, order[i]))
  }

  /** Every target id has its row, and every row is the row of a target id. */
  lemma PivotRowsCoverTargets(names: map<int, string>, targets: seq<int>, breakfast: map<int, set<int>>,
                              lunch: map<int, set<int>>, dinner: map<int, set<int>>)
    ensures var rows := PivotRows(names, targets, breakfast, lunch, dinner);
      (forall id | id in targets :: PivotRow(names, breakfast, lunch, dinner, id) in rows)
      && forall i | 0 <= i < |rows| :: exists id :: id in targets && rows[i] == PivotRow(names, breakfast, lunch, dinner, id)
  {
    var order := RowOrder(names, targets);
    var rows := PivotRows(names, targets, breakfast, lunch, dinner);
    forall id | id in targets ensures PivotRow(names, breakfast, lunch, dinner, id) in rows {
      assert id in multiset(targets);
      assert id in multiset(order);
      var k :| 0 <= k < |order| && order[k] == id;
      assert rows[k] == PivotRow(names, breakfast, lunch, dinner, id);
    }
    forall i | 0 <= i < |rows| ensures exists id :: id in targets && rows[i] == PivotRow(names, breakfast, lunch, dinner, id) {
      var id := order[i];
      assert id in multiset(order);
      assert id in multiset(targets);
      assert id in targets && rows[i] == PivotRow(names, breakfast, lunch, dinner, id);
    }
  }

  /** When every target is a named list, the rows come in the order of their
      lower-cased names. */
  lemma PivotRowsOrderedByName(names: map<int, string>, targets: seq<int>, breakfast: map<int, set<int>>,
                               lunch: map<int, set<int>>, dinner: map<int, set<int>>)
    requires forall id | id in targets :: id in names
    ensures var rows := PivotRows(names, targets, breakfast, lunch, dinner);
      forall i, j | 0 <= i < j < |rows| :: rows[i].category.Some? && rows[j].category.Some?
        && LexLe(ToLower(rows[i].category.value), ToLower(rows[j].category.value))
  {
    var order := RowOrder(names, targets);
    var rows := PivotRows(names, targets, breakfast, lunch, dinner);
    forall i, j | 0 <= i < j < |rows|
      ensures rows[i].category.Some? && rows[j].category.Some?
        && LexLe(ToLower(rows[i].category.value), ToLower(rows[j].category.value))
    {
      assert order[i] in multiset(targets) && order[j] in multiset(targets);
      assert ByListName(names)(order[i], order[j]);
    }
  }

  // ---------------------------------------------------------------------------
  // buildSingleDayReport

  /** Every window the report queries comes to an end: the three meal windows of
      each target list, once the names and the exclusions have been read. */
  ghost predicate ReportWindowsEnd(api: FaceApi.Remote, cfg: CafeteriaConfig, only: Option<seq<int>>, w: MealWindows,
                                   excluded: Result<set<string>>) {
    FetchListNames(api).Success? && excluded.Success? ==>
      var targets := TargetListIds(only, FetchListNames(api).value, excluded.value);
      && AllWindowsEnd(api, cfg.analyticsIds, targets, w.breakfastStart, w.breakfastEnd)
      && AllWindowsEnd(api, cfg.analyticsIds, targets, w.lunchStart, w.lunchEnd)
      && AllWindowsEnd(api, cfg.analyticsIds, targets, w.dinnerStart, w.dinnerEnd)
  }

  /** The three meal queries in turn; the first exception ends them. */
  ghost function MealCounts(api: FaceApi.Remote, a: Option<seq<int>>, targets: seq<int>, w: MealWindows)
    : Result<(map<int, set<int>>, map<int, set<int>>, map<int, set<int>>)>
    requires AllWindowsEnd(api, a, targets, w.breakfastStart, w.breakfastEnd)
    requires AllWindowsEnd(api, a, targets, w.lunchStart, w.lunchEnd)
    requires AllWindowsEnd(api, a, targets, w.dinnerStart, w.dinnerEnd)
  {
    match UniqueItemIds(api, a, targets, w.breakfastStart, w.breakfastEnd)
    case Failure(e) => Failure(e)
    case Success(b) =>
      match UniqueItemIds(api, a, targets, w.lunchStart, w.lunchEnd)
      case Failure(e) => Failure(e)
      case Success(l) =>
        match UniqueItemIds(api, a, targets, w.dinnerStart, w.dinnerEnd)
        case Failure(e) => Failure(e)
        case Success(d) => Success((b, l, d))
  }

  /** Successful meal queries map each target to the distinct people detected for it
      in that meal's window. */
  lemma MealCountsMeaning(api: FaceApi.Remote, a: Option<seq<int>>, targets: seq<int>, w: MealWindows)
    requires AllWindowsEnd(api, a, targets, w.breakfastStart, w.breakfastEnd)
    requires AllWindowsEnd(api, a, targets, w.lunchStart, w.lunchEnd)
    requires AllWindowsEnd(api, a, targets, w.dinnerStart, w.dinnerEnd)
    requires MealCounts(api, a, targets, w).Success?
    ensures var c := MealCounts(api, a, targets, w).value;
      forall id | id in targets ::
        && WindowItemIds(api, a, id, w.breakfastStart, w.breakfastEnd).Success?
        && id in c.0 && c.0[id] == WindowItemIds(api, a, id, w.breakfastStart, w.breakfastEnd).value
        && WindowItemIds(api, a, id, w.lunchStart, w.lunchEnd).Success?
        && id in c.1 && c.1[id] == WindowItemIds(api, a, id, w.lunchStart, w.lunchEnd).value
        && WindowItemIds(api, a, id, w.dinnerStart, w.dinnerEnd).Success?
        && id in c.2 && c.2[id] == WindowItemIds(api, a, id, w.dinnerStart, w.dinnerEnd).value
  {
    UniqueItemIdsMeaning(api, a, targets, w.breakfastStart, w.breakfastEnd);
    UniqueItemIdsMeaning(api, a, targets, w.lunchStart, w.lunchEnd);
    UniqueItemIdsMeaning(api, a, targets, w.dinnerStart, w.dinnerEnd);
  }

  /** The rows of the daily report, given how the excluded names come out: the names
      are fetched first, then the exclusions read, then the three meals queried in
      turn; the first exception ends it. */
  ghost function DailyRowsWith(api: FaceApi.Remote, cfg: CafeteriaConfig, only: Option<seq<int>>, w: MealWindows,
                               excluded: Result<set<string>>): Result<seq<CafeteriaPivot.CafeteriaPivotRow>>
    requires ReportWindowsEnd(api, cfg, only, w, excluded)
  {
    match FetchListNames(api)
    case Failure(e) => Failure(e)
    case Success(names) =>
      match excluded
      case Failure(e) => Failure(e)
      case Success(ex) =>
        var targets := TargetListIds(only, names, ex);
        match MealCounts(api, cfg.analyticsIds, targets, w)
        case Failure(e) => Failure(e)
        case Success(c) => Success(PivotRows(names, targets, c.0, c.1, c.2))
  }

  /** The rows of AttendanceReportService's daily report. */
  ghost function DailyRows(api: FaceApi.Remote, cfg: CafeteriaConfig, only: Option<seq<int>>, w: MealWindows): Result<seq<CafeteriaPivot.CafeteriaPivotRow>>
    requires ReportWindowsEnd(api, cfg, only, w, ExcludedNames(cfg))
  {
    DailyRowsWith(api, cfg, only, w, ExcludedNames(cfg))
  }

  /** A successful report read the names and the exclusions, ran the three meal
      queries, and built the rows from them. */
  lemma DailyRowsSteps(api: FaceApi.Remote, cfg: CafeteriaConfig, only: Option<seq<int>>, w: MealWindows)
    requires ReportWindowsEnd(api, cfg, only, w, ExcludedNames(cfg))
    requires DailyRows(api, cfg, only, w).Success?
    ensures FetchListNames(api).Success? && ExcludedNames(cfg).Success?
    ensures var targets := TargetListIds(only, FetchListNames(api).value, ExcludedNames(cfg).value);
      && AllWindowsEnd(api, cfg.analyticsIds, targets, w.breakfastStart, w.breakfastEnd)
      && AllWindowsEnd(api, cfg.analyticsIds, targets, w.lunchStart, w.lunchEnd)
      && AllWindowsEnd(api, cfg.analyticsIds, targets, w.dinnerStart, w.dinnerEnd)
      && MealCounts(api, cfg.analyticsIds, targets, w).Success?
      && var c := MealCounts(api, cfg.analyticsIds, targets, w).value;
      DailyRows(api, cfg, only, w).value == PivotRows(FetchListNames(api).value, targets, c.0, c.1, c.2)
  {
  }

  /** The number of distinct people of a list seen in a window, when the query succeeds. */
  ghost function MealCount(api: FaceApi.Remote, a: Option<seq<int>>, id: int, start: int, end: int): CafeteriaPivot.Int32
    requires WindowEnds(api, a, id, start, end)
  {
    match WindowItemIds(api, a, id, start, end)
    case Success(s) => SetSize(s)
    case Failure(_) => 0
  }

  /** A successful report has one row per named, admitted, not excluded list, and
      each row counts the distinct people detected for its list in each meal. */
  lemma DailyRowsMeaning(api: FaceApi.Remote, cfg: CafeteriaConfig, only: Option<seq<int>>, w: MealWindows)
    requires ReportWindowsEnd(api, cfg, only, w, ExcludedNames(cfg))
    requires DailyRows(api, cfg, only, w).Success?
    ensures FetchListNames(api).Success? && ExcludedNames(cfg).Success?
    ensures var names := FetchListNames(api).value;
      var targets := TargetListIds(only, names, ExcludedNames(cfg).value);
      var rows := DailyRows(api, cfg, only, w).value;
      && |rows| == |targets|
      && forall id | id in targets ::
        CafeteriaPivot.CafeteriaPivotRow(Some(names[id]),
          MealCount(api, cfg.analyticsIds, id, w.breakfastStart, w.breakfastEnd),
          MealCount(api, cfg.analyticsIds, id, w.lunchStart, w.lunchEnd),
          MealCount(api, cfg.analyticsIds, id, w.dinnerStart, w.dinnerEnd)) in rows
  {
    DailyRowsSteps(api, cfg, only, w);
    var names := FetchListNames(api).value;
    var targets := TargetListIds(only, names, ExcludedNames(cfg).value);
    var a := cfg.analyticsIds;
    var c := MealCounts(api, a, targets, w).value;
    MealCountsMeaning(api, a, targets, w);
    PivotRowsCoverTargets(names, targets, c.0, c.1, c.2);
    forall id | id in targets ensures id in names && PivotRow(names, c.0, c.1, c.2, id)
      == CafeteriaPivot.CafeteriaPivotRow(Some(names[id]),
          MealCount(api, a, id, w.breakfastStart, w.breakfastEnd),
          MealCount(api, a, id, w.lunchStart, w.lunchEnd),
          MealCount(api, a, id, w.dinnerStart, w.dinnerEnd))
    {
    }
  }

  /** buildSingleDayReport up to the workbook: the rows, written as the "Cafeteria"
      pivot sheet. */
  method BuildSingleDayReport(api: FaceApi.Remote, cfg: CafeteriaConfig, only: Option<seq<int>>, w: MealWindows)
    returns (r: Result<ReportLayout.Sheet>)
    requires ReportWindowsEnd(api, cfg, only, w, ExcludedNames(cfg))
    ensures DailyRows(api, cfg, only, w).Failure? ==> r == Failure(DailyRows(api, cfg, only, w).error)
    ensures DailyRows(api, cfg, only, w).Success? ==>
      r == Success(ReportLayout.Sheet(SheetName, ReportLayout.PivotRows(DailyRows(api, cfg, only, w).value), None))
  {
    var names := FetchListNames(api);
    if names.Failure? {
      return Failure(names.error);
    }
    var excluded := ExcludedNames(cfg);
    if excluded.Failure? {
      return Failure(excluded.error);
    }
    var targets := TargetListIds(only, names.value, excluded.value);
    var a := cfg.analyticsIds;
    var b := QueryUniqueListItemIds(api, a, w.breakfastStart, w.breakfastEnd, targets);
    if b.Failure? {
      return Failure(b.error);
    }
    var l := QueryUniqueListItemIds(api, a, w.lunchStart, w.lunchEnd, targets);
    if l.Failure? {
      return Failure(l.error);
    }
    var d := QueryUniqueListItemIds(api, a, w.dinnerStart, w.dinnerEnd, targets);
    if d.Failure? {
      return Failure(d.error);
    }
    var rows := PivotRows(names.value, targets, b.value, l.value, d.value);
    var sheet := ReportLayout.ExportCafeteriaPivot(SheetName, rows);
    return Success(sheet);
  }

  // ---------------------------------------------------------------------------
  // Examples

  /** "Contractor" lower-cased and trimmed is "contractor". */
  lemma SafeLowerExample()
    ensures SafeLower(Some("Contractor")) == "contractor"
  {
    assert ToLower("Contractor") == "contractor";
    assert Trim("contractor") == "contractor";
  }

  /** Lists "Alpha" (1) and "Contractor" (2), "contractor" excluded: only list 1 is
      a target. */
  lemma TargetsExample()
    ensures TargetListIds(None, map[1 := "Alpha", 2 := "Contractor"], {"contractor"}) == [1]
  {
    TargetIdsExample();
    SortedSingleton(1);
  }

  lemma TargetIdsExample()
    ensures TargetIds(None, map[1 := "Alpha", 2 := "Contractor"], {"contractor"}) == {1}
  {
    var names := map[1 := "Alpha", 2 := "Contractor"];
    assert names[1] == "Alpha" && names[2] == "Contractor";
    assert names.Keys == {1, 2};
    SafeLowerExample();
    SafeLowerAlpha();
    assert "alpha" !in {"contractor"};
    TargetIdsOfTwo(names, 1, 2, {"contractor"});
  }

  /** Of two lists, one excluded by name, the report asks only that the kept
      list's meal windows end: the excluded list is never queried, so a server
      whose paging never ends for it does not matter. */
  lemma ExcludedListNeedNotEnd(api: FaceApi.Remote, cfg: CafeteriaConfig, w: MealWindows,
                               names: map<int, string>, kept: int, dropped: int)
    requires FetchListNames(api) == Success(names) && names.Keys == {kept, dropped}
    requires cfg.excludedListNames == Some({Some(names[dropped])})
    requires SafeLower(Some(names[kept])) != SafeLower(Some(names[dropped]))
    ensures ReportWindowsEnd(api, cfg, None, w, ExcludedNames(cfg)) <==>
      && WindowEnds(api, cfg.analyticsIds, kept, w.breakfastStart, w.breakfastEnd)
      && WindowEnds(api, cfg.analyticsIds, kept, w.lunchStart, w.lunchEnd)
      && WindowEnds(api, cfg.analyticsIds, kept, w.dinnerStart, w.dinnerEnd)
  {
    var a := cfg.analyticsIds;
    TwoListTargets(cfg, names, kept, dropped);
    SingleWindowEnds(api, a, kept, w.breakfastStart, w.breakfastEnd);
    SingleWindowEnds(api, a, kept, w.lunchStart, w.lunchEnd);
    SingleWindowEnds(api, a, kept, w.dinnerStart, w.dinnerEnd);
  }

  /** Of two lists, one excluded by name, only the other is a target. */
  lemma TwoListTargets(cfg: CafeteriaConfig, names: map<int, string>, kept: int, dropped: int)
    requires names.Keys == {kept, dropped}
    requires cfg.excludedListNames == Some({Some(names[dropped])})
    requires SafeLower(Some(names[kept])) != SafeLower(Some(names[dropped]))
    ensures ExcludedNames(cfg).Success? && TargetListIds(None, names, ExcludedNames(cfg).value) == [kept]
  {
    var ex := {SafeLower(Some(names[dropped]))};
    assert ExcludedNames(cfg) == Success(ex) by {
      ExcludedSingleton(cfg, Some(names[dropped]));
    }
    assert TargetIds(None, names, ex) == {kept} by {
      TargetIdsOfTwo(names, kept, dropped, ex);
    }
    SingleTarget(None, names, ex, kept);
  }

  /** A single target id is the whole ordered target list. */
  lemma SingleTarget(only: Option<seq<int>>, names: map<int, string>, excluded: set<string>, id: int)
    requires TargetIds(only, names, excluded) == {id}
    ensures TargetListIds(only, names, excluded) == [id]
  {
    SortedSingleton(id);
  }

  lemma SingleWindowEnds(api: FaceApi.Remote, a: Option<seq<int>>, id: int, start: int, end: int)
    ensures AllWindowsEnd(api, a, [id], start, end) <==> WindowEnds(api, a, id, start, end)
  {
    assert id in [id];
  }

  lemma ExcludedSingleton(cfg: CafeteriaConfig, s: Option<string>)
    requires cfg.excludedListNames == Some({s})
    ensures ExcludedNames(cfg) == Success({SafeLower(s)})
  {
    var ex := ExcludedNames(cfg).value;
    assert ex == set x | x in {s} :: SafeLower(x);
    assert SafeLower(s) in ex;
    forall n | n in ex ensures n == SafeLower(s) {
      var x :| x in {s} && n == SafeLower(x);
    }
    assert ex == {SafeLower(s)};
    assert ExcludedNames(cfg).Success?;
  }

  /** "Alpha" lower-cased and trimmed is "alpha". */
  lemma SafeLowerAlpha()
    ensures SafeLower(Some("Alpha")) == "alpha"
  {
    assert ToLower("Alpha") == "alpha";
    assert Trim("alpha") == "alpha";
  }

  /** Of two named lists, the one whose lower-cased name is excluded is dropped. */
  lemma TargetIdsOfTwo(names: map<int, string>, kept: int, dropped: int, excluded: set<string>)
    requires names.Keys == {kept, dropped}
    requires SafeLower(Some(names[kept])) !in excluded && SafeLower(Some(names[dropped])) in excluded
    ensures TargetIds(None, names, excluded) == {kept}
  {
    var t := TargetIds(None, names, excluded);
    assert Admitted(None, kept);
    assert kept in t;
    assert dropped !in t;
  }

  lemma SortedSingleton(x: int)
    ensures SortedElements({x}) == [x]
  {
    var r := SortedElements({x});
    assert |r| == 1 && x in r;
  }

  /** Two people seen at every meal on list "Alpha" give the row Alpha 2/2/2, total 6. */
  lemma PivotExample()
    ensures var counts := map[1 := {100, 101}];
      PivotRows(map[1 := "Alpha", 2 := "Contractor"], [1], counts, counts, counts)
        == [CafeteriaPivot.CafeteriaPivotRow(Some("Alpha"), 2, 2, 2)]
    ensures CafeteriaPivot.CafeteriaPivotRow(Some("Alpha"), 2, 2, 2).Total() == 6
  {
    var counts := map[1 := {100, 101}];
    assert |counts[1]| == 2;
    assert RowOrder(map[1 := "Alpha", 2 := "Contractor"], [1]) == [1];
  }
}
