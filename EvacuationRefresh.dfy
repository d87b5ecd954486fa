/**
 * The computation behind EvacuationStatusService: which face lists take part,
 * the time-attendance configuration of a list, the latest detection of each
 * person in the look-back window, and the status row built for each list item
 * (on site when the latest detection came from an entrance stream).
 */
module EvacuationRefresh {
  import opened Wrappers
  import opened Dto
  import opened FaceApi
  import opened StatusRepository

  const FaceListLimit: int := 100
  const DetectionPageLimit: int := 500
  const MillisPerDay: int := 86_400_000

  // ---------------------------------------------------------------------------
  // Lists and their configuration

  /** The list has a time-attendance block whose enabled flag is TRUE. */
  predicate AttendanceOn(fl: FaceList) {
    fl.timeAttendance.Some? && fl.timeAttendance.value.enabled == Some(true)
  }

  /** The lists of a page, in order, keeping those with attendance enabled. */
  function EnabledOnly(ls: seq<FaceList>): (r: seq<FaceList>)
    ensures forall fl :: fl in r <==> fl in ls && AttendanceOn(fl)
    ensures |r| <= |ls|
  {
    if ls == [] then []
    else
      var rest := EnabledOnly(ls[..|ls| - 1]);
      assert ls == ls[..|ls| - 1] + [ls[|ls| - 1]];
      if AttendanceOn(ls[|ls| - 1]) then rest + [ls[|ls| - 1]] else rest
  }

  /** A single list is kept exactly when attendance is enabled on it. */
  lemma EnabledOnlySingle(fl: FaceList)
    ensures EnabledOnly([fl]) == if AttendanceOn(fl) then [fl] else []
  {
    assert [fl][..0] == [];
  }

  /** Filtering is done list by list, in order: the filter of a concatenation is the
      concatenation of the filters. */
  lemma {:induction false} EnabledOnlyAppend(a: seq<FaceList>, b: seq<FaceList>)
    ensures EnabledOnly(a + b) == EnabledOnly(a) + EnabledOnly(b)
    decreases |b|
  {
    if b == [] {
      assert a + b == a;
    } else {
      var b' := b[..|b| - 1];
      var last := b[|b| - 1];
      assert (a + b)[..|a + b| - 1] == a + b';
      assert (a + b)[|a + b| - 1] == last;
      EnabledOnlyAppend(a, b');
      if AttendanceOn(last) {
        assert EnabledOnly(a) + EnabledOnly(b') + [last] == EnabledOnly(a) + (EnabledOnly(b') + [last]);
      }
    }
  }

  /** fetchListsWithAttendanceEnabled: GET /face/lists?limit=100 filtered to the
      lists with attendance enabled; a failed call, a null body or null data give
      no lists. */
  function ListsWithAttendanceEnabled(api: Remote): (r: seq<FaceList>)
    ensures forall fl | fl in r :: AttendanceOn(fl)
    ensures api.faceLists(FaceListLimit).Body? && api.faceLists(FaceListLimit).body.Some?
            && api.faceLists(FaceListLimit).body.value.data.Some? ==>
            forall fl | fl in api.faceLists(FaceListLimit).body.value.data.value && AttendanceOn(fl) :: fl in r
    ensures api.faceLists(FaceListLimit).Thrown? ==> r == []
  {
    match api.faceLists(FaceListLimit)
    case Thrown => []
    case Body(None) => []
    case Body(Some(resp)) => if resp.data.None? then [] else EnabledOnly(resp.data.value)
  }

  /** TimeAttendanceConfig: enabled with the entrance and exit stream ids (null read
      as empty), or disabled with no streams. */
  datatype AttendanceConfig = AttendanceConfig(enabled: bool, entrance: seq<int>, exit: seq<int>)

  function ConfigFrom(fl: FaceList): (c: AttendanceConfig)
    ensures c.enabled <==> AttendanceOn(fl)
    ensures !c.enabled ==> c.entrance == [] && c.exit == []
    ensures c.enabled ==> c.entrance == fl.timeAttendance.value.entranceAnalyticsIds.GetOr([])
    ensures c.enabled ==> c.exit == fl.timeAttendance.value.exitAnalyticsIds.GetOr([])
  {
    if !AttendanceOn(fl) then AttendanceConfig(false, [], [])
    else
      var ta := fl.timeAttendance.value;
      AttendanceConfig(true, ta.entranceAnalyticsIds.GetOr([]), ta.exitAnalyticsIds.GetOr([]))
  }

  /** entranceArray() / exitArray(): an empty list is stored as null. */
  function ArrayOf(ids: seq<int>): (r: Option<seq<int>>)
    ensures r.None? <==> ids == []
    ensures r.Some? ==> r.value == ids
  {
    if ids == [] then None else Some(ids)
  }

  /** allStreams(): the entrance streams followed by the exit streams. */
  function AllStreams(c: AttendanceConfig): (r: seq<int>)
    ensures |r| == |c.entrance| + |c.exit|
    ensures r[..|c.entrance|] == c.entrance && r[|c.entrance|..] == c.exit
  {
    c.entrance + c.exit
  }

  /** Every list the refresh fetches is one whose configuration is enabled. */
  lemma FetchedListsAreEnabled(api: Remote)
    ensures forall fl | fl in ListsWithAttendanceEnabled(api) :: ConfigFrom(fl).enabled
  {
  }

  /** resolveStartMillis: the window starts lookbackDays days before now, or is
      open-ended when lookbackDays is not positive. */
  function ResolveStartMillis(lookbackDays: int, now: int): (r: Option<int>)
    ensures r.Some? <==> lookbackDays > 0
    ensures r.Some? ==> now - r.value == lookbackDays * MillisPerDay
  {
    if lookbackDays > 0 then Some(now - lookbackDays * MillisPerDay) else None
  }

  // ---------------------------------------------------------------------------
  // Latest detection per person

  /** isLater: the candidate has a timestamp and the existing one has none or an
      earlier one. */
  predicate IsLater(candidate: Detection, existing: Detection) {
    candidate.timestamp.Some? && (existing.timestamp.None? || candidate.timestamp.value > existing.timestamp.value)
  }

  /** isLater is a strict order: irreflexive and transitive, hence asymmetric. */
  lemma IsLaterStrict(a: Detection, b: Detection, c: Detection)
    ensures !IsLater(a, a)
    ensures IsLater(a, b) && IsLater(b, c) ==> IsLater(a, c)
    ensures IsLater(a, b) ==> !IsLater(b, a)
  {
  }

  /** The list item id of a detection, when the detection, its list item and the id are all present. */
  function ItemIdOf(d: Option<Detection>): (r: Option<int>)
    ensures r.Some? <==> d.Some? && d.value.listItem.Some? && d.value.listItem.value.id.Some?
    ensures r.Some? ==> r == d.value.listItem.value.id
  {
    if d.Some? && d.value.listItem.Some? then d.value.listItem.value.id else None
  }

  /** The HashMap findLatestDetections builds: detections taken in order, each one
      replacing the person's entry when there is none or it is later. */
  function LatestFold(ds: seq<Option<Detection>>): map<int, Detection>
  {
    if ds == [] then map[]
    else
      var m := LatestFold(ds[..|ds| - 1]);
      var d := ds[|ds| - 1];
      match ItemIdOf(d)
      case None => m
      case Some(id) => if id !in m || IsLater(d.value, m[id]) then m[id := d.value] else m
  }

  /** The result of findLatestDetections: the immutable empty map for no detections,
      otherwise the HashMap. The two differ on a null key: Map.of().get(null) throws. */
  datatype LatestMap = EmptyConstant | Found(byPerson: map<int, Detection>)

  function LatestDetections(ds: seq<Option<Detection>>): LatestMap {
    if ds == [] then EmptyConstant else Found(LatestFold(ds))
  }

  /** ds[i] is the person's latest detection: later than every earlier detection of
      that person and with no detection of that person later than it, that is the
      first one with the greatest timestamp, a missing timestamp counting as lowest. */
  predicate IsLatestAt(ds: seq<Option<Detection>>, id: int, i: int) {
    0 <= i < |ds| && ItemIdOf(ds[i]) == Some(id)
    && (forall j | 0 <= j < i && ItemIdOf(ds[j]) == Some(id) :: IsLater(ds[i].value, ds[j].value))
    && (forall j | 0 <= j < |ds| && ItemIdOf(ds[j]) == Some(id) :: !IsLater(ds[j].value, ds[i].value))
  }

  /** The map has an entry for exactly the people with a detection. */
  lemma {:induction false} LatestFoldKeys(ds: seq<Option<Detection>>)
    ensures forall id :: id in LatestFold(ds) <==> exists i | 0 <= i < |ds| :: ItemIdOf(ds[i]) == Some(id)
    decreases |ds|
  {
    if ds != [] {
      var n := |ds| - 1;
      LatestFoldKeys(ds[..n]);
      forall id ensures id in LatestFold(ds) <==> exists i | 0 <= i < |ds| :: ItemIdOf(ds[i]) == Some(id) {
        if id in LatestFold(ds[..n]) {
          var i :| 0 <= i < n && ItemIdOf(ds[..n][i]) == Some(id);
          assert ItemIdOf(ds[i]) == Some(id);
        }
        if i :| 0 <= i < |ds| && ItemIdOf(ds[i]) == Some(id) {
          if i < n {
            assert ItemIdOf(ds[..n][i]) == Some(id);
          }
        }
      }
    }
  }

  /** Each entry is the person's latest detection in the sense of IsLatestAt. */
  lemma {:induction false} LatestFoldChosen(ds: seq<Option<Detection>>, id: int)
    requires id in LatestFold(ds)
    ensures exists i :: IsLatestAt(ds, id, i) && ds[i] == Some(LatestFold(ds)[id])
    decreases |ds|
  {
    var n := |ds| - 1;
    var prev := LatestFold(ds[..n]);
    var d := ds[n];
    if ItemIdOf(d) == Some(id) && id !in prev {
      LatestFoldKeys(ds[..n]);
      forall k | 0 <= k < n ensures ItemIdOf(ds[k]) != Some(id) {
        assert ds[..n][k] == ds[k];
      }
      FirstDetectionIsLatest(ds, id);
      assert ds[n] == Some(LatestFold(ds)[id]);
    } else {
      LatestFoldChosen(ds[..n], id);
      var i :| IsLatestAt(ds[..n], id, i) && ds[..n][i] == Some(prev[id]);
      if ItemIdOf(d) == Some(id) && IsLater(d.value, prev[id]) {
        LatestMovesToLast(ds, id, i);
        assert ds[n] == Some(LatestFold(ds)[id]);
      } else {
        LatestStays(ds, id, i);
        assert ds[i] == Some(LatestFold(ds)[id]);
      }
    }
  }

  /** The first detection of a person is, so far, the latest one. */
  lemma FirstDetectionIsLatest(ds: seq<Option<Detection>>, id: int)
    requires ds != [] && ItemIdOf(ds[|ds| - 1]) == Some(id)
    requires forall k | 0 <= k < |ds| - 1 :: ItemIdOf(ds[k]) != Some(id)
    ensures IsLatestAt(ds, id, |ds| - 1)
  {
  }

  /** A detection later than the latest so far becomes the latest. */
  lemma LatestMovesToLast(ds: seq<Option<Detection>>, id: int, i: int)
    requires ds != [] && IsLatestAt(ds[..|ds| - 1], id, i)
    requires ItemIdOf(ds[|ds| - 1]) == Some(id) && IsLater(ds[|ds| - 1].value, ds[i].value)
    ensures IsLatestAt(ds, id, |ds| - 1)
  {
    var n := |ds| - 1;
    var d := ds[n];
    forall j | 0 <= j < n && ItemIdOf(ds[j]) == Some(id) ensures IsLater(d.value, ds[j].value) {
      assert ItemIdOf(ds[..n][j]) == Some(id);
      assert !IsLater(ds[j].value, ds[i].value);
    }
    forall j | 0 <= j < |ds| && ItemIdOf(ds[j]) == Some(id) ensures !IsLater(ds[j].value, d.value) {
      if j < n {
        assert ItemIdOf(ds[..n][j]) == Some(id);
        assert !IsLater(ds[j].value, ds[i].value);
      }
    }
  }

  /** A detection that is not later leaves the latest one where it is. */
  lemma LatestStays(ds: seq<Option<Detection>>, id: int, i: int)
    requires ds != [] && IsLatestAt(ds[..|ds| - 1], id, i)
    requires !(ItemIdOf(ds[|ds| - 1]) == Some(id) && IsLater(ds[|ds| - 1].value, ds[i].value))
    ensures IsLatestAt(ds, id, i)
  {
    var n := |ds| - 1;
    forall j | 0 <= j < i && ItemIdOf(ds[j]) == Some(id) ensures IsLater(ds[i].value, ds[j].value) {
      assert ItemIdOf(ds[..n][j]) == Some(id);
    }
    forall j | 0 <= j < |ds| && ItemIdOf(ds[j]) == Some(id) ensures !IsLater(ds[j].value, ds[i].value) {
      if j < n {
        assert ItemIdOf(ds[..n][j]) == Some(id);
      }
    }
  }

  /** The latest detection recorded for a list item id, if any. */
  function LatestOf(lm: LatestMap, id: Option<int>): Option<Detection> {
    if lm.Found? && id.Some? && id.value in lm.byPerson then Some(lm.byPerson[id.value]) else None
  }

  /** latestByPerson.get(id): throws only for a null id on the immutable empty map. */
  function Lookup(lm: LatestMap, id: Option<int>): (r: Result<Option<Detection>>)
    ensures r.Failure? <==> lm.EmptyConstant? && id.None?
    ensures r.Failure? ==> r.error == NullPointer
    ensures r.Success? ==> r.value == LatestOf(lm, id)
  {
    if lm.EmptyConstant? && id.None? then Failure(NullPointer)
    else Success(LatestOf(lm, id))
  }

  // ---------------------------------------------------------------------------
  // Status rows

  /** isEntranceDetection: the detection's stream is one of the entrance streams. */
  function IsEntranceDetection(d: Detection, entrance: seq<int>): (r: bool)
    ensures r <==> d.analytics.Some? && d.analytics.value.streamId.Some? && d.analytics.value.streamId.value in entrance
  {
    if entrance == [] || d.analytics.None? || d.analytics.value.streamId.None? then false
    else d.analytics.value.streamId.value in entrance
  }

  /** The person is on site: their latest detection exists and came from an entrance stream. */
  predicate OnSite(c: AttendanceConfig, det: Option<Detection>) {
    det.Some? && IsEntranceDetection(det.value, c.entrance)
  }

  /** The row built for one list item. */
  function StatusFor(listId: Option<int>, c: AttendanceConfig, det: Option<Detection>, itemId: Option<int>): EvacuationStatus {
    var status := OnSite(c, det);
    EvacuationStatus(listId, itemId, ArrayOf(c.entrance), ArrayOf(c.exit), Some(status),
                     if status then det.value.timestamp else None, None, None)
  }

  /** The row buildStatuses writes for an item: the list and item ids, the configured
      streams, status true exactly when the latest detection is an entrance one, its
      timestamp as entrance time in that case, and no exit time or manual flag. */
  predicate IsBuiltRow(e: EvacuationStatus, listId: Option<int>, c: AttendanceConfig, lm: LatestMap, itemId: Option<int>) {
    && e.listId == listId && e.listItemId == itemId
    && e.enterStreamIds == ArrayOf(c.entrance) && e.exitStreamIds == ArrayOf(c.exit)
    && e.status == Some(OnSite(c, LatestOf(lm, itemId)))
    && e.entranceTime == (if OnSite(c, LatestOf(lm, itemId)) then LatestOf(lm, itemId).value.timestamp else None)
    && e.exitTime.None? && e.manuallyUpdated.None?
  }

  /** buildStatuses: one row per list item, in order; it throws a NullPointerException
      when an item has a null id and there were no detections at all. */
  function BuiltStatuses(listId: Option<int>, c: AttendanceConfig, lm: LatestMap, items: seq<ListItem>)
    : (r: Result<seq<EvacuationStatus>>)
    ensures r.Failure? <==> lm.EmptyConstant? && exists i | 0 <= i < |items| :: items[i].id.None?
    ensures r.Failure? ==> r.error == NullPointer
    ensures r.Success? ==> |r.value| == |items|
    ensures r.Success? ==> forall i | 0 <= i < |items| :: IsBuiltRow(r.value[i], listId, c, lm, items[i].id)
  {
    if items == [] then Success([])
    else
      var n := |items| - 1;
      assert forall i | 0 <= i < n :: items[..n][i] == items[i];
      match BuiltStatuses(listId, c, lm, items[..n])
      case Failure(e) => Failure(e)
      case Success(prev) =>
        match Lookup(lm, items[n].id)
        case Failure(e) => Failure(e)
        case Success(det) => Success(prev + [StatusFor(listId, c, det, items[n].id)])
  }

  /** fetchListItems: GET /face/list_items for the list; a null body or null data
      give no items, a failed call throws. */
  function ListItemsOf(api: Remote, listId: Option<int>): (r: Result<seq<ListItem>>)
    ensures api.listItems(listId).Thrown? <==> r.Failure?
    ensures r.Success? && api.listItems(listId).body.Some? && api.listItems(listId).body.value.data.Some? ==>
      r.value == api.listItems(listId).body.value.data.value
  {
    match api.listItems(listId)
    case Thrown => Failure(RemoteFailure)
    case Body(None) => Success([])
    case Body(Some(resp)) => Success(resp.data.GetOr([]))
  }

  // ---------------------------------------------------------------------------
  // One list, and the whole refresh

  /** The detection window updateListStatuses queries for a list. */
  function ListWindow(fl: FaceList, startMillis: Option<int>, endMillis: int): DetectionsQuery {
    WindowQuery(fl.id, Some(AllStreams(ConfigFrom(fl))), startMillis, Some(endMillis))
  }

  /** Paging ends for every enabled list (otherwise the Java loop never returns). */
  ghost predicate WindowsEnd(api: Remote, lists: seq<FaceList>, startMillis: Option<int>, endMillis: int) {
    forall fl | fl in lists && ConfigFrom(fl).enabled :: PagingEnds(api, ListWindow(fl, startMillis, endMillis), DetectionPageLimit)
  }

  /** What updateListStatuses decides for one list: nothing to save (attendance off,
      or no list items), the rows to save, or the exception it throws. */
  ghost function ListPlan(api: Remote, fl: FaceList, startMillis: Option<int>, endMillis: int)
    : Result<Option<seq<EvacuationStatus>>>
    requires ConfigFrom(fl).enabled ==> PagingEnds(api, ListWindow(fl, startMillis, endMillis), DetectionPageLimit)
  {
    var c := ConfigFrom(fl);
    if !c.enabled then Success(None)
    else
      match AllDetections(api, ListWindow(fl, startMillis, endMillis), DetectionPageLimit)
      case Failure(e) => Failure(e)
      case Success(ds) =>
        match ListItemsOf(api, fl.id)
        case Failure(e) => Failure(e)
        case Success(items) =>
          if items == [] then Success(None)
          else
            match BuiltStatuses(fl.id, c, LatestDetections(ds), items)
            case Failure(e) => Failure(e)
            case Success(rows) => Success(Some(rows))
  }

  /** The table after carrying out a plan: saveAll of the rows when there are rows,
      the database is up and every row has its key; otherwise unchanged. */
  function SavedRows(rows: map<StatusKey, EvacuationStatus>, online: bool, plan: Result<Option<seq<EvacuationStatus>>>)
    : (r: map<StatusKey, EvacuationStatus>)
    ensures !(plan.Success? && plan.value.Some? && online && AllKeyed(plan.value.value)) ==> r == rows
  {
    if plan.Success? && plan.value.Some? && online && AllKeyed(plan.value.value) then Upsert(rows, plan.value.value)
    else rows
  }

  /** refreshStatuses: the lists processed in order, an exception in one list
      leaving the table as it was before that list. */
  ghost function RefreshedRows(api: Remote, online: bool, rows: map<StatusKey, EvacuationStatus>,
                               lists: seq<FaceList>, startMillis: Option<int>, endMillis: int)
    : map<StatusKey, EvacuationStatus>
    requires WindowsEnd(api, lists, startMillis, endMillis)
  {
    if lists == [] then rows
    else
      var n := |lists| - 1;
      assert WindowsEnd(api, lists[..n], startMillis, endMillis) by {
        forall fl | fl in lists[..n] ensures fl in lists {
        }
      }
      SavedRows(RefreshedRows(api, online, rows, lists[..n], startMillis, endMillis), online,
                ListPlan(api, lists[n], startMillis, endMillis))
  }

  /** Any row a list's plan saves carries that list's id. */
  lemma PlanRowsBelongToList(api: Remote, fl: FaceList, startMillis: Option<int>, endMillis: int)
    requires ConfigFrom(fl).enabled ==> PagingEnds(api, ListWindow(fl, startMillis, endMillis), DetectionPageLimit)
    ensures var plan := ListPlan(api, fl, startMillis, endMillis);
      plan.Success? && plan.value.Some? ==> forall i | 0 <= i < |plan.value.value| :: plan.value.value[i].listId == fl.id
  {
  }

  /** Saving rows of list L leaves every row of another list as it was. */
  lemma SavedRowsKeepOtherLists(rows: map<StatusKey, EvacuationStatus>, online: bool,
                                plan: Result<Option<seq<EvacuationStatus>>>, listId: Option<int>, k: StatusKey)
    requires plan.Success? && plan.value.Some? ==> forall i | 0 <= i < |plan.value.value| :: plan.value.value[i].listId == listId
    requires Some(k.listId) != listId
    ensures k in SavedRows(rows, online, plan) <==> k in rows
    ensures k in rows ==> SavedRows(rows, online, plan)[k] == rows[k]
  {
    if plan.Success? && plan.value.Some? && online && AllKeyed(plan.value.value) {
      var es := plan.value.value;
      assert forall e | e in es :: KeyOf(e) != Some(k);
      UpsertAt(rows, es, k);
    }
  }

  /** A refresh touches only the rows of the lists it processed: a row whose list is
      not among them keeps its value, and no row appears for such a list. */
  lemma {:induction false} RefreshKeepsOtherLists(api: Remote, online: bool, rows: map<StatusKey, EvacuationStatus>,
                                                  lists: seq<FaceList>, startMillis: Option<int>, endMillis: int, k: StatusKey)
    requires WindowsEnd(api, lists, startMillis, endMillis)
    requires forall fl | fl in lists :: fl.id != Some(k.listId)
    ensures k in RefreshedRows(api, online, rows, lists, startMillis, endMillis) <==> k in rows
    ensures k in rows ==> RefreshedRows(api, online, rows, lists, startMillis, endMillis)[k] == rows[k]
    decreases |lists|
  {
    if lists != [] {
      var n := |lists| - 1;
      assert WindowsEnd(api, lists[..n], startMillis, endMillis) by {
        forall fl | fl in lists[..n] ensures fl in lists {
        }
      }
      assert forall fl | fl in lists[..n] :: fl in lists;
      RefreshKeepsOtherLists(api, online, rows, lists[..n], startMillis, endMillis, k);
      PlanRowsBelongToList(api, lists[n], startMillis, endMillis);
      SavedRowsKeepOtherLists(RefreshedRows(api, online, rows, lists[..n], startMillis, endMillis), online,
                              ListPlan(api, lists[n], startMillis, endMillis), lists[n].id, k);
    }
  }

  /** After a list is saved, the row of each of its items is the freshly built one:
      the manual-override flag and the exit time are cleared, whatever they were. */
  lemma SavedListOverwritesRow(api: Remote, online: bool, rows: map<StatusKey, EvacuationStatus>,
                               fl: FaceList, startMillis: Option<int>, endMillis: int, k: StatusKey)
    requires ConfigFrom(fl).enabled ==> PagingEnds(api, ListWindow(fl, startMillis, endMillis), DetectionPageLimit)
    requires var plan := ListPlan(api, fl, startMillis, endMillis);
      plan.Success? && plan.value.Some? && online && AllKeyed(plan.value.value)
      && exists i | 0 <= i < |plan.value.value| :: KeyOf(plan.value.value[i]) == Some(k)
    ensures var c := ConfigFrom(fl);
      var ds := AllDetections(api, ListWindow(fl, startMillis, endMillis), DetectionPageLimit).value;
      var after := SavedRows(rows, online, ListPlan(api, fl, startMillis, endMillis));
      && k in after
      && IsBuiltRow(after[k], fl.id, c, LatestDetections(ds), Some(k.listItemId))
      && after[k].manuallyUpdated.None? && after[k].exitTime.None?
  {
    var plan := ListPlan(api, fl, startMillis, endMillis);
    var c := ConfigFrom(fl);
    var ds := AllDetections(api, ListWindow(fl, startMillis, endMillis), DetectionPageLimit).value;
    var items := ListItemsOf(api, fl.id).value;
    var built := plan.value.value;
    assert built == BuiltStatuses(fl.id, c, LatestDetections(ds), items).value;
    UpsertAt(rows, built, k);
    var w := LastWithKey(built, k).value;
    var i :| 0 <= i < |built| && built[i] == w;
    assert IsBuiltRow(built[i], fl.id, c, LatestDetections(ds), items[i].id);
  }
}
