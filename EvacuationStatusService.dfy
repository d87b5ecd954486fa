/**
 * EvacuationStatusService: the scheduled refresh that recomputes the status of
 * every person on the attendance-enabled lists and saves it, the manual status
 * update, and the two read queries over the evacuation table.
 */
module EvacuationStatusService {
  import opened Wrappers
  import opened Dto
  import opened FaceApi
  import opened StatusRepository
  import opened EvacuationRefresh

  /** findLatestDetections, as its loop. */
  method FindLatestDetections(ds: seq<Option<Detection>>) returns (r: LatestMap)
    ensures r == LatestDetections(ds)
  {
    if ds == [] {
      return EmptyConstant;
    }
    var latest: map<int, Detection> := map[];
    var i := 0;
    while i < |ds|
      invariant 0 <= i <= |ds|
      invariant latest == LatestFold(ds[..i])
    {
      assert ds[..i + 1][..i] == ds[..i];
      var d := ds[i];
      if d.Some? && d.value.listItem.Some? && d.value.listItem.value.id.Some? {
        var id := d.value.listItem.value.id.value;
        if id !in latest || IsLater(d.value, latest[id]) {
          latest := latest[id := d.value];
        }
      }
      i := i + 1;
    }
    assert ds[..|ds|] == ds;
    return Found(latest);
  }

  /** buildStatuses, as its loop. */
  method BuildStatuses(listId: Option<int>, c: AttendanceConfig, lm: LatestMap, items: seq<ListItem>)
    returns (r: Result<seq<EvacuationStatus>>)
    ensures r == BuiltStatuses(listId, c, lm, items)
  {
    var statuses: seq<EvacuationStatus> := [];
    var i := 0;
    while i < |items|
      invariant 0 <= i <= |items|
      invariant BuiltStatuses(listId, c, lm, items[..i]) == Success(statuses)
    {
      assert items[..i + 1][..i] == items[..i];
      var looked := Lookup(lm, items[i].id);
      if looked.Failure? {
        assert BuiltStatuses(listId, c, lm, items[..i + 1]).Failure?;
        BuiltStatusesFailurePersists(listId, c, lm, items, i + 1);
        return Failure(looked.error);
      }
      statuses := statuses + [StatusFor(listId, c, looked.value, items[i].id)];
      i := i + 1;
    }
    assert items[..|items|] == items;
    return Success(statuses);
  }

  /** Once a prefix of the items throws, the whole list does. */
  lemma BuiltStatusesFailurePersists(listId: Option<int>, c: AttendanceConfig, lm: LatestMap, items: seq<ListItem>, n: nat)
    requires n <= |items|
    requires BuiltStatuses(listId, c, lm, items[..n]).Failure?
    ensures BuiltStatuses(listId, c, lm, items) == Failure(NullPointer)
  {
    var j :| 0 <= j < n && items[..n][j].id.None?;
    assert items[j].id.None?;
  }

  /** The row inserted by updateStatus when none exists: ids, status and entrance time
      set, every other column null. */
  function NewRow(listId: Option<int>, listItemId: Option<int>, status: bool, entranceTime: Option<int>): EvacuationStatus {
    EvacuationStatus(listId, listItemId, None, None, Some(status), entranceTime, None, None)
  }

  /** The table after updateStatus(listId, listItemId, status, entranceTime): the
      row's status and entrance time overwritten, or a new row inserted when the
      key is absent; unchanged when the database is down or an id is null. */
  function StatusSetRows(rows: map<StatusKey, EvacuationStatus>, online: bool, listId: Option<int>,
                         listItemId: Option<int>, status: bool, entranceTime: Option<int>)
    : map<StatusKey, EvacuationStatus>
  {
    if !online || listId.None? || listItemId.None? then rows
    else
      var k := StatusKey(listId.value, listItemId.value);
      if k in rows then rows[k := rows[k].(status := Some(status), entranceTime := entranceTime)]
      else rows[k := NewRow(listId, listItemId, status, entranceTime)]
  }

  /** After updateStatus the row exists with the given status and entrance time; a
      row that existed keeps its stream ids, exit time and manual flag; every other
      row is untouched. */
  lemma StatusSetEffect(rows: map<StatusKey, EvacuationStatus>, listId: int, listItemId: int, status: bool,
                        entranceTime: Option<int>)
    requires WellKeyed(rows)
    ensures var k := StatusKey(listId, listItemId);
      var after := StatusSetRows(rows, true, Some(listId), Some(listItemId), status, entranceTime);
      && k in after && after[k].status == Some(status) && after[k].entranceTime == entranceTime
      && KeyOf(after[k]) == Some(k)
      && (k in rows ==> after[k].enterStreamIds == rows[k].enterStreamIds && after[k].exitStreamIds == rows[k].exitStreamIds
                        && after[k].exitTime == rows[k].exitTime && after[k].manuallyUpdated == rows[k].manuallyUpdated)
      && (k !in rows ==> after[k].manuallyUpdated.None? && after[k].exitTime.None?)
      && after.Keys == rows.Keys + {k}
      && forall k' | k' in rows && k' != k :: after[k'] == rows[k']
  {
  }

  /** The service, wired to its table, the face API and the look-back setting. */
  class EvacuationService {
    const table: StatusTable
    const api: Remote
    const lookbackDays: int

    predicate Valid()
      reads this, table
    {
      table.Valid()
    }

    constructor (table: StatusTable, api: Remote, lookbackDays: int)
      requires table.Valid()
      ensures Valid() && this.table == table && this.api == api && this.lookbackDays == lookbackDays
    {
      this.table := table;
      this.api := api;
      this.lookbackDays := lookbackDays;
    }

    /** refreshStatuses at time `now`: every attendance-enabled list recomputed and
        saved in turn, a list whose update throws left as it was. */
    method RefreshStatuses(now: int)
      requires Valid()
      requires WindowsEnd(api, ListsWithAttendanceEnabled(api), ResolveStartMillis(lookbackDays, now), now)
      modifies table`rows
      ensures Valid()
      ensures table.rows == RefreshedRows(api, table.online, old(table.rows), ListsWithAttendanceEnabled(api),
                                          ResolveStartMillis(lookbackDays, now), now)
    {
      var lists := ListsWithAttendanceEnabled(api);
      if lists == [] {
        return;
      }
      var start := ResolveStartMillis(lookbackDays, now);
      var i := 0;
      while i < |lists|
        invariant 0 <= i <= |lists|
        invariant Valid()
        invariant WindowsEnd(api, lists[..i], start, now)
        invariant table.rows == RefreshedRows(api, table.online, old(table.rows), lists[..i], start, now)
      {
        assert lists[..i + 1][..i] == lists[..i];
        assert WindowsEnd(api, lists[..i + 1], start, now) by {
          forall fl | fl in lists[..i + 1] ensures fl in lists {
          }
        }
        var _ := UpdateListStatuses(lists[i], start, now);
        i := i + 1;
      }
      assert lists[..|lists|] == lists;
    }

    /** updateListStatuses: Fail is the exception it throws, which the refresh catches. */
    method UpdateListStatuses(fl: FaceList, startMillis: Option<int>, endMillis: int) returns (r: Outcome)
      requires Valid()
      requires ConfigFrom(fl).enabled ==> PagingEnds(api, ListWindow(fl, startMillis, endMillis), DetectionPageLimit)
      modifies table`rows
      ensures Valid()
      ensures table.rows == SavedRows(old(table.rows), table.online, ListPlan(api, fl, startMillis, endMillis))
      ensures r.Fail? <==> (ListPlan(api, fl, startMillis, endMillis).Failure?
                            || (ListPlan(api, fl, startMillis, endMillis).value.Some?
                                && !(table.online && AllKeyed(ListPlan(api, fl, startMillis, endMillis).value.value))))
    {
      var c := ConfigFrom(fl);
      if !c.enabled {
        return Pass;
      }
      var window := ListWindow(fl, startMillis, endMillis);
      ghost var last: nat :| Stops(api, window, DetectionPageLimit, last);
      AllDetectionsAt(api, window, DetectionPageLimit, last);
      var detections, _ := GetAllDetectionsInWindow(api, fl.id, Some(AllStreams(c)), startMillis, Some(endMillis),
                                                    DetectionPageLimit, last);
      if detections.Failure? {
        return Fail(detections.error);
      }
      var latest := FindLatestDetections(detections.value);
      var items := ListItemsOf(api, fl.id);
      if items.Failure? {
        return Fail(items.error);
      }
      if items.value == [] {
        return Pass;
      }
      var statuses := BuildStatuses(fl.id, c, latest, items.value);
      if statuses.Failure? {
        return Fail(statuses.error);
      }
      r := table.SaveAll(statuses.value);
    }

    /** updateStatus(listId, listItemId, status): the entrance time is `now` when the
        status is true and null otherwise. */
    method UpdateStatusNow(listId: Option<int>, listItemId: Option<int>, status: bool, now: int)
      requires Valid()
      modifies table`rows
      ensures Valid()
      ensures table.rows == StatusSetRows(old(table.rows), table.online, listId, listItemId, status,
                                          if status then Some(now) else None)
    {
      UpdateStatus(listId, listItemId, status, if status then Some(now) else None);
    }

    /** updateStatus(listId, listItemId, status, entranceTime): the JPQL update, then an
        insert when no row exists; any exception is logged and swallowed. */
    method UpdateStatus(listId: Option<int>, listItemId: Option<int>, status: bool, entranceTime: Option<int>)
      requires Valid()
      modifies table`rows
      ensures Valid()
      ensures table.rows == StatusSetRows(old(table.rows), table.online, listId, listItemId, status, entranceTime)
    {
      var updated := table.UpdateStatus(listId, listItemId, Some(status), entranceTime);
      if updated.Fail? {
        return;
      }
      var present := table.ExistsById(listId, listItemId);
      if present.Failure? {
        return;
      }
      if !present.value {
        var _ := table.Save(NewRow(listId, listItemId, status, entranceTime));
      }
    }

    /** getActiveListItemIds: the item ids of the list's rows with status true, each
        once; empty when the query throws. */
    method GetActiveListItemIds(listId: Option<int>) returns (ids: seq<int>)
      requires Valid()
      ensures !table.online ==> ids == []
      ensures table.online ==> forall id :: id in ids <==>
        listId.Some? && StatusKey(listId.value, id) in table.rows
        && table.rows[StatusKey(listId.value, id)].status == Some(true)
      ensures forall i, j | 0 <= i < j < |ids| :: ids[i] != ids[j]
    {
      var found := table.FindByListIdAndStatusTrue(listId);
      if found.Failure? {
        return [];
      }
      var rows := found.value;
      ids := [];
      var i := 0;
      while i < |rows|
        invariant 0 <= i <= |rows|
        invariant forall id :: id in ids <==> exists j | 0 <= j < i :: rows[j].listItemId == Some(id)
        invariant forall a, b | 0 <= a < b < |ids| :: ids[a] != ids[b]
      {
        ActiveIsStoredRow(table.rows, listId, rows[i]);
        var id := rows[i].listItemId.value;
        if id !in ids {
          ids := ids + [id];
        }
        i := i + 1;
      }
      ActiveItems(table.rows, listId, rows);
    }

    /** getActiveStatuses: the list's rows with status true, by item id; empty when the
        query throws. */
    method GetActiveStatuses(listId: Option<int>) returns (m: map<int, EvacuationStatus>)
      requires Valid()
      ensures !table.online ==> m == map[]
      ensures table.online ==> forall id :: id in m <==>
        listId.Some? && StatusKey(listId.value, id) in table.rows
        && table.rows[StatusKey(listId.value, id)].status == Some(true)
      ensures forall id | id in m :: listId.Some? && StatusKey(listId.value, id) in table.rows && m[id] == table.rows[StatusKey(listId.value, id)]
    {
      var found := table.FindByListIdAndStatusTrue(listId);
      if found.Failure? {
        return map[];
      }
      var rows := found.value;
      m := map[];
      var i := 0;
      while i < |rows|
        invariant 0 <= i <= |rows|
        invariant forall id :: id in m <==> exists j | 0 <= j < i :: rows[j].listItemId == Some(id)
        invariant forall id | id in m :: listId.Some? && StatusKey(listId.value, id) in table.rows && m[id] == table.rows[StatusKey(listId.value, id)]
      {
        ActiveIsStoredRow(table.rows, listId, rows[i]);
        var id := rows[i].listItemId.value;
        if id !in m {
          m := m[id := rows[i]];
        }
        i := i + 1;
      }
      ActiveItems(table.rows, listId, rows);
    }
  }

  /** The item ids of the rows findByListIdAndStatusTrue returns are exactly the
      active item ids of the list. */
  lemma ActiveItems(rows: map<StatusKey, EvacuationStatus>, listId: Option<int>, found: seq<EvacuationStatus>)
    requires WellKeyed(rows)
    requires forall e :: e in found <==> e in Active(rows, listId)
    ensures forall id :: (exists j | 0 <= j < |found| :: found[j].listItemId == Some(id)) <==>
      listId.Some? && StatusKey(listId.value, id) in rows && rows[StatusKey(listId.value, id)].status == Some(true)
  {
    forall id ensures (exists j | 0 <= j < |found| :: found[j].listItemId == Some(id)) <==>
      listId.Some? && StatusKey(listId.value, id) in rows && rows[StatusKey(listId.value, id)].status == Some(true)
    {
      if j :| 0 <= j < |found| && found[j].listItemId == Some(id) {
        ActiveIsStoredRow(rows, listId, found[j]);
      }
      if listId.Some? && StatusKey(listId.value, id) in rows && rows[StatusKey(listId.value, id)].status == Some(true) {
        var e := rows[StatusKey(listId.value, id)];
        ActiveIsStoredRow(rows, listId, e);
        assert e in found;
        var j :| 0 <= j < |found| && found[j] == e;
      }
    }
  }
}
