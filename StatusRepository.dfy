/**
 * The evacuation table behind EvacuationStatusRepository: rows keyed by the
 * composite (list_id, list_item_id), the derived query findByListIdAndStatusTrue,
 * the JPQL status update, and JPA's existsById, save and saveAll.
 */
module StatusRepository {
  import opened Wrappers
  import opened Dto
  import opened Sorting

  /** Every row is stored under its own key, so there is at most one row per key. */
  predicate WellKeyed(rows: map<StatusKey, EvacuationStatus>) {
    forall k | k in rows :: KeyOf(rows[k]) == Some(k)
  }

  /** The row matches findByListIdAndStatusTrue(listId). */
  predicate IsActiveIn(e: EvacuationStatus, listId: Option<int>) {
    e.listId.Some? && e.listId == listId && e.status == Some(true)
  }

  /** The rows stored under the given keys that findByListIdAndStatusTrue(listId) returns. */
  function ActiveAmong(rows: map<StatusKey, EvacuationStatus>, keys: set<StatusKey>, listId: Option<int>): set<EvacuationStatus>
  {
    set k | k in keys && k in rows && IsActiveIn(rows[k], listId) :: rows[k]
  }

  /** All rows that findByListIdAndStatusTrue(listId) returns. */
  function Active(rows: map<StatusKey, EvacuationStatus>, listId: Option<int>): (r: set<EvacuationStatus>)
    ensures forall e | e in r :: e in rows.Values && IsActiveIn(e, listId)
  {
    ActiveAmong(rows, rows.Keys, listId)
  }

  /** In a well-keyed table a row is active for a list exactly when it is the
      row stored under its own key, that key is in the list and its status is true. */
  lemma ActiveIsStoredRow(rows: map<StatusKey, EvacuationStatus>, listId: Option<int>, e: EvacuationStatus)
    requires WellKeyed(rows)
    ensures e in Active(rows, listId) <==>
      KeyOf(e).Some? && KeyOf(e).value in rows && rows[KeyOf(e).value] == e && IsActiveIn(e, listId)
  {
    if e in Active(rows, listId) {
      var k :| k in rows && IsActiveIn(rows[k], listId) && rows[k] == e;
      assert KeyOf(rows[k]) == Some(k);
    }
  }

  /** The JPQL update: on the row whose two key columns both equal the arguments,
      status and entranceTime are overwritten; a null argument matches no row. */
  function StatusUpdated(rows: map<StatusKey, EvacuationStatus>, listId: Option<int>, listItemId: Option<int>,
                         status: Option<bool>, entranceTime: Option<int>): (r: map<StatusKey, EvacuationStatus>)
    ensures r.Keys == rows.Keys
    ensures forall k | k in rows && (Some(k.listId), Some(k.listItemId)) != (listId, listItemId) :: r[k] == rows[k]
    ensures forall k | k in rows && (Some(k.listId), Some(k.listItemId)) == (listId, listItemId) ::
      r[k] == rows[k].(status := status, entranceTime := entranceTime)
  {
    if listId.Some? && listItemId.Some? && StatusKey(listId.value, listItemId.value) in rows then
      var k := StatusKey(listId.value, listItemId.value);
      rows[k := rows[k].(status := status, entranceTime := entranceTime)]
    else rows
  }

  /** Every record has both key columns set. */
  predicate AllKeyed(es: seq<EvacuationStatus>) {
    forall i | 0 <= i < |es| :: KeyOf(es[i]).Some?
  }

  /** JPA saveAll with merge semantics: each record replaces the row under its key,
      in order, so a later record with the same key wins. */
  function Upsert(rows: map<StatusKey, EvacuationStatus>, es: seq<EvacuationStatus>): map<StatusKey, EvacuationStatus>
    requires AllKeyed(es)
  {
    if es == [] then rows
    else
      var e := es[|es| - 1];
      Upsert(rows, es[..|es| - 1])[KeyOf(e).value := e]
  }

  /** The last record of es stored under key k, if any. */
  function LastWithKey(es: seq<EvacuationStatus>, k: StatusKey): (r: Option<EvacuationStatus>)
    ensures r.Some? ==> r.value in es && KeyOf(r.value) == Some(k)
    ensures r.None? ==> forall i | 0 <= i < |es| :: KeyOf(es[i]) != Some(k)
  {
    if es == [] then None
    else if KeyOf(es[|es| - 1]) == Some(k) then Some(es[|es| - 1])
    else LastWithKey(es[..|es| - 1], k)
  }

  /** After saveAll, each key holds the last saved record with that key, and the
      keys no record mentions keep their old row or stay absent. */
  lemma {:induction false} UpsertAt(rows: map<StatusKey, EvacuationStatus>, es: seq<EvacuationStatus>, k: StatusKey)
    requires AllKeyed(es)
    ensures match LastWithKey(es, k)
      case Some(e) => k in Upsert(rows, es) && Upsert(rows, es)[k] == e
      case None => (k in Upsert(rows, es) <==> k in rows) && (k in rows ==> Upsert(rows, es)[k] == rows[k])
    decreases |es|
  {
    if es != [] {
      UpsertAt(rows, es[..|es| - 1], k);
    }
  }

  /** saveAll keeps every row under its own key. */
  lemma {:induction false} UpsertWellKeyed(rows: map<StatusKey, EvacuationStatus>, es: seq<EvacuationStatus>)
    requires WellKeyed(rows) && AllKeyed(es)
    ensures WellKeyed(Upsert(rows, es))
    decreases |es|
  {
    if es != [] {
      UpsertWellKeyed(rows, es[..|es| - 1]);
    }
  }


  /** The table. When the database is unreachable every call throws and changes nothing. */
  class StatusTable {
    var rows: map<StatusKey, EvacuationStatus>
    var online: bool

    predicate Valid()
      reads this
    {
      WellKeyed(rows)
    }

    constructor (online: bool)
      ensures Valid() && rows == map[] && this.online == online
    {
      rows := map[];
      this.online := online;
    }

    /** findByListIdAndStatusTrue: each row of the list with status true, once. */
    method FindByListIdAndStatusTrue(listId: Option<int>) returns (r: Result<seq<EvacuationStatus>>)
      requires Valid()
      ensures !online ==> r == Failure(StoreFailure)
      ensures online ==> r.Success?
      ensures r.Success? ==> forall e :: e in r.value <==> e in Active(rows, listId)
      ensures r.Success? ==> forall i, j | 0 <= i < j < |r.value| :: r.value[i] != r.value[j]
    {
      if !online {
        return Failure(StoreFailure);
      }
      var todo := rows.Keys;
      var found: seq<EvacuationStatus> := [];
      while todo != {}
        invariant todo <= rows.Keys
        invariant forall e :: e in found <==> e in ActiveAmong(rows, rows.Keys - todo, listId)
        invariant forall i | 0 <= i < |found| :: KeyOf(found[i]).Some? && KeyOf(found[i]).value !in todo
        invariant forall i, j | 0 <= i < j < |found| :: found[i] != found[j]
        decreases |todo|
      {
        ghost var some := NonEmptyHasElement(todo);
        var k :| k in todo;
        if IsActiveIn(rows[k], listId) {
          found := found + [rows[k]];
        }
        todo := todo - {k};
      }
      return Success(found);
    }

    /** existsById(new EvacuationStatusPK(listId, listItemId)). */
    method ExistsById(listId: Option<int>, listItemId: Option<int>) returns (r: Result<bool>)
      ensures !online ==> r == Failure(StoreFailure)
      ensures online ==> r == Success(listId.Some? && listItemId.Some? && StatusKey(listId.value, listItemId.value) in rows)
    {
      if !online {
        return Failure(StoreFailure);
      }
      return Success(listId.Some? && listItemId.Some? && StatusKey(listId.value, listItemId.value) in rows);
    }

    /** The JPQL update of status and entranceTime. */
    method UpdateStatus(listId: Option<int>, listItemId: Option<int>, status: Option<bool>, entranceTime: Option<int>)
      returns (r: Outcome)
      requires Valid()
      modifies this`rows
      ensures Valid()
      ensures !old(online) ==> r == Fail(StoreFailure) && rows == old(rows)
      ensures old(online) ==> r == Pass && rows == StatusUpdated(old(rows), listId, listItemId, status, entranceTime)
    {
      if !online {
        return Fail(StoreFailure);
      }
      rows := StatusUpdated(rows, listId, listItemId, status, entranceTime);
      return Pass;
    }

    /** save: the record replaces the row under its key; a record without a full key is refused. */
    method Save(e: EvacuationStatus) returns (r: Outcome)
      requires Valid()
      modifies this`rows
      ensures Valid()
      ensures old(online) && KeyOf(e).Some? ==> r == Pass && rows == old(rows)[KeyOf(e).value := e]
      ensures !(old(online) && KeyOf(e).Some?) ==> r.Fail? && rows == old(rows)
    {
      if !online {
        return Fail(StoreFailure);
      }
      if KeyOf(e).None? {
        return Fail(IllegalArgument("ids must be assigned before save"));
      }
      rows := rows[KeyOf(e).value := e];
      return Pass;
    }

    /** saveAll, in one transaction: all records merged in order, or none of them. */
    method SaveAll(es: seq<EvacuationStatus>) returns (r: Outcome)
      requires Valid()
      modifies this`rows
      ensures Valid()
      ensures old(online) && AllKeyed(es) ==> r == Pass && rows == Upsert(old(rows), es)
      ensures !(old(online) && AllKeyed(es)) ==> r.Fail? && rows == old(rows)
    {
      if !online {
        return Fail(StoreFailure);
      }
      var i := 0;
      while i < |es|
        invariant 0 <= i <= |es|
        invariant forall j | 0 <= j < i :: KeyOf(es[j]).Some?
      {
        if KeyOf(es[i]).None? {
          return Fail(IllegalArgument("ids must be assigned before save"));
        }
        i := i + 1;
      }
      ghost var before := rows;
      i := 0;
      while i < |es|
        invariant 0 <= i <= |es|
        invariant rows == Upsert(before, es[..i])
        invariant WellKeyed(rows)
      {
        assert es[..i + 1][..i] == es[..i];
        rows := rows[KeyOf(es[i]).value := es[i]];
        i := i + 1;
      }
      assert es[..|es|] == es;
      return Pass;
    }
  }
}
