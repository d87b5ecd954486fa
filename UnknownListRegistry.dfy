/**
 * UnknownListRegistry: holds the id of the "unknown persons" face list once it
 * has been resolved at run time. The id starts out as -1 (not known); only a
 * positive id can be stored.
 */
module UnknownListRegistry {
  import opened Wrappers
  import Decimal

  /** A Java long. */
  type Int64 = x: int | Decimal.LongMin <= x <= Decimal.LongMax

  /** The value before any id is set. */
  const Unset: Int64 := -1

  const NotInitializedMessage: string := "Unknown list id is not initialized yet"
  const NotPositiveMessage: string := "Unknown list id must be positive"

  class UnknownListRegistry {
    /** The current id; -1 until set. */
    var unknownListId: Int64

    /** The stored value is the initial one or an id that was set. */
    predicate Valid()
      reads this
    {
      unknownListId == Unset || unknownListId > 0
    }

    constructor ()
      ensures unknownListId == Unset
      ensures Valid() && !IsInitialized()
    {
      unknownListId := Unset;
    }

    /** isInitialized: the stored value is positive. */
    function IsInitialized(): (b: bool)
      reads this
      ensures b <==> unknownListId > 0
    {
      unknownListId > 0
    }

    /** get: the id, or IllegalStateException while it is not positive. */
    method Get() returns (r: Result<Int64>)
      ensures r.Success? <==> IsInitialized()
      ensures r.Success? ==> r.value == unknownListId && r.value > 0
      ensures r.Failure? ==> r.error == IllegalState(NotInitializedMessage)
    {
      var v := unknownListId;
      if v <= 0 {
        return Failure(IllegalState(NotInitializedMessage));
      }
      return Success(v);
    }

    /** set: stores a positive id, replacing any earlier one; a non-positive id is
        refused with IllegalArgumentException and nothing changes. */
    method Set(id: Int64) returns (r: Result<()>)
      modifies this
      ensures id <= 0 ==> r == Failure(IllegalArgument(NotPositiveMessage)) && unknownListId == old(unknownListId)
      ensures id > 0 ==> r == Success(()) && unknownListId == id
      ensures old(Valid()) ==> Valid()
    {
      if id <= 0 {
        return Failure(IllegalArgument(NotPositiveMessage));
      }
      unknownListId := id;
      return Success(());
    }
  }

  /** A fresh registry is not initialised and get throws IllegalStateException. */
  method FreshRegistryRefusesGet() returns (initialized: bool, got: Result<Int64>)
    ensures !initialized
    ensures got == Failure(IllegalState(NotInitializedMessage))
  {
    var registry := new UnknownListRegistry();
    initialized := registry.IsInitialized();
    got := registry.Get();
  }

  /** After set(id) with a positive id the registry is initialised and get returns id. */
  method SetThenGet(id: Int64) returns (initialized: bool, got: Result<Int64>)
    requires id > 0
    ensures initialized && got == Success(id)
  {
    var registry := new UnknownListRegistry();
    var _ := registry.Set(id);
    initialized := registry.IsInitialized();
    got := registry.Get();
  }

  /** Non-positive ids are refused and leave the registry uninitialised. */
  method NonPositiveIdsRefused(id: Int64) returns (set1: Result<()>, initialized: bool)
    requires id <= 0
    ensures set1 == Failure(IllegalArgument(NotPositiveMessage))
    ensures !initialized
  {
    var registry := new UnknownListRegistry();
    set1 := registry.Set(id);
    initialized := registry.IsInitialized();
  }

  /** A later positive set replaces the earlier id, and a refused set keeps it. */
  method LaterSetWins(first: Int64, second: Int64, bad: Int64) returns (got: Result<Int64>)
    requires first > 0 && second > 0 && bad <= 0
    ensures got == Success(second)
  {
    var registry := new UnknownListRegistry();
    var _ := registry.Set(first);
    var _ := registry.Set(second);
    var _ := registry.Set(bad);
    got := registry.Get();
  }
}
