/** The databases component: two slot pools, one of open connections and one
    of result sets, whose indices are the IDs handed to scripts. Slot 0 of
    each pool is reserved so that 0 never names a live resource, and every
    occupied connection slot owns exactly one live native handle. */
module Databases {
  import opened Pools
  import Sqlite

  datatype Option<T> = None | Some(value: T)

  /** The payload of a connection slot: the component that owns it and the
      native handle it holds (0 while the slot is only claimed). */
  datatype Connection = Connection(parent: DatabasesComponent?, handle: Sqlite.Handle)

  /** The payload of a result-set slot; its rows are not part of this model. */
  datatype ResultSet = EmptyResultSet

  class DatabasesComponent {
    const connections: Pool<Connection>
    const resultSets: Pool<ResultSet>
    /** The native engine this component opens and closes handles with. */
    const sqlite: Sqlite.Library

    /** A connection payload this component is responsible for: it points
        back to this component and holds a handle that is still live. */
    ghost predicate Owns(c: Connection)
      reads sqlite
    {
      c.parent == this && c.handle in sqlite.live
    }

    ghost predicate Valid()
      reads connections.slots, resultSets.slots, sqlite
    {
      && sqlite.Valid()
      && 0 < connections.slots.Length && connections.slots[0].Unusable?
      && 0 < resultSets.slots.Length && resultSets.slots[0].Unusable?
      && connections.Reserved() == {0} && resultSets.Reserved() == {0}
      && (forall i :: connections.IsValid(i) ==> Owns(connections.Get(i)))
      && (forall i, j :: connections.IsValid(i) && connections.IsValid(j) && i != j ==>
            connections.Get(i).handle != connections.Get(j).handle)
    }

    /** Both pools start empty, with slot 0 of each reserved. */
    constructor (connectionCapacity: nat, resultSetCapacity: nat, sqlite: Sqlite.Library)
      requires 0 < connectionCapacity && 0 < resultSetCapacity && sqlite.Valid()
      ensures Valid() && this.sqlite == sqlite
      ensures fresh(connections.slots) && connections.slots.Length == connectionCapacity
      ensures fresh(resultSets.slots) && resultSets.slots.Length == resultSetCapacity
      ensures connections.Entries() == {} && resultSets.Entries() == {}
      ensures connections.Reserved() == {0} && resultSets.Reserved() == {0}
    {
      connections := new Pool(connectionCapacity, Connection(null, 0));
      resultSets := new Pool(resultSetCapacity, EmptyResultSet);
      this.sqlite := sqlite;
      new;
      connections.ClaimUnusable(0);
      resultSets.ClaimUnusable(0);
      assert connections.Entries() == {} && resultSets.Entries() == {};
      assert connections.Reserved() == {0} && resultSets.Reserved() == {0};
    }

    /** createResultSet: claim a result-set slot; null (None) exactly when the
        pool has no free slot. */
    method CreateResultSet() returns (r: Option<nat>)
      requires Valid()
      modifies resultSets.slots
      ensures Valid()
      ensures r.None? <==> old(resultSets.Exhausted())
      ensures r.None? ==> resultSets.slots[..] == old(resultSets.slots[..])
      ensures r.Some? ==> 0 < r.value && resultSets.IsValid(r.value) && old(resultSets.slots[r.value]).Free?
                          && resultSets.slots[..] == old(resultSets.slots[..])[r.value := Occupied(EmptyResultSet)]
      ensures resultSets.Size() == old(resultSets.Size()) + (if r.Some? then 1 else 0)
    {
      r := None;
      assert resultSets.empty == EmptyResultSet;
      var index := resultSets.Claim();
      if index >= 0 {
        r := Some(index);
      }
    }

    /** open, as the source writes it: find a free index without claiming
        it, open the native handle, then commit the index; a failed commit
        closes the handle it opened. A failed native open returns null without
        closing the handle it may have allocated, so that handle stays live
        while no slot holds it. */
    method OpenAsWritten(path: string, nativeOutcome: Sqlite.OpenOutcome, lostRace: bool) returns (r: Option<nat>)
      requires Valid()
      modifies connections.slots, sqlite
      ensures Valid()
      ensures r.None? <==> old(connections.Exhausted()) || nativeOutcome != Sqlite.Opened || lostRace
      ensures r.None? ==> connections.slots[..] == old(connections.slots[..])
      ensures r.None? && !old(connections.Exhausted()) && nativeOutcome == Sqlite.FailedWithHandle ==>
                old(sqlite.live) < sqlite.live && |sqlite.live| == |old(sqlite.live)| + 1
      ensures r.None? && (old(connections.Exhausted()) || nativeOutcome != Sqlite.FailedWithHandle) ==>
                sqlite.live == old(sqlite.live)
      ensures r.Some? ==>
                var i := r.value;
                && 0 < i < connections.slots.Length && old(connections.slots[i].Free?) && connections.IsValid(i)
                && connections.Get(i).parent == this
                && connections.Get(i).handle !in old(sqlite.live)
                && sqlite.live == old(sqlite.live) + {connections.Get(i).handle}
                && connections.slots[..] == old(connections.slots[..])[i := Occupied(connections.Get(i))]
    {
      r := None;
      var index := connections.FindFreeIndex();
      if index >= 0 {
        var status, handle := sqlite.OpenV2(path, nativeOutcome);
        if status == Sqlite.SQLITE_OK {
          index := connections.ClaimAt(index, lostRace);
          if index < 0 {
            sqlite.CloseV2(handle);
            assert sqlite.live == old(sqlite.live);
            assert forall j :: connections.IsValid(j) ==>
              old(connections.IsValid(j)) && connections.Get(j) == old(connections.Get(j));
            r := None;
          } else {
            var c := connections.Get(index);
            connections.Set(index, c.(parent := this, handle := handle));
            assert forall j :: connections.IsValid(j) && j != index ==>
              old(connections.IsValid(j)) && connections.Get(j) == old(connections.Get(j));
            r := Some(index);
          }
        } else {
          assert forall j :: connections.IsValid(j) ==>
            old(connections.IsValid(j)) && connections.Get(j) == old(connections.Get(j));
        }
      }
    }

    /** open, corrected: as OpenAsWritten, except that a failed native open
        also closes the handle it allocated. Every null result then leaves
        both the pool and the set of live native handles as they were. On
        success the slot holds the new handle and a pointer back to this
        component. */
    method Open(path: string, nativeOutcome: Sqlite.OpenOutcome, lostRace: bool) returns (r: Option<nat>)
      requires Valid()
      modifies connections.slots, sqlite
      ensures Valid()
      ensures r.None? <==> old(connections.Exhausted()) || nativeOutcome != Sqlite.Opened || lostRace
      ensures r.None? ==> connections.slots[..] == old(connections.slots[..]) && sqlite.live == old(sqlite.live)
      ensures r.Some? ==>
                var i := r.value;
                && 0 < i < connections.slots.Length && old(connections.slots[i].Free?) && connections.IsValid(i)
                && connections.Get(i).parent == this
                && connections.Get(i).handle !in old(sqlite.live)
                && sqlite.live == old(sqlite.live) + {connections.Get(i).handle}
                && connections.slots[..] == old(connections.slots[..])[i := Occupied(connections.Get(i))]
      ensures connections.Size() == old(connections.Size()) + (if r.Some? then 1 else 0)
    {
      r := None;
      var index := connections.FindFreeIndex();
      if index >= 0 {
        var status, handle := sqlite.OpenV2(path, nativeOutcome);
        if status == Sqlite.SQLITE_OK {
          index := connections.ClaimAt(index, lostRace);
          if index < 0 {
            sqlite.CloseV2(handle);
            assert sqlite.live == old(sqlite.live);
            assert forall j :: connections.IsValid(j) ==>
              old(connections.IsValid(j)) && connections.Get(j) == old(connections.Get(j));
            r := None;
          } else {
            var c := connections.Get(index);
            connections.Set(index, c.(parent := this, handle := handle));
            assert forall j :: connections.IsValid(j) && j != index ==>
              old(connections.IsValid(j)) && connections.Get(j) == old(connections.Get(j));
            r := Some(index);
          }
        } else {
          sqlite.CloseV2(handle);
          assert sqlite.live == old(sqlite.live);
          assert forall j :: connections.IsValid(j) ==>
            old(connections.IsValid(j)) && connections.Get(j) == old(connections.Get(j));
        }
      }
    }

    /** close: true exactly when the ID names an open connection; then its
        native handle is closed and its slot released, otherwise nothing
        changes. */
    method Close(id: int) returns (ok: bool)
      requires Valid()
      modifies connections.slots, sqlite
      ensures Valid()
      ensures ok == old(connections.IsValid(id))
      ensures !ok ==> unchanged(connections.slots) && unchanged(sqlite)
      ensures ok ==> connections.slots[..] == old(connections.slots[..])[id := Free]
                     && sqlite.live == old(sqlite.live) - {old(connections.slots[id].payload.handle)}
                     && old(connections.slots[id].payload.handle) !in sqlite.live
      ensures !connections.IsValid(id)
      ensures connections.Size() == old(connections.Size()) - (if ok then 1 else 0)
    {
      ok := connections.IsValid(id);
      if ok {
        var c := connections.Get(id);
        sqlite.CloseV2(c.handle);
        connections.Remove(id);
        assert forall j :: connections.IsValid(j) ==>
          old(connections.IsValid(j)) && j != id && connections.Get(j) == old(connections.Get(j));
      }
    }

    /** freeResultSet: true exactly when the ID names a live result set, which
        is then released; otherwise nothing changes. */
    method FreeResultSet(id: int) returns (ok: bool)
      requires Valid()
      modifies resultSets.slots
      ensures Valid()
      ensures ok == old(resultSets.IsValid(id))
      ensures !ok ==> unchanged(resultSets.slots)
      ensures ok ==> resultSets.slots[..] == old(resultSets.slots[..])[id := Free]
      ensures !resultSets.IsValid(id)
      ensures resultSets.Size() == old(resultSets.Size()) - (if ok then 1 else 0)
    {
      ok := resultSets.IsValid(id);
      if ok {
        resultSets.Remove(id);
      }
    }

    /** getDatabaseConnectionCount: the number of open connections, which
        never reaches the capacity because slot 0 is reserved. */
    function GetDatabaseConnectionCount(): (n: nat)
      requires Valid()
      reads connections.slots, resultSets.slots, sqlite
      ensures n == |connections.Entries()|
      ensures n + |connections.Reserved()| <= connections.slots.Length
      ensures n < connections.slots.Length
    {
      Partition(connections.slots[..]);
      assert 0 in connections.Reserved();
      connections.Size()
    }

    /** isDatabaseConnectionIDValid: true exactly for the ID of an open
        connection; never for 0 or a negative ID. */
    function IsDatabaseConnectionIDValid(id: int): (b: bool)
      requires Valid()
      reads connections.slots, resultSets.slots, sqlite
      ensures b <==> id in connections.Entries()
      ensures b ==> 0 < id < connections.slots.Length
    {
      connections.IsValid(id)
    }

    /** getDatabaseConnectionByID: defined for valid IDs only; the connection
        belongs to this component and holds a live, non-null native handle. */
    function GetDatabaseConnectionByID(id: int): (c: Connection)
      requires Valid() && IsDatabaseConnectionIDValid(id)
      reads connections.slots, resultSets.slots, sqlite
      ensures connections.slots[id] == Occupied(c)
      ensures c.parent == this && c.handle != 0 && c.handle in sqlite.live
    {
      connections.Get(id)
    }

    /** getDatabaseResultSetCount: the number of live result sets, below the
        capacity because slot 0 is reserved. */
    function GetDatabaseResultSetCount(): (n: nat)
      requires Valid()
      reads connections.slots, resultSets.slots, sqlite
      ensures n == |resultSets.Entries()|
      ensures n + |resultSets.Reserved()| <= resultSets.slots.Length
      ensures n < resultSets.slots.Length
    {
      Partition(resultSets.slots[..]);
      assert 0 in resultSets.Reserved();
      resultSets.Size()
    }

    /** isDatabaseResultSetIDValid: true exactly for the ID of a live result
        set; never for 0 or a negative ID. */
    function IsDatabaseResultSetIDValid(id: int): (b: bool)
      requires Valid()
      reads connections.slots, resultSets.slots, sqlite
      ensures b <==> id in resultSets.Entries()
      ensures b ==> 0 < id < resultSets.slots.Length
    {
      resultSets.IsValid(id)
    }

    /** getDatabaseResultSetByID: defined for valid IDs only. */
    function GetDatabaseResultSetByID(id: int): ResultSet
      requires Valid() && IsDatabaseResultSetIDValid(id)
      reads connections.slots, resultSets.slots, sqlite
    {
      resultSets.Get(id)
    }
  }

  /** The source's open on a fresh component with two connection slots,
      where the native open fails after allocating a handle: the result is
      null and no connection is open, yet one native handle is live. */
  method LeakScenario() returns (r: Option<nat>, count: nat, ghost live: set<Sqlite.Handle>)
    ensures r.None? && count == 0 && |live| == 1
  {
    var engine := new Sqlite.Library();
    var component := new DatabasesComponent(2, 2, engine);
    Exhaustion(component.connections.slots[..]);
    r := component.OpenAsWritten("a.db", Sqlite.FailedWithHandle, false);
    count := component.GetDatabaseConnectionCount();
    live := engine.live;
  }

  /** The corrected open in the same situation leaves no handle live. */
  method NoLeakScenario() returns (r: Option<nat>, count: nat, ghost live: set<Sqlite.Handle>)
    ensures r.None? && count == 0 && live == {}
  {
    var engine := new Sqlite.Library();
    var component := new DatabasesComponent(2, 2, engine);
    Exhaustion(component.connections.slots[..]);
    r := component.Open("a.db", Sqlite.FailedWithHandle, false);
    count := component.GetDatabaseConnectionCount();
    live := engine.live;
  }
}
