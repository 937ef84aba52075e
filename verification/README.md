# Databases component: slot pools for connections and result sets

This project models the databases component of the open.mp server
(`Server/Components/Databases/databases_component.cpp`). The component owns two slot
pools: one holds database connections and one holds query result sets. It hands the
pool indices out to scripts as IDs.

- The constructor reserves slot 0 of each pool, so ID 0 never names a live resource.
- `open` is a two-phase claim. It finds a free index without claiming it. It then opens
  the native SQLite handle and commits the index. If the commit fails, it closes the
  handle it has just opened. If the commit succeeds, it stores the handle and a pointer
  back to the component in the slot.
- `close` and `freeResultSet` check the ID first. They change state only for a valid ID.
  `close` closes the native handle before it releases the slot.
- The count, validity and get-by-ID accessors read the pools and change nothing.

The model has three modules:

- `Pools` (`pool.dfy`) is the slot pool. It is a class over an `array` of slots. Each slot
  is `Unusable`, `Free` or `Occupied(payload)`. The module also holds lemmas about the
  sets of occupied, free and reserved indices: together they partition the capacity, and
  the pool is exhausted exactly when the occupied and reserved slots fill it.
- `Sqlite` (`sqlite.dfy`) stands in for the native engine. Its ghost set `live` holds
  the handles that are open. The outcome of an open is a parameter: the file opens; the
  open fails but still allocates a handle; or the open fails without a handle because
  memory for the connection object ran out.
- `Databases` (`databases.dfy`) is the component, a class with the two pools and the
  engine. Its invariant `Valid()` says four things:
  - slot 0 of each pool is reserved, and no other slot is;
  - every occupied connection slot points back to this component;
  - every occupied connection slot holds a live native handle;
  - no two occupied connection slots hold the same handle.

  Every operation keeps this invariant.

The pointers that the source returns (a connection or result set, or null) are modelled
as `Option<nat>`: `Some(i)` is the object in slot `i`, and `None` is null. A connection
passed to `close` is modelled by its ID (`getID()`), which may be any integer.

Three points about the code that the model follows:

- `claimUnusable(0)` in the constructor reserves index 0 of each pool.
- `open` changes the pool only after the native open succeeds. It finds a free index
  without claiming it, so a failed native open needs no pool cleanup.
- Failures return null or `false` with no reason. The `ensures` clauses say exactly which
  inputs lead to each outcome.

A failed `sqlite3_open_v2` usually still allocates a connection handle, which the caller
must close. The source does not close it (line 49 has no `else` branch), so that handle
leaks. `OpenAsWritten` models the code as written and states the leak. `Open` is the
corrected version: it also closes the handle after a failed native open, and the rest of
the model uses it. On every failure path of `Open`, neither the pool nor the set of live
native handles changes, so no slot and no handle leaks.

## Model

| member | source | states |
|---|---|---|
| `Databases.DatabasesComponent.constructor` | Server/Components/Databases/databases_component.cpp:5-8 | both pools start empty; slot 0 of each is reserved, so the set of reserved indices is exactly {0}; the component invariant holds |
| `Databases.DatabasesComponent.CreateResultSet` | Server/Components/Databases/databases_component.cpp:12-20 | returns null exactly when the result-set pool is exhausted, and then nothing changes; otherwise it returns a nonzero index that is now valid, only that slot changed (Free to Occupied), and the count grew by one |
| `Databases.DatabasesComponent.OpenAsWritten` | Server/Components/Databases/databases_component.cpp:42-63 | the code as written: returns null exactly when no index is free, the native open fails or the commit loses the race, and then the pool is unchanged; a handle opened before a failed commit is closed, but when the native open fails after allocating a handle, one new handle stays live that no slot holds; on success the returned index is nonzero, was free and is now valid, and its slot holds the new live handle and a pointer to this component |
| `Databases.DatabasesComponent.Open` | Server/Components/Databases/databases_component.cpp:42-63 | corrected open: returns null exactly when no index is free, the native open fails or the commit loses the race; on every null path the pool and the set of live native handles are unchanged (a handle allocated by a failed native open or opened before a failed commit has been closed); on success the returned index is nonzero, was free and is now valid, its slot holds a newly live handle and a pointer to this component, no other slot changed, and the count grew by one |
| `Databases.DatabasesComponent.Close` | Server/Components/Databases/databases_component.cpp:68-76 | returns exactly whether the ID was valid; an invalid ID changes neither the pool nor the engine; a valid ID has its native handle closed (removed from the live set) and its slot freed, and the count drops by one; afterwards the ID is invalid, so a second close returns false |
| `Databases.DatabasesComponent.FreeResultSet` | Server/Components/Databases/databases_component.cpp:81-88 | returns exactly whether the ID was valid; only then is its slot freed, with the count down by one; an invalid ID changes nothing, and afterwards the ID is invalid, so a second call returns false |
| `Databases.DatabasesComponent.GetDatabaseConnectionCount` | Server/Components/Databases/databases_component.cpp:92-94 | the number of occupied connection slots; with the reserved slots it fits in the capacity, so it stays strictly below it |
| `Databases.DatabasesComponent.IsDatabaseConnectionIDValid` | Server/Components/Databases/databases_component.cpp:99-101 | true exactly for an occupied connection index; never for 0, a negative or an out-of-range ID |
| `Databases.DatabasesComponent.GetDatabaseConnectionByID` | Server/Components/Databases/databases_component.cpp:106-108 | only defined for a valid ID; returns the payload of that slot, which points back to this component and holds a live, non-null native handle |
| `Databases.DatabasesComponent.GetDatabaseResultSetCount` | Server/Components/Databases/databases_component.cpp:112-114 | the number of occupied result-set slots, strictly below the capacity because slot 0 is reserved |
| `Databases.DatabasesComponent.IsDatabaseResultSetIDValid` | Server/Components/Databases/databases_component.cpp:119-121 | true exactly for an occupied result-set index; never for 0, a negative or an out-of-range ID |
| `Databases.DatabasesComponent.GetDatabaseResultSetByID` | Server/Components/Databases/databases_component.cpp:126-128 | only defined for a valid result-set ID (its one contract clause); a result set is one opaque value here, so there is nothing further to promise about it |
| `Pools.Pool.IsValid` | Server/Components/Databases/databases_component.cpp:70 | `valid(i)`: safe for any integer; true exactly when `i` is among the entries (an occupied slot), and then `i` is in range |
| `Pools.Pool.Get` | Server/Components/Databases/databases_component.cpp:56 | `get(i)`: only defined for a valid index; returns the payload that slot `i` holds |
| `Pools.Pool.Size` | Server/Components/Databases/databases_component.cpp:93 | `entries().size()`: the number of entries, which together with the reserved slots fits in the capacity |
| `Pools.Pool.ClaimUnusable` | Server/Components/Databases/databases_component.cpp:6-7 | the given slot becomes Unusable and no other slot changes |
| `Pools.Pool.FindFreeIndex` | Server/Components/Databases/databases_component.cpp:44 | returns a free index, or -1 exactly when no slot is free; the pool is not modified |
| `Pools.Pool.Claim` | Server/Components/Databases/databases_component.cpp:14 | fails with -1 exactly when the pool is exhausted, that is, when occupied plus reserved slots equal the capacity, and then changes nothing; otherwise exactly one formerly free slot becomes occupied with the default payload and the entries gain that index |
| `Pools.Pool.ClaimAt` | Server/Components/Databases/databases_component.cpp:50-51 | commits the given index only if it is in range, still free and the race was not lost; otherwise returns -1 and changes nothing |
| `Pools.Pool.Set` | Server/Components/Databases/databases_component.cpp:56-58 | a write through the reference returned by get: only that slot's payload changes, and the entries and reserved slots stay the same |
| `Pools.Pool.Remove` | Server/Components/Databases/databases_component.cpp:73 | an occupied slot becomes Free; the entries lose exactly that index and the reserved slots are untouched |
| `Pools.Partition` | Server/Components/Databases/databases_component.cpp:93 | occupied, free and reserved indices together account for exactly the capacity |
| `Pools.Exhaustion` | Server/Components/Databases/databases_component.cpp:14-16 | no slot is free exactly when occupied plus reserved slots equal the capacity, which is when a claim returns a negative index |
| `Pools.OccupyFree` | Server/Components/Databases/databases_component.cpp:50 | occupying a free slot adds exactly its index to the entries (size plus one) and leaves the reserved slots alone |
| `Pools.ReleaseOccupied` | Server/Components/Databases/databases_component.cpp:85 | freeing an occupied slot removes exactly its index from the entries (size minus one) and leaves the reserved slots alone |
| `Pools.Overwrite` | Server/Components/Databases/databases_component.cpp:57-58 | replacing the payload of an occupied slot changes neither the entries nor the reserved slots |
| `Sqlite.Library.OpenV2` | Server/Components/Databases/databases_component.cpp:49 | reports SQLITE_OK exactly when the file was opened; unless memory for the connection object ran out, one new, non-null handle becomes live whether or not the open succeeded; otherwise the handle is null and nothing becomes live |
| `Databases.LeakScenario` | Server/Components/Databases/databases_component.cpp:49 | on a fresh component with two connection slots, the code as written, after a native open that fails having allocated a handle, returns null with no connection open and one native handle live |
| `Databases.NoLeakScenario` | Server/Components/Databases/databases_component.cpp:49 | the corrected open in the same situation returns null with no connection open and no native handle live |
| `Sqlite.Library.CloseV2` | Server/Components/Databases/databases_component.cpp:52 | the handle is no longer live and no other handle is affected |

## Left out

- SQLite itself is not modelled: the file at `path`, the open flags, and SQL. Only the outcome of an open (opened, failed with a handle, failed without one) and the set of live handles are modelled.
- `DatabaseConnection::close()` (line 72) is not part of this model. It is modelled as closing the native handle held in the slot.
- The contents of connections and result sets (queries, rows, fields) are not part of this model. A result set is one opaque value.
- The pool class and its header are not part of this model. The pool is modelled by the contract the component relies on. Its search order is not promised, and its capacities are constructor parameters because the pool sizes are not part of this model.
- Concurrency is not modelled. A `claim(index)` that loses a race to another claimer is the `lostRace` flag of `Pools.Pool.ClaimAt`. The other claimer's own effect on the pool is not modelled.
- The global instance `databaseComponent` and `COMPONENT_ENTRY_POINT` (lines 3 and 130-132) are plugin-loading glue.
- `componentName`, `componentType` and `onLoad` (lines 22-37) are left out. They return constants or do nothing.

## Findings

| source | as written | input that shows it | evidently intended | confidence | as-written member | corrected member |
|---|---|---|---|---|---|---|
| Server/Components/Databases/databases_component.cpp:49 | when `sqlite3_open_v2` does not return SQLITE_OK, `open` returns null without calling `sqlite3_close_v2` on the handle it wrote | a free connection slot and a path that cannot be opened (the open fails but allocates a handle) | close the handle on that path too, as the failed-commit path already does (line 52) | not executed; follows from the documented behaviour of `sqlite3_open_v2` | `Databases.DatabasesComponent.OpenAsWritten`, `Databases.LeakScenario` | `Databases.DatabasesComponent.Open`, `Databases.NoLeakScenario` |
