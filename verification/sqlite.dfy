/** The native database engine as the component sees it: opening a file may
    succeed or fail, and every opened handle stays live until it is closed.
    Files, flags and SQL are not modelled; the outcome of an open is a parameter. */
module Sqlite {

  /** Result code of a successful open. */
  const SQLITE_OK: int := 0
  /** Result code of an open that ran out of memory for the connection object. */
  const SQLITE_NOMEM: int := 7
  /** Result code of an open that could not open the file. */
  const SQLITE_CANTOPEN: int := 14

  /** How a call to sqlite3_open_v2 turns out. A failed open still allocates
      a connection object, which must be closed, unless memory for that object
      itself could not be allocated. */
  datatype OpenOutcome = Opened | FailedWithHandle | FailedWithoutHandle

  /** A native handle; 0 is the null pointer. */
  type Handle = nat

  class Library {
    /** The handles opened and not yet closed. */
    ghost var live: set<Handle>
    /** The next handle value the engine gives out. */
    var next: Handle

    ghost predicate Valid()
      reads this
    {
      0 < next && forall h :: h in live ==> 0 < h < next
    }

    constructor ()
      ensures Valid() && live == {}
    {
      live := {};
      next := 1;
    }

    /** sqlite3_open_v2: reports SQLITE_OK exactly when the file was opened.
        Unless memory for the connection object ran out, a new, non-null
        handle becomes live, whether or not the open succeeded; otherwise the
        handle is null and nothing becomes live. */
    method OpenV2(path: string, outcome: OpenOutcome) returns (status: int, h: Handle)
      requires Valid()
      modifies this
      ensures Valid()
      ensures status == SQLITE_OK <==> outcome == Opened
      ensures outcome != FailedWithoutHandle ==> h != 0 && h !in old(live) && live == old(live) + {h}
      ensures outcome == FailedWithoutHandle ==> h == 0 && live == old(live)
    {
      if outcome == FailedWithoutHandle {
        h := 0;
        status := SQLITE_NOMEM;
      } else {
        h := next;
        next := next + 1;
        live := live + {h};
        status := if outcome == Opened then SQLITE_OK else SQLITE_CANTOPEN;
      }
    }

    /** sqlite3_close_v2: the handle is no longer live; closing null does
        nothing. */
    method CloseV2(h: Handle)
      requires Valid()
      modifies this
      ensures Valid() && next == old(next)
      ensures live == old(live) - {h}
      ensures h == 0 ==> live == old(live)
    {
      live := live - {h};
    }
  }
}
