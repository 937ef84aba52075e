/** A fixed-capacity slot table that hands out integer indices as handles.
    Each slot is permanently reserved (Unusable), claimable (Free) or holds a
    live payload (Occupied). An index is a valid handle exactly while its slot
    is Occupied. */
module Pools {

  datatype Slot<T> = Unusable | Free | Occupied(payload: T)

  /** The indices of the occupied slots: the pool's entries. */
  function OccupiedIndices<T>(s: seq<Slot<T>>): set<int>
  {
    set i | 0 <= i < |s| && s[i].Occupied?
  }

  function FreeIndices<T>(s: seq<Slot<T>>): set<int>
  {
    set i | 0 <= i < |s| && s[i].Free?
  }

  function UnusableIndices<T>(s: seq<Slot<T>>): set<int>
  {
    set i | 0 <= i < |s| && s[i].Unusable?
  }

  /** The slot sets of a table are those of its prefix plus its last slot. */
  lemma SplitLast<T>(s: seq<Slot<T>>)
    requires |s| > 0
    ensures var p, n := s[..|s| - 1], |s| - 1;
      && OccupiedIndices(s) == OccupiedIndices(p) + (if s[n].Occupied? then {n} else {})
      && FreeIndices(s) == FreeIndices(p) + (if s[n].Free? then {n} else {})
      && UnusableIndices(s) == UnusableIndices(p) + (if s[n].Unusable? then {n} else {})
  {
  }

  /** Every slot is in exactly one of the three states, so the three index
      sets together account for the whole capacity. */
  lemma {:induction false} Partition<T>(s: seq<Slot<T>>)
    ensures |OccupiedIndices(s)| + |FreeIndices(s)| + |UnusableIndices(s)| == |s|
  {
    if |s| > 0 {
      var p, n := s[..|s| - 1], |s| - 1;
      Partition(p);
      SplitLast(s);
      assert n !in OccupiedIndices(p) && n !in FreeIndices(p) && n !in UnusableIndices(p);
    }
  }

  /** The pool is exhausted (no claim can succeed) exactly when the occupied
      and the reserved slots fill the whole capacity. */
  lemma Exhaustion<T>(s: seq<Slot<T>>)
    ensures FreeIndices(s) == {} <==> |OccupiedIndices(s)| + |UnusableIndices(s)| == |s|
  {
    Partition(s);
  }

  /** Claiming a free slot adds exactly that index to the entries. */
  lemma OccupyFree<T>(s: seq<Slot<T>>, i: int, v: T)
    requires 0 <= i < |s| && s[i].Free?
    ensures OccupiedIndices(s[i := Occupied(v)]) == OccupiedIndices(s) + {i}
    ensures |OccupiedIndices(s[i := Occupied(v)])| == |OccupiedIndices(s)| + 1
    ensures UnusableIndices(s[i := Occupied(v)]) == UnusableIndices(s)
  {
  }

  /** Releasing an occupied slot removes exactly that index from the entries. */
  lemma ReleaseOccupied<T>(s: seq<Slot<T>>, i: int)
    requires 0 <= i < |s| && s[i].Occupied?
    ensures OccupiedIndices(s[i := Free]) == OccupiedIndices(s) - {i}
    ensures |OccupiedIndices(s[i := Free])| == |OccupiedIndices(s)| - 1
    ensures UnusableIndices(s[i := Free]) == UnusableIndices(s)
  {
  }

  /** Overwriting the payload of an occupied slot leaves the entries as they were. */
  lemma Overwrite<T>(s: seq<Slot<T>>, i: int, v: T)
    requires 0 <= i < |s| && s[i].Occupied?
    ensures OccupiedIndices(s[i := Occupied(v)]) == OccupiedIndices(s)
    ensures UnusableIndices(s[i := Occupied(v)]) == UnusableIndices(s)
  {
  }

  /** The pool: its storage never changes identity or size; the slots do. */
  class Pool<T> {
    const slots: array<Slot<T>>
    /** The payload a plain claim stores (the payload's default construction). */
    const empty: T

    constructor (capacity: nat, empty: T)
      ensures fresh(slots) && slots.Length == capacity && this.empty == empty
      ensures forall i :: 0 <= i < capacity ==> slots[i] == Free
    {
      slots := new Slot<T>[capacity](_ => Free);
      this.empty := empty;
    }

    /** valid(i): safe for any integer, true exactly for an occupied slot. */
    predicate IsValid(i: int)
      reads slots
      ensures IsValid(i) <==> i in Entries()
      ensures IsValid(i) ==> 0 <= i < slots.Length
    {
      0 <= i < slots.Length && slots[i].Occupied?
    }

    function Entries(): set<int>
      reads slots
    {
      OccupiedIndices(slots[..])
    }

    /** entries().size() */
    function Size(): (n: nat)
      reads slots
      ensures n == |Entries()|
      ensures n + |Reserved()| <= slots.Length
    {
      Partition(slots[..]);
      |Entries()|
    }

    ghost function Reserved(): set<int>
      reads slots
    {
      UnusableIndices(slots[..])
    }

    ghost predicate Exhausted()
      reads slots
    {
      FreeIndices(slots[..]) == {}
    }

    /** get(i): only defined for a valid index. */
    function Get(i: int): (v: T)
      requires IsValid(i)
      reads slots
      ensures slots[i] == Occupied(v)
    {
      slots[i].payload
    }

    /** claimUnusable(i): reserve slot i for good, so that i can stand for
        "no handle". */
    method ClaimUnusable(i: int)
      modifies slots
      ensures slots[..] == if 0 <= i < slots.Length then old(slots[..])[i := Unusable] else old(slots[..])
    {
      if 0 <= i < slots.Length {
        slots[i] := Unusable;
      }
    }

    /** findFreeIndex(): a free index, or -1 exactly when there is none; the
        pool is not touched. */
    method FindFreeIndex() returns (r: int)
      ensures r == -1 || (0 <= r < slots.Length && slots[r].Free?)
      ensures r == -1 <==> FreeIndices(slots[..]) == {}
    {
      var i := 0;
      while i < slots.Length
        invariant 0 <= i <= slots.Length
        invariant forall j :: 0 <= j < i ==> !slots[j].Free?
      {
        if slots[i].Free? {
          assert i in FreeIndices(slots[..]);
          return i;
        }
        i := i + 1;
      }
      assert forall j :: j !in FreeIndices(slots[..]);
      return -1;
    }

    /** claim(): occupy some free slot with the default payload, or fail with
        -1 when the occupied and reserved slots fill the capacity. */
    method Claim() returns (r: int)
      modifies slots
      ensures r == -1 <==> old(Exhausted())
      ensures r == -1 <==> old(|Entries()| + |Reserved()|) == slots.Length
      ensures r == -1 ==> slots[..] == old(slots[..])
      ensures r != -1 ==> 0 <= r < slots.Length && old(slots[r]).Free?
                          && slots[..] == old(slots[..])[r := Occupied(empty)]
      ensures r != -1 ==> Entries() == old(Entries()) + {r} && Size() == old(Size()) + 1
      ensures Reserved() == old(Reserved())
    {
      Exhaustion(slots[..]);
      r := FindFreeIndex();
      if r >= 0 {
        OccupyFree(slots[..], r, empty);
        slots[r] := Occupied(empty);
      }
    }

    /** claim(i): commit an index found earlier by FindFreeIndex. It fails with
        -1, changing nothing, when the slot is no longer free; `lostRace`
        stands for another claimer having committed i in between. */
    method ClaimAt(i: int, lostRace: bool) returns (r: int)
      modifies slots
      ensures r == if !lostRace && 0 <= i < slots.Length && old(slots[i]).Free? then i else -1
      ensures r == -1 ==> slots[..] == old(slots[..])
      ensures r != -1 ==> slots[..] == old(slots[..])[i := Occupied(empty)]
      ensures r != -1 ==> Entries() == old(Entries()) + {i} && Size() == old(Size()) + 1
      ensures Reserved() == old(Reserved())
    {
      if !lostRace && 0 <= i < slots.Length && slots[i].Free? {
        OccupyFree(slots[..], i, empty);
        slots[i] := Occupied(empty);
        r := i;
      } else {
        r := -1;
      }
    }

    /** Writing through the reference get(i) returns: replaces the payload. */
    method Set(i: int, v: T)
      requires IsValid(i)
      modifies slots
      ensures slots[..] == old(slots[..])[i := Occupied(v)]
      ensures Entries() == old(Entries()) && Reserved() == old(Reserved())
    {
      Overwrite(slots[..], i, v);
      slots[i] := Occupied(v);
    }

    /** remove(i): release an occupied slot back to Free. */
    method Remove(i: int)
      requires IsValid(i)
      modifies slots
      ensures slots[..] == old(slots[..])[i := Free]
      ensures Entries() == old(Entries()) - {i} && Size() == old(Size()) - 1
      ensures Reserved() == old(Reserved())
    {
      ReleaseOccupied(slots[..], i);
      slots[i] := Free;
    }
  }
}
