/** The pooled allocation of a trace (model/tracebox.go): four inline span
    slots, the four pointers that first back the span list, and the count of
    slots handed out. Reuse clears only what lies below that count. */
module TraceBox {
  import opened Lists

  const INLINE := 4

  datatype Slot = Zero | Holding(name: string)

  /** Where a span lives: in a slot of the box, or on the heap. */
  datatype Ptr = Nil | Inline(slot: nat) | Heap(serial: nat)

  class Box {
    const slots: array<Slot>
    const ptrs: array<Ptr>
    var used: nat
    var armed: bool

    // The span list of the trace in the box: a slice over ptrs until it grows
    // past them, over a heap array from then on.
    var grown: array?<Ptr>
    var len: nat
    var serial: nat

    /** An untouched box, as the pool allocates it. */
    constructor ()
      ensures Valid() && Clear() && fresh(slots) && fresh(ptrs)
      ensures used == 0 && !armed && grown == null && Contents() == []
    {
      slots := new Slot[INLINE](_ => Zero);
      ptrs := new Ptr[INLINE](_ => Nil);
      used, armed, grown, len, serial := 0, false, null, 0, 0;
    }

    function Backing(): array<Ptr>
      reads this
    {
      if grown == null then ptrs else grown
    }

    /** The span list. */
    function Contents(): (s: seq<Ptr>)
      requires len <= Backing().Length
      reads this, Backing()
      ensures |s| == len
    {
      Backing()[..len]
    }

    /** A slot past `used` was never written, and while the list is in the box
        it is no longer than `used`. */
    ghost predicate Valid()
      reads this, slots, ptrs, Backing()
    {
      && slots.Length == INLINE && ptrs.Length == INLINE
      && used <= INLINE
      && len <= Backing().Length
      && grown != ptrs
      && (grown == null ==> len <= used)
      && (forall i :: used <= i < INLINE ==> slots[i] == Zero && ptrs[i] == Nil)
      && (forall i :: 0 <= i < len ==> Backing()[i] != Nil)
    }

    /** Nothing of an earlier trace is left in the box. */
    ghost predicate Clear()
      reads slots, ptrs
    {
      (forall i :: 0 <= i < slots.Length ==> slots[i] == Zero) && (forall i :: 0 <= i < ptrs.Length ==> ptrs[i] == Nil)
    }

    /** Takes the next slot, or the heap once the slots are used up. */
    method Take(name: string) returns (p: Ptr)
      requires Valid()
      modifies this`used, this`serial, slots
      ensures Valid() && p != Nil && Contents() == old(Contents())
      ensures grown == null ==> len < used || used == INLINE
      ensures p.Inline? <==> old(used) < INLINE
      ensures p.Inline? ==> p.slot == old(used) && used == old(used) + 1 && slots[p.slot] == Holding(name)
      ensures p.Heap? ==> used == old(used)
      ensures forall i :: 0 <= i < slots.Length && p != Inline(i) ==> slots[i] == old(slots[i])
    {
      if used < INLINE {
        slots[used] := Holding(name);
        p := Inline(used);
        used := used + 1;
      } else {
        p := Heap(serial);
        serial := serial + 1;
      }
    }

    /** The end of appendSpan: a place for the span and its list entry. The
        span takes the next slot while there is one. */
    method Append(name: string) returns (p: Ptr)
      requires Valid()
      modifies this`used, this`serial, this`grown, this`len, slots, Backing()
      ensures Valid() && p != Nil && Contents() == old(Contents()) + [p]
      ensures grown == old(grown) || fresh(grown)
      ensures p.Inline? <==> old(used) < INLINE
      ensures p.Inline? ==> p.slot == old(used) && used == old(used) + 1 && slots[p.slot] == Holding(name)
      ensures p.Heap? ==> used == old(used)
      ensures forall i :: 0 <= i < slots.Length && p != Inline(i) ==> slots[i] == old(slots[i])
    {
      p := Take(name);
      if len == Backing().Length {
        Grow();
      }
      var to := Backing();
      to[len] := p;
      len := len + 1;
    }

    /** A slice that is full moves to a larger heap array. */
    method Grow()
      requires Valid() && len == Backing().Length
      modifies this`grown
      ensures Valid() && grown != null && fresh(grown) && len < grown.Length
      ensures Contents() == old(Contents())
    {
      var from := Backing();
      var more: nat :| more > 0;
      var to := new Ptr[len + more](_ => Nil);
      var i := 0;
      while i < len
        invariant 0 <= i <= len
        invariant forall k :: 0 <= k < i ==> to[k] == from[k]
      {
        to[i] := from[i];
        i := i + 1;
      }
      grown := to;
    }

    /** The debug filter's removal: a scan from the end, then the later entries
        one place to the left in place; the last place keeps a stale copy. */
    method Remove(p: Ptr)
      requires Valid() && p != Nil
      modifies this`len, Backing()
      ensures Valid() && Contents() == RemoveLast(old(Contents()), p)
    {
      ghost var list := Contents();
      var at := Backing();
      var i := len;
      while i > 0
        invariant 0 <= i <= len
        invariant p !in list[i..]
      {
        i := i - 1;
        if at[i] == p {
          FoundLast(list, p, i);
          ShiftLeft(i);
          return;
        }
        assert list[i..] == [list[i]] + list[i + 1..];
      }
    }

    lemma FoundLast(list: seq<Ptr>, p: Ptr, i: nat)
      requires i < |list| && list[i] == p && p !in list[i + 1..]
      ensures RemoveLast(list, p) == list[..i] + list[i + 1..]
    {
      var k := LastIndex(list, p);
      assert k < i ==> list[k + 1..][i - k - 1] == list[i];
    }

    /** The entries after place `i` of an array, up to `n`, one place to the
        left; the array past them stays, and the last of them stays twice. */
    static method MoveLeft(at: array<Ptr>, i: nat, n: nat)
      requires i < n <= at.Length
      modifies at
      ensures forall k :: 0 <= k < at.Length ==> at[k] == old(at[if i <= k < n - 1 then k + 1 else k])
    {
      var j := i;
      while j + 1 < n
        invariant i <= j < n
        invariant forall k :: 0 <= k < at.Length ==> at[k] == old(at[if i <= k < j then k + 1 else k])
      {
        at[j] := at[j + 1];
        j := j + 1;
      }
    }

    method ShiftLeft(i: nat)
      requires Valid() && i < len
      modifies this`len, Backing()
      ensures Valid() && Contents() == old(Contents())[..i] + old(Contents())[i + 1..]
    {
      var at := Backing();
      MoveLeft(at, i, len);
      len := len - 1;
    }

    /** Reuse: clears the slots and pointers below `used`, and that is all of
        them. The finalizer mark stays. */
    method Reset()
      requires Valid()
      modifies this`used, this`grown, this`len, slots, ptrs
      ensures Valid() && Clear() && used == 0 && Contents() == [] && armed == old(armed)
    {
      var i := 0;
      while i < used
        invariant 0 <= i <= used
        invariant forall k :: 0 <= k < i ==> slots[k] == Zero && ptrs[k] == Nil
        invariant forall k :: used <= k < INLINE ==> slots[k] == Zero && ptrs[k] == Nil
        modifies slots, ptrs
      {
        slots[i] := Zero;
        ptrs[i] := Nil;
        i := i + 1;
      }
      used := 0;
      grown, len := null, 0;
    }
  }
}
