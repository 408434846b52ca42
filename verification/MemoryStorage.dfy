/** In-memory retention (storage/memory_storage.go): the ring behind a lock,
    handing out deep copies. Each method is one locked call. */
module MemoryStorage {
  import opened Copies
  import Ring

  datatype Error = Cancelled | NotFound | InvalidId(id: string) | Unwritten | Unlisted | Unremoved | Unreadable

  datatype Result<T> = Ok(value: T) | Err(error: Error)

  /** The traces a storage of this size lists after these pushes, newest first. */
  function Listed(log: seq<View>, size: nat): seq<View> {
    Ring.NewestFirst(Ring.LastOf(log, size))
  }

  class MemoryStorage {
    const log: Ring.Ring

    constructor (size: int)
      ensures log.Valid() && log.log == [] && |log.items| == (if size < 0 then 0 else size)
      ensures fresh(log.Repr)
    {
      hide Ring.Ring.Valid, Ring.Ring.Apart, Ring.Matches;
      log := new Ring.Ring(size);
    }

    method Save(cancelled: bool, trace: View, now: int, at: nat -> int) returns (r: Result<()>)
      requires log.Valid()
      modifies log.Repr
      ensures log.Valid() && fresh(log.Repr - old(log.Repr))
      ensures r == if cancelled then Err(Cancelled) else Ok(())
      ensures log.log == old(log.log) + if cancelled then [] else [FreezeAt(trace, now, at)]
    {
      hide Freeze;
      if cancelled { return Err(Cancelled); }
      var evicted := log.Push(trace, now, seq(|trace.spans|, at));
      return Ok(());
    }

    /** A retained trace as a copy of its own. */
    method Load(cancelled: bool, id: string, now: int, at: nat -> int) returns (r: Result<Copy>)
      requires log.Valid()
      ensures cancelled ==> r == Err(Cancelled)
      ensures !cancelled && (id == "" || Ring.FirstWith(Listed(log.log, |log.items|), id).None?) ==> r == Err(NotFound)
      ensures !cancelled && id != "" && Ring.FirstWith(Listed(log.log, |log.items|), id).Some? ==>
        && r.Ok? && r.value.Valid() && fresh(r.value.Repr)
        && r.value.Value() == FreezeAt(Ring.FirstWith(Listed(log.log, |log.items|), id).value, now, at)
    {
      hide Freeze, Ring.NewestFirst, Ring.LastOf, Ring.FirstWith, Copy.Valid, Copy.Value, Ring.Matches;
      if cancelled { return Err(Cancelled); }
      var trace := log.Find(id);
      if trace == null { return Err(NotFound); }
      var copied := Clone(trace.Value(), now, at);
      return Ok(copied);
    }

    /** The retained traces, newest first, as copies of their own. */
    method List(cancelled: bool, limit: int, now: int, at: nat -> int) returns (r: Result<seq<Copy>>)
      requires log.Valid()
      ensures cancelled ==> r == Err(Cancelled)
      ensures !cancelled ==>
        var shown := Listed(log.log, |log.items|);
        && r.Ok? && |r.value| == (if 0 < limit < |shown| then limit else |shown|)
        && (forall i :: 0 <= i < |r.value| ==> r.value[i].Valid() && fresh(r.value[i].Repr))
        && (forall i :: 0 <= i < |r.value| ==> r.value[i].Value() == FreezeAt(shown[i], now, at))
        && (forall i, j :: 0 <= i < j < |r.value| ==> r.value[i].Repr !! r.value[j].Repr)
    {
      hide Freeze, FreezeAt, Ring.NewestFirst, Ring.LastOf, Ring.Shown, Copy.Valid, Copy.Value, Ring.Matches,
          Ring.Ring.Apart;
      if cancelled { return Err(Cancelled); }
      var retained := log.List();
      ghost var shown := Ring.Shown(retained);
      assert forall i :: 0 <= i < |retained| ==> retained[i].Valid() && retained[i].Value() == shown[i];
      if limit > 0 && |retained| > limit {
        retained := retained[..limit];
      }
      var copies := CloneAll(retained, now, at);
      return Ok(copies);
    }

    method Len(cancelled: bool) returns (r: Result<nat>)
      requires log.Valid()
      ensures r == if cancelled then Err(Cancelled) else Ok(|Ring.LastOf(log.log, |log.items|)|)
    {
      if cancelled { return Err(Cancelled); }
      var n := log.Len();
      return Ok(n);
    }

    method Reset(cancelled: bool) returns (r: Result<()>)
      requires log.Valid()
      modifies log.Repr
      ensures log.Valid() && fresh(log.Repr - old(log.Repr))
      ensures r == if cancelled then Err(Cancelled) else Ok(())
      ensures log.log == if cancelled then old(log.log) else []
    {
      if cancelled { return Err(Cancelled); }
      log.Reset();
      return Ok(());
    }

    /** What Load handed out is out of reach of later saves, whatever slot they
        rewrite. */
    method LoadThenSave(id: string, now: int, at: nat -> int, next: View) returns (r: Result<Copy>)
      requires log.Valid() && id != "" && Ring.FirstWith(Listed(log.log, |log.items|), id).Some?
      modifies log.Repr
      ensures log.Valid() && log.log == old(log.log) + [FreezeAt(next, now, at)]
      ensures r.Ok? && r.value.Valid()
      ensures r.value.Value() == FreezeAt(Ring.FirstWith(old(Listed(log.log, |log.items|)), id).value, now, at)
    {
      hide Freeze, Ring.NewestFirst, Ring.LastOf, Ring.FirstWith, Copy.Valid, Copy.Value, Ring.Matches;
      r := Load(false, id, now, at);
      var saved := Save(false, next, now, at);
    }
  }

  /** List's loop. */
  method CloneAll(slots: seq<Copy>, now: int, at: nat -> int) returns (copies: seq<Copy>)
    requires forall i :: 0 <= i < |slots| ==> slots[i].Valid()
    ensures |copies| == |slots|
    ensures forall i :: 0 <= i < |copies| ==> copies[i].Valid() && fresh(copies[i].Repr)
    ensures forall i :: 0 <= i < |copies| ==> copies[i].Value() == FreezeAt(slots[i].Value(), now, at)
    ensures forall i, j :: 0 <= i < j < |copies| ==> copies[i].Repr !! copies[j].Repr
  {
    hide Freeze, FreezeAt, Copy.Valid, Copy.Value;
    copies := [];
    while |copies| < |slots|
      invariant |copies| <= |slots|
      invariant forall i :: 0 <= i < |copies| ==> copies[i].Valid() && fresh(copies[i].Repr)
      invariant forall i :: 0 <= i < |copies| ==> copies[i].Value() == FreezeAt(slots[i].Value(), now, at)
      invariant forall i, j :: 0 <= i < j < |copies| ==> copies[i].Repr !! copies[j].Repr
    {
      var copied := Clone(slots[|copies|].Value(), now, at);
      copies := copies + [copied];
    }
  }
}
