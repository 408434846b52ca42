/** Retention on disk (storage/disk_storage.go): every save writes a document
    named after the trace's identifier and prunes the oldest names over the
    limit, then goes to the ring, which answers every listing. Restore fills
    the ring of a new process from the folder. */
module DiskStorage {
  import opened Order
  import opened Copies
  import opened Documents
  import opened FolderPrune
  import opened MemoryStorage
  import Ranking
  import Ring
  import Ulid

  /** The folder, which outlives the processes that write to it. */
  class Folder {
    var docs: map<string, Document>

    constructor ()
      ensures docs == map[]
    {
      docs := map[];
    }
  }

  datatype Loaded = FromRing(copied: Copy) | FromFolder(trace: View)

  class DiskStorage {
    const memory: MemoryStorage
    const folder: Folder
    const limit: int

    ghost predicate Valid()
      reads memory.log, memory.log.Repr
    {
      memory.log.Valid() && folder !in memory.log.Repr && |memory.log.items| == (if limit < 0 then 0 else limit)
    }

    constructor (folder: Folder, limit: int)
      ensures Valid() && this.folder == folder && this.limit == limit
      ensures memory.log.log == [] && fresh(memory.log.Repr)
    {
      memory := new MemoryStorage(limit);
      this.folder, this.limit := folder, limit;
    }

    /** The sorted document names. */
    method Names() returns (names: seq<string>)
      ensures names == Sorted(folder.docs.Keys)
    {
      names := [];
      var todo := folder.docs.Keys;
      LessIsStrict();
      while todo != {}
        invariant todo <= folder.docs.Keys && |names| + |todo| == |folder.docs|
        invariant forall x :: x in names <==> x in folder.docs.Keys - todo
        invariant forall i, j :: 0 <= i < j < |names| ==> names[i] != names[j]
        decreases todo
      {
        var name :| name in todo;
        assert name !in names && forall i :: 0 <= i < |names| ==> names[i] in names;
        names := names + [name];
        todo := todo - {name};
      }
      forall i, j | 0 <= i < j < |names| ensures Less(names[i], names[j]) || Less(names[j], names[i]) {
        LessTotal(names[i], names[j]);
      }
      Ranking.SortRanks(Less, names);
      names := Ranking.Sort(Less, names);
      SortedUnique(names, Sorted(folder.docs.Keys), folder.docs.Keys);
    }

    /** Removes the oldest documents over the limit, until a removal fails. */
    method Prune(fault: Fault) returns (r: Result<()>)
      modifies folder
      ensures r == if !Fails(old(folder.docs), limit, fault) then Ok(())
                   else if fault.NoListing? then Err(Unlisted) else Err(Unremoved)
      ensures folder.docs == Left(old(folder.docs), limit, fault)
    {
      hide Without, Left, Fails;
      if limit <= 0 || fault.NoListing? { NothingPruned(folder.docs, limit, fault); }
      else { RemovalsLeave(folder.docs, limit, fault); }
      if limit <= 0 { return Ok(()); }
      if fault.NoListing? { return Err(Unlisted); }
      var names := Names();
      r := RemoveAll(if |names| <= limit then [] else names[..|names| - limit], fault);
    }

    /** The loop of Prune. */
    method RemoveAll(names: seq<string>, fault: Fault) returns (r: Result<()>)
      requires !fault.NoListing?
      modifies folder
      ensures r == if fault.NoRemoval? && fault.after < |names| then Err(Unremoved) else Ok(())
      ensures folder.docs == Without(old(folder.docs), if r.Ok? then names else names[..fault.after])
    {
      hide Without;
      ghost var docs := folder.docs;
      WithoutNone(docs);
      var i := 0;
      while i < |names|
        invariant 0 <= i <= |names| && (fault.NoRemoval? ==> i <= fault.after)
        invariant folder.docs == Without(docs, names[..i])
      {
        if fault == NoRemoval(i) { return Err(Unremoved); }
        WithoutStep(docs, names, i);
        folder.docs := folder.docs - {names[i]};
        i := i + 1;
      }
      assert names[..i] == names;
      return Ok(());
    }

    /** Save: one inert copy is written and pruned after, then goes to the
        ring. Whatever fails, the ring is left alone; the document is left out
        only if the trace could not be written, since a failing prune and a
        context cancelled by `late` come after it. */
    method Save(cancelled: bool, trace: View, writable: bool, fault: Fault, late: bool,
                now: int, at: nat -> int, later: int, again: nat -> int)
      returns (r: Result<()>)
      requires Valid()
      modifies folder, memory.log.Repr
      ensures Valid() && fresh(memory.log.Repr - old(memory.log.Repr))
      ensures var stored := FreezeAt(trace, now, at);
        var unwritten := cancelled || !Ulid.Valid(trace.info.id) || !writable;
        var full := old(folder.docs)[Name(trace.info.id) := Readable(Decoded(stored))];
        && folder.docs == (if unwritten then old(folder.docs) else Left(full, limit, fault))
        && memory.log.log == old(memory.log.log) + (if r.Ok? then [FreezeAt(stored, later, again)] else [])
        && r == if cancelled then Err(Cancelled)
                else if !Ulid.Valid(trace.info.id) then Err(InvalidId(trace.info.id))
                else if !writable then Err(Unwritten)
                else if Fails(full, limit, fault) then Err(if fault.NoListing? then Unlisted else Unremoved)
                else if late then Err(Cancelled)
                else Ok(())
    {
      hide Freeze, Pruned, Decoded, Ring.Matches, Ulid.Valid, Fails, Left;
      if cancelled { return Err(Cancelled); }
      var stored := FreezeAt(trace, now, at);
      var ok := Ulid.ValidID(trace.info.id);
      if !ok { return Err(InvalidId(trace.info.id)); }
      if !writable { return Err(Unwritten); }
      CopyKeepsId(trace, now, at);
      folder.docs := folder.docs[Name(stored.info.id) := Readable(Decoded(stored))];
      r := Prune(fault);
      if r.Err? { return r; }
      r := memory.Save(late, stored, later, again);
    }

    method ReadInto(document: Document, now: View -> int, at: View -> nat -> int)
      requires Valid()
      modifies memory.log.Repr
      ensures Valid() && fresh(memory.log.Repr - old(memory.log.Repr))
      ensures memory.log.log == old(memory.log.log) + Read(document, now, at)
    {
      hide FreezeAt;
      if document.Readable? {
        var saved := memory.Save(false, document.trace, now(document.trace), at(document.trace));
      }
    }

    /** Restore: the ring takes the newest documents that decode, oldest first;
        the context may be cancelled before any of them. */
    method Restore(cancelAt: nat, now: View -> int, at: View -> nat -> int) returns (r: Result<()>)
      requires Valid()
      modifies memory.log.Repr
      ensures Valid() && fresh(memory.log.Repr - old(memory.log.Repr))
      ensures var names := Newest(folder.docs, limit);
              if cancelAt < |names|
              then r == Err(Cancelled)
                   && memory.log.log == old(memory.log.log) + Frozen(Traces(folder.docs, names[..cancelAt]), now, at)
              else r == Ok(()) && memory.log.log == old(memory.log.log) + Frozen(Traces(folder.docs, names), now, at)
    {
      hide Newest, Frozen, Traces, Ring.Matches, Ring.Ring.Apart, Ring.Shown;
      var names := Names();
      NewestOfListing(folder.docs, limit);
      if limit > 0 && |names| > limit {
        names := names[|names| - limit..];
      }
      r := ReadAll(names, cancelAt, now, at);
    }

    /** The loop of Restore. */
    method ReadAll(names: seq<string>, cancelAt: nat, now: View -> int, at: View -> nat -> int) returns (r: Result<()>)
      requires Valid() && forall i :: 0 <= i < |names| ==> names[i] in folder.docs
      modifies memory.log.Repr
      ensures Valid() && fresh(memory.log.Repr - old(memory.log.Repr)) && folder.docs == old(folder.docs)
      ensures if cancelAt < |names|
              then r == Err(Cancelled)
                   && memory.log.log == old(memory.log.log) + Frozen(Traces(folder.docs, names[..cancelAt]), now, at)
              else r == Ok(()) && memory.log.log == old(memory.log.log) + Frozen(Traces(folder.docs, names), now, at)
    {
      ghost var docs, log := folder.docs, memory.log.log;
      assert names[..|names|] == names;
      ReadNone(docs, names, now, at);
      hide Ring.Matches, Frozen, Traces, Read;
      var i := 0;
      while i < |names|
        invariant 0 <= i <= |names| && i <= cancelAt && folder.docs == docs
        invariant Valid() && fresh(memory.log.Repr - old(memory.log.Repr))
        invariant memory.log.log == log + Frozen(Traces(docs, names[..i]), now, at)
      {
        if i == cancelAt { return Err(Cancelled); }
        ReadStep(docs, names, i, now, at);
        ReadInto(folder.docs[names[i]], now, at);
        i := i + 1;
      }
      return Ok(());
    }

    /** Load: the ring first, then the document. */
    method Load(cancelled: bool, id: string, now: int, at: nat -> int) returns (r: Result<Loaded>)
      requires Valid()
      ensures cancelled ==> r == Err(Cancelled)
      ensures !cancelled && id != "" && Ring.FirstWith(Listed(memory.log.log, |memory.log.items|), id).Some? ==>
        && r.Ok? && r.value.FromRing? && r.value.copied.Valid() && fresh(r.value.copied.Repr)
        && r.value.copied.Value()
            == FreezeAt(Ring.FirstWith(Listed(memory.log.log, |memory.log.items|), id).value, now, at)
      ensures !cancelled && (id == "" || Ring.FirstWith(Listed(memory.log.log, |memory.log.items|), id).None?) ==>
        r == if !Ulid.Valid(id) then Err(InvalidId(id))
             else if Name(id) !in folder.docs then Err(NotFound)
             else if folder.docs[Name(id)].Garbled? then Err(Unreadable)
             else Ok(FromFolder(folder.docs[Name(id)].trace))
    {
      hide Freeze, FreezeAt, Listed, Ring.FirstWith, Ring.Matches, Ulid.Valid, Copy.Valid, Copy.Value;
      var held := memory.Load(cancelled, id, now, at);
      if held.Ok? { return Ok(FromRing(held.value)); }
      if held.error != NotFound { return Err(held.error); }
      var ok := Ulid.ValidID(id);
      if !ok { return Err(InvalidId(id)); }
      if Name(id) !in folder.docs { return Err(NotFound); }
      match folder.docs[Name(id)]
      case Garbled => return Err(Unreadable);
      case Readable(trace) => return Ok(FromFolder(trace));
    }

    /** List: the ring alone, newest first. */
    method List(cancelled: bool, limit: int, now: int, at: nat -> int) returns (r: Result<seq<Copy>>)
      requires Valid()
      ensures cancelled ==> r == Err(Cancelled)
      ensures !cancelled ==>
        var shown := Listed(memory.log.log, |memory.log.items|);
        && r.Ok? && |r.value| == (if 0 < limit < |shown| then limit else |shown|)
        && (forall i :: 0 <= i < |r.value| ==> r.value[i].Valid() && fresh(r.value[i].Repr))
        && (forall i :: 0 <= i < |r.value| ==> r.value[i].Value() == FreezeAt(shown[i], now, at))
    {
      hide Freeze, FreezeAt, Listed, Ring.Matches, Copy.Valid, Copy.Value, Ring.Ring.Apart;
      r := memory.List(cancelled, limit, now, at);
    }
  }
}
