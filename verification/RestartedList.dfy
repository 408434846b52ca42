/** A restart end to end (storage/disk_storage.go): one process saves, the next
    opens the same folder, restores from it and lists. */
module RestartedList {
  import opened Copies
  import opened Documents
  import opened DiskStorage
  import opened FolderPrune
  import opened MemoryStorage
  import opened Restarts
  import Ring
  import Ulid

  lemma IdsSnoc(s: seq<View>, v: View)
    ensures Ids(s + [v]) == Ids(s) + [v.info.id]
  {
  }

  lemma IdsNext(traces: seq<View>, i: nat)
    requires i < |traces|
    ensures Ids(traces[..i + 1]) == Ids(traces[..i]) + [traces[i].info.id]
  {
    assert traces[..i + 1] == traces[..i] + [traces[i]];
    IdsSnoc(traces[..i], traces[i]);
  }

  lemma NothingSaved(traces: seq<View>, limit: int)
    ensures Ids(traces[..0]) == [] == Ids([]) && AfterSaves([], limit) == map[]
  {
  }

  lemma WrittenNext(stored: seq<View>, v: View, limit: int, docs: map<string, Document>)
    requires docs == AfterSaves(stored, limit)
    ensures Left(docs[Name(v.info.id) := Readable(Decoded(v))], limit, NoFault) == AfterSaves(stored + [v], limit)
  {
    assert (stored + [v])[..|stored|] == stored;
  }

  method SaveOne(storage: DiskStorage, trace: View, now: int, at: nat -> int, ghost stored: seq<View>)
    returns (ghost v: View)
    requires storage.Valid() && Ulid.Valid(trace.info.id)
    requires storage.folder.docs == AfterSaves(stored, storage.limit)
    modifies storage.folder, storage.memory.log.Repr
    ensures storage.Valid() && fresh(storage.memory.log.Repr - old(storage.memory.log.Repr))
    ensures v.info.id == trace.info.id && storage.folder.docs == AfterSaves(stored + [v], storage.limit)
    ensures Ids(storage.memory.log.log) == Ids(old(storage.memory.log.log)) + [trace.info.id]
  {
    v := FreezeAt(trace, now, at);
    CopyKeepsId(trace, now, at);
    CopyKeepsId(v, now, at);
    WrittenNext(stored, v, storage.limit, storage.folder.docs);
    hide FreezeAt, Ids, AfterSaves, Left, Ring.Matches, Ulid.Valid;
    ghost var log := storage.memory.log.log;
    var r := storage.Save(false, trace, true, NoFault, false, now, at, now, at);
    IdsSnoc(log, FreezeAt(v, now, at));
  }

  /** The first process: saves into an empty folder that all succeed. */
  method SaveAll(storage: DiskStorage, traces: seq<View>, now: nat -> int, at: nat -> nat -> int)
    returns (ghost stored: seq<View>)
    requires storage.Valid() && storage.folder.docs == map[] && storage.memory.log.log == [] && InOrder(traces)
    modifies storage.folder, storage.memory.log.Repr
    ensures storage.Valid() && Ids(stored) == Ids(traces) == Ids(storage.memory.log.log)
    ensures storage.folder.docs == AfterSaves(stored, storage.limit)
  {
    stored := [];
    assert forall k :: 0 <= k < |traces| ==> Ulid.Valid(traces[k].info.id);
    NothingSaved(traces, storage.limit);
    hide Ids, AfterSaves, InOrder, Ulid.Valid, Ring.Matches, Ring.Ring.Apart, Ring.Shown;
    var i := 0;
    while i < |traces|
      invariant 0 <= i <= |traces|
      invariant storage.Valid() && fresh(storage.memory.log.Repr - old(storage.memory.log.Repr))
      invariant storage.folder.docs == AfterSaves(stored, storage.limit)
      invariant Ids(stored) == Ids(traces[..i]) == Ids(storage.memory.log.log)
    {
      ghost var v := SaveOne(storage, traces[i], now(i), at(i), stored);
      IdsNext(traces, i);
      IdsSnoc(stored, v);
      stored := stored + [v];
      i := i + 1;
    }
    assert traces[..i] == traces;
  }

  method CopyIds(copies: seq<Copy>) returns (ids: seq<string>)
    requires forall k :: 0 <= k < |copies| ==> copies[k].Valid()
    ensures |ids| == |copies| && forall k :: 0 <= k < |ids| ==> ids[k] == copies[k].Value().info.id
  {
    hide Copy.Valid, Copy.Value;
    ids := [];
    while |ids| < |copies|
      invariant |ids| <= |copies|
      invariant forall k :: 0 <= k < |ids| ==> ids[k] == copies[k].Value().info.id
    {
      var copied := copies[|ids|];
      ids := ids + [copied.Id()];
    }
  }

  /** The identifiers a storage lists. */
  method ListIds(storage: DiskStorage, now: int, at: nat -> int) returns (ids: seq<string>)
    requires storage.Valid()
    ensures ids == Ids(Listed(storage.memory.log.log, |storage.memory.log.items|))
  {
    ghost var shown := Listed(storage.memory.log.log, |storage.memory.log.items|);
    hide Listed, Ring.Matches, FreezeAt, Copy.Valid, Copy.Value;
    var r := storage.List(false, 0, now, at);
    ids := CopyIds(r.value);
    forall k | 0 <= k < |shown| ensures ids[k] == shown[k].info.id { CopyKeepsId(shown[k], now, at); }
  }

  lemma {:induction false} FrozenIds(traces: seq<View>, now: View -> int, at: View -> nat -> int)
    ensures Ids(Frozen(traces, now, at)) == Ids(traces)
  {
    forall i | 0 <= i < |traces| ensures Frozen(traces, now, at)[i].info.id == traces[i].info.id {
      CopyKeepsId(traces[i], now(traces[i]), at(traces[i]));
    }
  }

  /** The second process: opens the folder and restores from it. */
  method Reopen(folder: Folder, limit: int, now: View -> int, at: View -> nat -> int) returns (storage: DiskStorage)
    ensures fresh(storage) && storage.Valid() && storage.limit == limit
    ensures Ids(storage.memory.log.log) == Ids(Traces(folder.docs, Newest(folder.docs, limit)))
  {
    storage := new DiskStorage(folder, limit);
    ghost var docs := folder.docs;
    NewestSize(docs, limit);
    FrozenIds(Traces(docs, Newest(docs, limit)), now, at);
    hide Ids, Traces, Newest, Frozen, Ring.Matches;
    var r := storage.Restore(|folder.docs|, now, at);
  }

  lemma NewestSize(docs: map<string, Document>, limit: int)
    ensures |Newest(docs, limit)| <= |docs|
  {
    assert |docs| == |docs.Keys|;
  }

  /** After saves in increasing order into an empty folder with a positive
      limit, a new process lists what the old one listed: the identifiers of the
      last traces, newest first. */
  method Restart(folder: Folder, limit: nat, traces: seq<View>,
                 now: nat -> int, at: nat -> nat -> int, later: View -> int, again: View -> nat -> int)
    returns (before: seq<string>, after: seq<string>)
    requires folder.docs == map[] && limit > 0 && InOrder(traces)
    modifies folder
    ensures before == after == NewestIds(Ring.LastOf(Ids(traces), limit))
  {
    var first := new DiskStorage(folder, limit);
    ghost var stored := SaveAll(first, traces, now, at);
    before := ListIds(first, 0, i => 0);
    ghost var saved := first.memory.log.log;
    var second := Reopen(folder, limit, later, again);
    after := ListIds(second, 0, i => 0);
    SameIdsInOrder(traces, stored);
    RestartKeepsList(stored, limit, saved, second.memory.log.log);
    ListedIds(Ring.LastOf(saved, limit));
    LastIds(saved, limit);
  }

  lemma SameIdsInOrder(a: seq<View>, b: seq<View>)
    requires Ids(a) == Ids(b) && InOrder(a)
    ensures InOrder(b)
  {
    assert |a| == |b|;
    forall i | 0 <= i < |b| ensures b[i].info.id == a[i].info.id {
      assert Ids(a)[i] == a[i].info.id && Ids(b)[i] == b[i].info.id;
    }
  }
}
