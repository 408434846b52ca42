/** Prune as removals one by one, oldest first, each of which may fail
    (storage/disk_storage.go). */
module FolderPrune {
  import opened Order
  import opened Documents
  import TopNames

  /** The folder after some removals. */
  function Without(docs: map<string, Document>, names: seq<string>): map<string, Document> {
    if names == [] then docs else Without(docs, names[..|names| - 1]) - {names[|names| - 1]}
  }

  lemma {:induction false} WithoutIsDifference(docs: map<string, Document>, names: seq<string>)
    ensures Without(docs, names) == docs - set n | n in names
  {
    if names == [] {
      assert (set n | n in names) == {};
    } else {
      var k := |names| - 1;
      WithoutIsDifference(docs, names[..k]);
      assert (set n | n in names) == (set n | n in names[..k]) + {names[k]};
    }
  }

  lemma WithoutNone(docs: map<string, Document>)
    ensures Without(docs, []) == docs
  {
  }

  lemma WithoutStep(docs: map<string, Document>, names: seq<string>, i: nat)
    requires i < |names|
    ensures Without(docs, names[..i + 1]) == Without(docs, names[..i]) - {names[i]}
  {
    assert names[..i + 1][..i] == names[..i];
  }

  lemma IncreasingParts(names: seq<string>, k: nat, n: string)
    requires Increasing(names) && k <= |names| && n in names
    ensures n in names[k..] <==> n !in names[..k]
  {
    assert names == names[..k] + names[k..];
    forall i, j | 0 <= i < k <= j < |names| ensures names[i] != names[j] {
      LessIrreflexive(names[i]);
      assert Less(names[i], names[j]);
    }
    hide Increasing;
  }

  lemma KeptOrGone(docs: map<string, Document>, kept: set<string>, gone: set<string>)
    requires forall n :: n in docs ==> (n in kept <==> n !in gone)
    ensures (map n | n in docs && n in kept :: docs[n]) == docs - gone
  {
  }

  /** Prune's removals are the names outside the top. */
  lemma PrunedIsRemoval(docs: map<string, Document>, limit: nat)
    requires limit > 0
    ensures var names := Sorted(docs.Keys); var k := if |names| > limit then |names| - limit else 0;
            Pruned(docs, limit) == Without(docs, names[..k])
  {
    var names := Sorted(docs.Keys);
    var k := if |names| > limit then |names| - limit else 0;
    TopNames.TopIsTail(limit, docs.Keys);
    WithoutIsDifference(docs, names[..k]);
    var top, gone := TopNames.Top(limit, docs.Keys), set n | n in names[..k];
    hide TopNames.Top, Without, Increasing;
    forall n | n in docs ensures n in top <==> n !in gone {
      assert n in names;
      IncreasingParts(names, k, n);
    }
    KeptOrGone(docs, top, gone);
  }

  /** How the folder fails a prune: it cannot be listed, or a removal fails
      after some that did not. */
  datatype Fault = NoFault | NoListing | NoRemoval(after: nat)

  /** The names a prune removes, oldest first. */
  ghost function Oldest(docs: map<string, Document>, limit: int): (names: seq<string>)
    ensures limit <= 0 ==> names == []
  {
    var names := Sorted(docs.Keys);
    if limit <= 0 || |names| <= limit then [] else names[..|names| - limit]
  }

  /** A prune with no limit, or with nothing to remove, meets no such failure. */
  ghost predicate Fails(docs: map<string, Document>, limit: int, fault: Fault) {
    match fault
    case NoFault => false
    case NoListing => limit > 0
    case NoRemoval(after) => after < |Oldest(docs, limit)|
  }

  /** What a prune leaves, failing or not. */
  ghost function Left(docs: map<string, Document>, limit: int, fault: Fault): map<string, Document> {
    if !Fails(docs, limit, fault) then Pruned(docs, limit)
    else if fault.NoListing? then docs
    else Without(docs, Oldest(docs, limit)[..fault.after])
  }

  lemma PrunedIsOldestGone(docs: map<string, Document>, limit: int)
    ensures Pruned(docs, limit) == Without(docs, Oldest(docs, limit))
  {
    hide Without;
    if limit > 0 { PrunedIsRemoval(docs, limit); } else { WithoutNone(docs); }
    hide Pruned;
  }

  lemma NothingPruned(docs: map<string, Document>, limit: int, fault: Fault)
    requires limit <= 0 || fault.NoListing?
    ensures Left(docs, limit, fault) == docs && (Fails(docs, limit, fault) <==> limit > 0)
  {
  }

  /** What a prune that gets a listing leaves. */
  lemma RemovalsLeave(docs: map<string, Document>, limit: int, fault: Fault)
    requires !fault.NoListing?
    ensures var names := Oldest(docs, limit);
            && (Fails(docs, limit, fault) <==> fault.NoRemoval? && fault.after < |names|)
            && Left(docs, limit, fault)
               == Without(docs, if fault.NoRemoval? && fault.after < |names| then names[..fault.after] else names)
  {
    PrunedIsOldestGone(docs, limit);
    hide Without, Pruned, Oldest;
  }

  lemma OldestMissTop(docs: map<string, Document>, limit: nat, k: nat)
    requires limit > 0 && k <= |Oldest(docs, limit)|
    ensures (set n | n in Oldest(docs, limit)[..k]) !! TopNames.Top(limit, docs.Keys)
  {
    var names, gone := Sorted(docs.Keys), Oldest(docs, limit);
    TopNames.TopIsTail(limit, docs.Keys);
    hide TopNames.Top, Increasing;
    forall n | n in gone[..k] ensures n !in TopNames.Top(limit, docs.Keys) {
      assert n in names[..|gone|];
      assert n in names;
      IncreasingParts(names, |gone|, n);
    }
  }

  /** How many removals a prune gets to. */
  ghost function Removals(docs: map<string, Document>, limit: int, fault: Fault): (k: nat)
    ensures k <= |Oldest(docs, limit)|
  {
    if !Fails(docs, limit, fault) then |Oldest(docs, limit)| else if fault.NoListing? then 0 else fault.after
  }

  lemma LeftIsRemovals(docs: map<string, Document>, limit: int, fault: Fault)
    ensures Left(docs, limit, fault) == Without(docs, Oldest(docs, limit)[..Removals(docs, limit, fault)])
  {
    var names := Oldest(docs, limit);
    PrunedIsOldestGone(docs, limit);
    WithoutNone(docs);
    hide Pruned, Without, Oldest;
    assert names[..|names|] == names && names[..0] == [];
  }

  lemma PruneOfRest(docs: map<string, Document>, limit: nat, gone: set<string>)
    requires limit > 0 && gone !! TopNames.Top(limit, docs.Keys)
    ensures Pruned(docs - gone, limit) == Pruned(docs, limit)
  {
    hide TopNames.Top;
    assert (docs - gone).Keys == docs.Keys - gone;
    TopNames.TopWithoutOthers(limit, docs.Keys, gone);
  }

  /** Removing oldest names first leaves the rest of the prune to do. */
  lemma PruneAfterRemovals(docs: map<string, Document>, limit: nat, k: nat)
    requires limit > 0 && k <= |Oldest(docs, limit)|
    ensures Pruned(Without(docs, Oldest(docs, limit)[..k]), limit) == Pruned(docs, limit)
  {
    OldestMissTop(docs, limit, k);
    hide Oldest, Without, TopNames.Top, Pruned;
    var names := Oldest(docs, limit)[..k];
    WithoutIsDifference(docs, names);
    PruneOfRest(docs, limit, set n | n in names);
  }

  /** A prune that stopped midway is made up for by the next one. */
  lemma NextPruneCatchesUp(docs: map<string, Document>, limit: int, fault: Fault)
    ensures Pruned(Left(docs, limit, fault), limit) == Pruned(docs, limit)
  {
    LeftIsRemovals(docs, limit, fault);
    if limit > 0 {
      PruneAfterRemovals(docs, limit, Removals(docs, limit, fault));
    }
  }
}
