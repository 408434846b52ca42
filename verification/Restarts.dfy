/** What a folder holds after the saves of one process, and what the next
    process restores from it (storage/disk_storage.go). */
module Restarts {
  import opened Order
  import opened Copies
  import opened Documents
  import opened MemoryStorage
  import TopNames
  import Ring
  import Ulid

  function Ids(s: seq<View>): (r: seq<string>)
    ensures |r| == |s| && forall i :: 0 <= i < |s| ==> r[i] == s[i].info.id
  {
    if s == [] then [] else Ids(s[..|s| - 1]) + [s[|s| - 1].info.id]
  }

  /** The folder after saves into an empty one. */
  function AfterSaves(traces: seq<View>, limit: int): map<string, Document> {
    if traces == [] then map[] else Written(AfterSaves(traces[..|traces| - 1], limit), limit, traces[|traces| - 1])
  }

  /** The saves of one process: valid identifiers, each later than the last. */
  ghost predicate InOrder(traces: seq<View>) {
    && (forall i :: 0 <= i < |traces| ==> Ulid.Valid(traces[i].info.id))
    && (forall i, j :: 0 <= i < j < |traces| ==> Less(traces[i].info.id, traces[j].info.id))
  }

  /** The names of some traces. */
  function Names(traces: seq<View>): (r: seq<string>)
    ensures |r| == |traces| && forall i :: 0 <= i < |r| ==> r[i] == Name(traces[i].info.id)
  {
    seq(|traces|, i requires 0 <= i < |traces| => Name(traces[i].info.id))
  }

  lemma NamesIncrease(traces: seq<View>)
    requires InOrder(traces)
    ensures Increasing(Names(traces))
  {
    forall i, j | 0 <= i < j < |traces| ensures Less(Names(traces)[i], Names(traces)[j]) {
      NameOrder(traces[i].info.id, traces[j].info.id);
    }
  }

  /** The folder holds documents of exactly these traces. */
  ghost predicate Holds(docs: map<string, Document>, traces: seq<View>) {
    && docs.Keys == (set n | n in Names(traces))
    && forall i :: 0 <= i < |traces| ==>
         Name(traces[i].info.id) in docs && docs[Name(traces[i].info.id)] == Readable(Decoded(traces[i]))
  }

  /** Pruning names in order keeps the last of them. */
  lemma TopOfNames(names: seq<string>, limit: nat)
    requires Increasing(names)
    ensures Sorted(set n | n in names) == names
    ensures TopNames.Top(limit, set n | n in names) == set n | n in Ring.LastOf(names, limit)
  {
    var all := set n | n in names;
    TopNames.SetOfIncreasing(names);
    SortedUnique(names, Sorted(all), all);
    TopNames.TopIsTail(limit, all);
  }

  /** After saves in order the folder holds the last of them. */
  lemma {:induction false} SavesKeepLast(traces: seq<View>, limit: nat)
    requires InOrder(traces) && limit > 0
    ensures Holds(AfterSaves(traces, limit), Ring.LastOf(traces, limit))
  {
    if traces == [] {
      assert Ring.LastOf(traces, limit) == [] && Names([]) == [];
    } else {
      var n := |traces| - 1;
      hide Holds, Written, Ring.LastOf;
      SavesKeepLast(traces[..n], limit);
      WriteKeepsLast(AfterSaves(traces[..n], limit), traces, limit);
    }
  }

  lemma WriteKeepsLast(docs: map<string, Document>, traces: seq<View>, limit: nat)
    requires InOrder(traces) && limit > 0 && traces != []
    requires Holds(docs, Ring.LastOf(traces[..|traces| - 1], limit))
    ensures Holds(Written(docs, limit, traces[|traces| - 1]), Ring.LastOf(traces, limit))
  {
    hide Ring.LastOf, Pruned, InOrder, Holds, Decoded, Name;
    var t := traces[|traces| - 1];
    var was := Ring.LastOf(traces[..|traces| - 1], limit);
    LastThenNext(traces, limit);
    WriteAdds(docs, was, t);
    PruneKeepsLast(docs[Name(t.info.id) := Readable(Decoded(t))], was + [t], limit);
    LastOfLast(traces, limit);
  }

  lemma LastThenNext(traces: seq<View>, limit: nat)
    requires InOrder(traces) && traces != []
    ensures InOrder(Ring.LastOf(traces[..|traces| - 1], limit) + [traces[|traces| - 1]])
  {
  }

  lemma LastOfLast(traces: seq<View>, limit: nat)
    requires limit > 0 && traces != []
    ensures Ring.LastOf(Ring.LastOf(traces[..|traces| - 1], limit) + [traces[|traces| - 1]], limit)
      == Ring.LastOf(traces, limit)
  {
    assert traces == traces[..|traces| - 1] + [traces[|traces| - 1]];
  }

  /** The document of a later trace joins the others. */
  lemma WriteAdds(docs: map<string, Document>, was: seq<View>, t: View)
    requires Holds(docs, was) && InOrder(was + [t])
    ensures Holds(docs[Name(t.info.id) := Readable(Decoded(t))], was + [t])
  {
    hide Decoded, Name;
    var held := was + [t];
    NamesIncrease(held);
    var names := Names(held);
    assert names == Names(was) + [Name(t.info.id)];
    forall i | 0 <= i < |was| ensures names[i] != names[|was|] {
      assert Less(names[i], names[|was|]);
      LessIrreflexive(names[i]);
    }
  }

  lemma PrunedKeys(docs: map<string, Document>, traces: seq<View>, limit: nat)
    requires InOrder(traces) && limit > 0 && docs.Keys == set n | n in Names(traces)
    ensures Pruned(docs, limit).Keys == set n | n in Names(Ring.LastOf(traces, limit))
  {
    hide TopNames.Top, Name;
    NamesIncrease(traces);
    TopOfNames(Names(traces), limit);
    hide InOrder;
    assert Names(Ring.LastOf(traces, limit)) == Ring.LastOf(Names(traces), limit);
    assert Pruned(docs, limit).Keys == docs.Keys * TopNames.Top(limit, docs.Keys);
  }

  lemma LastAt(traces: seq<View>, limit: nat, i: nat)
    requires i < |Ring.LastOf(traces, limit)|
    ensures var k := if |traces| > limit then |traces| - limit else 0;
            k + i < |traces| && Ring.LastOf(traces, limit)[i] == traces[k + i]
  {
  }

  lemma PrunedDocs(docs: map<string, Document>, limit: int, name: string)
    requires name in Pruned(docs, limit)
    ensures name in docs && Pruned(docs, limit)[name] == docs[name]
  {
  }

  /** Pruning leaves the documents of the last traces. */
  lemma PruneKeepsLast(docs: map<string, Document>, traces: seq<View>, limit: nat)
    requires InOrder(traces) && limit > 0 && Holds(docs, traces)
    ensures Holds(Pruned(docs, limit), Ring.LastOf(traces, limit))
  {
    hide Decoded, Name, Pruned, Ring.LastOf;
    PrunedKeys(docs, traces, limit);
    hide InOrder;
    var last, k := Ring.LastOf(traces, limit), if |traces| > limit then |traces| - limit else 0;
    forall i | 0 <= i < |last|
      ensures var n := Name(last[i].info.id);
              n in Pruned(docs, limit) && Pruned(docs, limit)[n] == Readable(Decoded(last[i]))
    {
      LastAt(traces, limit, i);
      assert Names(last)[i] in Names(last);
      PrunedDocs(docs, limit, Name(last[i].info.id));
    }
  }

  /** A restore reads back the identifiers the folder holds, in their order. */
  lemma RestoreReadsIds(docs: map<string, Document>, traces: seq<View>, limit: nat)
    requires InOrder(traces) && limit > 0 && |traces| <= limit && Holds(docs, traces)
    ensures Newest(docs, limit) == Names(traces)
    ensures Ids(Traces(docs, Newest(docs, limit))) == Ids(traces)
  {
    NamesIncrease(traces);
    TopOfNames(Names(traces), limit);
    TracesOfNames(docs, traces);
  }

  lemma {:induction false} TracesOfNames(docs: map<string, Document>, traces: seq<View>)
    requires forall i :: 0 <= i < |traces| ==>
      Name(traces[i].info.id) in docs && docs[Name(traces[i].info.id)] == Readable(Decoded(traces[i]))
    ensures |Traces(docs, Names(traces))| == |traces|
    ensures Ids(Traces(docs, Names(traces))) == Ids(traces)
  {
    hide Decoded, Name;
    if traces != [] {
      var n := |traces| - 1;
      var names, last := Names(traces), Decoded(traces[n]);
      assert names[..n] == Names(traces[..n]);
      TracesOfNames(docs, traces[..n]);
      var rest := Traces(docs, names[..n]);
      assert Traces(docs, names) == rest + [last];
      hide Traces, Names;
      assert (rest + [last])[..n] == rest;
      assert last.info.id == traces[n].info.id;
    }
  }

  lemma {:induction false} IdsConcat(a: seq<View>, b: seq<View>)
    ensures Ids(a + b) == Ids(a) + Ids(b)
  {
  }

  /** The identifiers of a listing are those of the log, newest first. */
  function NewestIds(ids: seq<string>): seq<string> {
    if ids == [] then []
    else (if ids[|ids| - 1] != "" then [ids[|ids| - 1]] else []) + NewestIds(ids[..|ids| - 1])
  }

  lemma {:induction false} ListedIds(s: seq<View>)
    ensures Ids(Ring.NewestFirst(s)) == NewestIds(Ids(s))
  {
    if s != [] {
      var n := |s| - 1;
      var head := if s[n].info.id != "" then [s[n]] else [];
      ListedIds(s[..n]);
      IdsConcat(head, Ring.NewestFirst(s[..n]));
      assert Ids(s)[..n] == Ids(s[..n]);
      assert Ids(head) == if s[n].info.id != "" then [s[n].info.id] else [];
    }
  }

  lemma LastIds(s: seq<View>, limit: nat)
    ensures Ids(Ring.LastOf(s, limit)) == Ring.LastOf(Ids(s), limit)
  {
    hide Ids;
  }

  /** Restart: after saves in increasing order into an empty folder with a
      positive limit, a new storage that restores from it lists the same
      identifiers in the same order as the one that saved. The logs are what
      the two rings were pushed: copies, which keep identifiers. */
  lemma RestartKeepsList(traces: seq<View>, limit: nat, saved: seq<View>, restored: seq<View>)
    requires InOrder(traces) && limit > 0 && Ids(saved) == Ids(traces)
    requires var docs := AfterSaves(traces, limit); Ids(restored) == Ids(Traces(docs, Newest(docs, limit)))
    ensures Ids(Listed(restored, limit)) == Ids(Listed(saved, limit))
  {
    var docs, last := AfterSaves(traces, limit), Ring.LastOf(traces, limit);
    SavesKeepLast(traces, limit);
    LastOfInOrder(traces, limit);
    RestoreReadsIds(docs, last, limit);
    assert |Ids(restored)| == |restored| && |Ids(last)| == |last| <= limit;
    assert Ring.LastOf(restored, limit) == restored;
    hide Holds, InOrder, Ids, Ring.LastOf, Ring.NewestFirst, NewestIds, Traces, Newest, AfterSaves;
    LastIds(saved, limit);
    LastIds(traces, limit);
    ListedIds(Ring.LastOf(saved, limit));
    ListedIds(Ring.LastOf(restored, limit));
  }

  lemma LastOfInOrder(traces: seq<View>, limit: nat)
    requires InOrder(traces)
    ensures InOrder(Ring.LastOf(traces, limit)) && |Ring.LastOf(traces, limit)| <= limit
  {
  }
}
