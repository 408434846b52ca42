/** What the folder holds over every run of its savers. */
module PrunedFolder {
  import opened Pruning
  import opened TopNames

  /** Over every interleaving the folder holds the `limit` largest names it was
      ever given. */
  lemma FolderHoldsTop(run: seq<World>, events: seq<Event>, i: nat)
    requires Run(run, events) && i < |run| && run[0].limit > 0
    ensures run[i].limit > 0 && Top(run[i].limit, run[i].ever) <= run[i].folder
    ensures |Top(run[i].limit, run[i].ever)| == if |run[i].ever| > run[i].limit then run[i].limit else |run[i].ever|
  {
    RunKeepsInv(run, events, i);
    TopSize(run[i].limit, run[i].ever);
  }

  lemma {:induction false} SavedSince(run: seq<World>, events: seq<Event>, j: nat, i: nat)
    requires Run(run, events) && j < i < |run| && events[j].step.Rename?
    requires forall k :: j < k < i ==> !events[k].step.Fail?
    ensures run[i].saved
  {
    if j + 1 < i { SavedSince(run, events, j, i - 1); }
  }

  /** Once every saver returned, and a document was written since the last prune
      that failed, it holds exactly those. */
  lemma FolderIsTopAtRest(run: seq<World>, events: seq<Event>, j: nat, i: nat)
    requires Run(run, events) && j < i < |run| && run[0].limit > 0
    requires events[j].step.Rename? && forall k :: j < k < i ==> !events[k].step.Fail?
    requires forall p: nat :: PcOf(run[i], p).Idle?
    ensures run[i].limit > 0 && run[i].folder == Top(run[i].limit, run[i].ever)
  {
    RunKeepsInv(run, events, i);
    SavedSince(run, events, j, i);
    var w := run[i];
    assert forall x :: !Doomed(w, x);
  }

  /** Without a limit nothing is ever removed. */
  lemma {:induction false} UnlimitedFolderKeepsAll(run: seq<World>, events: seq<Event>, i: nat)
    requires Run(run, events) && i < |run| && run[0].limit <= 0
    ensures run[i].limit <= 0 && run[i].folder == run[i].ever
    ensures forall p: nat :: PcOf(run[i], p).Idle? || PcOf(run[i], p).Renamed?
  {
    if i > 0 {
      UnlimitedFolderKeepsAll(run, events, i - 1);
      assert PcOf(run[i - 1], events[i - 1].saver).Idle? || PcOf(run[i - 1], events[i - 1].saver).Renamed?;
      forall p: nat ensures PcOf(run[i], p).Idle? || PcOf(run[i], p).Renamed? {
        assert PcOf(run[i - 1], p).Idle? || PcOf(run[i - 1], p).Renamed?;
      }
    }
  }

  // ------------------------------------------------------- what the steps mean

  /** The names the folder was ever given are those it had at first and those
      the savers wrote. */
  lemma {:induction false} EverIsWritten(run: seq<World>, events: seq<Event>, i: nat, x: string)
    requires Run(run, events) && i < |run|
    ensures x in run[i].ever <==> x in run[0].folder || exists k :: 0 <= k < i && events[k].step == Rename(x)
  {
    if i > 0 { EverIsWritten(run, events, i - 1, x); }
  }

  /** A name is in the folder at every moment from `i` on, or at some, up to `j`. */
  ghost predicate Throughout(run: seq<World>, x: string, i: nat, j: nat)
    requires j < |run|
  {
    forall k :: i <= k <= j ==> x in run[k].folder
  }

  ghost predicate Sometime(run: seq<World>, x: string, i: nat, j: nat)
    requires j < |run|
  {
    exists k :: i <= k <= j && x in run[k].folder
  }

  lemma {:induction false} ListingKnows(run: seq<World>, events: seq<Event>, p: nat, i: nat, j: nat)
    requires Run(run, events) && i < j < |run| && events[i] == Event(p, BeginList)
    requires forall k :: i < k < j ==> events[k].saver != p
    ensures PcOf(run[j], p).Listing?
    ensures forall x :: x in PcOf(run[j], p).must <==> Throughout(run, x, i + 1, j)
    ensures forall x :: x in PcOf(run[j], p).may <==> Sometime(run, x, i + 1, j)
  {
    if i + 1 < j {
      ListingKnows(run, events, p, i, j - 1);
      ListingOn(run[j - 1], events[j - 1], run[j], p);
      hide Enabled, Run;
      forall x ensures x in PcOf(run[j], p).must <==> Throughout(run, x, i + 1, j) {}
      forall x ensures x in PcOf(run[j], p).may <==> Sometime(run, x, i + 1, j) {}
    }
  }

  /** What another saver's step tells a listing under way. */
  lemma ListingOn(w: World, e: Event, w': World, p: nat)
    requires PcOf(w, p).Listing? && e.saver != p && Enabled(w, e.saver, e.step) && w' == After(w, e.saver, e.step)
    requires PcOf(w, p).may >= PcOf(w, p).must && PcOf(w, p).must <= w.folder <= PcOf(w, p).may
    ensures PcOf(w', p) == Listing(PcOf(w, p).must * w'.folder, PcOf(w, p).may + w'.folder)
  {
  }

  /** A listing may show any names but those it missed throughout, and shows at
      least those that were there throughout. */
  lemma ListingIsLoose(run: seq<World>, events: seq<Event>, p: nat, i: nat, j: nat, seen: set<string>)
    requires Run(run, events) && i < j < |run| && events[i] == Event(p, BeginList)
    requires forall k :: i < k < j ==> events[k].saver != p
    ensures Enabled(run[j], p, EndList(seen)) <==>
      forall x :: (Throughout(run, x, i + 1, j) ==> x in seen) && (x in seen ==> Sometime(run, x, i + 1, j))
  {
    ListingKnows(run, events, p, i, j);
    hide Run, Throughout, Sometime;
  }

  /** A saver is never stuck. */
  lemma SaversGoOn(run: seq<World>, events: seq<Event>, i: nat, p: nat)
    requires Run(run, events) && i < |run| && !PcOf(run[i], p).Idle?
    ensures exists step: Step :: !step.Fail? && Enabled(run[i], p, step)
  {
    var w := run[i];
    if run[0].limit <= 0 {
      UnlimitedFolderKeepsAll(run, events, i);
      assert PcOf(w, p).Renamed?;
      assert Enabled(w, p, Return);
    } else {
      RunKeepsInv(run, events, i);
      assert PcInv(w, p);
      match PcOf(w, p)
      case Renamed => assert Enabled(w, p, BeginList);
      case Listing(must, may) => assert Enabled(w, p, EndList(must));
      case Removing(todo) =>
        if todo == {} { assert Enabled(w, p, Return); }
        else { var name :| name in todo; assert Enabled(w, p, Remove(name)); }
    }
  }
}
