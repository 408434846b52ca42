/** The folder of storage/disk_storage.go under any number of concurrent
    savers: each renames its document into place, lists the folder, and removes
    the oldest names over the limit, with no lock. A listing is not atomic: it
    may or may not show what comes and goes while it runs. */
module Pruning {
  import opened TopNames

  // ------------------------------------------------------------- the savers

  /** A saver between its steps. While it lists, `must` are the names present
      ever since it began and `may` those present at some time since. */
  datatype Pc = Idle | Renamed | Listing(must: set<string>, may: set<string>) | Removing(todo: set<string>)

  /** `ever` holds every name the folder was given, `saved` whether one of
      them by a saver of this run and no prune has failed since. */
  datatype World = World(limit: int, folder: set<string>, ever: set<string>, pcs: map<nat, Pc>, saved: bool)

  datatype Step =
    | Rename(name: string)
    | BeginList
    | EndList(seen: set<string>)
    | Remove(name: string)
    | Fail
    | Return

  function PcOf(w: World, p: nat): Pc {
    if p in w.pcs then w.pcs[p] else Idle
  }

  /** A listing under way when a name comes, or goes. */
  function Sees(pc: Pc, name: string): Pc {
    if pc.Listing? then pc.(may := pc.may + {name}) else pc
  }

  function Misses(pc: Pc, name: string): Pc {
    if pc.Listing? then pc.(must := pc.must - {name}) else pc
  }

  predicate Enabled(w: World, p: nat, step: Step) {
    var pc := PcOf(w, p);
    match step
    case Rename(_) => pc.Idle?
    case BeginList => pc.Renamed? && w.limit > 0
    case EndList(seen) => pc.Listing? && pc.must <= seen <= pc.may
    case Remove(name) => pc.Removing? && name in pc.todo
    case Fail => (pc.Renamed? && w.limit > 0) || pc.Listing? || (pc.Removing? && pc.todo != {})
    case Return => pc == Removing({}) || (pc.Renamed? && w.limit <= 0)
  }

  function After(w: World, p: nat, step: Step): World
    requires Enabled(w, p, step)
  {
    match step
    case Rename(name) =>
      w.(folder := w.folder + {name}, ever := w.ever + {name}, saved := true,
         pcs := (map q | q in w.pcs :: Sees(w.pcs[q], name))[p := Renamed])
    case BeginList => w.(pcs := w.pcs[p := Listing(w.folder, w.folder)])
    case EndList(seen) =>
      w.(pcs := w.pcs[p := Removing(if w.limit > 0 then Excess(w.limit, seen) else {})])
    case Remove(name) =>
      w.(folder := w.folder - {name},
         pcs := (map q | q in w.pcs :: Misses(w.pcs[q], name))[p := Removing(PcOf(w, p).todo - {name})])
    case Fail => w.(pcs := w.pcs[p := Idle], saved := false)
    case Return => w.(pcs := w.pcs[p := Idle])
  }

  datatype Event = Event(saver: nat, step: Step)

  /** A run starts on a folder earlier processes left behind. */
  ghost predicate Run(run: seq<World>, events: seq<Event>) {
    && |run| == |events| + 1
    && run[0].ever == run[0].folder && run[0].pcs == map[] && !run[0].saved
    && forall i :: 0 <= i < |events| ==>
         Enabled(run[i], events[i].saver, events[i].step)
         && run[i + 1] == After(run[i], events[i].saver, events[i].step)
  }

  // -------------------------------------------------------------- invariants

  ghost predicate PcInv(w: World, p: nat)
    requires w.limit > 0
  {
    match PcOf(w, p)
    case Listing(must, may) => must <= w.folder && must <= may <= w.ever
    case Removing(todo) => todo <= w.ever && todo !! Top(w.limit, w.ever)
    case _ => true
  }

  /** Saver `p` will yet remove the name `x`: it is to be removed, or it will
      be in a listing together with the whole top. */
  predicate Removes(w: World, p: nat, x: string)
    requires w.limit > 0
  {
    match PcOf(w, p)
    case Idle => false
    case Renamed => true
    case Listing(must, _) => x in must && Top(w.limit, w.ever) <= must
    case Removing(todo) => x in todo
  }

  ghost predicate Doomed(w: World, x: string)
    requires w.limit > 0
  {
    exists p: nat :: Removes(w, p, x)
  }

  ghost predicate Inv(w: World) {
    && w.limit > 0
    && Top(w.limit, w.ever) <= w.folder <= w.ever
    && (forall p: nat :: PcInv(w, p))
    && (w.saved ==> forall x :: x in w.folder && x !in Top(w.limit, w.ever) ==> Doomed(w, x))
  }

  lemma StepKeepsSafety(w: World, p: nat, step: Step)
    requires Inv(w) && Enabled(w, p, step)
    ensures var w' := After(w, p, step); w'.limit > 0 && Top(w'.limit, w'.ever) <= w'.folder <= w'.ever
    ensures forall q: nat :: PcInv(After(w, p, step), q)
  {
    var w' := After(w, p, step);
    assert PcInv(w, p);
    if step.Rename? {
      forall x | x in Top(w.limit, w'.ever) ensures x in w'.folder {
        if x in w.ever { TopShrinks(w.limit, w.ever, w'.ever, x); }
      }
    }
    forall q: nat ensures PcInv(w', q) {
      assert PcInv(w, q);
      if step.EndList? && q == p { ExcessIsBelowTop(w.limit, step.seen, w.ever); }
      if step.Rename? && PcOf(w, q).Removing? {
        forall x | x in PcOf(w, q).todo ensures x !in Top(w.limit, w'.ever) {
          if x in Top(w.limit, w'.ever) { TopShrinks(w.limit, w.ever, w'.ever, x); }
        }
      }
    }
  }

  lemma StepKeepsDoom(w: World, p: nat, step: Step, x: string)
    requires Inv(w) && Enabled(w, p, step)
    requires var w' := After(w, p, step); w'.saved && x in w'.folder && x !in Top(w.limit, w'.ever)
    ensures Doomed(After(w, p, step), x)
  {
    var w' := After(w, p, step);
    if step.Rename? {
      assert Removes(w', p, x);
    } else if !step.Fail? {
      var q: nat :| Removes(w, q, x);
      assert PcInv(w, p) && PcInv(w, q);
      if q == p && step.EndList? { ListedIsExcess(w.limit, step.seen, w.ever, x); }
      assert Removes(w', q, x);
    }
  }

  lemma {:induction false} RunKeepsInv(run: seq<World>, events: seq<Event>, i: nat)
    requires Run(run, events) && i < |run| && run[0].limit > 0
    ensures Inv(run[i])
  {
    if i > 0 {
      RunKeepsInv(run, events, i - 1);
      var w, e := run[i - 1], events[i - 1];
      StepKeepsSafety(w, e.saver, e.step);
      if run[i].saved {
        forall x | x in run[i].folder && x !in Top(run[i].limit, run[i].ever) ensures Doomed(run[i], x) {
          StepKeepsDoom(w, e.saver, e.step, x);
        }
      }
    }
  }
}
