/** What the active map shows over every run of Registry: a registered trace,
    until it is removed, and to a reader each trace it wants, once. */
module ActiveReads {
  import opened Registry

  // ----------------------------------------------------------------- readers

  /** How often goroutine `g` clones the trace under `id` from step `i` up to
      step `j`. */
  function Clones(steps: seq<Step>, g: nat, id: string, i: nat, j: nat): nat
    requires i <= j <= |steps|
    decreases j
  {
    if i == j then 0 else Clones(steps, g, id, i, j - 1) + if steps[j - 1] == Clone(g, id) then 1 else 0
  }

  lemma ReaderStarts(w: World, g: nat, want: set<string>)
    requires Enabled(w, ReadLock(g, want))
    ensures PcOf(After(w, ReadLock(g, want)), g) == Cloning(want * w.active.Keys)
  {
    hide Reachable;
  }

  /** A reader that is inside takes no step but clones and, at last, its unlock. */
  lemma ReaderStays(w: World, step: Step, g: nat)
    requires Enabled(w, step) && PcOf(w, g).Cloning? && step != ReadUnlock(g)
    ensures PcOf(After(w, step), g)
      == if step.Clone? && step.g == g then Cloning(PcOf(w, g).todo - {step.id}) else PcOf(w, g)
    ensures step.Clone? && step.g == g ==> step.id in PcOf(w, g).todo
  {
    hide Reachable;
  }

  lemma ReaderEnds(w: World, g: nat)
    requires Enabled(w, ReadUnlock(g))
    ensures PcOf(w, g) == Cloning({})
  {
  }

  /** What it has not cloned yet is what it still has to do. */
  lemma {:induction false} ClonedOrToDo(run: seq<World>, steps: seq<Step>, g: nat, want: set<string>, i: nat, j: nat)
    requires Run(run, steps) && i < j < |run| && steps[i] == ReadLock(g, want)
    requires forall k :: i < k < j ==> steps[k] != ReadUnlock(g)
    ensures PcOf(run[j], g).Cloning? && PcOf(run[j], g).todo <= want * run[i].active.Keys
    ensures forall id ::
      Clones(steps, g, id, i, j) == if id in want * run[i].active.Keys && id !in PcOf(run[j], g).todo then 1 else 0
  {
    hide Enabled, After;
    if i + 1 == j {
      ReaderStarts(run[i], g, want);
    } else {
      ClonedOrToDo(run, steps, g, want, i, j - 1);
      ReaderStays(run[j - 1], steps[j - 1], g);
    }
  }

  /** A reader clones each active trace it wants exactly once between its lock
      and its unlock, and no other. */
  lemma ReaderClonesEachOnce(run: seq<World>, steps: seq<Step>, g: nat, want: set<string>, i: nat, j: nat)
    requires Run(run, steps) && i < j < |steps| && steps[i] == ReadLock(g, want) && steps[j] == ReadUnlock(g)
    requires forall k :: i < k < j ==> steps[k] != ReadUnlock(g)
    ensures forall id :: Clones(steps, g, id, i, j) == if id in want && id in run[i].active then 1 else 0
  {
    hide Enabled, After;
    ClonedOrToDo(run, steps, g, want, i, j);
    assert Enabled(run[j], steps[j]);
    ReaderEnds(run[j], g);
  }

  // ------------------------------------------------------------- registering

  /** The trace that goroutine `g` made, under its id, from making it on. */
  ghost predicate HasMade(w: World, g: nat, id: string, t: Ref) {
    PcOf(w, g).Made? && PcOf(w, g).t == t && t.box < |w.boxes| && w.boxes[t.box].id == id
  }

  predicate Makes(step: Step, g: nat, id: string) {
    (step.Allocate? || step.Acquire?) && step.g == g && step.id == id
  }

  lemma MadeUnderItsId(w: World, step: Step, g: nat, id: string)
    requires Inv(w) && Enabled(w, step) && Makes(step, g, id)
    ensures HasMade(After(w, step), g, id, PcOf(After(w, step), g).t)
  {
    hide Reachable, Recorders, Registered, Callers, Readers, Armed, Pooled;
  }

  lemma MadeStays(w: World, step: Step, g: nat, id: string, t: Ref)
    requires Inv(w) && Enabled(w, step) && HasMade(w, g, id, t) && step != Register(g)
    ensures HasMade(After(w, step), g, id, t)
  {
    assert Owned(w, t);
    assert !Lets(w, step, t.box) by {
      if step.Release? { assert PcOf(w, step.g).t.box != t.box; }
    }
    OwnedStays(w, step, t);
    hide Reachable, Recorders, Registered, Callers, Readers, Armed, Pooled;
  }

  lemma RegisterPuts(w: World, g: nat, id: string, t: Ref)
    requires Enabled(w, Register(g)) && HasMade(w, g, id, t)
    ensures After(w, Register(g)).active == w.active[id := t]
  {
    hide Reachable;
  }

  lemma {:induction false} MadeUntilRegistered(run: seq<World>, steps: seq<Step>, g: nat, id: string, i: nat, j: nat)
    requires Run(run, steps) && i < j < |run| && Makes(steps[i], g, id)
    requires forall k :: i < k < j ==> steps[k] != Register(g)
    ensures HasMade(run[j], g, id, PcOf(run[i + 1], g).t)
  {
    RunKeepsInv(run, steps, j - 1);
    hide Inv, Enabled, After, HasMade;
    if i + 1 == j {
      MadeUnderItsId(run[i], steps[i], g, id);
    } else {
      MadeUntilRegistered(run, steps, g, id, i, j - 1);
      MadeStays(run[j - 1], steps[j - 1], g, id, PcOf(run[i + 1], g).t);
    }
  }

  /** The steps that change what stands under an id: registering a trace that
      has it, and taking that id off. */
  ghost predicate Replaces(w: World, step: Step, id: string) {
    (step.Register? || step.Remove?) && Enabled(w, step) && w.boxes[PcOf(w, step.g).t.box].id == id
  }

  lemma ActiveStaysUnder(w: World, step: Step, id: string)
    requires Enabled(w, step) && !Replaces(w, step, id)
    ensures id in After(w, step).active <==> id in w.active
    ensures id in w.active ==> After(w, step).active[id] == w.active[id]
  {
    hide Reachable;
  }

  lemma {:induction false} ActiveUntilReplaced(run: seq<World>, steps: seq<Step>, id: string, i: nat, j: nat)
    requires Run(run, steps) && i <= j < |run| && forall k :: i <= k < j ==> !Replaces(run[k], steps[k], id)
    ensures id in run[j].active <==> id in run[i].active
    ensures id in run[i].active ==> run[j].active[id] == run[i].active[id]
  {
    hide Enabled, After, Replaces;
    if i < j {
      ActiveUntilReplaced(run, steps, id, i, j - 1);
      ActiveStaysUnder(run[j - 1], steps[j - 1], id);
    }
  }

  /** A trace made under an id stands on the active map under that id from its
      registration until a trace of the same id is registered or taken off. */
  lemma RegisteredIsActive(run: seq<World>, steps: seq<Step>, g: nat, id: string, i: nat, j: nat, k: nat)
    requires Run(run, steps) && i < j < k < |run| && Makes(steps[i], g, id) && steps[j] == Register(g)
    requires forall l :: i < l < j ==> steps[l] != Register(g)
    requires forall l :: j < l < k ==> !Replaces(run[l], steps[l], id)
    ensures id in run[k].active && run[k].active[id] == PcOf(run[i + 1], g).t
  {
    MadeUntilRegistered(run, steps, g, id, i, j);
    assert Enabled(run[j], steps[j]);
    RegisterPuts(run[j], g, id, PcOf(run[i + 1], g).t);
    hide Enabled, After, Replaces, HasMade;
    ActiveUntilReplaced(run, steps, id, j + 1, k);
  }

  lemma RemoveTakesOff(w: World, g: nat)
    requires Enabled(w, Remove(g))
    ensures After(w, Remove(g)).active == w.active - {w.boxes[PcOf(w, g).t.box].id}
  {
    hide Reachable;
  }

  /** Taken off, an id stays off until a trace of it is registered. */
  lemma RemovedIsInactive(run: seq<World>, steps: seq<Step>, g: nat, i: nat, j: nat)
    requires Run(run, steps) && i < j < |run| && steps[i] == Remove(g) && PcOf(run[i], g).Closed?
    requires PcOf(run[i], g).t.box < |run[i].boxes|
    requires var id := run[i].boxes[PcOf(run[i], g).t.box].id; forall k :: i < k < j ==> !Replaces(run[k], steps[k], id)
    ensures run[i].boxes[PcOf(run[i], g).t.box].id !in run[j].active
  {
    assert Enabled(run[i], steps[i]);
    RemoveTakesOff(run[i], g);
    hide Enabled, After, Replaces;
    ActiveUntilReplaced(run, steps, run[i].boxes[PcOf(run[i], g).t.box].id, i + 1, j);
  }
}
