/** What each step of Registry does to the box it is about, over every run: a
    box that is taken again is a new trace's, a finalizer returns it, and every
    call can go on. */
module BoxLifecycle {
  import opened Registry

  /** How often a box was taken from the pool in the first `i` steps. */
  function Taken(steps: seq<Step>, b: nat, i: nat): nat
    requires i <= |steps|
  {
    if i == 0 then 0 else Taken(steps, b, i - 1) + if steps[i - 1].Acquire? && steps[i - 1].b == b then 1 else 0
  }

  lemma NextGen(w: World, step: Step, b: nat)
    requires Enabled(w, step)
    ensures |w.boxes| <= |After(w, step).boxes| <= |w.boxes| + 1
    ensures b < |w.boxes| ==>
      After(w, step).boxes[b].gen == w.boxes[b].gen + if step.Acquire? && step.b == b then 1 else 0
    ensures |w.boxes| == b < |After(w, step).boxes| ==> After(w, step).boxes[b].gen == 0
  {
    hide Reachable;
  }

  /** A box was reset as often as it was taken from the pool. */
  lemma {:induction false} GenIsTaken(run: seq<World>, steps: seq<Step>, i: nat, b: nat)
    requires Run(run, steps) && i < |run|
    ensures if b < |run[i].boxes| then run[i].boxes[b].gen == Taken(steps, b, i) else Taken(steps, b, i) == 0
  {
    if i > 0 {
      assert Enabled(run[i - 1], steps[i - 1]);
      GenIsTaken(run, steps, i - 1, b);
      NextGen(run[i - 1], steps[i - 1], b);
    }
  }

  /** A trace made in a pooled box is new: the box leaves the pool under the
      new id, and no reference made before is to the trace in it. */
  lemma TakenIsNew(run: seq<World>, steps: seq<Step>, i: nat)
    requires Run(run, steps) && i < |steps| && steps[i].Acquire?
    ensures var b, w, w' := steps[i].b, run[i], run[i + 1];
            && b < |w.boxes| == |w'.boxes| && InPool(w.pool, b) == 1 && InPool(w'.pool, b) == 0
            && PcOf(w', steps[i].g) == Made(Ref(b, w.boxes[b].gen + 1), steps[i].background)
            && Owned(w', PcOf(w', steps[i].g).t) && w'.boxes[b].id == steps[i].id
            && forall r: Ref :: r.box == b && r.gen <= w.boxes[b].gen ==> !Owned(w', r)
  {
    RunKeepsInv(run, steps, i);
    NewTraceIsFresh(run[i], steps[i]);
    assert PooledBox(run[i], steps[i].b);
    hide Recorders, Registered, Callers, Readers, Reachable;
  }

  /** Arming leaves the box with a finalizer, and the finalizer, when it runs,
      puts the box into the pool and leaves it without one. */
  lemma FinalizerReturnsBox(run: seq<World>, steps: seq<Step>, i: nat)
    requires Run(run, steps) && i < |steps|
    ensures steps[i].Arm? ==> PcOf(run[i], steps[i].g).t.box in run[i + 1].finalizers + run[i + 1].finalizing
    ensures steps[i].Collect? ==>
              var b := steps[i].b; b in run[i].finalizers && b in run[i + 1].finalizing && b !in run[i + 1].finalizers
    ensures steps[i].Recycle? ==>
              var b := steps[i].b;
              && b in run[i].finalizing && b !in run[i + 1].finalizers + run[i + 1].finalizing
              && InPool(run[i].pool, b) == 0 && InPool(run[i + 1].pool, b) == 1
  {
    RunKeepsInv(run, steps, i);
    var w := run[i];
    if steps[i].Arm? { assert Owned(w, PcOf(w, steps[i].g).t); }
    if steps[i].Recycle? { assert PooledBox(w, steps[i].b); }
    hide Registered, Callers, Readers, Reachable;
  }

  /** A caller that keeps a trace has it until it lets go of it. */
  lemma {:induction false} KeptUntilForgotten(run: seq<World>, steps: seq<Step>, g: nat, i: nat, j: nat)
    requires Run(run, steps) && i < j < |run| && steps[i] == Keep(g)
    requires Holds(PcOf(run[i], g)) && forall k :: i < k < j ==> steps[k] != Forget(PcOf(run[i], g).t)
    ensures PcOf(run[i], g).t in run[j].kept
  {
    hide Reachable;
    assert Enabled(run[j - 1], steps[j - 1]);
    if i < j - 1 { KeptUntilForgotten(run, steps, g, i, j - 1); }
  }

  // --------------------------------------------------------------- progress

  function Of(step: Step): int {
    match step
    case Evict(_) => -1
    case Forget(_) => -1
    case Collect(_) => -1
    case Recycle(_) => -1
    case _ => step.g
  }

  /** Goroutine `g` can go on. */
  ghost predicate CanStep(w: World, g: nat) {
    exists step :: Of(step) == g && Enabled(w, step)
  }

  lemma ReaderCanStep(w: World, g: nat)
    requires Inv(w) && PcOf(w, g).Cloning?
    ensures PcOf(w, g).todo == {} ==> Enabled(w, ReadUnlock(g))
    ensures forall id :: id in PcOf(w, g).todo ==> Enabled(w, Clone(g, id))
    ensures CanStep(w, g)
  {
    hide Inv;
    if PcOf(w, g).todo == {} {
      assert Of(ReadUnlock(g)) == g && Enabled(w, ReadUnlock(g));
    } else {
      var id :| id in PcOf(w, g).todo;
      assert Of(Clone(g, id)) == g && Enabled(w, Clone(g, id));
    }
  }

  /** The step a recorder takes next. */
  function NextStep(w: World, g: nat): Step
    requires Holds(PcOf(w, g))
  {
    match PcOf(w, g)
    case Made(_, _) => Register(g)
    case Running(_, _) => Close(g)
    case Closed(_, _) => Remove(g)
    case Removed(_, _) => Save(g)
    case Saved(_, background) => if background then Return(g) else Release(g)
  }

  /** How many steps a recorder is from its end. */
  function StepsLeft(pc: Pc): nat {
    match pc
    case Made(_, _) => 5
    case Running(_, _) => 4
    case Closed(_, _) => 3
    case Removed(_, _) => 2
    case Saved(_, _) => 1
    case _ => 0
  }

  /** Each brings it one step closer, to the same trace or, at last, to rest. */
  lemma NextStepIsCloser(w: World, g: nat)
    requires Holds(PcOf(w, g)) && Enabled(w, NextStep(w, g))
    ensures var pc, pc' := PcOf(w, g), PcOf(After(w, NextStep(w, g)), g);
            && StepsLeft(pc') == StepsLeft(pc) - 1
            && (if Holds(pc') then pc'.t == pc.t && pc'.background == pc.background else pc'.Idle?)
  {
    hide Reachable;
  }

  /** No call is ever stuck: in every reachable state a recorder takes its next
      step, or waits for readers, who each can go on; anybody may begin; and a
      finalizer that was taken off may run. */
  lemma CallsProceed(run: seq<World>, steps: seq<Step>, i: nat)
    requires Run(run, steps) && i < |run|
    ensures forall g: nat :: Holds(PcOf(run[i], g)) ==>
              || Enabled(run[i], NextStep(run[i], g))
              || (run[i].readers != {} && forall h :: h in run[i].readers ==> CanStep(run[i], h))
    ensures forall g: nat :: PcOf(run[i], g).Cloning? ==> CanStep(run[i], g)
    ensures forall g: nat, want: set<string> :: PcOf(run[i], g).Idle? ==> Enabled(run[i], ReadLock(g, want))
    ensures forall g: nat, id: string, background: bool :: PcOf(run[i], g).Idle? ==>
              Enabled(run[i], Allocate(g, id, background))
    ensures forall b: nat :: b in run[i].finalizing ==> Enabled(run[i], Recycle(b))
  {
    RunKeepsInv(run, steps, i);
    var w := run[i];
    forall h: nat | PcOf(w, h).Cloning? ensures CanStep(w, h) { ReaderCanStep(w, h); }
    forall g: nat | Holds(PcOf(w, g))
      ensures Enabled(w, NextStep(w, g)) || (w.readers != {} && forall h :: h in w.readers ==> CanStep(w, h))
    {
      assert Owned(w, PcOf(w, g).t);
    }
    forall b: nat | b in w.finalizing ensures Enabled(w, Recycle(b)) { assert b in w.finalizers + w.finalizing; }
    hide Registered, Callers, Reachable, CanStep;
  }
}
