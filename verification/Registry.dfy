/** Recycling (tracer.go, model/tracebox.go): goroutines that record requests
    and release their boxes, background traces whose boxes the collector
    returns, and readers that clone active traces under the read lock. A trace
    lives in its box, so a pointer to it is a box and the number of times the
    box had been reset when the pointer was made. */
module Registry {

  datatype Ref = Ref(box: nat, gen: nat)

  /** What recycling reads of a box: the trace in it, whether that trace still
      points at its box, and the flag that mirrors the finalizer. */
  datatype Box = Box(gen: nat, id: string, attached: bool, armed: bool)

  datatype Pc =
    | Idle
    | Made(t: Ref, background: bool)
    | Running(t: Ref, background: bool)
    | Closed(t: Ref, background: bool)
    | Removed(t: Ref, background: bool)
    | Saved(t: Ref, background: bool)
    | Cloning(todo: set<string>)

  /** `finalizers` are the runtime's registrations and `finalizing` the boxes
      whose finalizer has been taken off and is about to run. `kept` are
      references to background traces that callers hold elsewhere. */
  datatype World = World(boxes: seq<Box>, pool: map<nat, nat>, finalizers: set<nat>, finalizing: set<nat>,
                         active: map<string, Ref>, kept: set<Ref>, readers: set<nat>, pcs: map<nat, Pc>)

  datatype Step =
    | Allocate(g: nat, id: string, background: bool)
    | Acquire(g: nat, b: nat, id: string, background: bool)
    | Evict(b: nat)
    | Register(g: nat)
    | Arm(g: nat)
    | Keep(g: nat)
    | Forget(t: Ref)
    | Abandon(g: nat)
    | Close(g: nat)
    | Remove(g: nat)
    | Save(g: nat)
    | Release(g: nat)
    | Return(g: nat)
    | Collect(b: nat)
    | Recycle(b: nat)
    | ReadLock(g: nat, want: set<string>)
    | Clone(g: nat, id: string)
    | ReadUnlock(g: nat)

  function PcOf(w: World, g: nat): Pc {
    if g in w.pcs then w.pcs[g] else Idle
  }

  /** How often the pool holds a box. */
  function InPool(pool: map<nat, nat>, b: nat): nat {
    if b in pool then pool[b] else 0
  }

  predicate Holds(pc: Pc) {
    !pc.Idle? && !pc.Cloning?
  }

  /** What the collector follows: the pool, goroutines, the active map, callers
      and finalizers about to run. */
  ghost predicate Reachable(w: World, b: nat) {
    || InPool(w.pool, b) > 0
    || b in w.finalizing
    || (exists g: nat :: Holds(PcOf(w, g)) && PcOf(w, g).t.box == b)
    || (exists id :: id in w.active && w.active[id].box == b)
    || (exists t :: t in w.kept && t.box == b)
  }

  /** A write-locked section is one step, and waits until no reader is inside. */
  ghost predicate Enabled(w: World, step: Step) {
    match step
    case Allocate(g, _, _) => PcOf(w, g).Idle?
    case Acquire(g, b, _, _) => PcOf(w, g).Idle? && InPool(w.pool, b) > 0 && b < |w.boxes|
    case Evict(b) => InPool(w.pool, b) > 0
    case Register(g) => PcOf(w, g).Made? && PcOf(w, g).t.box < |w.boxes| && w.readers == {}
    case Arm(g) => PcOf(w, g).Running? && PcOf(w, g).background && PcOf(w, g).t.box < |w.boxes|
    case Keep(g) => Holds(PcOf(w, g)) && !PcOf(w, g).Made? && PcOf(w, g).background
    case Forget(t) => t in w.kept
    case Abandon(g) => PcOf(w, g).Running? && PcOf(w, g).background
    case Close(g) => PcOf(w, g).Running?
    case Remove(g) => PcOf(w, g).Closed? && PcOf(w, g).t.box < |w.boxes| && w.readers == {}
    case Save(g) => PcOf(w, g).Removed?
    case Release(g) => PcOf(w, g).Saved? && !PcOf(w, g).background && PcOf(w, g).t.box < |w.boxes|
    case Return(g) => PcOf(w, g).Saved? && PcOf(w, g).background
    case Collect(b) => b in w.finalizers && !Reachable(w, b)
    case Recycle(b) => b in w.finalizing && b < |w.boxes|
    case ReadLock(g, _) => PcOf(w, g).Idle?
    case Clone(g, id) => PcOf(w, g).Cloning? && id in PcOf(w, g).todo
    case ReadUnlock(g) => PcOf(w, g) == Cloning({})
  }

  function SetPc(w: World, g: nat, pc: Pc): World {
    w.(pcs := w.pcs[g := pc])
  }

  function Put(w: World, b: nat): World {
    w.(pool := w.pool[b := InPool(w.pool, b) + 1])
  }

  /** Readers: Snapshot, Live and Trace. */
  predicate Reads(step: Step) {
    step.ReadLock? || step.Clone? || step.ReadUnlock?
  }

  ghost function AfterReader(w: World, step: Step): World
    requires Reads(step) && Enabled(w, step)
  {
    match step
    case ReadLock(g, want) => SetPc(w, g, Cloning(want * w.active.Keys)).(readers := w.readers + {g})
    case Clone(g, id) => SetPc(w, g, Cloning(PcOf(w, g).todo - {id}))
    case ReadUnlock(g) => SetPc(w, g, Idle).(readers := w.readers - {g})
  }

  /** Boxes: the pool, releases and finalizers. */
  predicate Boxes(step: Step) {
    || step.Allocate? || step.Acquire? || step.Evict? || step.Arm? || step.Release? || step.Collect? || step.Recycle?
  }

  ghost function AfterBox(w: World, step: Step): World
    requires Boxes(step) && Enabled(w, step)
  {
    match step
    case Allocate(g, id, background) =>
      SetPc(w, g, Made(Ref(|w.boxes|, 0), background)).(boxes := w.boxes + [Box(0, id, true, false)])
    case Acquire(g, b, id, background) =>
      var box := w.boxes[b].(gen := w.boxes[b].gen + 1, id := id, attached := true);
      SetPc(w, g, Made(Ref(b, box.gen), background)).(boxes := w.boxes[b := box],
          pool := w.pool[b := InPool(w.pool, b) - 1])
    case Evict(b) => w.(pool := w.pool[b := InPool(w.pool, b) - 1])
    case Arm(g) =>
      var b := PcOf(w, g).t.box;
      if !w.boxes[b].attached || w.boxes[b].armed then w
      else w.(boxes := w.boxes[b := w.boxes[b].(armed := true)], finalizers := w.finalizers + {b})
    case Release(g) =>
      var b := PcOf(w, g).t.box;
      var idle := SetPc(w, g, Idle);
      if !w.boxes[b].attached then idle
      else Put(idle.(boxes := w.boxes[b := w.boxes[b].(attached := false)]), b)
    case Collect(b) => w.(finalizers := w.finalizers - {b}, finalizing := w.finalizing + {b})
    case Recycle(b) =>
      Put(w.(boxes := w.boxes[b := w.boxes[b].(armed := false)], finalizing := w.finalizing - {b}), b)
  }

  /** Recorders: what becomes of a trace between NewTrace and Release. */
  ghost function AfterRecorder(w: World, step: Step): World
    requires !Reads(step) && !Boxes(step) && Enabled(w, step)
  {
    match step
    case Register(g) =>
      var pc := PcOf(w, g);
      SetPc(w, g, Running(pc.t, pc.background)).(active := w.active[w.boxes[pc.t.box].id := pc.t])
    case Keep(g) => w.(kept := w.kept + {PcOf(w, g).t})
    case Forget(t) => w.(kept := w.kept - {t})
    case Abandon(g) => SetPc(w, g, Idle)
    case Close(g) => SetPc(w, g, Closed(PcOf(w, g).t, PcOf(w, g).background))
    case Remove(g) =>
      var pc := PcOf(w, g);
      SetPc(w, g, Removed(pc.t, pc.background)).(active := w.active - {w.boxes[pc.t.box].id})
    case Save(g) => SetPc(w, g, Saved(PcOf(w, g).t, PcOf(w, g).background))
    case Return(g) => SetPc(w, g, Idle)
  }

  ghost function After(w: World, step: Step): World
    requires Enabled(w, step)
  {
    if Reads(step) then AfterReader(w, step)
    else if Boxes(step) then AfterBox(w, step)
    else AfterRecorder(w, step)
  }

  ghost predicate Run(run: seq<World>, steps: seq<Step>) {
    && |run| == |steps| + 1
    && run[0] == World([], map[], {}, {}, map[], {}, {}, map[])
    && forall i :: 0 <= i < |steps| ==> Enabled(run[i], steps[i]) && run[i + 1] == After(run[i], steps[i])
  }

  // -------------------------------------------------------------- invariants

  /** The memory behind a reference still belongs to the trace it was made for. */
  ghost predicate Owned(w: World, t: Ref) {
    && t.box < |w.boxes|
    && w.boxes[t.box].gen == t.gen
    && w.boxes[t.box].attached
    && InPool(w.pool, t.box) == 0
    && t.box !in w.finalizing
  }

  /** Recorders own their boxes alone; a request's box has no finalizer. */
  ghost predicate Recorders(w: World) {
    && (forall g: nat :: Holds(PcOf(w, g)) ==>
          Owned(w, PcOf(w, g).t) && (!PcOf(w, g).background ==> !w.boxes[PcOf(w, g).t.box].armed))
    && (forall g: nat, h: nat :: g != h && Holds(PcOf(w, g)) && Holds(PcOf(w, h)) ==>
        PcOf(w, g).t.box != PcOf(w, h).t.box)
  }

  /** An active trace is owned, stands under its own id, and whoever records it
      has registered it and not taken it off again. */
  ghost predicate Registered(w: World) {
    && (forall id :: id in w.active ==> Owned(w, w.active[id]) && w.boxes[w.active[id].box].id == id)
    && (forall id, g: nat :: id in w.active && Holds(PcOf(w, g)) && PcOf(w, g).t.box == w.active[id].box ==>
          PcOf(w, g).Running? || PcOf(w, g).Closed?)
  }

  /** What callers keep is a background trace. */
  ghost predicate Callers(w: World) {
    && (forall t :: t in w.kept ==> Owned(w, t))
    && (forall t, g: nat :: t in w.kept && Holds(PcOf(w, g)) && PcOf(w, g).t.box == t.box ==> PcOf(w, g).background)
  }

  ghost predicate PooledBox(w: World, b: nat) {
    InPool(w.pool, b) <= 1 && (InPool(w.pool, b) > 0 ==> b < |w.boxes| && !w.boxes[b].armed)
  }

  ghost predicate Pooled(w: World) {
    forall b: nat :: PooledBox(w, b)
  }

  /** A box is armed while it has a finalizer, registered or taken off to run. */
  ghost predicate Armed(w: World) {
    && (forall b: nat :: (b < |w.boxes| && w.boxes[b].armed) <==> b in w.finalizers + w.finalizing)
    && w.finalizers !! w.finalizing
  }

  ghost predicate Readers(w: World) {
    && (forall g: nat :: PcOf(w, g).Cloning? <==> g in w.readers)
    && (forall g: nat :: PcOf(w, g).Cloning? ==> PcOf(w, g).todo <= w.active.Keys)
  }

  ghost predicate Inv(w: World) {
    Recorders(w) && Registered(w) && Callers(w) && Pooled(w) && Armed(w) && Readers(w)
  }

  /** A box changes hands only from the pool, from its recorder, or from the
      collector. */
  ghost predicate Lets(w: World, step: Step, b: nat) {
    match step
    case Release(g) => PcOf(w, g).Saved? && PcOf(w, g).t.box == b
    case Collect(c) => c == b
    case _ => false
  }

  /** Boxes change hands without touching the active map, callers or readers. */
  lemma BoxesKeepTable(w: World, step: Step)
    requires Boxes(step) && Enabled(w, step)
    ensures var w' := AfterBox(w, step); w'.active == w.active && w'.readers == w.readers && w'.kept == w.kept
  {
    hide Reachable, Enabled;
  }

  lemma RecordersKeepMemory(w: World, step: Step)
    requires !Reads(step) && !Boxes(step) && Enabled(w, step)
    ensures var w' := AfterRecorder(w, step); w'.boxes == w.boxes && w'.pool == w.pool && w'.readers == w.readers
    ensures var w' := AfterRecorder(w, step); w'.finalizers == w.finalizers && w'.finalizing == w.finalizing
    ensures !step.Register? && !step.Remove? ==> AfterRecorder(w, step).active == w.active
  {
    hide Reachable, Enabled;
  }

  lemma ReadersKeepAll(w: World, step: Step)
    requires Reads(step) && Enabled(w, step)
    ensures var w' := AfterReader(w, step); w' == w.(readers := w'.readers, pcs := w'.pcs)
  {
    hide Reachable, Enabled;
  }

  lemma OwnedStays(w: World, step: Step, t: Ref)
    requires Inv(w) && Enabled(w, step) && Owned(w, t) && !Lets(w, step, t.box)
    ensures Owned(After(w, step), t) && After(w, step).boxes[t.box].id == w.boxes[t.box].id
  {
    hide Recorders, Registered, Callers, Readers, Armed, Reachable;
  }

  lemma HoldersStay(w: World, step: Step, g: nat)
    requires Enabled(w, step) && Holds(PcOf(After(w, step), g))
    ensures var pc, pc' := PcOf(w, g), PcOf(After(w, step), g);
            if Holds(pc) then pc'.t == pc.t && pc'.background == pc.background
            else (step.Allocate? || step.Acquire?) && step.g == g && pc'.Made?
  {
    hide Reachable;
  }

  /** A new trace gets a box nobody has a reference to. */
  lemma NewTraceIsFresh(w: World, step: Step)
    requires Inv(w) && Enabled(w, step) && (step.Allocate? || step.Acquire?)
    ensures var t := PcOf(After(w, step), step.g).t;
            && Owned(After(w, step), t) && !After(w, step).boxes[t.box].armed
            && forall r :: Owned(w, r) ==> r.box != t.box
  {
    hide Recorders, Registered, Callers, Readers, Reachable;
    if step.Acquire? { assert PooledBox(w, step.b) && step.b !in w.finalizers + w.finalizing; }
    else { assert PooledBox(w, |w.boxes|) && |w.boxes| !in w.finalizers + w.finalizing; }
  }

  lemma HolderLetsNone(w: World, step: Step, g: nat)
    requires Inv(w) && Enabled(w, step) && Holds(PcOf(w, g)) && Holds(PcOf(After(w, step), g))
    ensures !Lets(w, step, PcOf(w, g).t.box)
  {
    hide Registered, Callers, Readers, Pooled, Armed, Owned;
  }

  lemma StepKeepsRecorders(w: World, step: Step)
    requires Inv(w) && Enabled(w, step)
    ensures Recorders(After(w, step))
  {
    var w' := After(w, step);
    forall g: nat | Holds(PcOf(w', g))
      ensures Owned(w', PcOf(w', g).t) && (!PcOf(w', g).background ==> !w'.boxes[PcOf(w', g).t.box].armed)
    {
      HoldersStay(w, step, g);
      if Holds(PcOf(w, g)) {
        HolderLetsNone(w, step, g);
        OwnedStays(w, step, PcOf(w, g).t);
        if !PcOf(w, g).background { ArmedOnlyByArm(w, step, g); }
      } else {
        NewTraceIsFresh(w, step);
      }
    }
    forall g: nat, h: nat | g != h && Holds(PcOf(w', g)) && Holds(PcOf(w', h))
      ensures PcOf(w', g).t.box != PcOf(w', h).t.box
    {
      HoldersStay(w, step, g);
      HoldersStay(w, step, h);
      if !Holds(PcOf(w, g)) || !Holds(PcOf(w, h)) { NewTraceIsFresh(w, step); }
      hide After, Owned, Enabled, Lets;
    }
  }

  /** A request's box gets no finalizer. */
  lemma ArmedOnlyByArm(w: World, step: Step, g: nat)
    requires Inv(w) && Enabled(w, step) && Holds(PcOf(w, g)) && !PcOf(w, g).background
    ensures var b := PcOf(w, g).t.box; b < |After(w, step).boxes| && !After(w, step).boxes[b].armed
  {
    hide Registered, Callers, Readers, Reachable;
    assert Owned(w, PcOf(w, g).t);
  }

  lemma ActiveStays(w: World, step: Step, id: string)
    requires Inv(w) && Enabled(w, step) && id in After(w, step).active
    ensures if step.Register? && PcOf(w, step.g).t == After(w, step).active[id]
            then w.boxes[PcOf(w, step.g).t.box].id == id
                || (id in w.active && After(w, step).active[id] == w.active[id])
            else id in w.active && After(w, step).active[id] == w.active[id]
    ensures step.Remove? ==> id != w.boxes[PcOf(w, step.g).t.box].id
  {
    hide Recorders, Registered, Callers, Readers, Reachable, Pooled, Armed;
  }

  lemma ActiveLetsNone(w: World, step: Step, id: string)
    requires Inv(w) && Enabled(w, step) && id in w.active
    ensures !Lets(w, step, w.active[id].box)
  {
    hide Recorders, Callers, Readers, Pooled, Armed, Owned;
  }

  lemma ActiveOwned(w: World, step: Step, id: string)
    requires Inv(w) && Enabled(w, step) && id in After(w, step).active
    ensures Owned(After(w, step), After(w, step).active[id])
    ensures After(w, step).boxes[After(w, step).active[id].box].id == id
  {
    ActiveStays(w, step, id);
    var t := After(w, step).active[id];
    if id in w.active && w.active[id] == t {
      ActiveLetsNone(w, step, id);
    } else {
      assert Owned(w, t) && !Lets(w, step, t.box);
    }
    OwnedStays(w, step, t);
  }

  lemma ActiveRecorded(w: World, step: Step, id: string, g: nat)
    requires Inv(w) && Enabled(w, step) && id in After(w, step).active
    requires Holds(PcOf(After(w, step), g)) && PcOf(After(w, step), g).t.box == After(w, step).active[id].box
    ensures PcOf(After(w, step), g).Running? || PcOf(After(w, step), g).Closed?
  {
    ActiveStays(w, step, id);
    HoldersStay(w, step, g);
    if !Holds(PcOf(w, g)) { NewTraceIsFresh(w, step); }
    hide Callers, Readers, Reachable, Pooled, Armed, Lets, Recorders, Owned;
  }

  lemma StepKeepsRegistered(w: World, step: Step)
    requires Inv(w) && Enabled(w, step)
    ensures Registered(After(w, step))
  {
    var w' := After(w, step);
    forall id | id in w'.active ensures Owned(w', w'.active[id]) && w'.boxes[w'.active[id].box].id == id {
      ActiveOwned(w, step, id);
    }
    forall id, g: nat | id in w'.active && Holds(PcOf(w', g)) && PcOf(w', g).t.box == w'.active[id].box
      ensures PcOf(w', g).Running? || PcOf(w', g).Closed?
    {
      ActiveRecorded(w, step, id, g);
    }
  }

  lemma KeptOwned(w: World, step: Step, t: Ref)
    requires Inv(w) && Enabled(w, step) && t in After(w, step).kept
    ensures Owned(After(w, step), t)
  {
    assert Owned(w, t) && !Lets(w, step, t.box) by {
      hide Registered, Readers, Pooled, Armed, Owned;
    }
    OwnedStays(w, step, t);
  }

  lemma KeptInBackground(w: World, step: Step, t: Ref, g: nat)
    requires Inv(w) && Enabled(w, step) && t in After(w, step).kept
    requires Holds(PcOf(After(w, step), g)) && PcOf(After(w, step), g).t.box == t.box
    ensures PcOf(After(w, step), g).background
  {
    HoldersStay(w, step, g);
    if !Holds(PcOf(w, g)) { NewTraceIsFresh(w, step); }
    hide Registered, Readers, Reachable, Pooled, Armed;
  }

  lemma StepKeepsCallers(w: World, step: Step)
    requires Inv(w) && Enabled(w, step)
    ensures Callers(After(w, step))
  {
    var w' := After(w, step);
    forall t | t in w'.kept ensures Owned(w', t) { KeptOwned(w, step, t); }
    forall t, g: nat | t in w'.kept && Holds(PcOf(w', g)) && PcOf(w', g).t.box == t.box
      ensures PcOf(w', g).background
    {
      KeptInBackground(w, step, t, g);
    }
  }

  lemma ReleaseKeepsPooled(w: World, step: Step)
    requires Inv(w) && Enabled(w, step) && step.Release?
    ensures Pooled(After(w, step))
  {
    hide Registered, Callers, Readers, Reachable, Armed;
    assert Owned(w, PcOf(w, step.g).t);
    forall b: nat ensures PooledBox(After(w, step), b) { assert PooledBox(w, b); }
  }

  lemma RecycleKeepsPooled(w: World, step: Step)
    requires Inv(w) && Enabled(w, step) && step.Recycle?
    ensures Pooled(After(w, step))
  {
    hide Recorders, Registered, Callers, Readers, Reachable;
    assert step.b in w.finalizers + w.finalizing;
    assert PooledBox(w, step.b);
    forall b: nat ensures PooledBox(After(w, step), b) { assert PooledBox(w, b); }
  }

  lemma ArmKeepsPooled(w: World, step: Step)
    requires Inv(w) && Enabled(w, step) && step.Arm?
    ensures Pooled(After(w, step))
  {
    hide Registered, Callers, Readers, Reachable, Armed;
    assert Owned(w, PcOf(w, step.g).t);
    forall b: nat ensures PooledBox(After(w, step), b) { assert PooledBox(w, b); }
  }

  /** The other steps put nothing into the pool and arm no box. */
  lemma OtherKeepsPooled(w: World, step: Step)
    requires Pooled(w) && Enabled(w, step) && !step.Release? && !step.Recycle? && !step.Arm?
    ensures Pooled(After(w, step))
  {
    hide Reachable;
    forall b: nat ensures PooledBox(After(w, step), b) { assert PooledBox(w, b); }
  }

  lemma StepKeepsPooled(w: World, step: Step)
    requires Inv(w) && Enabled(w, step)
    ensures Pooled(After(w, step))
  {
    if step.Release? { ReleaseKeepsPooled(w, step); }
    else if step.Recycle? { RecycleKeepsPooled(w, step); }
    else if step.Arm? { ArmKeepsPooled(w, step); }
    else { OtherKeepsPooled(w, step); }
  }

  lemma StepKeepsArmed(w: World, step: Step)
    requires Inv(w) && Enabled(w, step)
    ensures Armed(After(w, step))
  {
    hide Recorders, Registered, Callers, Readers, Reachable;
  }

  /** The active map only changes under the write lock. */
  lemma ReadersHoldActive(w: World, step: Step)
    requires Enabled(w, step) && w.readers != {}
    ensures After(w, step).active == w.active
  {
    hide AfterReader, AfterBox, AfterRecorder, Reachable;
    if Reads(step) { ReadersKeepAll(w, step); }
    else if Boxes(step) { BoxesKeepTable(w, step); }
    else { RecordersKeepMemory(w, step); }
  }

  lemma ReaderSteps(w: World, step: Step, g: nat)
    requires Readers(w) && Enabled(w, step) && Reads(step)
    ensures PcOf(After(w, step), g).Cloning? <==> g in After(w, step).readers
    ensures PcOf(After(w, step), g).Cloning? ==>
              (PcOf(w, g).Cloning? && PcOf(After(w, step), g).todo <= PcOf(w, g).todo)
              || (step.ReadLock? && PcOf(After(w, step), g).todo <= After(w, step).active.Keys)
  {
    hide Reachable, AfterBox, AfterRecorder;
  }

  /** The other steps let no goroutine in or out. */
  lemma BoxSteps(w: World, step: Step, g: nat)
    requires Enabled(w, step) && Boxes(step)
    ensures PcOf(w, g).Cloning? || PcOf(After(w, step), g).Cloning? ==> PcOf(After(w, step), g) == PcOf(w, g)
  {
    hide Reachable, AfterReader, AfterRecorder;
  }

  lemma RecorderSteps(w: World, step: Step, g: nat)
    requires Enabled(w, step) && !Reads(step) && !Boxes(step)
    ensures PcOf(w, g).Cloning? || PcOf(After(w, step), g).Cloning? ==> PcOf(After(w, step), g) == PcOf(w, g)
  {
    hide Reachable, AfterReader, AfterBox;
  }

  lemma StepKeepsReaders(w: World, step: Step)
    requires Inv(w) && Enabled(w, step)
    ensures Readers(After(w, step))
  {
    hide Recorders, Registered, Callers, Pooled, Armed, AfterReader, AfterBox, AfterRecorder, Enabled;
    var w' := After(w, step);
    forall g: nat
      ensures PcOf(w', g).Cloning? <==> g in w'.readers
      ensures PcOf(w', g).Cloning? ==> PcOf(w', g).todo <= w'.active.Keys
    {
      if Reads(step) { ReaderSteps(w, step, g); }
      else if Boxes(step) { BoxSteps(w, step, g); BoxesKeepTable(w, step); }
      else { RecorderSteps(w, step, g); RecordersKeepMemory(w, step); }
      if PcOf(w, g).Cloning? {
        assert g in w.readers;
        ReadersHoldActive(w, step);
      }
    }
  }

  lemma {:induction false} RunKeepsInv(run: seq<World>, steps: seq<Step>, i: nat)
    requires Run(run, steps) && i < |run|
    ensures Inv(run[i])
  {
    if i > 0 {
      RunKeepsInv(run, steps, i - 1);
      var w, step := run[i - 1], steps[i - 1];
      StepKeepsRecorders(w, step);
      StepKeepsRegistered(w, step);
      StepKeepsCallers(w, step);
      StepKeepsPooled(w, step);
      StepKeepsArmed(w, step);
      StepKeepsReaders(w, step);
    }
  }
}
