/** How a machine of LockedSections shows a world of RecorderRuns: as its memory
    with the writes that are due, one lock at a time. */
module SectionRelation {
  import opened Recording
  import opened LockedSections
  import opened SectionsAreLocal
  import Clock
  import RR = RecorderRuns

  // ----------------------------------------------------------- the relation

  /** Goroutine `g` has its reading and still holds this lock. */
  predicate DatedOn(s: Machine, g: nat, lock: nat) {
    LocalOf(s, g).Dated? && LockOf(LocalOf(s, g).step, PcOf(s, g)) == lock
  }

  ghost predicate NoneDated(s: Machine, lock: nat) {
    forall g: nat :: !DatedOn(s, g, lock)
  }

  /** No two goroutines hold one lock. */
  ghost predicate Exclusive(s: Machine) {
    forall g: nat, h: nat :: g != h && !LocalOf(s, g).Out? && !LocalOf(s, h).Out? ==>
      LockOf(LocalOf(s, g).step, PcOf(s, g)) != LockOf(LocalOf(s, h).step, PcOf(s, h))
  }

  /** A goroutine reads the clock only inside a section that decided to. */
  ghost predicate LocalInv(s: Machine, g: nat) {
    var l, c := LocalOf(s, g), Clock.PcOf(s.clock, g);
    && (!l.Out? ==> Allowed(s, g, l.step))
    && (!c.Idle? ==> l.Inside? && Times(s.base, DecidedBy(s, g, l.step), l.step) && c.raw == RawOf(l.step))
  }

  ghost predicate MemoryInv(s: Machine) {
    Shape(s.base) == s.base && |s.base.stateTime| == NUM_STATES && forall id :: id in s.marks ==> Has(s.base, id)
  }

  /** What the trace lock guards is the memory with the write that is due. */
  ghost predicate TraceRel(s: Machine, w: RR.World)
    requires |s.base.stateTime| == NUM_STATES && forall g: nat :: LocalInv(s, g)
  {
    && (NoneDated(s, 0) ==> Shape(w.trace) == s.base)
    && forall g: nat :: DatedOn(s, g, 0) && LocalInv(s, g) ==>
         Shape(w.trace) == TraceEffect(s.base, PcOf(s, g), LocalOf(s, g).step, LocalOf(s, g).now)
  }

  /** So is the mark of a span. */
  ghost predicate MarkRel(s: Machine, w: RR.World, id: nat)
    requires Has(w.trace, id)
  {
    && (NoneDated(s, id) ==> MarkAt(w.trace, id) == MarkIn(s, id))
    && forall g: nat :: DatedOn(s, g, id) ==>
         var l := LocalOf(s, g);
         MarkAt(w.trace, id) == MarkEffect(MarkIn(s, id), StartIn(s, g, l.step), l.step, l.now)
  }

  ghost predicate PcRel(s: Machine, w: RR.World, g: nat) {
    var l, pc := LocalOf(s, g), PcOf(s, g);
    RR.PcOf(w, g) == if l.Dated? then PcAfter(s.base, DecidedBy(s, g, l.step), StartIn(s, g, l.step), pc, l.step, l.now)
                     else pc
  }

  ghost predicate StateInv(s: Machine) {
    Clock.Inv(s.clock) && Exclusive(s) && MemoryInv(s) && forall g: nat :: LocalInv(s, g)
  }

  ghost predicate Rel(s: Machine, w: RR.World) {
    && StateInv(s) && Inv(w.trace) && w.trace.lastNanos == s.clock.lastNanos
    && TraceRel(s, w)
    && (forall id: nat :: Has(w.trace, id) ==> MarkRel(s, w, id))
    && (forall g: nat :: PcRel(s, w, g))
  }

  // ------------------------------------------------------------ small facts

  lemma ShapeTwice(t: Trace)
    ensures Shape(Shape(t)) == Shape(t)
  {
    assert Shape(Shape(t)).all == Shape(t).all;
  }

  /** A section under a span lock knows its span. */
  lemma SpanAllowed(s: Machine, g: nat, step: RR.Step)
    requires Allowed(s, g, step) && OnSpan(step)
    ensures Has(s.base, LockOf(step, PcOf(s, g)))
  {
  }

  /** The memory holds the spans of the trace, but for one about to be listed. */
  lemma BaseBelow(s: Machine, w: RR.World)
    requires Rel(s, w)
    ensures |s.base.all| <= |w.trace.all| && Shape(w.trace).all[..|s.base.all|] == s.base.all
  {
    if NoneDated(s, 0) {
      assert Shape(w.trace).all[..|s.base.all|] == s.base.all;
    } else {
      var g: nat :| DatedOn(s, g, 0);
      assert LocalInv(s, g);
      EffectKeepsSpans(s.base, PcOf(s, g), LocalOf(s, g).step, LocalOf(s, g).now);
    }
  }

  lemma EnabledAbove(s: Machine, w: RR.World, g: nat)
    requires Rel(s, w) && LocalOf(s, g).Inside?
    ensures RR.Enabled(w, g, LocalOf(s, g).step)
  {
    BaseBelow(s, w);
    assert LocalInv(s, g) && PcRel(s, w, g);
  }

  /** The lock a goroutine is about to date is not dated by another. */
  lemma HolderAlone(s: Machine, g: nat)
    requires Exclusive(s) && LocalOf(s, g).Inside?
    ensures NoneDated(s, LockOf(LocalOf(s, g).step, PcOf(s, g)))
  {
  }

  // ------------------------------------------------------- invisible moves

  ghost predicate SameMemory(s: Machine, s': Machine) {
    s'.base == s.base && s'.marks == s.marks && s'.pcs == s.pcs
  }

  /** The same goroutines have the same readings. */
  ghost predicate SameDated(s: Machine, s': Machine) {
    forall g: nat :: LocalOf(s', g).Dated? || LocalOf(s, g).Dated? ==> LocalOf(s', g) == LocalOf(s, g)
  }

  lemma SameDatedOn(s: Machine, s': Machine, lock: nat)
    requires SameMemory(s, s') && SameDated(s, s')
    ensures forall g: nat :: DatedOn(s', g, lock) <==> DatedOn(s, g, lock)
    ensures NoneDated(s', lock) <==> NoneDated(s, lock)
  {
    forall g: nat ensures DatedOn(s', g, lock) <==> DatedOn(s, g, lock) {}
  }

  lemma MarkRelStays(s: Machine, s': Machine, w: RR.World, id: nat)
    requires Has(w.trace, id) && MarkRel(s, w, id) && SameMemory(s, s') && SameDated(s, s')
    ensures MarkRel(s', w, id)
  {
    hide MarkEffect;
    SameDatedOn(s, s', id);
  }

  lemma TraceRelStays(s: Machine, s': Machine, w: RR.World)
    requires StateInv(s) && StateInv(s') && TraceRel(s, w) && SameMemory(s, s') && SameDated(s, s')
    ensures TraceRel(s', w)
  {
    hide TraceEffect, Shape;
    SameDatedOn(s, s', 0);
    forall g: nat ensures LocalInv(s, g) && LocalInv(s', g) {
      InvAt(s, g);
      InvAt(s', g);
    }
    hide LocalInv, StateInv;
  }

  /** Nothing is visible of a move that neither writes nor dates. */
  lemma RelStays(s: Machine, s': Machine, w: RR.World)
    requires Rel(s, w) && StateInv(s') && SameMemory(s, s') && SameDated(s, s')
    requires s'.clock.lastNanos == s.clock.lastNanos
    ensures Rel(s', w)
  {
    TraceRelStays(s, s', w);
    forall g: nat ensures PcRel(s', w, g) { assert PcRel(s, w, g); }
    forall id: nat | Has(w.trace, id) ensures MarkRel(s', w, id) { MarkRelStays(s, s', w, id); }
    hide StateInv, TraceRel, MarkRel, PcRel;
  }

  lemma InvAt(s: Machine, g: nat)
    requires StateInv(s)
    ensures LocalInv(s, g)
  {
  }

  lemma EnterKeepsInv(s: Machine, s': Machine, g: nat, action: Action)
    requires StateInv(s) && action.Enter? && Next(s, s', g, action)
    ensures StateInv(s')
  {
    forall h: nat ensures LocalInv(s', h) { assert LocalInv(s, h); }
    assert forall h: nat :: h != g ==> LocalOf(s', h) == LocalOf(s, h);
  }

  lemma TickKeepsLocal(s: Machine, s': Machine, g: nat, action: Action, h: nat)
    requires LocalInv(s, g) && LocalInv(s, h) && action.Tick? && Next(s, s', g, action)
    ensures LocalInv(s', h)
  {
    hide Times;
    assert h != g ==> LocalOf(s', h) == LocalOf(s, h) && Clock.PcOf(s'.clock, h) == Clock.PcOf(s.clock, h);
  }

  lemma TickKeepsExclusive(s: Machine, s': Machine, g: nat, action: Action)
    requires Exclusive(s) && action.Tick? && Next(s, s', g, action)
    ensures Exclusive(s')
  {
    hide Times, Clock.Next;
    assert forall h: nat :: h != g ==> LocalOf(s', h) == LocalOf(s, h);
    assert LocalOf(s, g).Inside? && !LocalOf(s', g).Out? && LocalOf(s', g).step == LocalOf(s, g).step;
  }

  lemma TickKeepsInv(s: Machine, s': Machine, g: nat, action: Action)
    requires StateInv(s) && action.Tick? && Next(s, s', g, action)
    ensures StateInv(s')
  {
    Clock.StepKeepsInv(s.clock, s'.clock, g, action.tick);
    TickKeepsExclusive(s, s', g, action);
    hide Clock.Inv, Clock.Next, Exclusive, Allowed;
    forall h: nat ensures LocalInv(s', h) {
      InvAt(s, h);
      InvAt(s, g);
      TickKeepsLocal(s, s', g, action, h);
    }
  }
}
