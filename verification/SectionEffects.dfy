/** A section takes effect when it is dated, and its write shows nothing new. */
module SectionEffects {
  import opened Recording
  import opened LockedSections
  import opened SectionsAreLocal
  import opened SectionRelation
  import Clock
  import RR = RecorderRuns

  // --------------------------------------------------------- taking effect

  /** Goroutine `g` gets past its reading, if its section takes one. */
  ghost predicate Dates(s: Machine, s': Machine, g: nat, step: RR.Step, now: int) {
    SameMemory(s, s') && LocalOf(s, g) == Inside(step) && s'.locals == s.locals[g := Dated(step, now)]
  }

  lemma DatedThen(s: Machine, s': Machine, g: nat, step: RR.Step, now: int, lock: nat)
    requires Dates(s, s', g, step, now) && Exclusive(s)
    ensures forall h: nat :: DatedOn(s', h, lock) <==>
      if h == g then LockOf(step, PcOf(s, g)) == lock else DatedOn(s, h, lock)
    ensures forall h: nat :: h != g ==> LocalOf(s', h) == LocalOf(s, h)
    ensures LocalOf(s', g) == Dated(step, now) && !DatedOn(s, g, lock)
    ensures LockOf(step, PcOf(s, g)) == lock ==> NoneDated(s, lock)
    ensures LockOf(step, PcOf(s, g)) != lock ==> (NoneDated(s', lock) <==> NoneDated(s, lock))
  {
    if LockOf(step, PcOf(s, g)) == lock { HolderAlone(s, g); }
    forall h: nat ensures LocalOf(s', h) == if h == g then Dated(step, now) else LocalOf(s, h) {}
    hide LockOf;
    forall h: nat ensures DatedOn(s', h, lock) <==>
        if h == g then LockOf(step, PcOf(s, g)) == lock else DatedOn(s, h, lock) {}
  }

  /** What the section decides by is what the abstract trace shows. */
  lemma SameDecision(s: Machine, w: RR.World, g: nat)
    requires Rel(s, w) && LocalOf(s, g).Inside?
    ensures var step, pc := LocalOf(s, g).step, PcOf(s, g);
            && Allowed(s, g, step) && RR.Enabled(w, g, step) && RR.PcOf(w, g) == pc
            && (!OnSpan(step) ==> Shape(w.trace) == s.base)
            && (OnSpan(step) ==> Has(w.trace, SpanId(step, pc)))
            && MarkFor(w.trace, pc, step) == DecidedBy(s, g, step) && StartFor(w.trace, pc, step) == StartIn(s, g, step)
  {
    var step, pc := LocalOf(s, g).step, PcOf(s, g);
    assert LocalInv(s, g) && PcRel(s, w, g);
    EnabledAbove(s, w, g);
    HolderAlone(s, g);
    BaseBelow(s, w);
    if OnSpan(step) {
      SpanAllowed(s, g, step);
      var id := SpanId(step, pc);
      assert MarkRel(s, w, id);
      assert Shape(w.trace).all[..|s.base.all|][id - 1] == Shape(w.trace).all[id - 1];
    }
  }

  lemma TraceDates(s: Machine, s': Machine, w: RR.World, g: nat, step: RR.Step, now: int)
    requires Rel(s, w) && StateInv(s') && Dates(s, s', g, step, now) && RR.Enabled(w, g, step)
    requires Times(s.base, DecidedBy(s, g, step), step) ==> now == Clock.NextReading(w.trace.lastNanos, RawOf(step))
    ensures TraceRel(s', RR.After(w, g, step))
  {
    hide RR.After, RR.Enabled, Times, TraceEffect, MarkEffect, PcAfter, Inv;
    SameDecision(s, w, g);
    DatedThen(s, s', g, step, now, 0);
    InvAt(s, g);
    var w', reading := RR.After(w, g, step), Clock.NextReading(w.trace.lastNanos, RawOf(step));
    if OnSpan(step) {
      SpanAllowed(s, g, step);
      SpanSectionIsLocal(w, g, step);
      forall h: nat | DatedOn(s', h, 0) ensures LocalInv(s, h) && DatedOn(s, h, 0) && h != g { InvAt(s, h); }
    } else {
      TraceSectionIsLocal(w, g, step);
      if !Times(s.base, UNMARKED, step) { ReadingUnused(s.base, UNMARKED, 0, PcOf(s, g), step, now, reading); }
    }
    hide StateInv, LocalInv, Shape, Allowed, MarkRel;
  }

  /** Only recorded spans are locked or marked. */
  lemma UnknownSpan(s: Machine, w: RR.World, id: nat)
    requires Rel(s, w) && id > 0 && !Has(w.trace, id)
    ensures NoneDated(s, id) && MarkIn(s, id) == UNMARKED
  {
    BaseBelow(s, w);
    forall h: nat ensures !DatedOn(s, h, id) {
      if DatedOn(s, h, id) {
        InvAt(s, h);
        SpanAllowed(s, h, LocalOf(s, h).step);
      }
    }
  }

  lemma TraceSectionKeepsMark(s: Machine, s': Machine, w: RR.World, g: nat, step: RR.Step, now: int, id: nat)
    requires Rel(s, w) && Dates(s, s', g, step, now) && RR.Enabled(w, g, step) && !OnSpan(step)
    requires Has(RR.After(w, g, step).trace, id)
    ensures MarkRel(s', RR.After(w, g, step), id)
  {
    hide RR.After, RR.Enabled, Allowed, TraceEffect, MarkEffect, PcAfter, Inv, Shape, LocalInv, MemoryInv, TraceRel;
    DatedThen(s, s', g, step, now, id);
    TraceSectionMarks(w, g, step);
    if Has(w.trace, id) {
      assert MarkRel(s, w, id);
    } else {
      UnknownSpan(s, w, id);
    }
  }

  /** Without a reading the section does the same whatever the reading. */
  lemma SameEffect(s: Machine, w: RR.World, g: nat, step: RR.Step, now: int)
    requires Rel(s, w) && LocalOf(s, g) == Inside(step)
    requires Times(s.base, DecidedBy(s, g, step), step) ==> now == Clock.NextReading(w.trace.lastNanos, RawOf(step))
    ensures var m, start, reading := DecidedBy(s, g, step), StartIn(s, g, step),
      Clock.NextReading(w.trace.lastNanos, RawOf(step));
            && MarkEffect(m, start, step, now) == MarkEffect(m, start, step, reading)
            && PcAfter(s.base, m, start, PcOf(s, g), step, now) == PcAfter(s.base, m, start, PcOf(s, g), step, reading)
  {
    InvAt(s, g);
    var m, start, reading := DecidedBy(s, g, step), StartIn(s, g, step),
        Clock.NextReading(w.trace.lastNanos, RawOf(step));
    if !Times(s.base, m, step) { ReadingUnused(s.base, m, start, PcOf(s, g), step, now, reading); }
    hide Rel, Times, MarkEffect, PcAfter, DecidedBy, StartIn;
  }

  lemma SpanSectionMarks(s: Machine, s': Machine, w: RR.World, g: nat, step: RR.Step, now: int, id: nat)
    requires Rel(s, w) && Dates(s, s', g, step, now) && RR.Enabled(w, g, step) && OnSpan(step)
    requires Times(s.base, DecidedBy(s, g, step), step) ==> now == Clock.NextReading(w.trace.lastNanos, RawOf(step))
    requires Has(RR.After(w, g, step).trace, id)
    ensures MarkRel(s', RR.After(w, g, step), id)
  {
    hide RR.After, RR.Enabled, Allowed, Times, PcAfter, MarkEffect, Inv, LocalInv, MemoryInv, TraceRel;
    SameDecision(s, w, g);
    DatedThen(s, s', g, step, now, id);
    SpanSectionIsLocal(w, g, step);
    assert Has(w.trace, id) && MarkRel(s, w, id);
    SameEffect(s, w, g, step, now);
  }

  /** Only a section under the trace lock goes by the trace. */
  lemma SamePcAfter(b: Trace, c: Trace, m: Mark, start: int, pc: RR.Pc, step: RR.Step, now: int)
    requires OnSpan(step) || b == c
    ensures PcAfter(b, m, start, pc, step, now) == PcAfter(c, m, start, pc, step, now)
  {
  }

  lemma OwnPcDates(s: Machine, s': Machine, w: RR.World, g: nat, step: RR.Step, now: int)
    requires Rel(s, w) && Dates(s, s', g, step, now) && RR.Enabled(w, g, step)
    requires Times(s.base, DecidedBy(s, g, step), step) ==> now == Clock.NextReading(w.trace.lastNanos, RawOf(step))
    ensures PcRel(s', RR.After(w, g, step), g)
  {
    hide RR.After, RR.Enabled, Allowed, Times, PcAfter, MarkEffect, Inv, StateInv, TraceRel, MarkRel;
    SameDecision(s, w, g);
    SectionMovesPc(w, g, step);
    SameEffect(s, w, g, step, now);
    assert LocalOf(s', g) == Dated(step, now);
    SamePcAfter(Shape(w.trace), s.base, DecidedBy(s, g, step), StartIn(s, g, step), PcOf(s, g), step,
                Clock.NextReading(w.trace.lastNanos, RawOf(step)));
  }

  lemma PcDates(s: Machine, s': Machine, w: RR.World, g: nat, step: RR.Step, now: int, h: nat)
    requires Rel(s, w) && Dates(s, s', g, step, now) && RR.Enabled(w, g, step)
    requires Times(s.base, DecidedBy(s, g, step), step) ==> now == Clock.NextReading(w.trace.lastNanos, RawOf(step))
    ensures PcRel(s', RR.After(w, g, step), h)
  {
    hide RR.After, RR.Enabled, Allowed, Times, PcAfter, MarkEffect, Inv, StateInv, TraceRel, MarkRel;
    if h == g {
      OwnPcDates(s, s', w, g, step, now);
    } else {
      SectionKeepsOthers(w, g, step, h);
      assert PcRel(s, w, h) && LocalOf(s', h) == LocalOf(s, h);
    }
  }

  /** The section takes effect on the abstract trace when it is dated. */
  lemma DatingRefines(s: Machine, s': Machine, w: RR.World, g: nat, step: RR.Step, now: int)
    requires Rel(s, w) && StateInv(s') && Dates(s, s', g, step, now) && RR.Enabled(w, g, step)
    requires var reading := Clock.NextReading(w.trace.lastNanos, RawOf(step));
             if Times(s.base, DecidedBy(s, g, step), step) then now == reading == s'.clock.lastNanos
             else s'.clock.lastNanos == s.clock.lastNanos
    ensures Rel(s', RR.After(w, g, step))
  {
    RR.StepKeepsTrace(w, g, step);
    SameDecision(s, w, g);
    SectionMovesClock(w, g, step);
    TraceDates(s, s', w, g, step, now);
    forall h: nat ensures PcRel(s', RR.After(w, g, step), h) { PcDates(s, s', w, g, step, now, h); }
    forall id: nat | Has(RR.After(w, g, step).trace, id) ensures MarkRel(s', RR.After(w, g, step), id) {
      if OnSpan(step) { SpanSectionMarks(s, s', w, g, step, now, id); }
      else { TraceSectionKeepsMark(s, s', w, g, step, now, id); }
    }
    hide StateInv, LocalInv, Inv, Shape, TraceRel, RR.After, RR.Enabled, Allowed, MarkRel, PcRel;
  }

  // ---------------------------------------------------------------- writing

  /** Goroutine `g` writes what it dated and unlocks. */
  ghost predicate Writes(s: Machine, s': Machine, g: nat, step: RR.Step, now: int) {
    && LocalOf(s, g) == Dated(step, now) && |s.base.stateTime| == NUM_STATES && Allowed(s, g, step)
    && s' == Written(s, g, step, now)
  }

  lemma OthersWait(s: Machine, s': Machine, g: nat, step: RR.Step, now: int)
    requires Writes(s, s', g, step, now)
    ensures LocalOf(s', g).Out?
    ensures forall h: nat :: h != g ==> LocalOf(s', h) == LocalOf(s, h) && PcOf(s', h) == PcOf(s, h)
  {
  }

  /** Its lock is free then, and what other locks' holders dated is as it was. */
  lemma DatedStill(s: Machine, s': Machine, g: nat, step: RR.Step, now: int, lock: nat)
    requires Writes(s, s', g, step, now) && Exclusive(s)
    ensures forall h: nat :: DatedOn(s', h, lock) <==> h != g && DatedOn(s, h, lock)
    ensures LockOf(step, PcOf(s, g)) == lock ==> NoneDated(s', lock)
    ensures LockOf(step, PcOf(s, g)) != lock ==> (NoneDated(s', lock) <==> NoneDated(s, lock)) && !DatedOn(s, g, lock)
  {
    OthersWait(s, s', g, step, now);
  }

  lemma WriteGrows(s: Machine, s': Machine, g: nat, step: RR.Step, now: int)
    requires Writes(s, s', g, step, now)
    ensures |s.base.all| <= |s'.base.all| && s'.base.all[..|s.base.all|] == s.base.all
    ensures |s'.base.stateTime| == NUM_STATES && (OnSpan(step) ==> s'.base == s.base)
    ensures forall id: nat :: id != LockOf(step, PcOf(s, g)) ==> MarkIn(s', id) == MarkIn(s, id)
  {
    if !OnSpan(step) { EffectKeepsSpans(s.base, PcOf(s, g), step, now); }
    hide TraceEffect;
  }

  /** What another goroutine's section goes by is guarded by its own lock. */
  lemma SameForOthers(s: Machine, s': Machine, g: nat, step: RR.Step, now: int, h: nat)
    requires Writes(s, s', g, step, now) && Exclusive(s) && LocalInv(s, h) && h != g && !LocalOf(s, h).Out?
    ensures var other := LocalOf(s, h).step;
            && Allowed(s', h, other) && DecidedBy(s', h, other) == DecidedBy(s, h, other)
            && StartIn(s', h, other) == StartIn(s, h, other)
            && (!OnSpan(other) ==> s'.base == s.base)
  {
    OthersWait(s, s', g, step, now);
    WriteGrows(s, s', g, step, now);
    var other := LocalOf(s, h).step;
    assert LockOf(other, PcOf(s, h)) != LockOf(step, PcOf(s, g));
    if OnSpan(other) {
      SpanAllowed(s, h, other);
      var id := SpanId(other, PcOf(s, h));
      assert s'.base.all[..|s.base.all|][id - 1] == s.base.all[id - 1];
    }
    hide TraceEffect, Written;
  }

  lemma WriteKeepsLocal(s: Machine, s': Machine, g: nat, step: RR.Step, now: int, h: nat)
    requires Writes(s, s', g, step, now) && StateInv(s)
    ensures LocalInv(s', h)
  {
    OthersWait(s, s', g, step, now);
    InvAt(s, h);
    InvAt(s, g);
    if h != g && !LocalOf(s, h).Out? {
      SameForOthers(s, s', g, step, now, h);
      hide Allowed;
    }
    hide Written;
  }

  /** What is written is what the abstract trace already shows. */
  lemma TraceWritten(s: Machine, s': Machine, w: RR.World, g: nat, step: RR.Step, now: int)
    requires Rel(s, w) && Writes(s, s', g, step, now) && !OnSpan(step)
    ensures s'.base == Shape(w.trace)
  {
    InvAt(s, g);
    assert DatedOn(s, g, 0);
  }

  lemma WriteKeepsMemory(s: Machine, s': Machine, w: RR.World, g: nat, step: RR.Step, now: int)
    requires Rel(s, w) && Writes(s, s', g, step, now)
    ensures MemoryInv(s')
  {
    WriteGrows(s, s', g, step, now);
    if OnSpan(step) {
      SpanAllowed(s, g, step);
    } else {
      TraceWritten(s, s', w, g, step, now);
      ShapeTwice(w.trace);
    }
    hide TraceEffect, Shape;
  }

  lemma WriteKeepsInv(s: Machine, s': Machine, w: RR.World, g: nat, step: RR.Step, now: int)
    requires Rel(s, w) && Writes(s, s', g, step, now)
    ensures StateInv(s')
  {
    WriteKeepsMemory(s, s', w, g, step, now);
    forall h: nat ensures LocalInv(s', h) { WriteKeepsLocal(s, s', g, step, now, h); }
    OthersWait(s, s', g, step, now);
    assert s'.clock == s.clock;
    hide Writes, LocalInv, MemoryInv, Clock.Inv;
  }

  lemma TraceRelWritten(s: Machine, s': Machine, w: RR.World, g: nat, step: RR.Step, now: int)
    requires Rel(s, w) && Writes(s, s', g, step, now) && StateInv(s')
    ensures TraceRel(s', w)
  {
    DatedStill(s, s', g, step, now, 0);
    OthersWait(s, s', g, step, now);
    WriteGrows(s, s', g, step, now);
    if OnSpan(step) {
      InvAt(s, g);
      SpanAllowed(s, g, step);
      forall h: nat | DatedOn(s', h, 0) ensures LocalInv(s, h) && DatedOn(s, h, 0) && h != g { InvAt(s, h); }
    } else {
      TraceWritten(s, s', w, g, step, now);
    }
    hide Written, Writes, TraceEffect, Shape, LocalInv, StateInv;
  }

  lemma MarkRelWritten(s: Machine, s': Machine, w: RR.World, g: nat, step: RR.Step, now: int, id: nat)
    requires Rel(s, w) && Writes(s, s', g, step, now) && Has(w.trace, id)
    ensures MarkRel(s', w, id)
  {
    DatedStill(s, s', g, step, now, id);
    OthersWait(s, s', g, step, now);
    WriteGrows(s, s', g, step, now);
    assert MarkRel(s, w, id);
    if id == LockOf(step, PcOf(s, g)) {
      InvAt(s, g);
      assert OnSpan(step) && DatedOn(s, g, id);
      assert MarkIn(s', id) == MarkEffect(MarkIn(s, id), StartIn(s, g, step), step, now);
    } else {
      forall h: nat | DatedOn(s', h, id)
        ensures DatedOn(s, h, id) && StartIn(s', h, LocalOf(s', h).step) == StartIn(s, h, LocalOf(s, h).step)
      {
        InvAt(s, h);
        SameForOthers(s, s', g, step, now, h);
      }
    }
    hide Written, Writes, TraceEffect, MarkEffect, StartIn, LocalInv, StateInv, TraceRel;
  }

  lemma PcRelWritten(s: Machine, s': Machine, w: RR.World, g: nat, step: RR.Step, now: int, h: nat)
    requires Rel(s, w) && Writes(s, s', g, step, now)
    ensures PcRel(s', w, h)
  {
    OthersWait(s, s', g, step, now);
    assert PcRel(s, w, h) && PcRel(s, w, g);
    if h != g && LocalOf(s, h).Dated? {
      InvAt(s, h);
      SameForOthers(s, s', g, step, now, h);
    }
    hide TraceEffect, MarkEffect, StartIn, LocalInv, StateInv, TraceRel, MarkRel, DecidedBy;
  }

  /** A write is invisible. */
  lemma WriteKeeps(s: Machine, s': Machine, w: RR.World, g: nat, step: RR.Step, now: int)
    requires Rel(s, w) && Writes(s, s', g, step, now)
    ensures Rel(s', w)
  {
    WriteKeepsInv(s, s', w, g, step, now);
    TraceRelWritten(s, s', w, g, step, now);
    forall id: nat | Has(w.trace, id) ensures MarkRel(s', w, id) { MarkRelWritten(s, s', w, g, step, now, id); }
    forall h: nat ensures PcRel(s', w, h) { PcRelWritten(s, s', w, g, step, now, h); }
    assert s'.clock == s.clock;
    hide Writes, StateInv, TraceRel, MarkRel, PcRel;
  }
}
