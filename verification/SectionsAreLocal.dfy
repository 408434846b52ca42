/** Every section of RecorderRuns reads and writes nothing but what its lock
    guards and the clock. */
module SectionsAreLocal {
  import opened Lists
  import opened Recording
  import opened LockedSections
  import Clock
  import RR = RecorderRuns

  /** What one section of RecorderRuns does to what its lock guards. */
  ghost predicate TraceSectionIs(w: RR.World, w': RR.World, g: nat, step: RR.Step, now: int) {
    && |w.trace.stateTime| == NUM_STATES && (step.Start? ==> KnownParent(w.trace, step.parent))
    && Shape(w'.trace) == TraceEffect(Shape(w.trace), RR.PcOf(w, g), step, now)
    && |w.trace.all| <= |w'.trace.all|
    && forall id: nat :: Has(w'.trace, id) ==>
         MarkAt(w'.trace, id) == if Has(w.trace, id) then MarkAt(w.trace, id) else UNMARKED
  }

  ghost predicate SpanSectionIs(w: RR.World, w': RR.World, g: nat, step: RR.Step, now: int)
    requires Has(w.trace, SpanId(step, RR.PcOf(w, g)))
  {
    var id := SpanId(step, RR.PcOf(w, g));
    && Shape(w'.trace) == Shape(w.trace)
    && |w'.trace.all| == |w.trace.all|
    && (forall j: nat :: Has(w'.trace, j) && j != id ==> MarkAt(w'.trace, j) == MarkAt(w.trace, j))
    && MarkAt(w'.trace, id) == MarkEffect(MarkAt(w.trace, id), SpanOf(w.trace, id).startedAt, step, now)
  }

  /** The mark a section decides by. */
  function MarkFor(t: Trace, pc: RR.Pc, step: RR.Step): Mark {
    if OnSpan(step) && Has(t, SpanId(step, pc)) then MarkAt(t, SpanId(step, pc)) else UNMARKED
  }

  function StartFor(t: Trace, pc: RR.Pc, step: RR.Step): int {
    if OnSpan(step) && Has(t, SpanId(step, pc)) then SpanOf(t, SpanId(step, pc)).startedAt else 0
  }

  lemma StartShape(w: RR.World, g: nat, step: RR.Step)
    requires Inv(w.trace) && RR.Enabled(w, g, step) && step.Start?
    ensures var now := Clock.NextReading(w.trace.lastNanos, RawOf(step));
            Shape(RR.After(w, g, step).trace) == TraceEffect(Shape(w.trace), RR.PcOf(w, g), step, now)
  {
    assert |w.trace.stateTime| == NUM_STATES;
    hide Inv, StateIndex, RemoveLast;
    var now := Clock.NextReading(w.trace.lastNanos, RawOf(step));
    var t', b' := RR.After(w, g, step).trace, TraceEffect(Shape(w.trace), RR.PcOf(w, g), step, now);
    assert Shape(t').all == b'.all;
  }

  lemma MoveShape(w: RR.World, g: nat, step: RR.Step)
    requires Inv(w.trace) && RR.Enabled(w, g, step) && (step.State? || step.Fail? || step.Finish?)
    ensures var now := Clock.NextReading(w.trace.lastNanos, RawOf(step));
            Shape(RR.After(w, g, step).trace) == TraceEffect(Shape(w.trace), RR.PcOf(w, g), step, now)
  {
    assert |w.trace.stateTime| == NUM_STATES;
    hide Inv, StateIndex, RemoveLast;
    var now := Clock.NextReading(w.trace.lastNanos, RawOf(step));
    var t', b' := RR.After(w, g, step).trace, TraceEffect(Shape(w.trace), RR.PcOf(w, g), step, now);
    assert Shape(t').all == b'.all;
  }

  lemma NoteShape(w: RR.World, g: nat, step: RR.Step)
    requires Inv(w.trace) && RR.Enabled(w, g, step) && (step.Log? || step.Request? || step.Respond?)
    ensures var now := Clock.NextReading(w.trace.lastNanos, RawOf(step));
            Shape(RR.After(w, g, step).trace) == TraceEffect(Shape(w.trace), RR.PcOf(w, g), step, now)
  {
    assert |w.trace.stateTime| == NUM_STATES;
    hide Inv, StateIndex, RemoveLast;
    var now := Clock.NextReading(w.trace.lastNanos, RawOf(step));
    var t', b' := RR.After(w, g, step).trace, TraceEffect(Shape(w.trace), RR.PcOf(w, g), step, now);
    assert Shape(t').all == b'.all;
  }

  lemma FilterShape(w: RR.World, g: nat, step: RR.Step)
    requires Inv(w.trace) && RR.Enabled(w, g, step) && (step.FilterEnded? || step.FilterNext?)
    ensures var now := Clock.NextReading(w.trace.lastNanos, RawOf(step));
            Shape(RR.After(w, g, step).trace) == TraceEffect(Shape(w.trace), RR.PcOf(w, g), step, now)
  {
    assert |w.trace.stateTime| == NUM_STATES;
    hide Inv, StateIndex, RemoveLast;
    var now := Clock.NextReading(w.trace.lastNanos, RawOf(step));
    var t', b' := RR.After(w, g, step).trace, TraceEffect(Shape(w.trace), RR.PcOf(w, g), step, now);
    assert Shape(t').all == b'.all;
  }

  lemma TraceSectionShape(w: RR.World, g: nat, step: RR.Step)
    requires Inv(w.trace) && RR.Enabled(w, g, step) && !OnSpan(step)
    ensures var now := Clock.NextReading(w.trace.lastNanos, RawOf(step));
            Shape(RR.After(w, g, step).trace) == TraceEffect(Shape(w.trace), RR.PcOf(w, g), step, now)
  {
    hide RR.After, Shape, TraceEffect, Inv;
    if step.Start? { StartShape(w, g, step); }
    else if step.State? || step.Fail? || step.Finish? { MoveShape(w, g, step); }
    else if step.FilterEnded? || step.FilterNext? { FilterShape(w, g, step); }
    else { NoteShape(w, g, step); }
  }

  lemma TraceSectionMarks(w: RR.World, g: nat, step: RR.Step)
    requires Inv(w.trace) && RR.Enabled(w, g, step) && !OnSpan(step)
    ensures var t, t' := w.trace, RR.After(w, g, step).trace;
            && |t.all| <= |t'.all|
            && forall id: nat :: Has(t', id) ==> MarkAt(t', id) == if Has(t, id) then MarkAt(t, id) else UNMARKED
  {
    hide Inv, StateIndex, RemoveLast;
  }

  /** Every section reads and writes nothing but what its lock guards and the
      clock. */
  lemma TraceSectionIsLocal(w: RR.World, g: nat, step: RR.Step)
    requires Inv(w.trace) && RR.Enabled(w, g, step) && !OnSpan(step)
    ensures TraceSectionIs(w, RR.After(w, g, step), g, step, Clock.NextReading(w.trace.lastNanos, RawOf(step)))
  {
    TraceSectionShape(w, g, step);
    TraceSectionMarks(w, g, step);
    assert |w.trace.stateTime| == NUM_STATES;
    hide Inv, RR.After, Shape, TraceEffect;
  }

  lemma SpanSectionShape(w: RR.World, g: nat, step: RR.Step)
    requires Inv(w.trace) && RR.Enabled(w, g, step) && OnSpan(step)
    ensures Shape(RR.After(w, g, step).trace) == Shape(w.trace)
  {
    hide Inv;
    assert Shape(RR.After(w, g, step).trace).all == Shape(w.trace).all;
  }

  lemma SpanSectionMark(w: RR.World, g: nat, step: RR.Step)
    requires Inv(w.trace) && RR.Enabled(w, g, step) && OnSpan(step)
    ensures Has(w.trace, SpanId(step, RR.PcOf(w, g)))
    ensures var t, t', id := w.trace, RR.After(w, g, step).trace, SpanId(step, RR.PcOf(w, g));
            && |t'.all| == |t.all|
            && (forall j: nat :: Has(t', j) && j != id ==> MarkAt(t', j) == MarkAt(t, j))
            && MarkAt(t', id) == MarkEffect(MarkAt(t, id), SpanOf(t, id).startedAt, step,
                                            Clock.NextReading(t.lastNanos, RawOf(step)))
  {
    hide Inv, StateIndex, RemoveLast, Shape;
  }

  lemma SpanSectionIsLocal(w: RR.World, g: nat, step: RR.Step)
    requires Inv(w.trace) && RR.Enabled(w, g, step) && OnSpan(step)
    ensures Has(w.trace, SpanId(step, RR.PcOf(w, g)))
    ensures SpanSectionIs(w, RR.After(w, g, step), g, step, Clock.NextReading(w.trace.lastNanos, RawOf(step)))
  {
    hide Inv, Shape, RR.After, MarkEffect;
    SpanSectionShape(w, g, step);
    SpanSectionMark(w, g, step);
  }

  lemma SectionMovesClock(w: RR.World, g: nat, step: RR.Step)
    requires Inv(w.trace) && RR.Enabled(w, g, step)
    ensures var t, w' := w.trace, RR.After(w, g, step);
            var now := Clock.NextReading(t.lastNanos, RawOf(step));
            w'.trace.lastNanos == if Times(Shape(t), MarkFor(t, RR.PcOf(w, g), step), step) then now else t.lastNanos
  {
    hide Inv, StateIndex, RemoveLast;
  }

  lemma SectionMovesPc(w: RR.World, g: nat, step: RR.Step)
    requires Inv(w.trace) && RR.Enabled(w, g, step)
    ensures var t, w', pc := w.trace, RR.After(w, g, step), RR.PcOf(w, g);
            var now := Clock.NextReading(t.lastNanos, RawOf(step));
            RR.PcOf(w', g) == PcAfter(Shape(t), MarkFor(t, pc, step), StartFor(t, pc, step), pc, step, now)
  {
    hide Inv, StateIndex, RemoveLast, AppendSpan, SetState, RecordError, LogTo, SetResponse, Filter, RR.Record,
        RR.DropLog;
  }

  lemma SectionKeepsOthers(w: RR.World, g: nat, step: RR.Step, h: nat)
    requires Inv(w.trace) && RR.Enabled(w, g, step) && h != g
    ensures RR.PcOf(RR.After(w, g, step), h) == RR.PcOf(w, h)
  {
    hide Inv, StateIndex, RemoveLast, AppendSpan, SetState, RecordError, LogTo, SetResponse, Filter, MarkEnded, Close;
  }

  /** A section that does not read the clock does the same whatever it shows. */
  lemma ReadingUnused(b: Trace, m: Mark, start: int, pc: RR.Pc, step: RR.Step, now: int, other: int)
    requires |b.stateTime| == NUM_STATES && (step.Start? ==> KnownParent(b, step.parent)) && !Times(b, m, step)
    ensures !OnSpan(step) ==> TraceEffect(b, pc, step, now) == TraceEffect(b, pc, step, other)
    ensures MarkEffect(m, start, step, now) == MarkEffect(m, start, step, other)
    ensures PcAfter(b, m, start, pc, step, now) == PcAfter(b, m, start, pc, step, other)
  {
  }

  /** Spans once recorded keep what the trace lock guards of them. */
  lemma EffectKeepsSpans(b: Trace, pc: RR.Pc, step: RR.Step, now: int)
    requires |b.stateTime| == NUM_STATES && (step.Start? ==> KnownParent(b, step.parent))
    ensures var b' := TraceEffect(b, pc, step, now);
            |b.all| <= |b'.all| && b'.all[..|b.all|] == b.all && |b'.stateTime| == NUM_STATES
  {
    hide StateIndex, RemoveLast;
  }
}
