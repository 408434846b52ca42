/** Which debug spans a trace drops, over every run of RecorderRuns
    (model/debug_span.go): those that ran for less than the minimum, if their
    filter ran before the close. */
module DebugFilter {
  import opened Lists
  import opened Recording
  import opened RecorderRuns

  // ------------------------------------------------------ what was dropped

  /** The limit a span that ran this long falls under. */
  predicate Short(t: Trace, duration: int) {
    t.opts.debugMinSpan > 0 && duration < t.opts.debugMinSpan
  }

  ghost predicate DroppedShort(w: World) {
    forall id :: id in w.dropped ==>
      Has(w.trace, id) && SpanOf(w.trace, id).ended && SpanOf(w.trace, id).debug
      && Short(w.trace, SpanOf(w.trace, id).duration)
  }

  /** A filter still to run goes by the duration its span recorded. */
  ghost predicate FilterKnows(w: World, g: nat) {
    Pending(PcOf(w, g)) ==>
      var id := PcOf(w, g).id; Has(w.trace, id) && SpanOf(w.trace, id).duration == PcOf(w, g).duration
  }

  lemma SpanStays(w: World, g: nat, step: Step, id: nat)
    requires Inv(w.trace) && Enabled(w, g, step) && Has(w.trace, id) && SpanOf(w.trace, id).ended
    ensures var t' := After(w, g, step).trace;
            && Has(t', id) && SpanOf(t', id).ended && SpanOf(t', id).duration == SpanOf(w.trace, id).duration
            && (SpanOf(w.trace, id).debug ==> SpanOf(t', id).debug) && t'.opts == w.trace.opts
  {
    hide Inv, StateIndex, RemoveLast;
  }

  lemma StepKeepsKnowledge(w: World, g: nat, step: Step, h: nat)
    requires WorldInv(w) && Enabled(w, g, step) && FilterKnows(w, h)
    ensures FilterKnows(After(w, g, step), h)
  {
    if Pending(PcOf(w, h)) { SpanStays(w, g, step, PcOf(w, h).id); }
    hide Inv, StateIndex, RemoveLast, Counted;
  }

  lemma StepDropsShort(w: World, g: nat, step: Step)
    requires WorldInv(w) && Enabled(w, g, step) && DroppedShort(w) && FilterKnows(w, g)
    ensures DroppedShort(After(w, g, step))
  {
    var w' := After(w, g, step);
    forall id | id in w'.dropped
      ensures Has(w'.trace, id) && SpanOf(w'.trace, id).ended && SpanOf(w'.trace, id).debug
              && Short(w'.trace, SpanOf(w'.trace, id).duration)
    {
      if id in w.dropped {
        SpanStays(w, g, step, id);
      } else {
        assert Pending(PcOf(w, g)) && id == PcOf(w, g).id;
        SpanStays(w, g, step, id);
      }
    }
  }

  lemma {:induction false} RunDropsShort(run: seq<World>, events: seq<Event>, i: nat)
    requires Run(run, events) && i < |run|
    ensures DroppedShort(run[i]) && forall h: nat :: FilterKnows(run[i], h)
  {
    if i > 0 {
      RunDropsShort(run, events, i - 1);
      RunKeepsInv(run, events, i - 1);
      var w, g, step := run[i - 1], events[i - 1].goroutine, events[i - 1].step;
      assert Next(w, run[i], g, step) && FilterKnows(w, g);
      hide Next, Run, WorldInv, Enabled, After, DroppedShort, FilterKnows;
      StepDropsShort(w, g, step);
      forall h: nat ensures FilterKnows(run[i], h) { StepKeepsKnowledge(w, g, step, h); }
    }
  }

  /** In every reachable state a dropped span is a debug span that ended and ran
      for less than the configured minimum. */
  lemma DroppedRanShort(run: seq<World>, events: seq<Event>, i: nat, id: nat)
    requires Run(run, events) && i < |run| && id in run[i].dropped
    ensures Has(run[i].trace, id)
    ensures var t, s := run[i].trace, SpanOf(run[i].trace, id);
            s.ended && s.debug && 0 < t.opts.debugMinSpan && s.duration < t.opts.debugMinSpan
  {
    RunDropsShort(run, events, i);
  }

  // -------------------------------------------------- what becomes of a span

  /** The span ended and nobody has its filter still to run. */
  ghost predicate Decided(w: World, id: nat) {
    && Has(w.trace, id) && SpanOf(w.trace, id).ended
    && forall h: nat :: Pending(PcOf(w, h)) ==> PcOf(w, h).id != id
  }

  /** Then the list keeps it, or keeps it out, for good. */
  lemma DecidedStays(w: World, g: nat, step: Step, id: nat)
    requires WorldInv(w) && Enabled(w, g, step) && Decided(w, id)
    ensures Decided(After(w, g, step), id)
    ensures id in After(w, g, step).trace.list <==> id in w.trace.list
  {
    SpanStays(w, g, step, id);
    forall h: nat | Pending(PcOf(After(w, g, step), h)) ensures PcOf(After(w, g, step), h).id != id {
      if h != g { OwnPcOnly(w, g, step, h); }
      assert Pending(PcOf(w, h)) ==> PcOf(w, h).id != id;
    }
    hide Inv, StateIndex, Counted;
  }

  /** Only its own goroutine runs a filter, and until then the span is listed. */
  lemma PendingStays(w: World, g: nat, step: Step, h: nat)
    requires WorldInv(w) && Enabled(w, g, step) && g != h && PcOf(w, h).Filtering?
    ensures var id := PcOf(w, h).id;
            PcOf(After(w, g, step), h) == PcOf(w, h) && id in w.trace.list && id in After(w, g, step).trace.list
  {
    var id := PcOf(w, h).id;
    assert id !in w.dropped && Has(w.trace, id);
    assert Pending(PcOf(w, g)) ==> PcOf(w, g).id != id;
    hide Inv, StateIndex;
  }

  lemma EndMarks(w: World, g: nat, id: nat, raw: int)
    requires WorldInv(w) && Enabled(w, g, End(id, raw)) && !SpanOf(w.trace, id).ended
    ensures var w' := After(w, g, End(id, raw));
            && Has(w'.trace, id) && SpanOf(w'.trace, id).ended && id in w'.trace.list && w'.trace.opts == w.trace.opts
            && if SpanOf(w.trace, id).debug
               then PcOf(w', g) == Filtering(id, SpanOf(w'.trace, id).duration)
               else Decided(w', id)
  {
    var w' := After(w, g, End(id, raw));
    assert id !in w.dropped;
    forall h: nat | h != g && Pending(PcOf(w', h)) ensures PcOf(w', h).id != id { OwnPcOnly(w, g, End(id, raw), h); }
    hide Inv, StateIndex;
  }

  lemma FilterDecides(w: World, g: nat)
    requires WorldInv(w) && PcOf(w, g).Filtering? && FilterKnows(w, g)
    ensures var id, w' := PcOf(w, g).id, After(w, g, FilterEnded);
            && Decided(w', id) && SpanOf(w'.trace, id).duration == SpanOf(w.trace, id).duration
            && (id in w'.trace.list <==> w.trace.finished || !Short(w.trace, SpanOf(w.trace, id).duration))
  {
    var id := PcOf(w, g).id;
    var w' := After(w, g, FilterEnded);
    assert id !in w.dropped && Has(w.trace, id) && id in w.trace.list;
    SpanStays(w, g, FilterEnded, id);
    forall h: nat | Pending(PcOf(w', h)) ensures PcOf(w', h).id != id {
      if h != g { OwnPcOnly(w, g, FilterEnded, h); }
    }
    hide Inv, StateIndex;
  }

  lemma {:induction false} ListedUntilFilter(run: seq<World>, events: seq<Event>, g: nat, id: nat, i: nat, j: nat)
    requires Run(run, events) && i <= j < |run| && PcOf(run[i], g).Filtering? && PcOf(run[i], g).id == id
    requires forall k :: i <= k < j ==> events[k].goroutine != g
    ensures PcOf(run[j], g) == PcOf(run[i], g)
  {
    hide Next, Begin, WorldInv;
    if i < j {
      ListedUntilFilter(run, events, g, id, i, j - 1);
      RunKeepsInv(run, events, j - 1);
      StillFiltering(run[j - 1], run[j], events[j - 1].goroutine, events[j - 1].step, g);
    }
  }

  lemma StillFiltering(w: World, w': World, g: nat, step: Step, h: nat)
    requires WorldInv(w) && Next(w, w', g, step) && g != h && PcOf(w, h).Filtering?
    ensures PcOf(w', h) == PcOf(w, h)
  {
    PendingStays(w, g, step, h);
  }

  lemma {:induction false} DecidedForGood(run: seq<World>, events: seq<Event>, id: nat, i: nat, j: nat)
    requires Run(run, events) && i <= j < |run| && Decided(run[i], id)
    ensures Decided(run[j], id) && (id in run[j].trace.list <==> id in run[i].trace.list)
    ensures SpanOf(run[j].trace, id).duration == SpanOf(run[i].trace, id).duration
  {
    hide Next, Begin, WorldInv;
    if i < j {
      DecidedForGood(run, events, id, i, j - 1);
      RunKeepsInv(run, events, j - 1);
      NextKeepsDecided(run[j - 1], run[j], events[j - 1].goroutine, events[j - 1].step, id);
    }
  }

  lemma NextKeepsDecided(w: World, w': World, g: nat, step: Step, id: nat)
    requires WorldInv(w) && Next(w, w', g, step) && Decided(w, id)
    ensures Decided(w', id) && (id in w'.trace.list <==> id in w.trace.list)
    ensures SpanOf(w'.trace, id).duration == SpanOf(w.trace, id).duration
  {
    DecidedStays(w, g, step, id);
    SpanStays(w, g, step, id);
    hide WorldInv, After, Enabled;
  }

  /** Goroutine `g` ends the open span with step `i`. */
  ghost predicate Ends(run: seq<World>, events: seq<Event>, g: nat, id: nat, i: nat)
    requires i < |events| < |run|
  {
    && events[i].goroutine == g && events[i].step.End? && events[i].step.id == id
    && Has(run[i].trace, id) && !SpanOf(run[i].trace, id).ended
  }

  lemma AfterEnding(run: seq<World>, events: seq<Event>, g: nat, id: nat, i: nat)
    requires Run(run, events) && i < |events| && Ends(run, events, g, id, i)
    ensures var w' := run[i + 1];
            && Has(w'.trace, id) && SpanOf(w'.trace, id).ended && id in w'.trace.list
            && if SpanOf(run[i].trace, id).debug
               then PcOf(w', g) == Filtering(id, SpanOf(w'.trace, id).duration)
               else Decided(w', id)
  {
    RunKeepsInv(run, events, i);
    assert Next(run[i], run[i + 1], g, events[i].step);
    hide Run, WorldInv, Enabled, After, Decided;
    EndMarks(run[i], g, id, events[i].step.raw);
  }

  /** A span that was no debug span when it ended is never dropped. */
  lemma PlainSpansStay(run: seq<World>, events: seq<Event>, g: nat, id: nat, i: nat, k: nat)
    requires Run(run, events) && i < k < |run| && Ends(run, events, g, id, i) && !SpanOf(run[i].trace, id).debug
    ensures id in run[k].trace.list
  {
    AfterEnding(run, events, g, id, i);
    DecidedForGood(run, events, id, i + 1, k);
  }

  /** A debug span is off the list, once its end returned, exactly when a
      minimum is configured, it ran for less, and the trace had not finished
      when the filter ran. */
  lemma DebugSpansStayIfLong(run: seq<World>, events: seq<Event>, g: nat, id: nat, i: nat, j: nat, k: nat)
    requires Run(run, events) && i < j < k < |run| && Ends(run, events, g, id, i) && SpanOf(run[i].trace, id).debug
    requires events[j] == Event(g, FilterEnded) && forall l :: i < l < j ==> events[l].goroutine != g
    ensures var t := run[k].trace;
            && Has(t, id) && Has(run[j].trace, id)
            && (id !in t.list <==> 0 < t.opts.debugMinSpan && SpanOf(t, id).duration < t.opts.debugMinSpan
                                   && !run[j].trace.finished)
  {
    AfterEnding(run, events, g, id, i);
    ListedUntilFilter(run, events, g, id, i + 1, j);
    RunDropsShort(run, events, j);
    RunKeepsInv(run, events, j);
    assert FilterKnows(run[j], g) && Next(run[j], run[j + 1], g, FilterEnded);
    hide Run, WorldInv, Enabled, After;
    FilterDecides(run[j], g);
    DecidedForGood(run, events, id, j + 1, k);
    SameOptions(run, events, j, k);
  }

  lemma {:induction false} SameOptions(run: seq<World>, events: seq<Event>, i: nat, j: nat)
    requires Run(run, events) && i <= j < |run|
    ensures run[j].trace.opts == run[i].trace.opts
  {
    hide Next, Begin;
    if i < j {
      SameOptions(run, events, i, j - 1);
      NextKeepsOptions(run[j - 1], run[j], events[j - 1].goroutine, events[j - 1].step);
    }
  }

  lemma NextKeepsOptions(w: World, w': World, g: nat, step: Step)
    requires Next(w, w', g, step)
    ensures w'.trace.opts == w.trace.opts
  {
    hide Inv, StateIndex, RemoveLast, OpenSpan, Link;
  }
}
