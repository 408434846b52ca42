/** Finish against End, over every run of RecorderRuns: what has ended once
    the calls returned, what is accounted for, and that the calls return. */
module Finishing {
  import opened Lists
  import opened Recording
  import opened RecorderRuns

  lemma {:induction false} CloseFreezesList(run: seq<World>, events: seq<Event>, i: nat, j: nat)
    requires Run(run, events) && i <= j < |run| && run[i].trace.finished
    ensures run[j].trace.finished && run[j].trace.list == run[i].trace.list
  {
    hide Next, Begin;
    if i < j {
      CloseFreezesList(run, events, i, j - 1);
      NextKeepsClose(run[j - 1], run[j], events[j - 1].goroutine, events[j - 1].step);
    }
  }

  lemma NextKeepsClose(w: World, w': World, g: nat, step: Step)
    requires Next(w, w', g, step) && w.trace.finished
    ensures w'.trace.finished && w'.trace.list == w.trace.list
  {
    StepKeepsClose(w, g, step);
  }

  /** A goroutine that is not inside a call. */
  predicate AtRest(pc: Pc) {
    pc.Idle? || (pc.Ending? && pc.left == 0)
  }

  /** Finish against End: once the trace is closed and every call returned,
      every retained span has ended, ran for at least one step of the clock and
      starts after the trace; the list is what it was at the close, and each
      span that is missing from it was dropped exactly once. */
  lemma FinishEndsEverySpan(run: seq<World>, events: seq<Event>, i: nat)
    requires Run(run, events) && i < |run|
    requires run[i].trace.finished && forall g: nat :: AtRest(PcOf(run[i], g))
    ensures var t := run[i].trace;
            forall k :: 0 <= k < |t.list| ==>
              Has(t, t.list[k]) && SpanOf(t, t.list[k]).ended && SpanOf(t, t.list[k]).duration >= 1
    ensures var w := run[i];
            forall id: nat {:trigger Has(w.trace, id)} :: Has(w.trace, id) ==>
                (id in w.trace.list <==> id !in w.dropped)
    ensures forall a, b :: 0 <= a < b < |run[i].dropped| ==> run[i].dropped[a] != run[i].dropped[b]
  {
    RunKeepsInv(run, events, i);
    var t := run[i].trace;
    var g: nat :| Closer(PcOf(run[i], g));
    assert AtRest(PcOf(run[i], g)) && ClosingAt(run[i], PcOf(run[i], g));
    forall k | 0 <= k < |t.list|
      ensures Has(t, t.list[k]) && SpanOf(t, t.list[k]).ended && SpanOf(t, t.list[k]).duration >= 1
    {
      assert Timed(t, t.list[k]);
    }
  }

  /** Span accounting and shape, in every reachable state. */
  lemma SpansAccountedFor(run: seq<World>, events: seq<Event>, i: nat)
    requires Run(run, events) && i < |run|
    ensures var t := run[i].trace;
            && |t.list| + t.droppedSpans == run[i].tried
            && t.droppedSpans == run[i].refused + |run[i].dropped|
            && (t.opts.maxSpans > 0 ==> |t.list| <= t.opts.maxSpans)
    ensures var t := run[i].trace;
            forall a, b :: 0 <= a < b < |t.list| ==>
              Has(t, t.list[a]) && Has(t, t.list[b]) && t.list[a] < t.list[b]
              && SpanOf(t, t.list[a]).startedAt < SpanOf(t, t.list[b]).startedAt
  {
    RunKeepsInv(run, events, i);
    var t := run[i].trace;
    assert forall a :: 0 <= a < |t.list| ==> Has(t, t.list[a]);
  }

  lemma NextKeepsEnd(w: World, w': World, g: nat, step: Step, id: nat)
    requires Next(w, w', g, step) && Has(w.trace, id) && SpanOf(w.trace, id).ended
    ensures Has(w'.trace, id) && SpanOf(w'.trace, id).ended
      && SpanOf(w'.trace, id).duration == SpanOf(w.trace, id).duration
  {
    hide Shaped, StateIndex, OpenSpan, Link, RemoveLast;
  }

  /** End records one duration: however many goroutines end a span, and Finish
      among them, the first one decides. */
  lemma {:induction false} EndIsRecordedOnce(run: seq<World>, events: seq<Event>, i: nat, j: nat, id: nat)
    requires Run(run, events) && i <= j < |run| && Has(run[i].trace, id) && SpanOf(run[i].trace, id).ended
    ensures Has(run[j].trace, id) && SpanOf(run[j].trace, id).ended
    ensures SpanOf(run[j].trace, id).duration == SpanOf(run[i].trace, id).duration
  {
    hide Next, Begin;
    if i < j {
      EndIsRecordedOnce(run, events, i, j - 1, id);
      NextKeepsEnd(run[j - 1], run[j], events[j - 1].goroutine, events[j - 1].step, id);
    }
  }

  // ------------------------------------------------------- calls that return

  /** The steps a goroutine has before it to the end of its call. */
  function StepsLeft(pc: Pc): nat {
    match pc
    case Idle => 0
    case Filtering(_, _) => 1
    case Ending(_, left) => 2 * left
    case EndingFilter(_, left, _, _) => 2 * left + 1
  }

  /** End and Finish return: a goroutine inside a call has a step to take,
      whatever it takes brings it nearer the end of its call, and no step of
      another goroutine takes it back. */
  lemma CallsReturn(run: seq<World>, events: seq<Event>, i: nat, g: nat)
    requires Run(run, events) && i < |run| && !AtRest(PcOf(run[i], g))
    ensures exists step :: Enabled(run[i], g, step)
    ensures Inv(run[i].trace)
    ensures forall step :: Enabled(run[i], g, step) ==>
              StepsLeft(PcOf(After(run[i], g, step), g)) < StepsLeft(PcOf(run[i], g))
    ensures forall h: nat, step :: h != g && Enabled(run[i], h, step) ==>
      PcOf(After(run[i], h, step), g) == PcOf(run[i], g)
  {
    RunKeepsInv(run, events, i);
    var w, pc := run[i], PcOf(run[i], g);
    HasStep(w, g);
    forall step | Enabled(w, g, step)
        ensures StepsLeft(PcOf(After(w, g, step), g)) < StepsLeft(pc) { StepNearer(w, g, step); }
    forall h: nat, step | h != g && Enabled(w, h, step)
        ensures PcOf(After(w, h, step), g) == pc { OwnPcOnly(w, h, step, g); }
  }

  lemma HasStep(w: World, g: nat)
    requires WorldInv(w) && !AtRest(PcOf(w, g))
    ensures exists step :: Enabled(w, g, step)
  {
    hide Accounted, Counted, FiltersDue;
    match PcOf(w, g)
    case Filtering(_, _) => assert Enabled(w, g, FilterEnded);
    case EndingFilter(_, _, _, _) => assert Enabled(w, g, FilterNext);
    case Ending(spans, left) =>
      assert ClosingAt(w, PcOf(w, g));
      assert Enabled(w, g, EndNext(0));
    case Idle => assert false;
  }

  lemma StepNearer(w: World, g: nat, step: Step)
    requires Inv(w.trace) && Enabled(w, g, step) && !AtRest(PcOf(w, g))
    ensures StepsLeft(PcOf(After(w, g, step), g)) < StepsLeft(PcOf(w, g))
  {
    hide Shaped, StateIndex, OpenSpan, Link, RemoveLast;
  }
}
