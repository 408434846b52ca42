/** No two recorded moments of a trace tie, over every run of RecorderRuns. */
module RecordedMoments {
  import opened Lists
  import opened Recording
  import opened RecorderRuns

  /** The history is in recording order. */
  ghost predicate Ordered(w: World) {
    && (forall i, j :: 0 <= i < j < |w.moments| ==> w.moments[i].time < w.moments[j].time)
    && (forall i :: 0 <= i < |w.moments| ==> w.trace.startedAt < w.moments[i].time <= w.trace.lastNanos)
  }

  function StartOf(t: Trace, id: nat): Moment
    requires Has(t, id)
  {
    Moment(SpanStart(id), SpanOf(t, id).startedAt)
  }

  function EndOf(t: Trace, id: nat): Moment
    requires Has(t, id)
  {
    Moment(SpanEnd(id), SpanOf(t, id).startedAt + SpanOf(t, id).duration)
  }

  function LogOf(t: Trace, i: nat): Moment
    requires i < |t.logs|
  {
    Moment(LogLine(i), t.logs[i].time)
  }

  /** Every moment the trace holds is in the history. */
  ghost predicate Dated(w: World) {
    var t := w.trace;
    && (forall id: nat {:trigger Has(t, id)} :: Has(t, id) ==>
          StartOf(t, id) in w.moments && (SpanOf(t, id).ended ==> EndOf(t, id) in w.moments))
    && (forall i :: 0 <= i < |t.logs| ==> LogOf(t, i) in w.moments)
    && (t.changedAt != t.startedAt ==> Moment(Change, t.changedAt) in w.moments)
  }

  lemma NextKeepsOrder(w: World, w': World, g: nat, step: Step)
    requires Next(w, w', g, step) && Ordered(w)
    ensures Ordered(w')
  {
    hide Shaped, StateIndex, OpenSpan, Link, RemoveLast;
  }

  lemma NextKeepsStartDate(w: World, w': World, g: nat, step: Step, id: nat)
    requires Next(w, w', g, step) && Dated(w) && Has(w'.trace, id)
    ensures StartOf(w'.trace, id) in w'.moments
  {
    hide Shaped, StateIndex, OpenSpan, Link, RemoveLast;
    if Has(w.trace, id) { assert StartOf(w.trace, id) in w.moments; }
  }

  lemma NextKeepsEndDate(w: World, w': World, g: nat, step: Step, id: nat)
    requires Next(w, w', g, step) && Dated(w) && Has(w'.trace, id) && SpanOf(w'.trace, id).ended
    ensures EndOf(w'.trace, id) in w'.moments
  {
    hide Shaped, StateIndex, OpenSpan, Link, RemoveLast;
    if Has(w.trace, id) { assert StartOf(w.trace, id) in w.moments; }
  }

  lemma NextKeepsLogDates(w: World, w': World, g: nat, step: Step, i: nat)
    requires Next(w, w', g, step) && Dated(w) && i < |w'.trace.logs|
    ensures LogOf(w'.trace, i) in w'.moments
  {
    hide Shaped, StateIndex, OpenSpan, Link, RemoveLast;
    if i < |w.trace.logs| { assert LogOf(w.trace, i) in w.moments; }
  }

  lemma NextKeepsChangeDate(w: World, w': World, g: nat, step: Step)
    requires Next(w, w', g, step) && Dated(w) && w'.trace.changedAt != w'.trace.startedAt
    ensures Moment(Change, w'.trace.changedAt) in w'.moments
  {
    hide Shaped, StateIndex, OpenSpan, Link, RemoveLast;
  }

  lemma NextKeepsDates(w: World, w': World, g: nat, step: Step)
    requires Next(w, w', g, step) && Dated(w)
    ensures Dated(w')
  {
    forall id: nat | Has(w'.trace, id)
      ensures StartOf(w'.trace, id) in w'.moments && (SpanOf(w'.trace, id).ended ==> EndOf(w'.trace, id) in w'.moments)
    {
      NextKeepsStartDate(w, w', g, step, id);
      if SpanOf(w'.trace, id).ended { NextKeepsEndDate(w, w', g, step, id); }
    }
    forall i | 0 <= i < |w'.trace.logs| ensures LogOf(w'.trace, i) in w'.moments {
      NextKeepsLogDates(w, w', g, step, i);
    }
    if w'.trace.changedAt != w'.trace.startedAt { NextKeepsChangeDate(w, w', g, step); }
    hide Next;
  }

  lemma {:induction false} RunIsDated(run: seq<World>, events: seq<Event>, i: nat)
    requires Run(run, events) && i < |run|
    ensures Ordered(run[i]) && Dated(run[i])
  {
    if i > 0 {
      RunIsDated(run, events, i - 1);
      NextKeepsOrder(run[i - 1], run[i], events[i - 1].goroutine, events[i - 1].step);
      NextKeepsDates(run[i - 1], run[i], events[i - 1].goroutine, events[i - 1].step);
    }
  }

  lemma Apart(w: World, m: Moment, n: Moment)
    requires Ordered(w) && m in w.moments && n in w.moments && m.what != n.what
    ensures m.time != n.time
  {
  }

  /** The starts and ends of spans and the last state change are all at
      different times, in every reachable state. */
  lemma SpanMomentsNeverTie(run: seq<World>, events: seq<Event>, i: nat, a: nat, b: nat)
    requires Run(run, events) && i < |run| && Has(run[i].trace, a) && Has(run[i].trace, b)
    ensures var t := run[i].trace; var s, u := SpanOf(t, a), SpanOf(t, b);
            && (a != b ==> s.startedAt != u.startedAt)
            && (u.ended ==> s.startedAt != u.startedAt + u.duration)
            && (a != b && s.ended && u.ended ==> s.startedAt + s.duration != u.startedAt + u.duration)
            && t.changedAt != s.startedAt
            && (s.ended ==> t.changedAt != s.startedAt + s.duration)
  {
    RunKeepsInv(run, events, i);
    RunIsDated(run, events, i);
    var w := run[i];
    var t := w.trace;
    var s, u, c := SpanOf(t, a), SpanOf(t, b), Moment(Change, t.changedAt);
    assert Timed(t, a) && Timed(t, b);
    if a != b { Apart(w, StartOf(t, a), StartOf(t, b)); }
    if u.ended { Apart(w, StartOf(t, a), EndOf(t, b)); }
    if a != b && s.ended && u.ended { Apart(w, EndOf(t, a), EndOf(t, b)); }
    if t.changedAt != t.startedAt {
      Apart(w, c, StartOf(t, a));
      if s.ended { Apart(w, c, EndOf(t, a)); }
    }
  }

  /** A log line is at a time of its own: no other line, no span start or end
      and not the last state change shares it. */
  lemma LogMomentsNeverTie(run: seq<World>, events: seq<Event>, i: nat, k: nat)
    requires Run(run, events) && i < |run| && k < |run[i].trace.logs|
    ensures var t := run[i].trace;
            && (forall l :: k < l < |t.logs| ==> t.logs[k].time != t.logs[l].time)
            && t.logs[k].time != t.changedAt
    ensures var t := run[i].trace;
            forall a: nat {:trigger Has(t, a)} :: Has(t, a) ==>
              t.logs[k].time != SpanOf(t, a).startedAt
              && (SpanOf(t, a).ended ==> t.logs[k].time != SpanOf(t, a).startedAt + SpanOf(t, a).duration)
  {
    RunIsDated(run, events, i);
    var w := run[i];
    var t := w.trace;
    assert LogOf(t, k) in w.moments;
    forall l | k < l < |t.logs| ensures t.logs[k].time != t.logs[l].time { Apart(w, LogOf(t, k), LogOf(t, l)); }
    if t.changedAt != t.startedAt { Apart(w, Moment(Change, t.changedAt), LogOf(t, k)); }
    forall a: nat | Has(t, a)
      ensures t.logs[k].time != SpanOf(t, a).startedAt
      ensures SpanOf(t, a).ended ==> t.logs[k].time != SpanOf(t, a).startedAt + SpanOf(t, a).duration
    {
      Apart(w, StartOf(t, a), LogOf(t, k));
      if SpanOf(t, a).ended { Apart(w, EndOf(t, a), LogOf(t, k)); }
    }
  }
}
