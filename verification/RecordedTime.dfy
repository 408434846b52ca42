/** Where the time of a trace goes, over every run of RecorderRuns: its
    duration, its timing slots, and changes after the close. */
module RecordedTime {
  import opened Lists
  import opened Recording
  import opened RecorderRuns
  import opened Totals
  import Clock

  /** The step that closes the trace leaves its duration equal to the time its
      states account for, and a later state change only adds to that time. */
  lemma DurationIsStateTime(run: seq<World>, events: seq<Event>, i: nat)
    requires Run(run, events) && i < |events|
    ensures var t, t' := run[i].trace, run[i + 1].trace;
            !t.finished && t'.finished ==>
              1 <= t'.duration == Sum(t'.stateTime) == t'.changedAt - t'.startedAt
    ensures var t, t' := run[i].trace, run[i + 1].trace;
            t.finished ==>
              t'.duration == t.duration && t'.startedAt == t.startedAt && Sum(t'.stateTime) >= Sum(t.stateTime)
  {
    RunKeepsInv(run, events, i);
    var w, e := run[i], events[i];
    assert Next(w, run[i + 1], e.goroutine, e.step);
    match e.step
    case Finish(raw) => CloseKeepsInv(w.trace, raw);
    case State(state, raw) => MoveAccounts(w.trace, state, Clock.NextReading(w.trace.lastNanos, raw));
    case Fail(text, raw) => MoveAccounts(w.trace, Error, Clock.NextReading(w.trace.lastNanos, raw));
    case _ =>
  }

  // ---------------------------------------------- changes after the close

  /** A step that changes the state. */
  predicate Moves(t: Trace, step: Step) {
    step.Fail? || (step.State? && !(t.state == Error && step.state != Error))
  }

  /** One of the first `i` steps changed the state of the closed trace. */
  ghost predicate MovedLate(run: seq<World>, events: seq<Event>, i: nat)
    requires i <= |events| < |run|
  {
    exists k :: 0 <= k < i && run[k].trace.finished && Moves(run[k].trace, events[k].step)
  }

  lemma NextLate(w: World, w': World, g: nat, step: Step)
    requires Next(w, w', g, step)
    ensures Late(w'.trace) <==> Late(w.trace) || (w.trace.finished && Moves(w.trace, step))
  {
    hide Shaped, StateIndex, OpenSpan, Link, RemoveLast;
  }

  /** The last change is not the close exactly when a change followed it. */
  lemma {:induction false} LateIffMoved(run: seq<World>, events: seq<Event>, i: nat)
    requires Run(run, events) && i < |run|
    ensures Late(run[i].trace) <==> MovedLate(run, events, i)
  {
    hide Next, Moves;
    if i > 0 {
      LateIffMoved(run, events, i - 1);
      NextLate(run[i - 1], run[i], events[i - 1].goroutine, events[i - 1].step);
    }
  }

  // -------------------------------------------------- where the time goes

  /** A stay in one state. */
  datatype Visit = Visit(state: Recording.State, since: int, until: int)

  /** The stays in the first `i` steps of a run, read off its states alone. */
  function Visits(run: seq<World>, i: nat): seq<Visit>
    requires i < |run|
  {
    if i == 0 then []
    else
      var t, t' := run[i - 1].trace, run[i].trace;
      Visits(run, i - 1) + if t'.changedAt == t.changedAt then [] else [Visit(t.state, t.changedAt, t'.changedAt)]
  }

  /** How long the stays in the states of one slot took. */
  function TimeIn(visits: seq<Visit>, slot: nat): int {
    if visits == [] then 0
    else
      var last := visits[|visits| - 1];
      TimeIn(visits[..|visits| - 1], slot) + if StateIndex(last.state) == slot then last.until - last.since else 0
  }

  /** The state stays until it is left, and then its time is its own. */
  lemma NextVisits(w: World, w': World, g: nat, step: Step)
    requires Next(w, w', g, step)
    ensures var t, t' := w.trace, w'.trace;
            if t'.changedAt == t.changedAt then t'.state == t.state && t'.stateTime == t.stateTime
            else t'.changedAt > t.changedAt
                 && t'.stateTime == t.stateTime[StateIndex(t.state) := t.stateTime[StateIndex(t.state)]
                     + (t'.changedAt - t.changedAt)]
  {
    hide Shaped, OpenSpan, Link, RemoveLast, StateIndex;
  }

  /** The stays follow each other without a gap. */
  ghost predicate Gapless(visits: seq<Visit>, from: int, to: int) {
    if visits == [] then from == to
    else
      var last := visits[|visits| - 1];
      Gapless(visits[..|visits| - 1], from, last.since) && last.since < last.until == to
  }

  lemma VisitsSnoc(visits: seq<Visit>, v: Visit, from: int, slot: nat)
    ensures TimeIn(visits + [v], slot)
      == TimeIn(visits, slot) + if StateIndex(v.state) == slot then v.until - v.since else 0
    ensures Gapless(visits, from, v.since) && v.since < v.until ==> Gapless(visits + [v], from, v.until)
  {
    assert (visits + [v])[..|visits|] == visits;
  }

  lemma NextStarts(w: World, w': World, g: nat, step: Step)
    requires Next(w, w', g, step)
    ensures w'.trace.startedAt == w.trace.startedAt
  {
    hide Shaped, OpenSpan, Link, RemoveLast, StateIndex;
  }

  /** Every slot of a trace holds the time of the stays in its states. */
  ghost predicate Charged(t: Trace, visits: seq<Visit>) {
    && |t.stateTime| == NUM_STATES
    && (forall slot :: 0 <= slot < NUM_STATES ==> t.stateTime[slot] == TimeIn(visits, slot))
    && Gapless(visits, t.startedAt, t.changedAt)
  }

  lemma NextCharged(w: World, w': World, g: nat, step: Step, visits: seq<Visit>)
    requires Next(w, w', g, step) && Charged(w.trace, visits)
    ensures var t, t' := w.trace, w'.trace;
            var more := if t'.changedAt == t.changedAt then [] else [Visit(t.state, t.changedAt, t'.changedAt)];
            Charged(t', visits + more)
  {
    NextVisits(w, w', g, step);
    NextStarts(w, w', g, step);
    hide Next, TimeIn, Gapless, StateIndex;
    var v := Visit(w.trace.state, w.trace.changedAt, w'.trace.changedAt);
    assert visits + [] == visits;
    VisitsSnoc(visits, v, w.trace.startedAt, 0);
    forall slot | 0 <= slot < NUM_STATES && w'.trace.changedAt != w.trace.changedAt
      ensures w'.trace.stateTime[slot] == TimeIn(visits + [v], slot)
    {
      VisitsSnoc(visits, v, w.trace.startedAt, slot);
    }
  }

  /** Every slot holds exactly the time the trace spent in its states, and the
      stays cover the time from its start to its last change without a gap. */
  lemma {:induction false} SlotsAreTimeInState(run: seq<World>, events: seq<Event>, i: nat)
    requires Run(run, events) && i < |run|
    ensures |run[i].trace.stateTime| == NUM_STATES
    ensures forall slot :: 0 <= slot < NUM_STATES ==> run[i].trace.stateTime[slot] == TimeIn(Visits(run, i), slot)
    ensures Gapless(Visits(run, i), run[i].trace.startedAt, run[i].trace.changedAt)
  {
    if i > 0 {
      hide Next, Begin, TimeIn, Gapless, StateIndex;
      SlotsAreTimeInState(run, events, i - 1);
      NextCharged(run[i - 1], run[i], events[i - 1].goroutine, events[i - 1].step, Visits(run, i - 1));
    }
  }

  /** The stay that goes on, up to an observation. */
  function Current(t: Trace, raw: int): Visit {
    Visit(t.state, t.changedAt, Clock.Peek(t.lastNanos, raw))
  }

  /** What a trace reports at any moment is the time in the states of each slot:
      of a running trace the stay that goes on included, of a closed one not. */
  lemma TimesAreTimeInState(run: seq<World>, events: seq<Event>, i: nat, raw: int, slot: nat)
    requires Run(run, events) && i < |run| && slot < NUM_STATES
    ensures var t := run[i].trace;
            && |t.stateTime| == NUM_STATES
            && StateTimes(t, raw)[slot]
                 == TimeIn(Visits(run, i) + if t.finished then [] else [Current(t, raw)], slot)
  {
    var t := run[i].trace;
    SlotsAreTimeInState(run, events, i);
    hide TimeIn;
    VisitsSnoc(Visits(run, i), Current(t, raw), 0, slot);
    assert Visits(run, i) + [] == Visits(run, i);
  }

  /** And as a table: a known state has the time of its slot up to the last
      change, and the state of a running trace the time since then, even if it
      is none of the known ones. */
  lemma DurationsAreTimeInState(run: seq<World>, events: seq<Event>, i: nat, raw: int, s: Recording.State)
    requires Run(run, events) && i < |run|
    ensures var t := run[i].trace;
            && |t.stateTime| == NUM_STATES
            && Lookup(Durations(t, raw), s)
                 == (if s.Unknown? then 0 else TimeIn(Visits(run, i), StateIndex(s)))
                    + if !t.finished && t.state == s then Current(t, raw).until - t.changedAt else 0
  {
    SlotsAreTimeInState(run, events, i);
    hide TimeIn, Visits, Buckets, Durations, StateIndex, Lookup, Gapless;
    DurationsHave(run[i].trace, raw, s);
  }

  lemma BucketsHave(times: seq<int>, s: Recording.State)
    requires |times| == NUM_STATES
    ensures Lookup(Buckets(times, NUM_STATES), s) == if s.Unknown? then 0 else times[StateIndex(s)]
  {
    var buckets := Buckets(times, NUM_STATES);
    assert !s.Unknown? ==> Lookup(buckets, STATES[StateIndex(s)]) == times[StateIndex(s)];
    if s in buckets {
      var i :| 0 <= i < NUM_STATES && STATES[i] == s;
      StateIndexOnto(i);
    }
  }

  lemma DurationsHave(t: Trace, raw: int, s: Recording.State)
    requires |t.stateTime| == NUM_STATES
    ensures Lookup(Durations(t, raw), s)
         == (if s.Unknown? then 0 else t.stateTime[StateIndex(s)])
            + if !t.finished && t.state == s then Clock.Peek(t.lastNanos, raw) - t.changedAt else 0
  {
    hide Buckets, StateIndex;
    BucketsHave(t.stateTime, s);
  }

  lemma NextKeepsError(w: World, w': World, g: nat, step: Step)
    requires Next(w, w', g, step) && w.trace.state == Error
    ensures w'.trace.state == Error
  {
    hide Shaped, StateIndex, OpenSpan, Link, RemoveLast;
  }

  lemma {:induction false} ErrorIsAbsorbing(run: seq<World>, events: seq<Event>, i: nat, j: nat)
    requires Run(run, events) && i <= j < |run| && run[i].trace.state == Error
    ensures run[j].trace.state == Error
  {
    hide Next, Begin;
    if i < j {
      ErrorIsAbsorbing(run, events, i, j - 1);
      NextKeepsError(run[j - 1], run[j], events[j - 1].goroutine, events[j - 1].step);
    }
  }
}
