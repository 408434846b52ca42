/** What the calls of a run leave in the trace: each fact it shows is the one
    the last call about it gave, over every run of RecorderRuns. */
module RecordedCalls {
  import opened Options
  import opened Requests
  import opened Lists
  import opened Recording
  import opened RecorderRuns

  /** None of the steps from `k` on, before the `i`-th, is one of these. */
  ghost predicate NoneSince(events: seq<Event>, k: nat, i: nat, about: Step -> bool) {
    forall j :: k <= j < i <= |events| ==> !about(events[j].step)
  }

  // ------------------------------------------------------------- the state

  /** A call that puts the trace into the error state. */
  predicate Fails(step: Step) {
    step.Fail? || (step.State? && step.state == Error)
  }

  predicate AboutState(step: Step) {
    step.Fail? || step.State?
  }

  lemma NextState(w: World, w': World, g: nat, step: Step)
    requires Next(w, w', g, step)
    ensures Fails(step) ==> w'.trace.state == Error
    ensures w.trace.state == Error ==> w'.trace.state == Error
    ensures step.State? && w.trace.state != Error ==> w'.trace.state == step.state
    ensures !AboutState(step) ==> w'.trace.state == w.trace.state
    ensures step.Fail? ==> w'.trace.errorText == step.text
    ensures !step.Fail? ==> w'.trace.errorText == w.trace.errorText
  {
    hide Inv, StateIndex, OpenSpan, Link, RemoveLast;
  }

  lemma BeginsPlain(w: World)
    requires Begin(w)
    ensures w.trace.state == Starting && w.trace.errorText == "" && w.trace.all == [] && w.trace.logs == []
    ensures w.trace.http == None && w.moments == [] && w.trace.updatedAt == w.trace.startedAt
  {
  }

  /** The trace is in error exactly when one of the calls put it there. */
  lemma {:induction false} ErrorIffFailed(run: seq<World>, events: seq<Event>, i: nat)
    requires Run(run, events) && i < |run|
    ensures run[i].trace.state == Error <==> exists k :: 0 <= k < i && Fails(events[k].step)
  {
    hide Next, Begin;
    if i == 0 {
      BeginsPlain(run[0]);
    } else {
      ErrorIffFailed(run, events, i - 1);
      NextState(run[i - 1], run[i], events[i - 1].goroutine, events[i - 1].step);
    }
  }

  /** Otherwise it is in the state last asked for, and to begin with starting. */
  lemma {:induction false} StateIsLastAsked(run: seq<World>, events: seq<Event>, i: nat)
    requires Run(run, events) && i < |run| && run[i].trace.state != Error
    ensures forall k :: 0 <= k < i && events[k].step.State? && NoneSince(events, k + 1, i, AboutState) ==>
              run[i].trace.state == events[k].step.state
    ensures NoneSince(events, 0, i, AboutState) ==> run[i].trace.state == Starting
  {
    hide Next, Begin, Fails, AboutState;
    if i == 0 {
      BeginsPlain(run[0]);
    } else {
      NextState(run[i - 1], run[i], events[i - 1].goroutine, events[i - 1].step);
      StateIsLastAsked(run, events, i - 1);
    }
  }

  /** The error text is the last failure's. */
  lemma {:induction false} ErrorTextIsLast(run: seq<World>, events: seq<Event>, i: nat)
    requires Run(run, events) && i < |run|
    ensures forall k :: 0 <= k < i && events[k].step.Fail? && NoneSince(events, k + 1, i, (s: Step) => s.Fail?) ==>
              run[i].trace.errorText == events[k].step.text
    ensures NoneSince(events, 0, i, (s: Step) => s.Fail?) ==> run[i].trace.errorText == ""
  {
    hide Next, Begin;
    if i == 0 {
      BeginsPlain(run[0]);
    } else {
      NextState(run[i - 1], run[i], events[i - 1].goroutine, events[i - 1].step);
      ErrorTextIsLast(run, events, i - 1);
    }
  }

  // ------------------------------------------------------------- the spans

  /** A limit that is reached; zero and less is no limit. */
  predicate Room(t: Trace, held: nat) {
    t.opts.maxSpans <= 0 || held < t.opts.maxSpans
  }

  /** A start while the trace runs and has room lists a span that is open and
      not debug, named as asked, at a reading of its own; any other start
      records none, and while the trace runs it is counted. */
  lemma StartIsListed(w: World, w': World, g: nat, step: Step)
    requires Next(w, w', g, step) && step.Start?
    ensures var t, t', n := w.trace, w'.trace, |w.trace.all|;
            if !t.finished && Room(t, |t.list|)
            then && t'.all[..|t'.all| - 1] == t.all && t'.list == t.list + [n + 1] && t'.droppedSpans == t.droppedSpans
                 && Begun(t'.all[n], t, step)
            else t' == t.(droppedSpans := t.droppedSpans + if t.finished then 0 else 1)
  {
    hide Inv;
  }

  /** The span this start began in this trace. */
  ghost predicate Begun(s: Span, t: Trace, step: Step)
    requires step.Start?
  {
    && s.name == step.name && s.kind == step.kind && !s.ended && !s.debug && s.duration == 0 && s.errorText == ""
    && s.startedAt >= step.raw && s.startedAt > t.lastNanos
    && s.parentId == match step.parent
                     case NoParent => 0
                     case Own(id) => id
                     case Foreign(traceId, id, _) => if traceId == t.id then id else 0
  }

  lemma NextSpan(w: World, w': World, g: nat, step: Step, id: nat)
    requires Next(w, w', g, step) && Has(w.trace, id)
    ensures Has(w'.trace, id)
    ensures var s, s' := SpanOf(w.trace, id), SpanOf(w'.trace, id);
            && s'.name == s.name && s'.kind == s.kind && s'.startedAt == s.startedAt && s'.parentId == s.parentId
            && (s'.debug <==> s.debug || step == Debug(id))
            && s'.errorText == if step.FailSpan? && step.id == id then step.text else s.errorText
  {
    hide Inv, StateIndex, OpenSpan, Link, RemoveLast;
  }

  lemma NextRecords(w: World, w': World, g: nat, step: Step)
    requires Next(w, w', g, step)
    ensures |w'.trace.all| > |w.trace.all| ==> step.Start? && !w.trace.finished && Room(w.trace, |w.trace.list|)
    ensures |w.trace.all| <= |w'.trace.all| <= |w.trace.all| + 1
    ensures w'.trace.id == w.trace.id && w'.trace.opts == w.trace.opts
  {
    hide Inv, StateIndex, OpenSpan, Link, RemoveLast;
  }

  /** This start began the span, and what it said of it still stands; a call
      has marked it debug since exactly if it is. */
  ghost predicate StartedBy(run: seq<World>, events: seq<Event>, k: nat, i: nat, id: nat)
    requires k < i <= |events| < |run| && Has(run[i].trace, id)
  {
    var t, step, s := run[k].trace, events[k].step, SpanOf(run[i].trace, id);
    && step.Start? && !t.finished && Room(t, |t.list|) && id == |t.all| + 1
    && Begun(s.(ended := false, debug := false, duration := 0, errorText := ""), t, step)
    && (s.debug <==> exists j :: k < j < i && events[j].step == Debug(id))
  }

  lemma StillStarted(run: seq<World>, events: seq<Event>, k: nat, i: nat, id: nat)
    requires k < i < |events| < |run| && Next(run[i], run[i + 1], events[i].goroutine, events[i].step)
    requires Has(run[i].trace, id) && StartedBy(run, events, k, i, id)
    ensures Has(run[i + 1].trace, id) && StartedBy(run, events, k, i + 1, id)
  {
    NextSpan(run[i], run[i + 1], events[i].goroutine, events[i].step, id);
    hide Next, Inv;
    var s, s' := SpanOf(run[i].trace, id), SpanOf(run[i + 1].trace, id);
    if events[i].step == Debug(id) { assert k < i < i + 1; }
    if s.debug { var j :| k < j < i && events[j].step == Debug(id); }
  }

  /** Every span of a trace was begun by one start, which is told by its id. */
  lemma {:induction false} SpanWasStarted(run: seq<World>, events: seq<Event>, i: nat, id: nat) returns (k: nat)
    requires Run(run, events) && i < |run| && Has(run[i].trace, id)
    ensures k < i && StartedBy(run, events, k, i, id)
  {
    hide Next, Begin, Begun;
    if i == 0 {
      BeginsPlain(run[0]);
    } else {
      var w, w', e := run[i - 1], run[i], events[i - 1];
      NextRecords(w, w', e.goroutine, e.step);
      if Has(w.trace, id) {
        k := SpanWasStarted(run, events, i - 1, id);
        hide StartedBy;
        StillStarted(run, events, k, i - 1, id);
      } else {
        k := i - 1;
        StartIsListed(w, w', e.goroutine, e.step);
        assert SpanOf(w'.trace, id) == w'.trace.all[|w.trace.all|];
        BegunIsPlain(SpanOf(w'.trace, id), w.trace, e.step);
      }
    }
  }

  lemma BegunIsPlain(s: Span, t: Trace, step: Step)
    requires step.Start? && Begun(s, t, step)
    ensures !s.debug && s == s.(ended := false, debug := false, duration := 0, errorText := "")
  {
  }

  /** The error text of a span is the last one given to it. */
  lemma {:induction false} SpanErrorIsLast(run: seq<World>, events: seq<Event>, k: nat, i: nat, id: nat)
    requires Run(run, events) && k < i < |run| && events[k].step.FailSpan? && events[k].step.id == id
    requires NoneSince(events, k + 1, i, (s: Step) => s.FailSpan? && s.id == id)
    ensures Has(run[i].trace, id) && SpanOf(run[i].trace, id).errorText == events[k].step.text
  {
    var e := events[i - 1];
    assert Next(run[i - 1], run[i], e.goroutine, e.step);
    if k < i - 1 {
      SpanErrorIsLast(run, events, k, i - 1, id);
      assert !(e.step.FailSpan? && e.step.id == id);
    }
    NextSpan(run[i - 1], run[i], e.goroutine, e.step, id);
  }

  // --------------------------------------------------------------- the log

  /** What a call adds to the log: an entry as told, at a reading of its own,
      while the trace runs and has room. */
  lemma NextLog(w: World, w': World, g: nat, step: Step)
    requires Next(w, w', g, step)
    ensures var t, t' := w.trace, w'.trace;
            if step.Log? && !t.finished && Room(t, |t.logs|)
            then && |t'.logs| == |t.logs| + 1 && t'.logs[..|t.logs|] == t.logs && t'.droppedLogs == t.droppedLogs
                 && Written(t'.logs[|t.logs|], t, step)
            else t'.logs == t.logs && t'.droppedLogs == t.droppedLogs + if step.Log? && !t.finished then 1 else 0
    ensures w'.trace.opts == w.trace.opts
  {
    hide Inv, StateIndex, OpenSpan, Link, RemoveLast;
  }

  ghost predicate Written(e: LogEntry, t: Trace, step: Step)
    requires step.Log?
  {
    && e.level == step.level && e.message == step.message && e.spanId == step.span
    && e.time >= step.raw && e.time > t.lastNanos
  }

  /** This call wrote that entry. */
  ghost predicate WrittenBy(run: seq<World>, events: seq<Event>, k: nat, e: LogEntry, index: nat)
    requires k < |events| < |run|
  {
    var t, step := run[k].trace, events[k].step;
    step.Log? && !t.finished && Room(t, |t.logs|) && |t.logs| == index && Written(e, t, step)
  }

  /** Every entry of the log was written by one call, in the order of the calls. */
  lemma {:induction false} EntryWasWritten(run: seq<World>, events: seq<Event>, i: nat, index: nat) returns (k: nat)
    requires Run(run, events) && i < |run| && index < |run[i].trace.logs|
    ensures k < i && WrittenBy(run, events, k, run[i].trace.logs[index], index)
  {
    hide Next, Begin, Written;
    if i == 0 {
      BeginsPlain(run[0]);
    } else {
      var w, w', e := run[i - 1], run[i], events[i - 1];
      NextLog(w, w', e.goroutine, e.step);
      if index < |w.trace.logs| {
        assert w'.trace.logs[index] == w.trace.logs[index];
        k := EntryWasWritten(run, events, i - 1, index);
      } else {
        k := i - 1;
      }
    }
  }

  // ----------------------------------------------------------- the request

  lemma NextHttp(w: World, w': World, g: nat, step: Step)
    requires Next(w, w', g, step)
    ensures step.Request? ==> w'.trace.http == Some(step.info)
    ensures step.Respond? ==> w'.trace.http.Some? && Answers(w.trace.http, w'.trace.http.value, step)
    ensures !step.Request? && !step.Respond? ==> w'.trace.http == w.trace.http
  {
    hide Inv, StateIndex, OpenSpan, Link, RemoveLast;
  }

  /** What a response leaves: its status and size, the route it knows, and the
      rest of what was recorded of the request. */
  predicate Answers(before: Option<Http>, h: Http, step: Step)
    requires step.Respond?
  {
    && h.status == step.status && h.responseBytes == step.bytes
    && (step.route != "" ==> h.route == step.route)
    && if before.Some?
       then && h.verb == before.value.verb && h.uri == before.value.uri && h.host == before.value.host
            && (step.route == "" ==> h.route == before.value.route)
       else h.verb == "" && h.uri == "" && h.host == "" && (step.route == "" ==> h.route == "")
  }

  predicate AboutRequest(step: Step) {
    step.Request? || step.Respond?
  }

  /** What the last call about the request said is what the trace shows. */
  lemma {:induction false} RequestIsLastTold(run: seq<World>, events: seq<Event>, k: nat, i: nat)
    requires Run(run, events) && k < i < |run| && NoneSince(events, k + 1, i, AboutRequest)
    ensures events[k].step.Request? ==> run[i].trace.http == Some(events[k].step.info)
    ensures events[k].step.Respond? ==>
              run[i].trace.http.Some? && Answers(run[k].trace.http, run[i].trace.http.value, events[k].step)
  {
    hide Begin, Answers;
    var w, w', e := run[i - 1], run[i], events[i - 1];
    assert Next(w, w', e.goroutine, e.step);
    hide Next;
    NextHttp(w, w', e.goroutine, e.step);
    if k < i - 1 {
      RequestIsLastTold(run, events, k, i - 1);
      assert !AboutRequest(e.step);
    }
  }

  /** Before there is one it shows no request. */
  lemma {:induction false} NoRequestYet(run: seq<World>, events: seq<Event>, i: nat)
    requires Run(run, events) && i < |run| && NoneSince(events, 0, i, AboutRequest)
    ensures run[i].trace.http == None
  {
    hide Next, Begin;
    if i == 0 {
      BeginsPlain(run[0]);
    } else {
      NoRequestYet(run, events, i - 1);
      NextHttp(run[i - 1], run[i], events[i - 1].goroutine, events[i - 1].step);
    }
  }

  // ------------------------------------------------------------- the update

  /** The last moment that dates the trace: any but the end of a span. */
  function LastDated(moments: seq<Moment>, start: int): int {
    if moments == [] then start
    else if !moments[|moments| - 1].what.SpanEnd? then moments[|moments| - 1].time
    else LastDated(moments[..|moments| - 1], start)
  }

  lemma NextDates(w: World, w': World, g: nat, step: Step)
    requires Next(w, w', g, step)
    ensures w'.trace.startedAt == w.trace.startedAt
    ensures if |w'.moments| == |w.moments| then w'.moments == w.moments && w'.trace.updatedAt == w.trace.updatedAt
            else && |w'.moments| == |w.moments| + 1 && w'.moments[..|w.moments|] == w.moments
                 && w'.trace.updatedAt == if w'.moments[|w.moments|].what.SpanEnd? then w.trace.updatedAt
                                          else w'.moments[|w.moments|].time
  {
    hide Inv, StateIndex, OpenSpan, Link, RemoveLast;
  }

  /** A trace is dated by the last moment it recorded that is not the end of a
      span, and by its start before there is one. */
  lemma {:induction false} UpdateIsLastMoment(run: seq<World>, events: seq<Event>, i: nat)
    requires Run(run, events) && i < |run|
    ensures run[i].trace.updatedAt == LastDated(run[i].moments, run[i].trace.startedAt)
  {
    hide Next, Begin;
    if i == 0 {
      BeginsPlain(run[0]);
    } else {
      UpdateIsLastMoment(run, events, i - 1);
      NextDates(run[i - 1], run[i], events[i - 1].goroutine, events[i - 1].step);
    }
  }
}
