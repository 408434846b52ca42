/** One trace and any number of goroutines recording into it: every run of the
    critical sections of Recording, with Span.End split into its mark and its
    filter, and Finish into its close and the ends that follow. */
module RecorderRuns {
  import opened Lists
  import opened Recording
  import opened Requests

  /** Where a goroutine is: between calls; past the mark of an End whose filter
      is still to run; or past the close of Finish, with the first `left` of
      the spans it captured still to end, and maybe one of them to filter. */
  datatype Pc =
    | Idle
    | Filtering(id: nat, duration: int)
    | Ending(spans: seq<nat>, left: nat)
    | EndingFilter(spans: seq<nat>, left: nat, id: nat, duration: int)

  /** What a recorded moment is the moment of. */
  datatype What = SpanStart(id: nat) | SpanEnd(id: nat) | LogLine(index: nat) | Change | Response

  datatype Moment = Moment(what: What, time: int)

  /** The trace, the goroutines, and the history the claims are about: starts
      tried before the close, starts the limit refused, the debug spans
      dropped, and every moment recorded. */
  datatype World = World(
    trace: Trace,
    pcs: map<nat, Pc>,
    tried: nat,
    refused: nat,
    dropped: seq<nat>,
    moments: seq<Moment>)

  datatype Step =
    | Start(parent: Parent, name: string, kind: string, raw: int)
    | State(state: State, raw: int)
    | Fail(text: string, raw: int)
    | Debug(id: nat)
    | FailSpan(id: nat, text: string)
    | Log(level: string, span: nat, message: string, raw: int)
    | Request(info: Http)
    | Respond(status: int, bytes: int, route: string, raw: int)
    | End(id: nat, raw: int)
    | FilterEnded
    | Finish(raw: int)
    | EndNext(raw: int)
    | FilterNext

  function PcOf(w: World, g: nat): Pc {
    if g in w.pcs then w.pcs[g] else Idle
  }

  /** The moment a step recorded, if it moved the recorded clock. */
  function Record(t: Trace, t': Trace, what: What, moments: seq<Moment>): seq<Moment> {
    if t'.lastNanos == t.lastNanos then moments else moments + [Moment(what, t'.lastNanos)]
  }

  function AfterEnd(t: Trace, id: nat, raw: int, filter: (nat, int) -> Pc, done: Pc): Pc
    requires Has(t, id)
  {
    if !SpanOf(t, id).ended && SpanOf(t, id).debug
    then filter(id, SpanOf(MarkEnded(t, id, raw), id).duration)
    else done
  }

  function DropLog(t: Trace, id: nat, duration: int, dropped: seq<nat>): seq<nat> {
    if Dropped(t, id, duration) then dropped + [id] else dropped
  }

  ghost predicate Enabled(w: World, g: nat, step: Step) {
    var pc := PcOf(w, g);
    match step
    case Start(p, _, _, _) => pc.Idle? && KnownParent(w.trace, p)
    case Debug(id) => pc.Idle? && Has(w.trace, id)
    case FailSpan(id, _) => pc.Idle? && Has(w.trace, id)
    case End(id, _) => pc.Idle? && Has(w.trace, id)
    case FilterEnded => pc.Filtering?
    case EndNext(_) => pc.Ending? && 0 < pc.left <= |pc.spans| && Has(w.trace, pc.spans[pc.left - 1])
    case FilterNext => pc.EndingFilter?
    case _ => pc.Idle?
  }

  ghost function After(w: World, g: nat, step: Step): World
    requires Inv(w.trace) && Enabled(w, g, step)
  {
    var t, pc := w.trace, PcOf(w, g);
    match step
    case Start(p, name, kind, raw) =>
      var t' := AppendSpan(t, p, name, kind, raw);
      w.(trace := t',
         tried := if t.finished then w.tried else w.tried + 1,
         refused := if !t.finished && Full(t, |t.list|) then w.refused + 1 else w.refused,
         moments := Record(t, t', SpanStart(|t'.all|), w.moments))
    case State(state, raw) =>
      var t' := SetState(t, state, raw);
      w.(trace := t', moments := Record(t, t', Change, w.moments))
    case Fail(text, raw) =>
      var t' := RecordError(t, text, raw);
      w.(trace := t', moments := Record(t, t', Change, w.moments))
    case Debug(id) => w.(trace := SetDebug(t, id))
    case FailSpan(id, text) => w.(trace := SpanError(t, id, text))
    case Log(level, span, message, raw) =>
      var t' := LogTo(t, level, span, message, raw);
      w.(trace := t', moments := Record(t, t', LogLine(|t.logs|), w.moments))
    case Request(info) => w.(trace := SetHttp(t, info))
    case Respond(status, bytes, route, raw) =>
      var t' := SetResponse(t, status, bytes, route, raw);
      w.(trace := t', moments := Record(t, t', Response, w.moments))
    case End(id, raw) =>
      var t' := MarkEnded(t, id, raw);
      w.(trace := t', moments := Record(t, t', SpanEnd(id), w.moments),
         pcs := w.pcs[g := AfterEnd(t, id, raw, (i: nat, d: int) => Filtering(i, d), Idle)])
    case FilterEnded =>
      w.(trace := Filter(t, pc.id, pc.duration), dropped := DropLog(t, pc.id, pc.duration, w.dropped),
         pcs := w.pcs[g := Idle])
    case Finish(raw) =>
      var t' := Close(t, raw);
      w.(trace := t', moments := Record(t, t', Change, w.moments),
         pcs := if t.finished then w.pcs else w.pcs[g := Ending(t'.list, |t'.list|)])
    case EndNext(raw) =>
      var left, id := pc.left - 1, pc.spans[pc.left - 1];
      var t' := MarkEnded(t, id, raw);
      w.(trace := t', moments := Record(t, t', SpanEnd(id), w.moments),
         pcs := w.pcs[g := AfterEnd(t, id, raw,
                                    (i: nat, d: int) => EndingFilter(pc.spans, left, i, d), Ending(pc.spans, left))])
    case FilterNext =>
      w.(trace := Filter(t, pc.id, pc.duration), dropped := DropLog(t, pc.id, pc.duration, w.dropped),
         pcs := w.pcs[g := Ending(pc.spans, pc.left)])
  }

  ghost predicate Next(w: World, w': World, g: nat, step: Step) {
    Inv(w.trace) && Enabled(w, g, step) && w' == After(w, g, step)
  }

  datatype Event = Event(goroutine: nat, step: Step)

  ghost predicate Begin(w: World) {
    exists id: string, opts: Options, now: int {:trigger New(id, opts, now)} ::
        w == World(New(id, opts, now), map[], 0, 0, [], [])
  }

  /** A run takes enabled steps from a new trace. */
  ghost predicate Run(run: seq<World>, events: seq<Event>) {
    && |run| == |events| + 1
    && Begin(run[0])
    && forall i :: 0 <= i < |events| ==> Next(run[i], run[i + 1], events[i].goroutine, events[i].step)
  }

  // --------------------------------------------------------------- invariants

  lemma StepKeepsTrace(w: World, g: nat, step: Step)
    requires Inv(w.trace) && Enabled(w, g, step)
    ensures Inv(After(w, g, step).trace)
  {
    hide Shaped, StateIndex, OpenSpan, Link, Filter, MarkEnded, AppendSpan, RemoveLast;
    var t, pc := w.trace, PcOf(w, g);
    match step
    case Start(p, name, kind, raw) => StartKeepsInv(t, p, name, kind, raw);
    case State(state, raw) =>
      if !(t.state == Error && state != Error) { MoveKeepsInv(t, state, SetState(t, state, raw).lastNanos); }
    case Fail(text, raw) => FailKeepsInv(t, text, raw);
    case Debug(id) => NoteKeepsInv(t, id, "");
    case FailSpan(id, text) => NoteKeepsInv(t, id, text);
    case Log(level, span, message, raw) => LogKeepsInv(t, level, span, message, raw);
    case Request(info) => ResponseKeepsInv(t, info, 0, 0, "", 0);
    case Respond(status, bytes, route, raw) =>
      ResponseKeepsInv(t, Http("", "", "", "", 0, 0), status, bytes, route, raw);
    case End(id, raw) => MarkKeepsInv(t, id, raw);
    case FilterEnded => FilterKeepsInv(t, pc.id, pc.duration);
    case Finish(raw) => CloseKeepsInv(t, raw);
    case EndNext(raw) => MarkKeepsInv(t, pc.spans[pc.left - 1], raw);
    case FilterNext => FilterKeepsInv(t, pc.id, pc.duration);
  }

  lemma StepKeepsClose(w: World, g: nat, step: Step)
    requires Inv(w.trace) && Enabled(w, g, step) && w.trace.finished
    ensures After(w, g, step).trace.finished && After(w, g, step).trace.list == w.trace.list
  {
    hide Shaped, StateIndex, OpenSpan, Link, RemoveLast;
  }

  predicate Pending(pc: Pc) {
    pc.Filtering? || pc.EndingFilter?
  }

  predicate Closer(pc: Pc) {
    pc.Ending? || pc.EndingFilter?
  }

  /** Every recorded span is retained or was dropped once, and the counter says
      how many starts are missing from the list. */
  ghost predicate Counted(w: World) {
    && |w.trace.list| + w.trace.droppedSpans == w.tried
    && w.trace.droppedSpans == w.refused + |w.dropped|
    && (forall i, j :: 0 <= i < j < |w.dropped| ==> w.dropped[i] != w.dropped[j])
    && (forall id :: id in w.dropped ==> Has(w.trace, id) && SpanOf(w.trace, id).ended && SpanOf(w.trace, id).debug)
    && (forall id: nat {:trigger Has(w.trace, id)} :: Has(w.trace, id) ==> (id in w.trace.list <==> id !in w.dropped))
  }

  /** A filter still to run is for an ended span nobody else is filtering. */
  ghost predicate FiltersDue(w: World) {
    && (forall g: nat :: Pending(PcOf(w, g)) ==>
          var id := PcOf(w, g).id;
          Has(w.trace, id) && SpanOf(w.trace, id).ended && SpanOf(w.trace, id).debug && id !in w.dropped)
    && (forall g: nat, h: nat :: g != h && Pending(PcOf(w, g)) && Pending(PcOf(w, h)) ==>
        PcOf(w, g).id != PcOf(w, h).id)
  }

  /** The goroutine that closed the trace walks the frozen list from its end. */
  ghost predicate ClosingAt(w: World, pc: Pc)
    requires Closer(pc) && Inv(w.trace)
  {
    && w.trace.finished && pc.spans == w.trace.list && pc.left <= |pc.spans|
    && forall i :: pc.left <= i < |pc.spans| ==> Has(w.trace, w.trace.list[i]) && SpanOf(w.trace, w.trace.list[i]).ended
  }

  ghost predicate Closing(w: World)
    requires Inv(w.trace)
  {
    && (forall g: nat :: Closer(PcOf(w, g)) ==> ClosingAt(w, PcOf(w, g)))
    && (forall g: nat, h: nat :: Closer(PcOf(w, g)) && Closer(PcOf(w, h)) ==> g == h)
    && (w.trace.finished ==> exists g: nat :: Closer(PcOf(w, g)))
  }

  ghost predicate WorldInv(w: World) {
    Inv(w.trace) && Counted(w) && FiltersDue(w) && Closing(w)
  }

  lemma BeginIsGood(w: World)
    requires Begin(w)
    ensures WorldInv(w)
  {
    var id: string, opts: Options, now: int :| w == World(New(id, opts, now), map[], 0, 0, [], []);
    NewKeepsInv(id, opts, now);
  }

  /** Marking never unmarks, and keeps what is debug. */
  lemma MarksStay(w: World, g: nat, step: Step, id: nat)
    requires Inv(w.trace) && Enabled(w, g, step) && Has(w.trace, id)
    ensures Has(After(w, g, step).trace, id)
    ensures SpanOf(w.trace, id).ended ==> SpanOf(After(w, g, step).trace, id).ended
    ensures SpanOf(w.trace, id).debug ==> SpanOf(After(w, g, step).trace, id).debug
  {
  }

  lemma StepKeepsTally(w: World, g: nat, step: Step)
    requires WorldInv(w) && Enabled(w, g, step)
    ensures var w' := After(w, g, step);
            |w'.trace.list| + w'.trace.droppedSpans == w'.tried && w'.trace.droppedSpans == w'.refused + |w'.dropped|
  {
    hide Shaped, Closing, StateIndex, OpenSpan, Link;
  }

  lemma StepKeepsDropped(w: World, g: nat, step: Step)
    requires WorldInv(w) && Enabled(w, g, step)
    ensures var w' := After(w, g, step);
            && (forall i, j :: 0 <= i < j < |w'.dropped| ==> w'.dropped[i] != w'.dropped[j])
            && (forall id :: id in w'.dropped ==>
                  Has(w'.trace, id) && SpanOf(w'.trace, id).ended && SpanOf(w'.trace, id).debug)
  {
    hide Shaped, Closing, StateIndex, OpenSpan, Link, RemoveLast;
    var w', pc := After(w, g, step), PcOf(w, g);
    forall id | id in w'.dropped
      ensures Has(w'.trace, id) && SpanOf(w'.trace, id).ended && SpanOf(w'.trace, id).debug
    {
      assert id in w.dropped || (Pending(pc) && id == pc.id);
      MarksStay(w, g, step, id);
    }
  }

  /** Only a filter takes a span from the list, and it notes the drop. */
  lemma StepLists(w: World, g: nat, step: Step, id: nat)
    requires WorldInv(w) && Enabled(w, g, step) && Has(w.trace, id)
    ensures var w' := After(w, g, step);
            if Pending(PcOf(w, g)) && PcOf(w, g).id == id && Dropped(w.trace, id, PcOf(w, g).duration)
            then id !in w'.trace.list && id in w'.dropped
            else (id in w'.trace.list <==> id in w.trace.list) && (id in w'.dropped <==> id in w.dropped)
  {
    hide Closing, StateIndex, OpenSpan, Link;
    var pc := PcOf(w, g);
    if Pending(pc) && Dropped(w.trace, pc.id, pc.duration) { RemovedOnce(w.trace.list, pc.id); }
  }

  /** A span new to the trace is listed. */
  lemma StepListsNew(w: World, g: nat, step: Step, id: nat)
    requires WorldInv(w) && Enabled(w, g, step) && !Has(w.trace, id) && Has(After(w, g, step).trace, id)
    ensures id in After(w, g, step).trace.list && id !in After(w, g, step).dropped
  {
    hide Shaped, Closing, StateIndex, OpenSpan, Link, RemoveLast;
  }

  lemma StepKeepsCount(w: World, g: nat, step: Step)
    requires WorldInv(w) && Enabled(w, g, step)
    ensures Counted(After(w, g, step))
  {
    var w' := After(w, g, step);
    StepKeepsTally(w, g, step);
    StepKeepsDropped(w, g, step);
    hide After, FiltersDue, Closing, Inv, Enabled, Dropped;
    forall id: nat | Has(w'.trace, id) ensures id in w'.trace.list <==> id !in w'.dropped {
      if Has(w.trace, id) { StepLists(w, g, step, id); } else { StepListsNew(w, g, step, id); }
    }
  }

  lemma RemovedOnce(list: seq<nat>, id: nat)
    requires id in list && forall i, j :: 0 <= i < j < |list| ==> list[i] < list[j]
    ensures id !in RemoveLast(list, id)
  {
  }

  lemma OwnPcOnly(w: World, g: nat, step: Step, h: nat)
    requires Inv(w.trace) && Enabled(w, g, step) && h != g
    ensures PcOf(After(w, g, step), h) == PcOf(w, h)
  {
  }

  /** A filter falls due by the mark that ended its span. */
  lemma FilterFallsDue(w: World, g: nat, step: Step)
    requires Inv(w.trace) && Enabled(w, g, step) && Pending(PcOf(After(w, g, step), g))
    ensures var id := PcOf(After(w, g, step), g).id;
            Has(w.trace, id) && !SpanOf(w.trace, id).ended
  {
  }

  lemma StepKeepsFilters(w: World, g: nat, step: Step)
    requires WorldInv(w) && Enabled(w, g, step)
    ensures FiltersDue(After(w, g, step))
  {
    var w' := After(w, g, step);
    forall h: nat | Pending(PcOf(w', h))
      ensures var id := PcOf(w', h).id;
              Has(w'.trace, id) && SpanOf(w'.trace, id).ended && SpanOf(w'.trace, id).debug && id !in w'.dropped
    {
      if h != g {
        OwnPcOnly(w, g, step, h);
        MarksStay(w, g, step, PcOf(w, h).id);
      }
    }
    forall h: nat, k: nat | h != k && Pending(PcOf(w', h)) && Pending(PcOf(w', k))
      ensures PcOf(w', h).id != PcOf(w', k).id
    {
      if h != g { OwnPcOnly(w, g, step, h); }
      if k != g { OwnPcOnly(w, g, step, k); }
      if h == g || k == g { FilterFallsDue(w, g, step); }
    }
  }

  /** A goroutine is past a close it made earlier, or makes it now. */
  lemma ClosesOrClosed(w: World, g: nat, step: Step)
    requires WorldInv(w) && Enabled(w, g, step)
    ensures var w' := After(w, g, step);
            Closer(PcOf(w', g)) <==> Closer(PcOf(w, g)) || (step.Finish? && !w.trace.finished)
    ensures var w' := After(w, g, step);
            w'.trace.finished <==> w.trace.finished || step.Finish?
  {
    hide Counted, FiltersDue, Shaped, StateIndex, OpenSpan, Link;
  }

  lemma CloserStays(w: World, g: nat, step: Step)
    requires WorldInv(w) && Enabled(w, g, step) && Closer(PcOf(After(w, g, step), g))
    ensures Inv(After(w, g, step).trace) && ClosingAt(After(w, g, step), PcOf(After(w, g, step), g))
  {
    hide Counted, FiltersDue, Accounted, Shaped, StateIndex, OpenSpan, Link;
    var w' := After(w, g, step);
    StepKeepsTrace(w, g, step);
    if w.trace.finished { StepKeepsClose(w, g, step); }
    var pc, pc' := PcOf(w, g), PcOf(w', g);
    ClosesOrClosed(w, g, step);
    if Closer(pc) {
      assert ClosingAt(w, pc);
      forall i | pc'.left <= i < |pc'.spans|
        ensures Has(w'.trace, pc'.spans[i]) && SpanOf(w'.trace, pc'.spans[i]).ended
      {
        if pc.left <= i { MarksStay(w, g, step, w.trace.list[i]); }
      }
    }
  }

  lemma StepKeepsClosing(w: World, g: nat, step: Step)
    requires WorldInv(w) && Enabled(w, g, step)
    ensures Inv(After(w, g, step).trace) && Closing(After(w, g, step))
  {
    var w' := After(w, g, step);
    StepKeepsTrace(w, g, step);
    if w.trace.finished { StepKeepsClose(w, g, step); }
    ClosesOrClosed(w, g, step);
    forall h: nat | Closer(PcOf(w', h)) ensures ClosingAt(w', PcOf(w', h)) {
      if h == g {
        CloserStays(w, g, step);
      } else {
        OwnPcOnly(w, g, step, h);
        assert ClosingAt(w, PcOf(w, h));
        var pc := PcOf(w, h);
        forall i | pc.left <= i < |pc.spans|
          ensures Has(w'.trace, w'.trace.list[i]) && SpanOf(w'.trace, w'.trace.list[i]).ended
        {
          MarksStay(w, g, step, w.trace.list[i]);
        }
      }
    }
    forall h: nat, k: nat | Closer(PcOf(w', h)) && Closer(PcOf(w', k)) ensures h == k {
      if h != g { OwnPcOnly(w, g, step, h); }
      if k != g { OwnPcOnly(w, g, step, k); }
    }
    if w.trace.finished {
      var h: nat :| Closer(PcOf(w, h));
      if h != g { OwnPcOnly(w, g, step, h); }
      assert Closer(PcOf(w', h));
    } else if w'.trace.finished {
      assert Closer(PcOf(w', g));
    }
  }

  lemma {:induction false} RunKeepsInv(run: seq<World>, events: seq<Event>, i: nat)
    requires Run(run, events) && i < |run|
    ensures WorldInv(run[i])
  {
    if i == 0 {
      BeginIsGood(run[0]);
    } else {
      RunKeepsInv(run, events, i - 1);
      var w, e := run[i - 1], events[i - 1];
      assert Next(w, run[i], e.goroutine, e.step);
      StepKeepsCount(w, e.goroutine, e.step);
      StepKeepsFilters(w, e.goroutine, e.step);
      StepKeepsClosing(w, e.goroutine, e.step);
    }
  }
}
