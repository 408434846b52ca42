/** What a trace records (model/trace.go, span.go, debug_span.go, log.go), as
    values: each function is the body of one critical section. Times are
    nanoseconds, and every function that records a moment takes the raw clock
    reading its call of `time` started from. */
module Recording {
  import opened Lists
  import opened Optional = Options
  import opened Requests
  import opened Totals
  import Clock

  // ------------------------------------------------------------------ states

  /** The scoreboard states; any other value a caller makes up is Unknown. */
  datatype State = Waiting | Starting | Reading | Processing | Writing | Keepalive | Closing | Error
                 | Unknown(text: string)

  const NUM_STATES := 8
  const STATES: seq<State> := [Waiting, Starting, Reading, Processing, Writing, Keepalive, Closing, Error]

  /** The timing slot of a state; an unknown one accounts as waiting. */
  function StateIndex(s: State): (i: nat)
    ensures i < NUM_STATES
    ensures !s.Unknown? ==> STATES[i] == s
  {
    match s
    case Starting => 1
    case Reading => 2
    case Processing => 3
    case Writing => 4
    case Keepalive => 5
    case Closing => 6
    case Error => 7
    case _ => 0
  }

  lemma StateIndexOnto(i: nat)
    requires i < NUM_STATES
    ensures !STATES[i].Unknown? && StateIndex(STATES[i]) == i
  {
    assert i == 0 || i == 1 || i == 2 || i == 3 || i == 4 || i == 5 || i == 6 || i == 7;
  }

  // ------------------------------------------------------------------ values

  /** A recorded span. Its id is its place among all spans of the trace,
      counted from one, so it is not repeated here; parentId is zero without a
      parent. */
  datatype Span = Span(parentId: nat, depth: nat, name: string, kind: string, startedAt: int, duration: int,
                       debug: bool, ended: bool, errorText: string)

  datatype LogEntry = LogEntry(time: int, level: string, message: string, spanId: nat)

  datatype Options = Options(maxSpans: int, debugMinSpan: int)

  /** `all` holds every span the trace ever recorded, which their holders may
      still end; `list` the ids of the retained ones, in order. */
  datatype Trace = Trace(
    id: string, opts: Options, startedAt: int, updatedAt: int, changedAt: int, duration: int,
    state: State, errorText: string, stateTime: seq<int>,
    all: seq<Span>, list: seq<nat>, droppedSpans: nat,
    logs: seq<LogEntry>, droppedLogs: nat, finished: bool, lastNanos: int, http: Option<Http>)

  /** The active span of a context: none, one of this trace, or a span that
      some other trace recorded. */
  datatype Parent = NoParent | Own(id: nat) | Foreign(traceId: string, id: nat, depth: nat)

  /** An id some recorded span has. */
  predicate Has(t: Trace, id: nat) {
    1 <= id <= |t.all|
  }

  function SpanOf(t: Trace, id: nat): Span
    requires Has(t, id)
  {
    t.all[id - 1]
  }

  // -------------------------------------------------------- critical sections

  function New(id: string, opts: Options, now: int): Trace {
    Trace(id, opts, now, now, now, 0, Starting, "", seq(NUM_STATES, _ => 0), [], [], 0, [], 0, false, now, None)
  }

  predicate KnownParent(t: Trace, p: Parent) {
    p.Own? ==> Has(t, p.id)
  }

  /** The parent id and the depth a new span gets: a parent links when its
      trace id is the id of this trace. */
  function Link(t: Trace, p: Parent): (nat, nat)
    requires KnownParent(t, p)
  {
    match p
    case NoParent => (0, 0)
    case Own(id) => (id, SpanOf(t, id).depth + 1)
    case Foreign(traceId, id, depth) => if traceId == t.id then (id, depth + 1) else (0, 0)
  }

  predicate Full(t: Trace, held: nat) {
    t.opts.maxSpans > 0 && held >= t.opts.maxSpans
  }

  function AppendSpan(t: Trace, p: Parent, name: string, kind: string, raw: int): Trace
    requires KnownParent(t, p)
  {
    if t.finished then t
    else if Full(t, |t.list|) then t.(droppedSpans := t.droppedSpans + 1)
    else
      var now := Clock.NextReading(t.lastNanos, raw);
      var link := Link(t, p);
      t.(all := t.all + [Span(link.0, link.1, name, kind, now, 0, false, false, "")],
         list := t.list + [|t.all| + 1], updatedAt := now, lastNanos := now)
  }

  /** Moves to a state at a reading, charging the time since the last change
      to the state left. */
  function Move(t: Trace, state: State, now: int): Trace
    requires |t.stateTime| == NUM_STATES
  {
    var i := StateIndex(t.state);
    t.(stateTime := t.stateTime[i := t.stateTime[i] + (now - t.changedAt)],
       state := state, changedAt := now, updatedAt := now, lastNanos := now)
  }

  function SetState(t: Trace, state: State, raw: int): Trace
    requires |t.stateTime| == NUM_STATES
  {
    if t.state == Error && state != Error then t else Move(t, state, Clock.NextReading(t.lastNanos, raw))
  }

  function RecordError(t: Trace, text: string, raw: int): Trace
    requires |t.stateTime| == NUM_STATES
  {
    Move(t, Error, Clock.NextReading(t.lastNanos, raw)).(errorText := text)
  }

  /** The first half of Finish: the close. */
  function Close(t: Trace, raw: int): Trace
    requires |t.stateTime| == NUM_STATES
  {
    if t.finished then t
    else
      var now := Clock.NextReading(t.lastNanos, raw);
      Move(t, t.state, now).(duration := now - t.startedAt, finished := true)
  }

  function SetSpan(t: Trace, id: nat, s: Span): Trace
    requires Has(t, id)
  {
    t.(all := t.all[id - 1 := s])
  }

  function SetDebug(t: Trace, id: nat): Trace
    requires Has(t, id)
  {
    SetSpan(t, id, SpanOf(t, id).(debug := true))
  }

  function SpanError(t: Trace, id: nat, text: string): Trace
    requires Has(t, id)
  {
    SetSpan(t, id, SpanOf(t, id).(errorText := text))
  }

  /** The first half of Span.End, under the span lock. */
  function MarkEnded(t: Trace, id: nat, raw: int): Trace
    requires Has(t, id)
  {
    var s := SpanOf(t, id);
    if s.ended then t
    else
      var now := Clock.NextReading(t.lastNanos, raw);
      SetSpan(t, id, s.(ended := true, duration := now - s.startedAt)).(lastNanos := now)
  }

  /** The second half of Span.End, under the trace lock: a debug span that ran
      too short leaves the list of a running trace. */
  predicate Dropped(t: Trace, id: nat, duration: int) {
    t.opts.debugMinSpan > 0 && duration < t.opts.debugMinSpan && !t.finished && id in t.list
  }

  function Filter(t: Trace, id: nat, duration: int): Trace {
    if Dropped(t, id, duration)
    then t.(list := RemoveLast(t.list, id), droppedSpans := t.droppedSpans + 1)
    else t
  }

  /** Span.End run to its end without interruption. */
  function EndSpan(t: Trace, id: nat, raw: int): (r: Trace)
    requires Has(t, id)
    ensures |r.all| == |t.all|
  {
    var t' := MarkEnded(t, id, raw);
    if !SpanOf(t, id).ended && SpanOf(t, id).debug then Filter(t', id, SpanOf(t', id).duration) else t'
  }

  /** Ends the first `n` of the listed spans, last one first; the reading
      `raws[i]` is the one the end of `ids[i]` starts from. */
  function EndAll(t: Trace, ids: seq<nat>, n: nat, raws: seq<int>): (t': Trace)
    requires n <= |ids| && |raws| == |ids| && forall i :: 0 <= i < |ids| ==> Has(t, ids[i])
    ensures |t'.all| == |t.all|
    decreases n
  {
    if n == 0 then t
    else
      assert Has(t, ids[n - 1]);
      var ended := EndSpan(t, ids[n - 1], raws[n - 1]);
      assert forall i :: 0 <= i < |ids| ==> Has(t, ids[i]) && Has(ended, ids[i]);
      EndAll(ended, ids, n - 1, raws)
  }

  /** The most recently started span of the first `n` listed that is open, or zero. */
  function OpenSpan(t: Trace, n: nat): nat
    requires n <= |t.list| && forall i :: 0 <= i < |t.list| ==> Has(t, t.list[i])
  {
    if n == 0 then 0
    else if !SpanOf(t, t.list[n - 1]).ended then t.list[n - 1]
    else OpenSpan(t, n - 1)
  }

  /** Records an entry attributed to a span, or to none with id zero. */
  function LogTo(t: Trace, level: string, span: nat, message: string, raw: int): Trace {
    if t.finished then t
    else if Full(t, |t.logs|) then t.(droppedLogs := t.droppedLogs + 1)
    else
      var now := Clock.NextReading(t.lastNanos, raw);
      t.(logs := t.logs + [LogEntry(now, level, message, span)], updatedAt := now, lastNanos := now)
  }

  /** An entry with span id zero goes to the innermost open span. */
  function AppendLog(t: Trace, level: string, spanId: nat, message: string, raw: int): Trace
    requires forall i :: 0 <= i < |t.list| ==> Has(t, t.list[i])
  {
    LogTo(t, level, if spanId == 0 then OpenSpan(t, |t.list|) else spanId, message, raw)
  }

  function SetHttp(t: Trace, info: Http): Trace {
    t.(http := Some(info))
  }

  /** The response metadata, dated; an empty route keeps the one there is. */
  function SetResponse(t: Trace, status: int, bytes: int, route: string, raw: int): Trace {
    var now := Clock.NextReading(t.lastNanos, raw);
    var h := if t.http.None? then Http("", "", "", "", 0, 0) else t.http.value;
    t.(http := Some(h.(status := status, responseBytes := bytes, route := if route != "" then route else h.route)),
       updatedAt := now, lastNanos := now)
  }

  // ------------------------------------------------------------- observations

  function Elapsed(t: Trace, raw: int): int {
    if t.duration > 0 then t.duration else Clock.Peek(t.lastNanos, raw) - t.startedAt
  }

  function StateTimes(t: Trace, raw: int): (r: seq<int>)
    requires |t.stateTime| == NUM_STATES
    ensures |r| == NUM_STATES
  {
    if t.finished then t.stateTime
    else
      var i := StateIndex(t.state);
      t.stateTime[i := t.stateTime[i] + (Clock.Peek(t.lastNanos, raw) - t.changedAt)]
  }

  /** The first `n` slots that are not zero, under the names of their states. */
  function Buckets(stateTime: seq<int>, n: nat): (m: map<State, int>)
    requires |stateTime| == NUM_STATES && n <= NUM_STATES
    ensures forall i :: 0 <= i < n ==> Lookup(m, STATES[i]) == stateTime[i]
    ensures forall s :: s in m ==> exists i :: 0 <= i < n && STATES[i] == s
  {
    if n == 0 then map[]
    else
      StatesDistinct();
      var m := Buckets(stateTime, n - 1);
      if stateTime[n - 1] != 0 then m[STATES[n - 1] := stateTime[n - 1]] else m
  }

  lemma StatesDistinct()
    ensures forall i, j :: 0 <= i < NUM_STATES && 0 <= j < NUM_STATES && STATES[i] == STATES[j] ==> i == j
    ensures forall i :: 0 <= i < NUM_STATES ==> !STATES[i].Unknown? && StateIndex(STATES[i]) == i
  {
    forall i | 0 <= i < NUM_STATES ensures !STATES[i].Unknown? && StateIndex(STATES[i]) == i { StateIndexOnto(i); }
    forall i, j | 0 <= i < NUM_STATES && 0 <= j < NUM_STATES && STATES[i] == STATES[j] ensures i == j {
      StateIndexOnto(i);
      StateIndexOnto(j);
    }
  }

  function Durations(t: Trace, raw: int): map<State, int>
    requires |t.stateTime| == NUM_STATES
  {
    var buckets := Buckets(t.stateTime, NUM_STATES);
    if t.finished then buckets
    else buckets[t.state := Lookup(buckets, t.state) + (Clock.Peek(t.lastNanos, raw) - t.changedAt)]
  }

  // ------------------------------------------------------- one trace, always

  /** Accounting: the buckets are the time since the start, split by state. */
  ghost predicate Accounted(t: Trace) {
    && |t.stateTime| == NUM_STATES
    && (forall i :: 0 <= i < NUM_STATES ==> t.stateTime[i] >= 0)
    && Sum(t.stateTime) == t.changedAt - t.startedAt
    && t.startedAt <= t.changedAt <= t.lastNanos
    && t.startedAt <= t.updatedAt <= t.lastNanos
    && (t.finished ==> 1 <= t.duration <= Sum(t.stateTime))
    && (!t.finished ==> t.duration == 0)
  }

  /** Every recorded span has a moment of its own, and an ended one ran. */
  ghost predicate Timed(t: Trace, id: nat)
    requires Has(t, id)
  {
    var s := SpanOf(t, id);
    && t.startedAt < s.startedAt <= t.lastNanos
    && (s.ended ==> 1 <= s.duration && s.startedAt + s.duration <= t.lastNanos)
    && (!s.ended ==> s.duration == 0)
  }

  /** Ids count the spans, starts follow ids, and the list keeps their order. */
  ghost predicate Shaped(t: Trace) {
    && (forall id {:trigger Has(t, id)} :: Has(t, id) ==> Timed(t, id))
    && (forall i, j :: 0 <= i < j < |t.all| ==> t.all[i].startedAt < t.all[j].startedAt)
    && (forall i :: 0 <= i < |t.list| ==> Has(t, t.list[i]))
    && (forall i, j :: 0 <= i < j < |t.list| ==> t.list[i] < t.list[j])
    && (t.opts.maxSpans > 0 ==> |t.list| <= t.opts.maxSpans)
  }

  ghost predicate Inv(t: Trace) {
    Accounted(t) && Shaped(t)
  }

  lemma NewKeepsInv(id: string, opts: Options, now: int)
    ensures Inv(New(id, opts, now))
  {
    var zero := seq(NUM_STATES, _ => 0);
    SumOfZeros(zero);
  }

  lemma {:induction false} SumOfZeros(s: seq<int>)
    requires forall i :: 0 <= i < |s| ==> s[i] == 0
    ensures Sum(s) == 0
  {
    if s != [] { SumOfZeros(s[..|s| - 1]); }
  }

  lemma MoveAccounts(t: Trace, state: State, now: int)
    requires Accounted(t) && now > t.lastNanos
    ensures Sum(Move(t, state, now).stateTime) == now - t.startedAt
    ensures forall i :: 0 <= i < NUM_STATES ==> Move(t, state, now).stateTime[i] >= 0
    ensures Sum(Move(t, state, now).stateTime) > Sum(t.stateTime)
  {
    var i := StateIndex(t.state);
    SumUpdate(t.stateTime, i, t.stateTime[i] + (now - t.changedAt));
    assert Move(t, state, now).stateTime == t.stateTime[i := t.stateTime[i] + (now - t.changedAt)];
  }

  lemma MoveKeepsInv(t: Trace, state: State, now: int)
    requires Inv(t) && now > t.lastNanos
    ensures Inv(Move(t, state, now))
  {
    MoveAccounts(t, state, now);
    KeepsTiming(t, Move(t, state, now));
  }

  /** A later clock and the same spans keep every span in time. */
  lemma KeepsTiming(t: Trace, t': Trace)
    requires Shaped(t)
    requires t'.all == t.all && t'.startedAt == t.startedAt && t'.lastNanos >= t.lastNanos
    ensures forall id {:trigger Has(t', id)} :: Has(t', id) ==> Timed(t', id)
  {
    forall id: nat | Has(t', id) ensures Timed(t', id) { assert Has(t, id); }
  }

  lemma StartKeepsInv(t: Trace, p: Parent, name: string, kind: string, raw: int)
    requires Inv(t) && KnownParent(t, p)
    ensures Inv(AppendSpan(t, p, name, kind, raw))
  {
    var t' := AppendSpan(t, p, name, kind, raw);
    forall id: nat | Has(t', id) ensures Timed(t', id) {
      if id <= |t.all| { assert Has(t, id); }
    }
    forall i | 0 <= i < |t.all| ensures t.all[i].startedAt <= t.lastNanos { assert Has(t, i + 1); }
    forall i | 0 <= i < |t'.list| ensures Has(t', t'.list[i]) {
      if i < |t.list| { assert Has(t, t.list[i]); }
    }
  }

  lemma CloseKeepsInv(t: Trace, raw: int)
    requires Inv(t)
    ensures Inv(Close(t, raw)) && Close(t, raw).finished
    ensures !t.finished ==> Close(t, raw).duration == Sum(Close(t, raw).stateTime)
  {
    if !t.finished {
      var now := Clock.NextReading(t.lastNanos, raw);
      MoveAccounts(t, t.state, now);
      KeepsTiming(t, Close(t, raw));
    }
  }

  lemma MarkKeepsInv(t: Trace, id: nat, raw: int)
    requires Inv(t) && Has(t, id)
    ensures Inv(MarkEnded(t, id, raw))
  {
    var t' := MarkEnded(t, id, raw);
    forall i: nat | Has(t', i) ensures Timed(t', i) { assert Has(t, i) && Timed(t, id); }
    forall i | 0 <= i < |t'.list| ensures Has(t', t'.list[i]) { assert Has(t, t.list[i]); }
  }

  lemma FailKeepsInv(t: Trace, text: string, raw: int)
    requires Inv(t)
    ensures Inv(RecordError(t, text, raw))
  {
    var m := Move(t, Error, RecordError(t, text, raw).lastNanos);
    MoveKeepsInv(t, Error, m.lastNanos);
    KeepsTiming(m, m.(errorText := text));
    assert forall i :: 0 <= i < |m.list| ==> Has(m, m.list[i]);
  }

  /** Debug marks and errors touch no time. */
  lemma NoteKeepsInv(t: Trace, id: nat, text: string)
    requires Inv(t) && Has(t, id)
    ensures Inv(SetDebug(t, id)) && Inv(SpanError(t, id, text))
  {
    var d, e := SetDebug(t, id), SpanError(t, id, text);
    forall i: nat | Has(d, i) ensures Timed(d, i) { assert Has(t, i); }
    forall i: nat | Has(e, i) ensures Timed(e, i) { assert Has(t, i); }
    forall i | 0 <= i < |t.list| ensures Has(d, t.list[i]) && Has(e, t.list[i]) { assert Has(t, t.list[i]); }
  }

  lemma FilterKeepsInv(t: Trace, id: nat, duration: int)
    requires Inv(t)
    ensures Inv(Filter(t, id, duration))
    ensures id !in Filter(t, id, duration).list || !Dropped(t, id, duration)
  {
    var t' := Filter(t, id, duration);
    KeepsTiming(t, t');
    forall i | 0 <= i < |t'.list| ensures Has(t', t'.list[i]) { assert t'.list[i] in t.list; }
  }

  lemma ResponseKeepsInv(t: Trace, info: Http, status: int, bytes: int, route: string, raw: int)
    requires Inv(t)
    ensures Inv(SetHttp(t, info)) && Inv(SetResponse(t, status, bytes, route, raw))
  {
    var h, s := SetHttp(t, info), SetResponse(t, status, bytes, route, raw);
    KeepsTiming(t, h);
    KeepsTiming(t, s);
    forall i | 0 <= i < |t.list| ensures Has(h, t.list[i]) && Has(s, t.list[i]) { assert Has(t, t.list[i]); }
  }

  lemma LogKeepsInv(t: Trace, level: string, span: nat, message: string, raw: int)
    requires Inv(t)
    ensures Inv(LogTo(t, level, span, message, raw))
  {
    var t' := LogTo(t, level, span, message, raw);
    KeepsTiming(t, t');
    forall i | 0 <= i < |t'.list| ensures Has(t', t'.list[i]) { assert Has(t, t.list[i]); }
  }

  /** A trace whose state changed after its close. */
  predicate Late(t: Trace) {
    t.finished && t.changedAt != t.startedAt + t.duration
  }

  // --------------------------------------------------------------- properties

  /** The backwards scan finds the innermost open span: the largest listed id
      that has not ended, or nothing when all have. */
  lemma {:induction false} OpenSpanIsInnermost(t: Trace, n: nat)
    requires Inv(t) && n <= |t.list|
    ensures var id := OpenSpan(t, n);
            && (id == 0 <==> forall i :: 0 <= i < n ==> SpanOf(t, t.list[i]).ended)
            && (id != 0 ==> id in t.list[..n] && !SpanOf(t, id).ended
                            && forall i :: 0 <= i < n && !SpanOf(t, t.list[i]).ended ==> t.list[i] <= id)
  {
    if n > 0 { OpenSpanIsInnermost(t, n - 1); }
  }
}
