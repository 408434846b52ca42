/** The sections of RecorderRuns as the code takes them (model/trace.go,
    model/span.go): what a trace holds is guarded by its lock, what an end or a
    mark writes by the lock of its span, and the clock by neither. A section
    locks, decides, reads the clock by the retry loop, and writes; others run
    between any two of these. */
module LockedSections {
  import opened Recording
  import Clock
  import RR = RecorderRuns

  // --------------------------------------------------------- what locks guard

  /** The part of a span that its own lock guards. */
  datatype Mark = Mark(duration: int, debug: bool, ended: bool, errorText: string)

  const UNMARKED := Mark(0, false, false, "")

  function MarkOf(s: Span): Mark {
    Mark(s.duration, s.debug, s.ended, s.errorText)
  }

  function Bare(s: Span): Span {
    s.(duration := 0, debug := false, ended := false, errorText := "")
  }

  /** The part of a trace that its lock guards. */
  function Shape(t: Trace): (b: Trace)
    ensures |b.all| == |t.all| && forall i :: 0 <= i < |t.all| ==> b.all[i] == Bare(t.all[i])
  {
    t.(all := seq(|t.all|, i requires 0 <= i < |t.all| => Bare(t.all[i])), lastNanos := 0)
  }

  function MarkAt(t: Trace, id: nat): Mark
    requires Has(t, id)
  {
    MarkOf(SpanOf(t, id))
  }

  // -------------------------------------------------------- what a section does

  predicate OnSpan(step: RR.Step) {
    step.Debug? || step.FailSpan? || step.End? || step.EndNext?
  }

  /** The span a section locks. */
  function SpanId(step: RR.Step, pc: RR.Pc): nat {
    match step
    case Debug(id) => id
    case FailSpan(id, _) => id
    case End(id, _) => id
    case EndNext(_) => if pc.Ending? && 0 < pc.left <= |pc.spans| then pc.spans[pc.left - 1] else 0
    case _ => 0
  }

  function RawOf(step: RR.Step): int {
    match step
    case Start(_, _, _, raw) => raw
    case State(_, raw) => raw
    case Fail(_, raw) => raw
    case Log(_, _, _, raw) => raw
    case Respond(_, _, _, raw) => raw
    case End(_, raw) => raw
    case Finish(raw) => raw
    case EndNext(raw) => raw
    case _ => 0
  }

  /** The section will read the clock. */
  predicate Times(b: Trace, m: Mark, step: RR.Step) {
    match step
    case Start(_, _, _, _) => !b.finished && !Full(b, |b.list|)
    case State(state, _) => !(b.state == Error && state != Error)
    case Fail(_, _) => true
    case Log(_, _, _, _) => !b.finished && !Full(b, |b.logs|)
    case Respond(_, _, _, _) => true
    case Finish(_) => !b.finished
    case End(_, _) => !m.ended
    case EndNext(_) => !m.ended
    case _ => false
  }

  /** What a section under the trace lock writes, at its reading if it took one. */
  function TraceEffect(b: Trace, pc: RR.Pc, step: RR.Step, now: int): Trace
    requires |b.stateTime| == NUM_STATES && (step.Start? ==> KnownParent(b, step.parent))
  {
    var t := b.(lastNanos := now - 1);
    var t' := match step
              case Start(p, name, kind, _) => AppendSpan(t, p, name, kind, now)
              case State(state, _) => SetState(t, state, now)
              case Fail(text, _) => RecordError(t, text, now)
              case Log(level, span, message, _) => LogTo(t, level, span, message, now)
              case Request(info) => SetHttp(t, info)
              case Respond(status, bytes, route, _) => SetResponse(t, status, bytes, route, now)
              case Finish(_) => Close(t, now)
              case FilterEnded => if pc.Filtering? then Filter(t, pc.id, pc.duration) else t
              case FilterNext => if pc.EndingFilter? then Filter(t, pc.id, pc.duration) else t
              case _ => t;
    t'.(lastNanos := 0)
  }

  /** What a section under a span lock writes. */
  function MarkEffect(m: Mark, start: int, step: RR.Step, now: int): Mark {
    match step
    case Debug(_) => m.(debug := true)
    case FailSpan(_, text) => m.(errorText := text)
    case End(_, _) => if m.ended then m else m.(ended := true, duration := now - start)
    case EndNext(_) => if m.ended then m else m.(ended := true, duration := now - start)
    case _ => m
  }

  /** Where the goroutine is after the section. */
  function PcAfter(b: Trace, m: Mark, start: int, pc: RR.Pc, step: RR.Step, now: int): RR.Pc {
    match step
    case End(id, _) => if !m.ended && m.debug then RR.Filtering(id, now - start) else RR.Idle
    case EndNext(_) =>
      if !pc.Ending? || pc.left == 0 then pc
      else if !m.ended && m.debug then RR.EndingFilter(pc.spans, pc.left - 1, SpanId(step, pc), now - start)
      else RR.Ending(pc.spans, pc.left - 1)
    case FilterEnded => RR.Idle
    case FilterNext => if pc.EndingFilter? then RR.Ending(pc.spans, pc.left) else pc
    case Finish(_) => if b.finished then pc else RR.Ending(b.list, |b.list|)
    case _ => pc
  }

  // ------------------------------------------------------------ the machine

  /** Where a goroutine is: outside any section, inside one before it has its
      reading or needs none, or past its reading with everything to write. */
  datatype Local = Out | Inside(step: RR.Step) | Dated(step: RR.Step, now: int)

  /** The memory as the locks' holders would see it, the clock, and where each
      goroutine is in its section and between its sections. */
  datatype Machine = Machine(
    base: Trace,
    marks: map<nat, Mark>,
    clock: Clock.State,
    locals: map<nat, Local>,
    pcs: map<nat, RR.Pc>)

  datatype Action = Enter(step: RR.Step) | Tick(tick: Clock.Step) | Commit

  function LocalOf(s: Machine, g: nat): Local {
    if g in s.locals then s.locals[g] else Out
  }

  function PcOf(s: Machine, g: nat): RR.Pc {
    if g in s.pcs then s.pcs[g] else RR.Idle
  }

  function MarkIn(s: Machine, id: nat): Mark {
    if id in s.marks then s.marks[id] else UNMARKED
  }

  /** Which lock a section takes: a span's by its number, the trace's as zero. */
  function LockOf(step: RR.Step, pc: RR.Pc): nat {
    if OnSpan(step) then SpanId(step, pc) else 0
  }

  ghost predicate Free(s: Machine, lock: nat) {
    forall h: nat :: !LocalOf(s, h).Out? ==> LockOf(LocalOf(s, h).step, PcOf(s, h)) != lock
  }

  /** The call the goroutine is in has this section next, on spans it knows. */
  ghost predicate Allowed(s: Machine, g: nat, step: RR.Step) {
    RR.Enabled(RR.World(s.base, s.pcs, 0, 0, [], []), g, step)
  }

  function DecidedBy(s: Machine, g: nat, step: RR.Step): Mark {
    if OnSpan(step) then MarkIn(s, SpanId(step, PcOf(s, g))) else UNMARKED
  }

  function StartIn(s: Machine, g: nat, step: RR.Step): int {
    var id := SpanId(step, PcOf(s, g));
    if OnSpan(step) && Has(s.base, id) then SpanOf(s.base, id).startedAt else 0
  }

  /** The section writes and unlocks. */
  ghost function Written(s: Machine, g: nat, step: RR.Step, now: int): Machine
    requires |s.base.stateTime| == NUM_STATES && Allowed(s, g, step)
  {
    var pc, m, start := PcOf(s, g), DecidedBy(s, g, step), StartIn(s, g, step);
    s.(base := if OnSpan(step) then s.base else TraceEffect(s.base, pc, step, now),
       marks := if OnSpan(step) then s.marks[SpanId(step, pc) := MarkEffect(m, start, step, now)] else s.marks,
       locals := s.locals[g := Out],
       pcs := s.pcs[g := PcAfter(s.base, m, start, pc, step, now)])
  }

  ghost predicate Next(s: Machine, s': Machine, g: nat, action: Action) {
    var l := LocalOf(s, g);
    match action
    case Enter(step) =>
      && l.Out? && Allowed(s, g, step) && Free(s, LockOf(step, PcOf(s, g)))
      && s' == s.(locals := s.locals[g := Inside(step)])
    case Tick(tick) =>
      && l.Inside?
      && (tick.Call? ==> tick.raw == RawOf(l.step) && Times(s.base, DecidedBy(s, g, l.step), l.step))
      && Clock.Next(s.clock, s'.clock, g, tick)
      && s' == s.(clock := s'.clock,
                  locals := if tick.Swap? && Clock.PcOf(s'.clock, g).Idle?
                            then s.locals[g := Dated(l.step, s'.clock.lastNanos)] else s.locals)
    case Commit =>
      && !l.Out? && |s.base.stateTime| == NUM_STATES && Allowed(s, g, l.step)
      && (l.Inside? ==> Clock.PcOf(s.clock, g).Idle? && !Times(s.base, DecidedBy(s, g, l.step), l.step))
      && s' == Written(s, g, l.step, if l.Inside? then 0 else l.now)
  }

  datatype Event = Event(goroutine: nat, action: Action)

  ghost predicate Begin(s: Machine) {
    && (exists id: string, opts: Options, now: int {:trigger New(id, opts, now)} ::
          s.base == Shape(New(id, opts, now)) && s.clock == Clock.State(now, now, map[], []))
    && s.marks == map[] && s.locals == map[] && s.pcs == map[]
  }

  ghost predicate Run(run: seq<Machine>, events: seq<Event>) {
    && |run| == |events| + 1 && Begin(run[0])
    && forall i :: 0 <= i < |events| ==> Next(run[i], run[i + 1], events[i].goroutine, events[i].action)
  }
}
