/** The machine of LockedSections refines RecorderRuns: a section takes effect
    at once where its swap succeeds, or where it writes if it reads no clock. */
module SectionRefinement {
  import opened Recording
  import opened LockedSections
  import opened SectionRelation
  import opened SectionEffects
  import Clock
  import RR = RecorderRuns

  // -------------------------------------------------------------- refinement

  /** Where a section takes effect: where its swap succeeds, or where it writes
      if it read no clock. */
  ghost predicate TakesEffect(s: Machine, s': Machine, g: nat, action: Action) {
    LocalOf(s, g).Inside? && (action.Commit? || LocalOf(s', g).Dated?)
  }

  /** A swap that succeeds is one recorded reading. */
  lemma SwapReads(s: Machine, s': Machine, g: nat, action: Action)
    requires StateInv(s) && action.Tick? && Next(s, s', g, action) && LocalOf(s', g).Dated?
    ensures var step := LocalOf(s, g).step;
            && Times(s.base, DecidedBy(s, g, step), step)
            && s'.clock.lastNanos == Clock.NextReading(s.clock.lastNanos, RawOf(step))
            && Dates(s, s', g, step, s'.clock.lastNanos)
  {
    InvAt(s, g);
    assert Clock.PcInv(s.clock, g);
  }

  lemma BetweenInv(s: Machine, s': Machine, g: nat, step: RR.Step)
    requires StateInv(s) && Dates(s, s', g, step, 0) && s'.clock == s.clock && Clock.PcOf(s.clock, g).Idle?
    ensures StateInv(s')
  {
    forall h: nat ensures LocalOf(s', h) == if h == g then Dated(step, 0) else LocalOf(s, h) {}
    forall h: nat ensures LocalInv(s', h) { InvAt(s, h); }
    hide LocalInv, MemoryInv, Clock.Inv;
  }

  lemma EnterRefines(s: Machine, s': Machine, w: RR.World, g: nat, action: Action)
    requires Rel(s, w) && action.Enter? && Next(s, s', g, action)
    ensures Rel(s', w) && !TakesEffect(s, s', g, action)
  {
    EnterKeepsInv(s, s', g, action);
    assert SameDated(s, s') && SameMemory(s, s');
    hide StateInv, TraceRel, MarkRel, PcRel, SameDated, SameMemory;
    RelStays(s, s', w);
  }

  lemma TickRefines(s: Machine, s': Machine, w: RR.World, g: nat, action: Action) returns (w': RR.World)
    requires Rel(s, w) && action.Tick? && Next(s, s', g, action)
    ensures Rel(s', w')
    ensures if TakesEffect(s, s', g, action) then RR.Next(w, w', g, LocalOf(s, g).step) else w' == w
  {
    w' := w;
    TickKeepsInv(s, s', g, action);
    if LocalOf(s', g).Dated? {
      var step := LocalOf(s, g).step;
      SwapReads(s, s', g, action);
      EnabledAbove(s, w, g);
      hide StateInv, TraceRel, MarkRel, PcRel, Dates, Times, RR.Enabled, RR.After;
      DatingRefines(s, s', w, g, step, s'.clock.lastNanos);
      w' := RR.After(w, g, step);
    } else {
      assert SameDated(s, s') && SameMemory(s, s');
      assert s'.clock.lastNanos == s.clock.lastNanos;
      hide StateInv, TraceRel, MarkRel, PcRel, SameDated, SameMemory;
      RelStays(s, s', w);
    }
  }

  /** A commit without a reading, as a dating and a write. */
  lemma CommitInTwo(s: Machine, s': Machine, g: nat, action: Action) returns (between: Machine)
    requires StateInv(s) && action.Commit? && Next(s, s', g, action) && LocalOf(s, g).Inside?
    ensures var step := LocalOf(s, g).step;
            && Dates(s, between, g, step, 0) && Writes(between, s', g, step, 0) && StateInv(between)
            && between.clock == s.clock && !Times(s.base, DecidedBy(s, g, step), step)
  {
    var step := LocalOf(s, g).step;
    between := s.(locals := s.locals[g := Dated(step, 0)]);
    assert Dates(s, between, g, step, 0) && Writes(between, s', g, step, 0);
    hide Written, Writes, Dates;
    assert Dates(s, between, g, step, 0);
    BetweenInv(s, between, g, step);
  }

  /** A section that read no clock takes effect where it writes. */
  lemma UndatedCommitRefines(s: Machine, s': Machine, w: RR.World, g: nat, action: Action) returns (w': RR.World)
    requires Rel(s, w) && action.Commit? && Next(s, s', g, action) && LocalOf(s, g).Inside?
    ensures Rel(s', w') && RR.Next(w, w', g, LocalOf(s, g).step)
  {
    var step := LocalOf(s, g).step;
    var between := CommitInTwo(s, s', g, action);
    EnabledAbove(s, w, g);
    hide Next, Dates, Writes, RR.Enabled, RR.After, StateInv, TraceRel, MarkRel, PcRel, Times;
    DatingRefines(s, between, w, g, step, 0);
    w' := RR.After(w, g, step);
    hide Rel;
    WriteKeeps(between, s', w', g, step, 0);
  }

  lemma CommitRefines(s: Machine, s': Machine, w: RR.World, g: nat, action: Action) returns (w': RR.World)
    requires Rel(s, w) && action.Commit? && Next(s, s', g, action)
    ensures Rel(s', w')
    ensures if TakesEffect(s, s', g, action) then RR.Next(w, w', g, LocalOf(s, g).step) else w' == w
  {
    hide RR.Next, Rel;
    if LocalOf(s, g).Inside? {
      w' := UndatedCommitRefines(s, s', w, g, action);
    } else {
      w' := w;
      assert Writes(s, s', g, LocalOf(s, g).step, LocalOf(s, g).now);
      assert !TakesEffect(s, s', g, action);
      hide Next, Writes;
      WriteKeeps(s, s', w, g, LocalOf(s, g).step, LocalOf(s, g).now);
    }
  }

  /** Every step of every interleaving is invisible, or is one whole section of
      RecorderRuns by the goroutine that takes it. */
  lemma ActionRefines(s: Machine, s': Machine, w: RR.World, g: nat, action: Action)
    requires Rel(s, w) && Next(s, s', g, action)
    ensures if !TakesEffect(s, s', g, action) then Rel(s', w)
            else exists w' :: Rel(s', w') && RR.Next(w, w', g, LocalOf(s, g).step)
  {
    hide Next, Rel, TakesEffect, RR.Next;
    match action
    case Enter(_) => EnterRefines(s, s', w, g, action);
    case Tick(_) => var w' := TickRefines(s, s', w, g, action);
    case Commit => var w' := CommitRefines(s, s', w, g, action);
  }

  lemma BeginRefines(s: Machine) returns (w: RR.World)
    requires Begin(s)
    ensures RR.Begin(w) && Rel(s, w)
  {
    var id: string, opts: Options, now: int :|
      s.base == Shape(New(id, opts, now)) && s.clock == Clock.State(now, now, map[], []);
    w := RR.World(New(id, opts, now), map[], 0, 0, [], []);
    RR.BeginIsGood(w);
    ShapeTwice(New(id, opts, now));
    assert s.base == Shape(w.trace);
    forall g: nat ensures Clock.PcInv(s.clock, g) && LocalInv(s, g) && PcRel(s, w, g) {}
  }

  /** An abstract run that ends in a world related to a machine. */
  ghost predicate Shows(s: Machine, run: seq<RR.World>, events: seq<RR.Event>) {
    RR.Run(run, events) && Rel(s, run[|events|])
  }

  lemma Extends(run: seq<RR.World>, events: seq<RR.Event>, w: RR.World, g: nat, step: RR.Step)
    requires RR.Run(run, events) && RR.Next(run[|events|], w, g, step)
    ensures RR.Run(run + [w], events + [RR.Event(g, step)])
  {
    hide RR.Next, RR.Begin;
    var longer, more := run + [w], events + [RR.Event(g, step)];
    forall i | 0 <= i < |more| ensures RR.Next(longer[i], longer[i + 1], more[i].goroutine, more[i].step) {
      if i < |events| { assert longer[i] == run[i] && longer[i + 1] == run[i + 1] && more[i] == events[i]; }
    }
  }

  lemma ExtendsShown(s: Machine, run: seq<RR.World>, events: seq<RR.Event>, w: RR.World, g: nat, step: RR.Step)
    requires RR.Run(run, events) && RR.Next(run[|events|], w, g, step) && Rel(s, w)
    ensures Shows(s, run + [w], events + [RR.Event(g, step)])
  {
    hide RR.Next, Rel;
    Extends(run, events, w, g, step);
    assert (run + [w])[|events + [RR.Event(g, step)]|] == w;
  }

  /** What a run of whole sections shows, it or one section more shows next. */
  lemma ShownNext(s: Machine, s': Machine, g: nat, action: Action, worlds: seq<RR.World>, whole: seq<RR.Event>)
    requires Shows(s, worlds, whole) && Next(s, s', g, action)
    ensures exists longer: seq<RR.World>, more: seq<RR.Event> :: Shows(s', longer, more)
  {
    hide Rel, RR.Next, RR.Begin;
    assert LocalOf(s, g).Inside? || !TakesEffect(s, s', g, action);
    var w := worlds[|whole|];
    hide Next, RR.Run;
    ActionRefines(s, s', w, g, action);
    if TakesEffect(s, s', g, action) {
      var step := LocalOf(s, g).step;
      var w' :| Rel(s', w') && RR.Next(w, w', g, step);
      ExtendsShown(s', worlds, whole, w', g, step);
    } else {
      assert Shows(s', worlds, whole);
    }
  }

  /** Refinement: whatever is reached with locks and a shared clock is shown by
      a run of whole sections. */
  lemma {:induction false} LockedRunsAreRuns(run: seq<Machine>, events: seq<Event>, i: nat)
    requires Run(run, events) && i < |run|
    ensures exists worlds: seq<RR.World>, whole: seq<RR.Event> :: Shows(run[i], worlds, whole)
  {
    hide Next, Rel, Begin;
    if i == 0 {
      var w := BeginRefines(run[0]);
      assert Shows(run[0], [w], []);
    } else {
      hide Shows;
      LockedRunsAreRuns(run, events, i - 1);
      var worlds: seq<RR.World>, whole: seq<RR.Event> :| Shows(run[i - 1], worlds, whole);
      ShownNext(run[i - 1], run[i], events[i - 1].goroutine, events[i - 1].action, worlds, whole);
    }
  }

  /** With nobody between a reading and a write, the memory is the trace of a
      reachable world, lock by lock. */
  lemma MemoryIsReachable(run: seq<Machine>, events: seq<Event>, i: nat)
    requires Run(run, events) && i < |run| && forall g: nat :: !LocalOf(run[i], g).Dated?
    ensures exists worlds: seq<RR.World>, whole: seq<RR.Event> ::
      && RR.Run(worlds, whole)
      && var t := worlds[|whole|].trace;
         && Shape(t) == run[i].base && t.lastNanos == run[i].clock.lastNanos
         && forall id: nat :: Has(t, id) ==> MarkAt(t, id) == MarkIn(run[i], id)
  {
    LockedRunsAreRuns(run, events, i);
    var worlds: seq<RR.World>, whole: seq<RR.Event> :| Shows(run[i], worlds, whole);
    var s, w := run[i], worlds[|whole|];
    assert NoneDated(s, 0);
    forall id: nat | Has(w.trace, id) ensures MarkAt(w.trace, id) == MarkIn(s, id) {
      assert MarkRel(s, w, id) && NoneDated(s, id);
    }
  }

  // --------------------------------------------------------------- progress

  /** Goroutine `g` can take a step. */
  ghost predicate CanStep(s: Machine, g: nat) {
    exists action, s' :: Next(s, s', g, action)
  }

  /** The clock's part of a section's tick. */
  lemma TickCanStep(s: Machine, g: nat, tick: Clock.Step, clock: Clock.State)
    requires LocalOf(s, g).Inside? && Clock.Next(s.clock, clock, g, tick)
    requires tick.Call? ==>
      tick.raw == RawOf(LocalOf(s, g).step) && Times(s.base, DecidedBy(s, g, LocalOf(s, g).step), LocalOf(s, g).step)
    ensures CanStep(s, g)
  {
    var l := LocalOf(s, g);
    var s' := s.(clock := clock, locals := if tick.Swap? && Clock.PcOf(clock, g).Idle?
                                           then s.locals[g := Dated(l.step, clock.lastNanos)] else s.locals);
    assert Next(s, s', g, Tick(tick));
  }

  lemma CommitCanStep(s: Machine, g: nat)
    requires StateInv(s) && !LocalOf(s, g).Out? && Clock.PcOf(s.clock, g).Idle?
    requires var l := LocalOf(s, g); l.Inside? ==> !Times(s.base, DecidedBy(s, g, l.step), l.step)
    ensures CanStep(s, g)
  {
    var l := LocalOf(s, g);
    assert LocalInv(s, g);
    hide Allowed, Times, Written;
    assert Next(s, Written(s, g, l.step, if l.Inside? then 0 else l.now), g, Commit);
  }

  lemma InsideCanStep(s: Machine, g: nat)
    requires StateInv(s) && !LocalOf(s, g).Out?
    ensures CanStep(s, g)
  {
    var l, c := LocalOf(s, g), s.clock;
    InvAt(s, g);
    hide CanStep, Times, DecidedBy, StateInv, RawOf;
    match Clock.PcOf(c, g)
    case Idle =>
      if l.Inside? && Times(s.base, DecidedBy(s, g, l.step), l.step) {
        var raw := RawOf(l.step);
        TickCanStep(s, g, Clock.Call(raw), c.(pcs := c.pcs[g := Clock.Retry(raw, raw)]));
      } else {
        CommitCanStep(s, g);
      }
    case Retry(raw, nanos) =>
      var next := if nanos <= c.lastNanos then c.lastNanos + 1 else nanos;
      TickCanStep(s, g, Clock.Load, c.(pcs := c.pcs[g := Clock.Loaded(raw, next, c.lastNanos, |c.readings|)]));
    case Loaded(raw, nanos, last, seen) =>
      TickCanStep(s, g, Clock.Swap,
        if c.lastNanos == last
        then c.(lastNanos := nanos, pcs := c.pcs[g := Clock.Idle],
                readings := c.readings + [Clock.Reading(g, raw, nanos)])
        else c.(pcs := c.pcs[g := Clock.Retry(raw, nanos)]));
  }

  /** There is no deadlock: in every run whoever is inside a section can go on,
      and whoever has a section next can enter it or waits for somebody inside
      who holds its lock. */
  lemma SectionsProceed(run: seq<Machine>, events: seq<Event>, i: nat, g: nat, step: RR.Step)
    requires Run(run, events) && i < |run|
    ensures !LocalOf(run[i], g).Out? ==> CanStep(run[i], g)
    ensures var s, lock := run[i], LockOf(step, PcOf(run[i], g));
            LocalOf(s, g).Out? && Allowed(s, g, step) ==>
              || Next(s, s.(locals := s.locals[g := Inside(step)]), g, Enter(step))
              || exists h: nat :: !LocalOf(s, h).Out? && LockOf(LocalOf(s, h).step, PcOf(s, h)) == lock && CanStep(s, h)
  {
    LockedRunsAreRuns(run, events, i);
    var worlds: seq<RR.World>, whole: seq<RR.Event> :| Shows(run[i], worlds, whole);
    var s := run[i];
    assert StateInv(s);
    hide Run, Shows, StateInv, CanStep, Allowed;
    if !LocalOf(s, g).Out? { InsideCanStep(s, g); }
    if !Free(s, LockOf(step, PcOf(s, g))) {
      var h: nat :| !LocalOf(s, h).Out? && LockOf(LocalOf(s, h).step, PcOf(s, h)) == LockOf(step, PcOf(s, g));
      InsideCanStep(s, h);
    }
  }
}
