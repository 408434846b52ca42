/** The recorded clock of a trace (model/clock.go): a compare-and-swap loop on
    the box's last reading, run by any number of goroutines at once. Times are
    nanoseconds. */
module Clock {

  /** The reading one uninterrupted call records: at least the raw reading and
      at least one step past the last recorded one. */
  function NextReading(last: int, raw: int): (r: int)
    ensures r > last && r >= raw && (r == raw || r == last + 1)
  {
    if raw <= last then last + 1 else raw
  }

  /** An observation, which records nothing. */
  function Peek(last: int, raw: int): (r: int)
    ensures r >= last && r >= raw && (r == raw || r == last)
  {
    if raw <= last then last else raw
  }

  datatype Reading = Reading(caller: nat, raw: int, value: int)

  function Latest(start: int, readings: seq<Reading>): int {
    if readings == [] then start else readings[|readings| - 1].value
  }

  /** The readings are the ones uninterrupted calls would have recorded, one
      after the other in the order of their swaps. */
  ghost predicate Linear(start: int, readings: seq<Reading>) {
    if readings == [] then true
    else
      var front, last := readings[..|readings| - 1], readings[|readings| - 1];
      Linear(start, front) && last.value == NextReading(Latest(start, front), last.raw)
  }

  /** Readings in swap order strictly increase, start before none of them and
      never run behind the caller's own clock: no two recorded moments tie. */
  lemma {:induction false} LinearIncreases(start: int, readings: seq<Reading>, i: nat, j: nat)
    requires Linear(start, readings) && i < j < |readings|
    ensures start < readings[i].value < readings[j].value && readings[j].raw <= readings[j].value
    decreases |readings|
  {
    var n := |readings| - 1;
    if j < n {
      LinearIncreases(start, readings[..n], i, j);
    } else {
      AfterStart(start, readings[..n], n - 1);
      if i < n - 1 { LinearIncreases(start, readings[..n], i, n - 1); }
    }
  }

  lemma {:induction false} AfterStart(start: int, readings: seq<Reading>, i: nat)
    requires Linear(start, readings) && i < |readings|
    ensures start < readings[i].value && readings[i].raw <= readings[i].value
    decreases |readings|
  {
    var n := |readings| - 1;
    if i < n { AfterStart(start, readings[..n], i); } else if n > 0 { AfterStart(start, readings[..n], n - 1); }
  }

  lemma LinearSnoc(start: int, readings: seq<Reading>, r: Reading)
    requires Linear(start, readings) && r.value == NextReading(Latest(start, readings), r.raw)
    ensures Linear(start, readings + [r])
  {
    assert (readings + [r])[..|readings|] == readings;
  }

  // ------------------------------------------------------- interleaved calls

  /** Where one goroutine is in `time`: before the load, or between the load
      and the swap. `seen` counts the readings recorded when it loaded. */
  datatype Pc = Idle | Retry(raw: int, nanos: int) | Loaded(raw: int, nanos: int, last: int, seen: nat)

  datatype State = State(start: int, lastNanos: int, pcs: map<nat, Pc>, readings: seq<Reading>)

  datatype Step = Call(raw: int) | Load | Swap

  function PcOf(s: State, t: nat): Pc {
    if t in s.pcs then s.pcs[t] else Idle
  }

  ghost predicate Init(s: State) {
    s.lastNanos == s.start && s.pcs == map[] && s.readings == []
  }

  /** One atomic step of goroutine `t`. */
  ghost predicate Next(s: State, s': State, t: nat, step: Step) {
    var pc := PcOf(s, t);
    match step
    case Call(raw) => pc.Idle? && s' == s.(pcs := s.pcs[t := Retry(raw, raw)])
    case Load =>
      && pc.Retry?
      && var nanos := if pc.nanos <= s.lastNanos then s.lastNanos + 1 else pc.nanos;
         s' == s.(pcs := s.pcs[t := Loaded(pc.raw, nanos, s.lastNanos, |s.readings|)])
    case Swap =>
      && pc.Loaded?
      && s' == if s.lastNanos == pc.last
               then s.(lastNanos := pc.nanos, pcs := s.pcs[t := Idle],
                       readings := s.readings + [Reading(t, pc.raw, pc.nanos)])
               else s.(pcs := s.pcs[t := Retry(pc.raw, pc.nanos)])
  }

  datatype Event = Event(caller: nat, step: Step)

  ghost predicate Run(run: seq<State>, events: seq<Event>) {
    && |run| == |events| + 1
    && Init(run[0])
    && forall i :: 0 <= i < |events| ==> Next(run[i], run[i + 1], events[i].caller, events[i].step)
  }

  ghost predicate PcInv(s: State, t: nat) {
    match PcOf(s, t)
    case Idle => true
    case Retry(raw, nanos) => nanos == raw || raw <= nanos <= s.lastNanos
    case Loaded(raw, nanos, last, seen) =>
      && nanos == NextReading(last, raw)
      && seen <= |s.readings|
      && last == Latest(s.start, s.readings[..seen])
      && forall k :: seen <= k < |s.readings| ==> s.readings[k].caller != t
  }

  ghost predicate Inv(s: State) {
    && s.lastNanos == Latest(s.start, s.readings)
    && Linear(s.start, s.readings)
    && forall t: nat :: PcInv(s, t)
  }

  /** A swap meets the value it loaded exactly when nobody recorded meanwhile. */
  lemma SwapDecides(s: State, t: nat)
    requires Inv(s) && PcOf(s, t).Loaded?
    ensures PcOf(s, t).last <= s.lastNanos
    ensures s.lastNanos == PcOf(s, t).last <==> PcOf(s, t).seen == |s.readings|
  {
    var pc := PcOf(s, t);
    assert PcInv(s, t);
    assert s.readings[..|s.readings|] == s.readings;
    if pc.seen < |s.readings| {
      var n := |s.readings| - 1;
      if pc.seen == 0 { AfterStart(s.start, s.readings, n); }
      else if pc.seen - 1 < n { LinearIncreases(s.start, s.readings, pc.seen - 1, n); }
    }
  }

  lemma StepKeepsReadings(s: State, s': State, t: nat, step: Step)
    requires Inv(s) && Next(s, s', t, step)
    ensures s'.lastNanos == Latest(s'.start, s'.readings) && Linear(s'.start, s'.readings)
  {
    hide Linear;
    assert PcInv(s, t);
    if step.Swap? && s.lastNanos == PcOf(s, t).last {
      SwapDecides(s, t);
      assert s.readings[..|s.readings|] == s.readings;
      LinearSnoc(s.start, s.readings, Reading(t, PcOf(s, t).raw, PcOf(s, t).nanos));
    }
  }

  lemma StepKeepsPc(s: State, s': State, t: nat, step: Step, u: nat)
    requires Inv(s) && Next(s, s', t, step)
    ensures PcInv(s', u)
  {
    hide Linear;
    assert PcInv(s, t) && PcInv(s, u);
    if step.Swap? { SwapDecides(s, t); }
    if u != t && PcOf(s, u).Loaded? {
      assert s'.readings[..PcOf(s, u).seen] == s.readings[..PcOf(s, u).seen];
    } else if u == t {
      assert s'.readings[..|s.readings|] == s.readings;
    }
  }

  lemma StepKeepsInv(s: State, s': State, t: nat, step: Step)
    requires Inv(s) && Next(s, s', t, step)
    ensures Inv(s')
  {
    hide Linear, Next, PcInv;
    StepKeepsReadings(s, s', t, step);
    forall u: nat ensures PcInv(s', u) { StepKeepsPc(s, s', t, step, u); }
  }

  lemma {:induction false} RunKeepsInv(run: seq<State>, events: seq<Event>, i: nat)
    requires Run(run, events) && i < |run|
    ensures Inv(run[i])
  {
    if i > 0 {
      RunKeepsInv(run, events, i - 1);
      StepKeepsInv(run[i - 1], run[i], events[i - 1].caller, events[i - 1].step);
    }
  }

  /** Refinement: every step of every interleaving of the retry loops is either
      invisible or one uninterrupted recorded reading of the goroutine that
      takes it. */
  ghost predicate AtomicReading(s: State, s': State, t: nat, raw: int) {
    && s'.lastNanos == NextReading(s.lastNanos, raw)
    && s'.readings == s.readings + [Reading(t, raw, s'.lastNanos)]
  }

  lemma RetryLoopIsAtomic(run: seq<State>, events: seq<Event>, i: nat)
    requires Run(run, events) && i < |events|
    ensures (run[i + 1].lastNanos == run[i].lastNanos && run[i + 1].readings == run[i].readings)
            || (PcOf(run[i], events[i].caller).Loaded?
                && AtomicReading(run[i], run[i + 1], events[i].caller, PcOf(run[i], events[i].caller).raw))
  {
    RunKeepsInv(run, events, i);
    assert PcInv(run[i], events[i].caller);
  }

  /** A swap that fails was overtaken: since its load another goroutine
      recorded a reading. */
  lemma FailedSwapMeansProgress(run: seq<State>, events: seq<Event>, i: nat)
    requires Run(run, events) && i < |events|
    requires events[i].step.Swap? && PcOf(run[i + 1], events[i].caller).Retry?
    ensures PcOf(run[i], events[i].caller).seen < |run[i].readings|
    ensures run[i].readings[|run[i].readings| - 1].caller != events[i].caller
  {
    RunKeepsInv(run, events, i);
    SwapDecides(run[i], events[i].caller);
    assert PcInv(run[i], events[i].caller);
  }

  /** Over every run, each recorded reading lies past the start, at or after
      the caller's own raw reading, and before those recorded after it. */
  lemma ReadingsNeverTie(run: seq<State>, events: seq<Event>, i: nat, j: nat)
    requires Run(run, events) && i < |run| && j < |run[i].readings|
    ensures run[0].start < run[i].readings[j].value && run[i].readings[j].raw <= run[i].readings[j].value
    ensures forall k :: j < k < |run[i].readings| ==> run[i].readings[j].value < run[i].readings[k].value
  {
    RunKeepsInv(run, events, i);
    StartIsFixed(run, events, i);
    var start, readings := run[i].start, run[i].readings;
    AfterStart(start, readings, j);
    forall k | j < k < |readings| ensures readings[j].value < readings[k].value {
      LinearIncreases(start, readings, j, k);
    }
  }

  lemma {:induction false} StartIsFixed(run: seq<State>, events: seq<Event>, i: nat)
    requires Run(run, events) && i < |run|
    ensures run[i].start == run[0].start
  {
    if i > 0 {
      StartIsFixed(run, events, i - 1);
      assert Next(run[i - 1], run[i], events[i - 1].caller, events[i - 1].step);
    }
  }

  // ------------------------------------------------------------ the loop itself

  /** The atomically accessed cell of a trace box. */
  class Cell {
    var lastNanos: int
    ghost var start: int
    ghost var readings: seq<Reading>

    constructor (now: int)
      ensures Valid() && lastNanos == start == now && readings == []
    {
      lastNanos, start, readings := now, now, [];
    }

    ghost predicate Valid()
      reads this
    {
      lastNanos == Latest(start, readings) && Linear(start, readings)
    }

    /** What the other goroutines do between two steps of this one: they record
        some of the `rivals` readings they still have to record. */
    method Interfere(rivals: nat) returns (left: nat)
      requires Valid()
      modifies this
      ensures Valid() && start == old(start) && old(readings) <= readings
      ensures left <= rivals && |readings| - |old(readings)| == rivals - left
      ensures left == rivals ==> lastNanos == old(lastNanos)
      ensures left < rivals ==> lastNanos > old(lastNanos)
    {
      var n: nat :| n <= rivals;
      left := rivals;
      while rivals - left < n
        invariant rivals - n <= left <= rivals
        invariant Valid() && start == old(start) && old(readings) <= readings
        invariant |readings| - |old(readings)| == rivals - left
        invariant left == rivals ==> lastNanos == old(lastNanos)
        invariant left < rivals ==> lastNanos > old(lastNanos)
      {
        var raw: int := *;
        var caller: nat :| caller > 0;
        Record(caller, raw);
        left := left - 1;
      }
    }

    ghost method Log(r: Reading)
      requires Linear(start, readings) && r.value == NextReading(Latest(start, readings), r.raw) && lastNanos == r.value
      modifies this`readings
      ensures Valid() && readings == old(readings) + [r]
    {
      LinearSnoc(start, readings, r);
      readings := readings + [r];
    }

    method Record(caller: nat, raw: int)
      requires Valid()
      modifies this
      ensures Valid() && start == old(start)
      ensures lastNanos == NextReading(old(lastNanos), raw)
      ensures readings == old(readings) + [Reading(caller, raw, lastNanos)]
    {
      lastNanos := NextReading(lastNanos, raw);
      Log(Reading(caller, raw, lastNanos));
    }

    /** The retry loop. It returns because each failed swap uses up one of the
        rivals' readings, and what it returns is the uninterrupted reading at
        its place among theirs. */
    method Time(raw: int, rivals: nat) returns (nanos: int, left: nat)
      requires Valid()
      modifies this
      ensures Valid() && start == old(start) && left <= rivals
      ensures |readings| == |old(readings)| + (rivals - left) + 1 && old(readings) <= readings
      ensures lastNanos == nanos && readings[|readings| - 1] == Reading(0, raw, nanos)
      ensures nanos == NextReading(Latest(start, readings[..|readings| - 1]), raw)
    {
      nanos, left := raw, rivals;
      while true
        invariant Valid() && start == old(start) && left <= rivals
        invariant |readings| == |old(readings)| + (rivals - left) && old(readings) <= readings
        invariant nanos == raw || raw <= nanos <= lastNanos
        decreases left
      {
        ghost var before := left;
        left := Interfere(left);
        var last := lastNanos;
        if nanos <= last {
          nanos := last + 1;
        }
        ghost var loaded := left;
        left := Interfere(left);
        if lastNanos == last {
          lastNanos := nanos;
          Log(Reading(0, raw, nanos));
          return;
        }
        assert left < loaded;
      }
    }

    /** An observation reads the cell and leaves it alone. */
    method Observe(raw: int) returns (nanos: int)
      requires Valid()
      ensures nanos == Peek(lastNanos, raw)
      ensures forall i :: 0 <= i < |readings| ==> readings[i].value <= nanos
    {
      nanos := if raw <= lastNanos then lastNanos else raw;
      forall i | 0 <= i < |readings| ensures readings[i].value <= nanos {
        if i + 1 < |readings| { LinearIncreases(start, readings, i, |readings| - 1); }
      }
    }
  }
}
