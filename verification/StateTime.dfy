/** Lifetime state time over every interleaving: traces that record, finish and
    are charged to the ledger, and snapshots that add up the ledger and the
    active traces one by one under the read lock (tracer.go). A trace is its
    place in `items`, so two live ones never share an id here, and Reset is not
    a step. */
module StateTime {
  import opened Lists
  import opened Totals
  import R = Recording
  import StateForms
  import T = Tracer

  /** Created; on the active map; still there with its state times captured by
      Finish; off it and charged. `late` says whether the trace had changed
      state after its close when its times were captured. */
  datatype Stage = Made | Live | Captured(times: seq<int>, late: bool) | Gone(times: seq<int>, late: bool)

  datatype Item = Item(trace: R.Trace, stage: Stage)

  /** A trace a snapshot counted: what it was, and the reading it was counted with. */
  datatype Counted = Counted(trace: R.Trace, raw: int)

  /** A snapshot in progress. */
  datatype Snap = Snap(sum: map<R.State, int>, todo: set<nat>, counted: map<nat, Counted>)

  datatype World = World(items: seq<Item>, ledger: map<R.State, int>, snaps: map<nat, Snap>)

  datatype Step =
    | NewTrace(id: string, opts: R.Options, now: int)
    | Register(n: nat)
    | Work(n: nat, trace: R.Trace)
    | Capture(n: nat, raw: int)
    | Remove(n: nat)
    | ReadLock(g: nat)
    | Count(g: nat, n: nat, raw: int)
    | ReadUnlock(g: nat)

  predicate Active(item: Item) {
    item.stage.Live? || item.stage.Captured?
  }

  function ActiveSet(items: seq<Item>): set<nat> {
    set n: nat | n < |items| && Active(items[n])
  }

  /** What any critical section may do to a trace: a close leaves the duration
      at its last change, and later changes only move that change on. */
  ghost predicate Works(t: R.Trace, t': R.Trace) {
    && R.Inv(t')
    && t'.startedAt == t.startedAt
    && (t.finished ==> t'.finished && t'.duration == t.duration)
    && (!t.finished && t'.finished ==> !R.Late(t'))
  }

  predicate Timed(t: R.Trace) {
    |t.stateTime| == R.NUM_STATES
  }

  /** The map is written under the write lock, so only while nobody snapshots. */
  ghost predicate Enabled(w: World, step: Step) {
    match step
    case NewTrace(_, _, _) => true
    case Register(n) => n < |w.items| && w.items[n].stage.Made? && w.snaps == map[]
    case Work(n, t') => n < |w.items| && Works(w.items[n].trace, t')
    case Capture(n, _) =>
      n < |w.items| && w.items[n].stage.Live? && w.items[n].trace.finished && Timed(w.items[n].trace)
    case Remove(n) =>
      n < |w.items| && w.items[n].stage.Captured? && |w.items[n].stage.times| == R.NUM_STATES && w.snaps == map[]
    case ReadLock(g) => g !in w.snaps
    case Count(g, n, _) => g in w.snaps && n in w.snaps[g].todo && n < |w.items| && Timed(w.items[n].trace)
    case ReadUnlock(g) => g in w.snaps && w.snaps[g].todo == {}
  }

  ghost function After(w: World, step: Step): World
    requires Enabled(w, step)
  {
    match step
    case NewTrace(id, opts, now) => w.(items := w.items + [Item(R.New(id, opts, now), Made)])
    case Register(n) => w.(items := w.items[n := w.items[n].(stage := Live)])
    case Work(n, t') => w.(items := w.items[n := w.items[n].(trace := t')])
    case Capture(n, raw) =>
      var t := w.items[n].trace;
      w.(items := w.items[n := Item(t, Captured(R.StateTimes(t, raw), R.Late(t)))])
    case Remove(n) =>
      var item := w.items[n];
      w.(items := w.items[n := Item(item.trace, Gone(item.stage.times, item.stage.late))],
         ledger := T.Charge(w.ledger, item.stage.times, R.NUM_STATES))
    case ReadLock(g) => w.(snaps := w.snaps[g := Snap(w.ledger, ActiveSet(w.items), map[])])
    case Count(g, n, raw) =>
      var snap, t := w.snaps[g], w.items[n].trace;
      w.(snaps := w.snaps[g := Snap(Plus(snap.sum, R.Durations(t, raw)), snap.todo - {n},
                                    snap.counted[n := Counted(t, raw)])])
    case ReadUnlock(g) => w.(snaps := w.snaps - {g})
  }

  ghost predicate Run(run: seq<World>, steps: seq<Step>) {
    && |run| == |steps| + 1
    && run[0] == World([], map[], map[])
    && forall i :: 0 <= i < |steps| ==> Enabled(run[i], steps[i]) && run[i + 1] == After(run[i], steps[i])
  }

  // ------------------------------------------------------------- adding up

  function SumOver(items: seq<Item>, f: Item -> int): int {
    if items == [] then 0 else SumOver(items[..|items| - 1], f) + f(items[|items| - 1])
  }

  lemma {:induction false} SumOverUpdate(items: seq<Item>, n: nat, item: Item, f: Item -> int)
    requires n < |items|
    ensures SumOver(items[n := item], f) == SumOver(items, f) - f(items[n]) + f(item)
  {
    var k := |items| - 1;
    if n < k {
      assert items[n := item][..k] == items[..k][n := item];
      SumOverUpdate(items[..k], n, item, f);
    } else {
      assert items[n := item][..k] == items[..k];
    }
  }

  lemma SumOverSnoc(items: seq<Item>, item: Item, f: Item -> int)
    ensures SumOver(items + [item], f) == SumOver(items, f) + f(item)
  {
    assert (items + [item])[..|items|] == items;
  }

  /** The time a table of captured times has for one state. */
  function Entry(times: seq<int>, s: R.State): int
    requires |times| == R.NUM_STATES
  {
    if s.Unknown? then 0 else times[R.StateIndex(s)]
  }

  predicate Charged(item: Item) {
    item.stage.Gone? && |item.stage.times| == R.NUM_STATES
  }

  /** Of a charged trace: the times captured, their share of one state, and its
      duration. */
  const CAPTURED: Item -> int := (item: Item) => if Charged(item) then Sum(item.stage.times) else 0
  const DURATION: Item -> int := (item: Item) => if Charged(item) then item.trace.duration else 0

  function CapturedIn(s: R.State): Item -> int {
    (item: Item) => if Charged(item) then Entry(item.stage.times, s) else 0
  }

  /** The totals of what a snapshot counted. */
  function Measures(counted: map<nat, Counted>, f: Counted -> int): map<nat, int> {
    map n | n in counted :: f(counted[n])
  }

  ghost function TotalOf(counted: map<nat, Counted>, f: Counted -> int): int {
    Total(Measures(counted, f))
  }

  lemma TotalOfOneMore(counted: map<nat, Counted>, n: nat, c: Counted, f: Counted -> int)
    requires n !in counted
    ensures TotalOf(counted[n := c], f) == TotalOf(counted, f) + f(c)
  {
    assert Measures(counted[n := c], f) == Measures(counted, f)[n := f(c)];
    TotalUpdate(Measures(counted, f), n, f(c));
  }

  /** Of a counted trace: the state times reported, their share of one state,
      and its elapsed time. */
  const REPORTED: Counted -> int := (c: Counted) => if Timed(c.trace) then Sum(R.StateTimes(c.trace, c.raw)) else 0
  const ELAPSED: Counted -> int := (c: Counted) => R.Elapsed(c.trace, c.raw)

  function ReportedIn(s: R.State): Counted -> int {
    (c: Counted) => if Timed(c.trace) then Lookup(R.Durations(c.trace, c.raw), s) else 0
  }

  // -------------------------------------------------------------- invariants

  /** Captured times are at least the duration, and more exactly if the trace
      changed state after its close. */
  ghost predicate Kept(t: R.Trace, times: seq<int>, late: bool) {
    && t.finished && |times| == R.NUM_STATES
    && Sum(times) >= t.duration && (Sum(times) == t.duration <==> !late)
  }

  ghost predicate Good(item: Item) {
    && R.Inv(item.trace)
    && (item.stage.Captured? ==> Kept(item.trace, item.stage.times, item.stage.late))
    && (item.stage.Gone? ==> Kept(item.trace, item.stage.times, item.stage.late))
  }

  ghost predicate Balanced(w: World) {
    && Total(w.ledger) == SumOver(w.items, CAPTURED)
    && forall s :: Lookup(w.ledger, s) == SumOver(w.items, CapturedIn(s))
  }

  ghost predicate Counting(w: World, snap: Snap) {
    && snap.todo !! snap.counted.Keys
    && snap.todo + snap.counted.Keys == ActiveSet(w.items)
    && (forall n :: n in snap.counted ==> R.Inv(snap.counted[n].trace))
    && Total(snap.sum) == Total(w.ledger) + TotalOf(snap.counted, REPORTED)
    && forall s :: Lookup(snap.sum, s) == Lookup(w.ledger, s) + TotalOf(snap.counted, ReportedIn(s))
  }

  ghost predicate Inv(w: World) {
    && (forall n: nat :: n < |w.items| ==> Good(w.items[n]))
    && Balanced(w)
    && (forall g :: g in w.snaps ==> Counting(w, w.snaps[g]))
  }

  lemma CaptureKeeps(t: R.Trace, raw: int)
    requires R.Inv(t) && t.finished
    ensures Kept(t, R.StateTimes(t, raw), R.Late(t))
  {
    StateForms.StateTimesAreElapsed(t, raw);
  }

  lemma StepKeepsGood(w: World, step: Step, n: nat)
    requires Inv(w) && Enabled(w, step) && n < |After(w, step).items|
    ensures Good(After(w, step).items[n])
  {
    assert n < |w.items| ==> Good(w.items[n]);
    if step.NewTrace? { R.NewKeepsInv(step.id, step.opts, step.now); }
    if step.Capture? && step.n == n { CaptureKeeps(w.items[n].trace, step.raw); }
    hide Counting, ActiveSet, Balanced, Total, R.Inv, R.StateIndex, R.Late, R.StateTimes;
  }

  /** A step changes what the charged traces add up to only by a removal, and
      then by the measure of the trace removed. */
  lemma StepAdds(w: World, step: Step, f: Item -> int)
    requires Enabled(w, step)
    requires forall item: Item :: !Charged(item) ==> f(item) == 0
    requires forall t: R.Trace, u: R.Trace, stage: Stage :: f(Item(t, stage)) == f(Item(u, stage))
    ensures SumOver(After(w, step).items, f) == SumOver(w.items, f) +
            if step.Remove? then f(After(w, step).items[step.n]) else 0
  {
    hide ActiveSet, SumOver, R.New, T.Charge, R.StateTimes, R.Late, Works;
    var w' := After(w, step);
    match step
    case NewTrace(id, opts, now) => SumOverSnoc(w.items, Item(R.New(id, opts, now), Made), f);
    case Register(n) => SumOverUpdate(w.items, n, w'.items[n], f);
    case Work(n, t') =>
      SumOverUpdate(w.items, n, w'.items[n], f);
      assert w.items[n] == Item(w.items[n].trace, w.items[n].stage);
    case Capture(n, raw) => SumOverUpdate(w.items, n, w'.items[n], f);
    case Remove(n) => SumOverUpdate(w.items, n, w'.items[n], f);
    case ReadLock(g) =>
    case Count(g, n, raw) =>
    case ReadUnlock(g) =>
  }

  lemma StepKeepsTotal(w: World, step: Step)
    requires Inv(w) && Enabled(w, step)
    ensures Total(After(w, step).ledger) == SumOver(After(w, step).items, CAPTURED)
  {
    hide ActiveSet, SumOver, R.New, R.StateTimes, R.Late, Works, Counting, Good, Total, Sum;
    StepAdds(w, step, CAPTURED);
    if step.Remove? {
      var times := w.items[step.n].stage.times;
      T.ChargeTotal(w.ledger, times, R.NUM_STATES);
      assert times[..R.NUM_STATES] == times;
    }
  }

  lemma StepKeepsEntry(w: World, step: Step, s: R.State)
    requires Inv(w) && Enabled(w, step)
    ensures Lookup(After(w, step).ledger, s) == SumOver(After(w, step).items, CapturedIn(s))
  {
    hide ActiveSet, SumOver, R.New, R.StateTimes, R.Late, Works, Counting, Good, Total, R.StateIndex;
    StepAdds(w, step, CapturedIn(s));
    if step.Remove? { T.ChargeEach(w.ledger, w.items[step.n].stage.times, R.NUM_STATES, s); }
  }

  lemma SameActive(a: seq<Item>, b: seq<Item>)
    requires |a| <= |b| && forall n :: 0 <= n < |b| ==> Active(b[n]) == (n < |a| && Active(a[n]))
    ensures ActiveSet(b) == ActiveSet(a)
  {
  }

  /** While a snapshot runs the active traces and the ledger stay. */
  lemma SnapshotHolds(w: World, step: Step)
    requires Enabled(w, step) && w.snaps != map[]
    ensures ActiveSet(After(w, step).items) == ActiveSet(w.items) && After(w, step).ledger == w.ledger
  {
    hide ActiveSet, R.New, R.StateTimes, R.Late, Works, T.Charge;
    SameActive(w.items, After(w, step).items);
  }

  /** One more trace counted. */
  lemma CountOne(w: World, g: nat, n: nat, raw: int)
    requires Inv(w) && Enabled(w, Count(g, n, raw))
    ensures Counting(w, After(w, Count(g, n, raw)).snaps[g])
  {
    hide Balanced, Total, TotalOf, R.Durations, R.StateTimes, Plus, SumOver, R.Inv, R.Elapsed, Sum;
    assert Good(w.items[n]);
    var snap, t := w.snaps[g], w.items[n].trace;
    var durations := R.Durations(t, raw);
    StateForms.FormsSameTotal(t, raw);
    TotalPlus(snap.sum, durations);
    TotalOfOneMore(snap.counted, n, Counted(t, raw), REPORTED);
    forall s ensures Lookup(Plus(snap.sum, durations), s)
                     == Lookup(w.ledger, s) + TotalOf(snap.counted[n := Counted(t, raw)], ReportedIn(s))
    {
      PlusAt(snap.sum, durations, s);
      TotalOfOneMore(snap.counted, n, Counted(t, raw), ReportedIn(s));
    }
  }

  lemma NothingCounted(f: Counted -> int)
    ensures TotalOf(map[], f) == 0
  {
    assert Measures(map[], f) == map[];
  }

  lemma StepKeepsCounting(w: World, step: Step, g: nat)
    requires Inv(w) && Enabled(w, step) && g in After(w, step).snaps
    ensures Counting(After(w, step), After(w, step).snaps[g])
  {
    hide Balanced, Total, TotalOf, Good, R.New, R.Durations, R.StateTimes, R.Elapsed, T.Charge, ActiveSet, R.Inv,
        Works, Plus;
    if w.snaps != map[] { SnapshotHolds(w, step); }
    if step.Count? && step.g == g { CountOne(w, g, step.n, step.raw); }
    NothingCounted(REPORTED);
    forall s ensures TotalOf(map[], ReportedIn(s)) == 0 { NothingCounted(ReportedIn(s)); }
  }

  lemma {:induction false} RunKeepsInv(run: seq<World>, steps: seq<Step>, i: nat)
    requires Run(run, steps) && i < |run|
    ensures Inv(run[i])
  {
    if i == 0 {
      TotalOfNone<R.State>();
    } else {
      RunKeepsInv(run, steps, i - 1);
      var w, step := run[i - 1], steps[i - 1];
      hide After, Enabled, Good, Counting, SumOver, Total;
      StepKeepsTotal(w, step);
      forall s ensures Lookup(run[i].ledger, s) == SumOver(run[i].items, CapturedIn(s)) { StepKeepsEntry(w, step, s); }
      forall n: nat | n < |run[i].items| ensures Good(run[i].items[n]) { StepKeepsGood(w, step, n); }
      forall g | g in run[i].snaps ensures Counting(run[i], run[i].snaps[g]) { StepKeepsCounting(w, step, g); }
    }
  }
}
