/** Lifetime state time is conserved and counted once, over every run of
    StateTime. */
module Conservation {
  import opened Lists
  import opened StateTime
  import opened Totals
  import R = Recording
  import StateForms
  import RR = RecorderRuns

  /** Every critical section of a recording trace is such work. */
  lemma SectionsWork(w: RR.World, g: nat, step: RR.Step)
    requires R.Inv(w.trace) && RR.Enabled(w, g, step)
    ensures Works(w.trace, RR.After(w, g, step).trace)
  {
    RR.StepKeepsTrace(w, g, step);
    if step.Finish? { R.CloseKeepsInv(w.trace, step.raw); }
    hide R.Shaped, R.StateIndex, R.OpenSpan, R.Link, RemoveLast;
  }

  /** The ledger is what Finish captured of the traces taken off the map, in
      total and state by state. */
  lemma LedgerIsCapturedTime(run: seq<World>, steps: seq<Step>, i: nat)
    requires Run(run, steps) && i < |run|
    ensures Total(run[i].ledger) == SumOver(run[i].items, CAPTURED)
    ensures forall s :: Lookup(run[i].ledger, s) == SumOver(run[i].items, CapturedIn(s))
  {
    RunKeepsInv(run, steps, i);
  }

  /** A charged trace that had changed state after its close. */
  predicate LateItem(item: Item) {
    item.stage.Gone? && item.stage.late
  }

  ghost predicate NoneLate(items: seq<Item>) {
    forall n :: 0 <= n < |items| ==> !LateItem(items[n])
  }

  lemma {:induction false} CapturedAtLeast(items: seq<Item>)
    requires forall n :: 0 <= n < |items| ==> Good(items[n])
    ensures SumOver(items, CAPTURED) >= SumOver(items, DURATION)
    ensures SumOver(items, CAPTURED) == SumOver(items, DURATION) <==> NoneLate(items)
  {
    hide R.Inv, Sum;
    if items != [] {
      var k := |items| - 1;
      assert Good(items[k]);
      CapturedAtLeast(items[..k]);
      assert NoneLate(items) <==> NoneLate(items[..k]) && !LateItem(items[k]);
    }
  }

  /** The ledger never falls short of the durations of the traces taken off the
      map, and equals them exactly when none of them changed state between its
      close and its capture. */
  lemma LedgerIsFinishedTimeIff(run: seq<World>, steps: seq<Step>, i: nat)
    requires Run(run, steps) && i < |run|
    ensures Total(run[i].ledger) >= SumOver(run[i].items, DURATION)
    ensures Total(run[i].ledger) == SumOver(run[i].items, DURATION) <==> NoneLate(run[i].items)
  {
    RunKeepsInv(run, steps, i);
    CapturedAtLeast(run[i].items);
  }

  /** A snapshot that has counted every active trace. */
  ghost predicate Complete(w: World, g: nat) {
    g in w.snaps && w.snaps[g].todo == {}
  }

  /** Conservation: the state time a snapshot adds up is the state times
      captured of the traces that are off the map and those reported by the
      traces on it, each counted once at a reading of its own, even those whose
      Finish is midway; so in total, and so for each state. */
  lemma SnapshotConservesTime(run: seq<World>, steps: seq<Step>, i: nat, g: nat)
    requires Run(run, steps) && i < |run| && Complete(run[i], g)
    ensures var snap := run[i].snaps[g];
            && snap.counted.Keys == ActiveSet(run[i].items)
            && Total(snap.sum) == SumOver(run[i].items, CAPTURED) + TotalOf(snap.counted, REPORTED)
            && forall s :: Lookup(snap.sum, s)
                == SumOver(run[i].items, CapturedIn(s)) + TotalOf(snap.counted, ReportedIn(s))
  {
    RunKeepsInv(run, steps, i);
  }

  ghost predicate NoneCountedLate(counted: map<nat, Counted>) {
    forall n :: n in counted ==> !R.Late(counted[n].trace)
  }

  lemma ReportedAtLeast(counted: map<nat, Counted>)
    requires forall n :: n in counted ==> R.Inv(counted[n].trace)
    ensures TotalOf(counted, REPORTED) >= TotalOf(counted, ELAPSED)
    ensures TotalOf(counted, REPORTED) == TotalOf(counted, ELAPSED) <==> NoneCountedLate(counted)
  {
    hide R.Elapsed, R.StateTimes, R.Late, Sum, Total;
    var less, more := Measures(counted, ELAPSED), Measures(counted, REPORTED);
    forall n | n in counted ensures less[n] <= more[n] && (less[n] == more[n] <==> !R.Late(counted[n].trace)) {
      StateForms.StateTimesAreElapsed(counted[n].trace, counted[n].raw);
    }
    TotalAtMost(less, more);
    assert less == more <==> forall n :: n in counted ==> less[n] == more[n];
  }

  /** That is the durations of the traces off the map and the elapsed time of
      those on it exactly when no trace was captured or counted after a state
      change that followed its close; otherwise it is more. */
  lemma SnapshotIsElapsedTimeIff(run: seq<World>, steps: seq<Step>, i: nat, g: nat)
    requires Run(run, steps) && i < |run| && Complete(run[i], g)
    ensures var snap := run[i].snaps[g]; var time := SumOver(run[i].items, DURATION) + TotalOf(snap.counted, ELAPSED);
            && Total(snap.sum) >= time
            && (Total(snap.sum) == time <==> NoneLate(run[i].items) && NoneCountedLate(snap.counted))
  {
    RunKeepsInv(run, steps, i);
    CapturedAtLeast(run[i].items);
    ReportedAtLeast(run[i].snaps[g].counted);
  }

  /** A trace counted between its close and its removal counts with its
      duration, unless it changed state since. */
  lemma ClosedCountsDuration(run: seq<World>, steps: seq<Step>, i: nat)
    requires Run(run, steps) && i < |steps| && steps[i].Count? && run[i].items[steps[i].n].trace.finished
    ensures steps[i].n in run[i + 1].snaps[steps[i].g].counted
    ensures var t, c := run[i].items[steps[i].n].trace, run[i + 1].snaps[steps[i].g].counted[steps[i].n];
            ELAPSED(c) == t.duration && (REPORTED(c) == t.duration <==> !R.Late(t))
  {
    RunKeepsInv(run, steps, i);
    assert Good(run[i].items[steps[i].n]);
    StateForms.StateTimesAreElapsed(run[i].items[steps[i].n].trace, steps[i].raw);
  }

  /** A snapshot is never stuck: it may count any trace it has left, is then
      done with that one, and ends once it has counted all. */
  lemma SnapshotProceeds(run: seq<World>, steps: seq<Step>, i: nat, g: nat)
    requires Run(run, steps) && i < |run| && g in run[i].snaps
    ensures run[i].snaps[g].todo == {} ==> Enabled(run[i], ReadUnlock(g))
    ensures forall n, raw :: n in run[i].snaps[g].todo ==>
              && Enabled(run[i], Count(g, n, raw))
              && After(run[i], Count(g, n, raw)).snaps[g].todo == run[i].snaps[g].todo - {n}
  {
    RunKeepsInv(run, steps, i);
    var w := run[i];
    hide R.StateTimes, R.Durations, R.Late, Total, Sum;
    forall n | n in w.snaps[g].todo ensures n < |w.items| && Timed(w.items[n].trace) {
      assert n in ActiveSet(w.items) && Good(w.items[n]);
    }
  }

  /** While nobody snapshots a trace may be put on the map, and taken off once it
      was closed and its times are captured. */
  lemma TraceProceeds(run: seq<World>, steps: seq<Step>, i: nat, n: nat, raw: int)
    requires Run(run, steps) && i < |run| && n < |run[i].items|
    ensures var w, item := run[i], run[i].items[n];
            && (item.stage.Made? && w.snaps == map[] ==>
                  Enabled(w, Register(n)) && After(w, Register(n)).items[n].stage.Live?)
            && (item.stage.Live? && item.trace.finished ==>
                  Enabled(w, Capture(n, raw)) && After(w, Capture(n, raw)).items[n].stage.Captured?)
            && (item.stage.Captured? && w.snaps == map[] ==>
                  Enabled(w, Remove(n)) && After(w, Remove(n)).items[n].stage.Gone?)
  {
    RunKeepsInv(run, steps, i);
    assert Good(run[i].items[n]);
  }
}
