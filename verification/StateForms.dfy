/** The two forms a trace reports its state times in, and the elapsed time
    they account for (model/trace.go). */
module StateForms {
  import opened Lists
  import opened Recording
  import opened Totals
  import Clock

  /** An observation of a running trace accounts for all of its time: the
      buckets it reports sum to the elapsed time at the reading. */
  lemma StateTimesAreElapsed(t: Trace, raw: int)
    requires Inv(t)
    ensures forall i :: 0 <= i < NUM_STATES ==> StateTimes(t, raw)[i] >= 0
    ensures !t.finished ==> Sum(StateTimes(t, raw)) == Elapsed(t, raw)
    ensures Sum(StateTimes(t, raw)) >= Elapsed(t, raw) && (Sum(StateTimes(t, raw)) == Elapsed(t, raw) <==> !Late(t))
  {
    if !t.finished {
      var i := StateIndex(t.state);
      SumUpdate(t.stateTime, i, t.stateTime[i] + (Clock.Peek(t.lastNanos, raw) - t.changedAt));
    }
  }

  lemma {:induction false} BucketsTotal(stateTime: seq<int>, n: nat)
    requires |stateTime| == NUM_STATES && n <= NUM_STATES
    ensures Total(Buckets(stateTime, n)) == Sum(stateTime[..n])
  {
    if n > 0 {
      BucketsTotal(stateTime, n - 1);
      StatesDistinct();
      var m := Buckets(stateTime, n - 1);
      TotalUpdate(m, STATES[n - 1], stateTime[n - 1]);
      assert stateTime[..n][..n - 1] == stateTime[..n - 1];
    }
  }

  /** Both forms account for the same time, whatever the state. */
  lemma FormsSameTotal(t: Trace, raw: int)
    requires |t.stateTime| == NUM_STATES
    ensures Total(Durations(t, raw)) == Sum(StateTimes(t, raw))
  {
    hide Total, Sum, Buckets, StateIndex;
    BucketsTotal(t.stateTime, NUM_STATES);
    assert t.stateTime[..NUM_STATES] == t.stateTime;
    var buckets, now := Buckets(t.stateTime, NUM_STATES), Clock.Peek(t.lastNanos, raw) - t.changedAt;
    if !t.finished {
      var i := StateIndex(t.state);
      SumUpdate(t.stateTime, i, t.stateTime[i] + now);
      TotalUpdate(buckets, t.state, Lookup(buckets, t.state) + now);
    }
  }

  /** The map form and the array form report the same time for every known
      state exactly when nothing is charged to a state outside the table: the
      trace finished, its state is known, or it changed just now. */
  lemma FormsAgree(t: Trace, raw: int)
    requires Inv(t)
    ensures (forall i :: 0 <= i < NUM_STATES ==> Lookup(Durations(t, raw), STATES[i]) == StateTimes(t, raw)[i])
            <==> (t.finished || !t.state.Unknown? || Clock.Peek(t.lastNanos, raw) == t.changedAt)
  {
    var buckets, k := Buckets(t.stateTime, NUM_STATES), StateIndex(t.state);
    var now := Clock.Peek(t.lastNanos, raw) - t.changedAt;
    StatesDistinct();
    if t.finished {
    } else if t.state.Unknown? {
      forall i | 0 <= i < NUM_STATES ensures Lookup(Durations(t, raw), STATES[i]) == t.stateTime[i] {}
    } else {
      forall i | 0 <= i < NUM_STATES ensures Lookup(Durations(t, raw), STATES[i]) == StateTimes(t, raw)[i] {
        assert STATES[i] == t.state <==> i == k;
      }
    }
  }
}
