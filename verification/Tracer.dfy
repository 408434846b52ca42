/** The tracer's locked sections (tracer.go): the active traces, the lifetime
    counters, and the ledger of state time. */
module Tracer {
  import opened Lists
  import opened Totals
  import R = Recording
  import StateForms
  import Recorder
  import Statistics

  // ------------------------------------------------------------- the ledger

  /** The first `n` state times of a completed trace, under the names of their
      states, added to a ledger. */
  function Charge(ledger: map<R.State, int>, times: seq<int>, n: nat): map<R.State, int>
    requires |times| == R.NUM_STATES && n <= R.NUM_STATES
  {
    if n == 0 then ledger
    else
      var l, s := Charge(ledger, times, n - 1), R.STATES[n - 1];
      if times[n - 1] != 0 then l[s := Lookup(l, s) + times[n - 1]] else l
  }

  lemma {:induction false} ChargeTotal(ledger: map<R.State, int>, times: seq<int>, n: nat)
    requires |times| == R.NUM_STATES && n <= R.NUM_STATES
    ensures Total(Charge(ledger, times, n)) == Total(ledger) + Sum(times[..n])
  {
    if n > 0 {
      ChargeTotal(ledger, times, n - 1);
      var l, s := Charge(ledger, times, n - 1), R.STATES[n - 1];
      TotalUpdate(l, s, Lookup(l, s) + times[n - 1]);
      assert times[..n][..n - 1] == times[..n - 1];
    }
  }

  /** Every state gets its own time and no other state does. */
  lemma {:induction false} ChargeEach(ledger: map<R.State, int>, times: seq<int>, n: nat, s: R.State)
    requires |times| == R.NUM_STATES && n <= R.NUM_STATES
    ensures var i := R.StateIndex(s);
            Lookup(Charge(ledger, times, n), s) == Lookup(ledger, s) + if !s.Unknown? && i < n then times[i] else 0
  {
    if n > 0 {
      ChargeEach(ledger, times, n - 1, s);
      R.StatesDistinct();
    }
  }

  /** The ends that follow a close leave its times alone. */
  lemma {:induction false} EndAllKeepsTimes(t: R.Trace, ids: seq<nat>, n: nat, raws: seq<int>)
    requires n <= |ids| && |raws| == |ids| && forall i :: 0 <= i < |ids| ==> R.Has(t, ids[i])
    ensures var t' := R.EndAll(t, ids, n, raws);
            && t'.stateTime == t.stateTime && t'.duration == t.duration && t'.finished == t.finished
            && t'.state == t.state && t'.errorText == t.errorText
    decreases n
  {
    if n > 0 {
      assert R.Has(t, ids[n - 1]);
      var ended := R.EndSpan(t, ids[n - 1], raws[n - 1]);
      assert forall i :: 0 <= i < |ids| ==> R.Has(t, ids[i]) && R.Has(ended, ids[i]);
      EndAllKeepsTimes(ended, ids, n - 1, raws);
    }
  }

  /** What the ledger reads of a trace that has just finished. */
  lemma ClosedTimes(t: R.Trace, raw: int, raws: seq<int>)
    requires R.Inv(t) && |raws| == |t.list|
    ensures forall i :: 0 <= i < |t.list| ==> R.Has(R.Close(t, raw), t.list[i])
    ensures var t' := if t.finished then t else R.EndAll(R.Close(t, raw), t.list, |raws|, raws);
            t'.finished && |t'.stateTime| == R.NUM_STATES && (!t.finished ==> Sum(t'.stateTime) == t'.duration)
  {
    assert forall i :: 0 <= i < |t.list| ==> R.Has(t, t.list[i]) && R.Has(R.Close(t, raw), t.list[i]);
    R.CloseKeepsInv(t, raw);
    EndAllKeepsTimes(R.Close(t, raw), t.list, |raws|, raws);
  }

  // ------------------------------------------------------------ the reports

  /** The durations some traces report, by trace and state. */
  type Reports = map<string, map<R.State, int>>

  /** What each reports of one state, and in all. */
  ghost function InState(reported: Reports, s: R.State): map<string, int> {
    map id | id in reported :: Lookup(reported[id], s)
  }

  ghost function Sums(reported: Reports): map<string, int> {
    map id | id in reported :: Total(reported[id])
  }

  lemma TakeReport(reported: Reports, id: string)
    requires id in reported
    ensures Total(Sums(reported)) == Total(reported[id]) + Total(Sums(reported - {id}))
    ensures forall s :: Total(InState(reported, s)) == Lookup(reported[id], s) + Total(InState(reported - {id}, s))
  {
    hide Total, Lookup;
    TotalWithout(Sums(reported), id);
    assert Sums(reported) - {id} == Sums(reported - {id});
    forall s ensures Total(InState(reported, s)) == Lookup(reported[id], s) + Total(InState(reported - {id}, s)) {
      TotalWithout(InState(reported, s), id);
      assert InState(reported, s) - {id} == InState(reported - {id}, s);
    }
  }

  lemma NoReports(reported: Reports)
    requires reported.Keys == {}
    ensures Total(Sums(reported)) == 0 && forall s :: Total(InState(reported, s)) == 0
  {
    hide Total;
    TotalOfNone<string>();
    assert Sums(reported) == map[];
    forall s ensures Total(InState(reported, s)) == 0 { assert InState(reported, s) == map[]; }
  }

  // --------------------------------------------------------------- the tracer

  class Tracer {
    var active: map<string, Recorder.Trace>
    var total: nat
    var sampled: nat
    var unsampled: nat
    var failed: nat
    var requests: map<string, int>
    var stateTime: map<R.State, int>

    constructor ()
      ensures Counted() && active == map[] && stateTime == map[] && total == 0
    {
      active, requests, stateTime := map[], map[], map[];
      total, sampled, unsampled, failed := 0, 0, 0, 0;
    }

    /** Every unit of work is counted once as sampled or not, and once for its host. */
    ghost predicate Counted()
      reads this
    {
      total == sampled + unsampled && Total(requests) == total
    }

    method CountHost(host: string)
      modifies this`requests
      ensures requests == old(requests)[host := Lookup(old(requests), host) + 1]
      ensures Total(requests) == old(Total(requests)) + 1
    {
      TotalUpdate(requests, host, Lookup(requests, host) + 1);
      requests := requests[host := Lookup(requests, host) + 1];
    }

    /** begin's locked section. */
    method Begin(trace: Recorder.Trace, host: string)
      requires Counted()
      modifies this`total, this`sampled, this`requests, this`active
      ensures Counted() && total == old(total) + 1 && sampled == old(sampled) + 1
      ensures requests == old(requests)[host := Lookup(old(requests), host) + 1]
      ensures active == old(active)[trace.id := trace]
    {
      total := total + 1;
      sampled := sampled + 1;
      CountHost(host);
      active := active[trace.id := trace];
    }

    /** A request the sampler rejected. */
    method CountUnsampled(host: string)
      requires Counted()
      modifies this`total, this`unsampled, this`requests
      ensures Counted() && total == old(total) + 1 && unsampled == old(unsampled) + 1
      ensures var h := if host == "" then Statistics.BACKGROUND_HOST else host;
              requests == old(requests)[h := Lookup(old(requests), h) + 1]
    {
      total := total + 1;
      unsampled := unsampled + 1;
      CountHost(if host == "" then Statistics.BACKGROUND_HOST else host);
    }

    /** The loop that charges a completed trace. */
    method ChargeAll(times: seq<int>)
      requires |times| == R.NUM_STATES
      modifies this`stateTime
      ensures stateTime == Charge(old(stateTime), times, R.NUM_STATES)
    {
      for i := 0 to R.NUM_STATES
        invariant stateTime == Charge(old(stateTime), times, i)
      {
        if times[i] != 0 {
          stateTime := stateTime[R.STATES[i] := Lookup(stateTime, R.STATES[i]) + times[i]];
        }
      }
    }

    /** Finish's locked section. */
    method Complete(id: string, times: seq<int>, didFail: bool)
      requires |times| == R.NUM_STATES
      modifies this`active, this`failed, this`stateTime
      ensures active == old(active) - {id}
      ensures failed == old(failed) + if didFail then 1 else 0
      ensures stateTime == Charge(old(stateTime), times, R.NUM_STATES)
      ensures Total(stateTime) == old(Total(stateTime)) + Sum(times)
    {
      active := active - {id};
      if didFail {
        failed := failed + 1;
      }
      ChargeTotal(stateTime, times, R.NUM_STATES);
      assert times[..R.NUM_STATES] == times;
      ChargeAll(times);
    }

    /** Finish up to its save: closes the trace, takes it off the active map
        and adds to the ledger exactly the trace's duration, each state its own
        part of it. The last reading is StateTimes's, which a closed trace
        does not use. */
    method Finish(trace: Recorder.Trace, raw: int, raws: seq<int>, last: int)
      requires trace.Valid() && R.Inv(trace.Value()) && |raws| == |trace.spans|
      modifies this`active, this`failed, this`stateTime, trace, trace.spans
      ensures trace.Valid() && trace.finished
      ensures active == old(active) - {trace.id}
      ensures failed == old(failed) + if trace.errorText != "" || trace.state == R.Error then 1 else 0
      ensures stateTime == Charge(old(stateTime), trace.stateTime, R.NUM_STATES)
      ensures !old(trace.finished) ==> Total(stateTime) == old(Total(stateTime)) + trace.duration
    {
      hide R.Inv, R.EndAll, R.Close, Charge, Total, Sum;
      ghost var before := trace.Value();
      trace.Finish(raw, raws);
      ClosedTimes(before, raw, raws);
      var times := trace.StateTimes(last);
      assert times == trace.stateTime;
      Complete(trace.id, times, trace.errorText != "" || trace.state == R.Error);
    }

    /** The active traces report these durations, and ran this long, at a
        reading of its own for each. */
    ghost predicate Observed(raws: map<string, int>, reported: Reports, elapsed: map<string, int>)
      reads this, active.Values, set id, k | id in active && 0 <= k < |active[id].handed| :: active[id].handed[k]
    {
      && reported.Keys == elapsed.Keys == active.Keys && active.Keys <= raws.Keys
      && forall id :: id in active ==>
           && active[id].Valid() && R.Inv(active[id].Value())
           && reported[id] == R.Durations(active[id].Value(), raws[id])
           && elapsed[id] == R.Elapsed(active[id].Value(), raws[id])
    }

    /** Snapshot's sum of state time under the read lock: each state's ledger
        and what every active trace reports of it. In total that is the ledger
        and the elapsed time of each trace exactly when none of them changed
        state after its close, and more otherwise. */
    method SumStateTime(raws: map<string, int>, ghost reported: Reports, ghost elapsed: map<string, int>)
      returns (sum: map<R.State, int>)
      requires Observed(raws, reported, elapsed)
      ensures forall s :: Lookup(sum, s) == Lookup(stateTime, s) + Total(InState(reported, s))
      ensures Total(sum) >= Total(stateTime) + Total(elapsed)
      ensures Total(sum) == Total(stateTime) + Total(elapsed) <==>
        forall id :: id in active ==> !R.Late(active[id].Value())
    {
      hide Total, R.Inv, R.Elapsed, R.Durations, R.Late, Recorder.Trace.Linked;
      ReportedAtLeast(raws, reported, elapsed);
      sum := SumActive(raws, reported);
    }

    /** The loop over the active traces. */
    method SumActive(raws: map<string, int>, ghost reported: Reports) returns (sum: map<R.State, int>)
      requires reported.Keys == active.Keys && active.Keys <= raws.Keys
      requires forall id :: id in active ==>
        active[id].Valid() && reported[id] == R.Durations(active[id].Value(), raws[id])
      ensures Total(sum) == Total(stateTime) + Total(Sums(reported))
      ensures forall s :: Lookup(sum, s) == Lookup(stateTime, s) + Total(InState(reported, s))
    {
      hide Total, R.Durations, Recorder.Trace.Linked, Lookup, InState, Sums;
      ghost var left := reported;
      sum := stateTime;
      var todo := active.Keys;
      while todo != {}
        invariant todo <= active.Keys && left.Keys == todo
        invariant forall id :: id in left ==> left[id] == reported[id]
        invariant Total(sum) + Total(Sums(left)) == Total(stateTime) + Total(Sums(reported))
        invariant forall s ::
          Lookup(sum, s) + Total(InState(left, s)) == Lookup(stateTime, s) + Total(InState(reported, s))
        decreases todo
      {
        var id :| id in todo;
        sum := AddTrace(sum, active[id], raws[id]);
        TakeReport(left, id);
        left := left - {id};
        todo := todo - {id};
      }
      NoReports(left);
    }

    lemma ReportedAtLeast(raws: map<string, int>, reported: Reports, elapsed: map<string, int>)
      requires Observed(raws, reported, elapsed)
      ensures Total(Sums(reported)) >= Total(elapsed)
      ensures Total(Sums(reported)) == Total(elapsed) <==> forall id :: id in active ==> !R.Late(active[id].Value())
    {
      hide Total, R.Inv, R.Elapsed, R.StateTimes, R.Durations, R.Late, Recorder.Trace.Linked;
      forall id | id in active
        ensures elapsed[id] <= Total(reported[id])
        ensures elapsed[id] == Total(reported[id]) <==> !R.Late(active[id].Value())
      {
        StateForms.StateTimesAreElapsed(active[id].Value(), raws[id]);
        StateForms.FormsSameTotal(active[id].Value(), raws[id]);
      }
      TotalAtMost(elapsed, Sums(reported));
      assert elapsed == Sums(reported) <==> forall id :: id in active ==> elapsed[id] == Total(reported[id]);
    }

    method AddTrace(sum: map<R.State, int>, trace: Recorder.Trace, raw: int) returns (sum': map<R.State, int>)
      requires trace.Valid()
      ensures Total(sum') == Total(sum) + Total(R.Durations(trace.Value(), raw))
      ensures forall s :: Lookup(sum', s) == Lookup(sum, s) + Lookup(R.Durations(trace.Value(), raw), s)
    {
      hide Total, R.Durations, Recorder.Trace.Linked;
      var durations := trace.Durations(raw);
      TotalPlus(sum, durations);
      sum' := AddEntries(sum, durations);
    }

    /** Traces in flight stay active. */
    method Reset()
      modifies this`total, this`sampled, this`unsampled, this`failed, this`requests, this`stateTime
      ensures Counted() && total == 0 && failed == 0 && stateTime == map[] && requests == map[]
    {
      total, sampled, unsampled, failed := 0, 0, 0, 0;
      requests, stateTime := map[], map[];
    }
  }
}
