/** The scan for the innermost open span (model/log.go), which holds the trace
    lock throughout but each span's lock for one look only: spans end while it
    goes on. */
module LogScan {
  import opened Recording
  import RR = RecorderRuns
  import Finishing

  ghost predicate Scannable(t: Trace, list: seq<nat>) {
    t.list == list && forall i :: 0 <= i < |list| ==> Has(t, list[i])
  }

  /** The first look is at the last of the first `n` spans, as the first trace
      has it, the next at the one before, as the next trace has it. */
  ghost function Scan(looks: seq<Trace>, list: seq<nat>, n: nat): nat
    requires n <= |looks| && n <= |list| && forall k :: 0 <= k < |looks| ==> Scannable(looks[k], list)
  {
    if n == 0 then 0
    else
      assert Scannable(looks[0], list);
      if !SpanOf(looks[0], list[n - 1]).ended then list[n - 1]
      else Scan(looks[1..], list, n - 1)
  }

  /** Spans that ended stay ended from look to look. */
  ghost predicate InTurn(looks: seq<Trace>, list: seq<nat>) {
    && (forall k :: 0 <= k < |looks| ==> Scannable(looks[k], list))
    && (forall j, k, i :: 0 <= j <= k < |looks| && 0 <= i < |list| && SpanOf(looks[j], list[i]).ended ==>
          SpanOf(looks[k], list[i]).ended)
  }

  lemma {:induction false} OpenBelow(t: Trace, list: seq<nat>, n: nat, m: nat)
    requires Scannable(t, list) && n <= m <= |list| && forall i :: n <= i < m ==> SpanOf(t, list[i]).ended
    ensures OpenSpan(t, m) == OpenSpan(t, n)
    decreases m
  {
    if n < m { OpenBelow(t, list, n, m - 1); }
  }

  lemma {:induction false} ScanFindsOpen(looks: seq<Trace>, list: seq<nat>, n: nat) returns (k: nat)
    requires looks != [] && n <= |looks| && n <= |list| && InTurn(looks, list)
    requires forall i :: n <= i < |list| ==> SpanOf(looks[0], list[i]).ended
    ensures k < |looks| && Scan(looks, list, n) == OpenSpan(looks[k], |list|)
  {
    OpenBelow(looks[0], list, n, |list|);
    if n == 0 || !SpanOf(looks[0], list[n - 1]).ended {
      k := 0;
    } else if n == 1 {
      k := 0;
    } else {
      var rest := looks[1..];
      assert forall i :: n - 1 <= i < |list| ==> SpanOf(looks[0], list[i]).ended && SpanOf(looks[1], list[i]).ended;
      k := ScanFindsOpen(rest, list, n - 1);
      k := k + 1;
    }
  }

  /** The scan is as good as an atomic one: in every run, whatever ends between
      its looks, what it returns was the innermost open span, or none was open,
      at one of them. */
  lemma ScanIsAtomic(run: seq<RR.World>, events: seq<RR.Event>, at: seq<nat>)
    requires RR.Run(run, events) && at != [] && forall k :: 0 <= k < |at| ==> at[k] < |run|
    requires forall j, k :: 0 <= j <= k < |at| ==> at[j] <= at[k]
    requires var list := run[at[0]].trace.list;
             |list| <= |at| && forall k :: 0 <= k < |at| ==> Scannable(run[at[k]].trace, list)
    ensures var list := run[at[0]].trace.list;
            var looks := seq(|at|, k requires 0 <= k < |at| => run[at[k]].trace);
            exists k :: 0 <= k < |at| && Scan(looks, list, |list|) == OpenSpan(run[at[k]].trace, |list|)
  {
    var list := run[at[0]].trace.list;
    var looks := seq(|at|, k requires 0 <= k < |at| => run[at[k]].trace);
    forall j, k, i | 0 <= j <= k < |looks| && 0 <= i < |list| && SpanOf(looks[j], list[i]).ended
      ensures SpanOf(looks[k], list[i]).ended
    {
      Finishing.EndIsRecordedOnce(run, events, at[j], at[k], list[i]);
    }
    var k := ScanFindsOpen(looks, list, |list|);
    assert looks[k] == run[at[k]].trace;
  }
}
