/** Inert copies of traces (model/trace.go, model/span.go): what a copy shows,
    and CloneInto, which rewrites a destination in place and reuses the
    allocations it already owns. */
module Copies {
  import opened Options
  import opened Requests
  import Clock
  import R = Recording
  import RR = RecorderRuns
  import Finishing

  datatype Span = Span(id: nat, span: R.Span)

  /** The fields of a trace that a copy holds by value. */
  datatype Info = Info(id: string, startedAt: int, updatedAt: int, changedAt: int, duration: int, state: R.State,
                       errorText: string, stateTime: seq<int>, droppedSpans: nat, droppedLogs: nat,
                       finished: bool, inFlight: bool)

  /** What a trace shows to whoever holds its lock. */
  datatype View = View(info: Info, http: Option<Http>, spans: seq<Span>, logs: seq<R.LogEntry>)

  const ZERO_INFO := Info("", 0, 0, 0, 0, R.Unknown(""), "", [], 0, 0, false, false)
  const ZERO := View(ZERO_INFO, None, [], [])

  /** A recording trace as its lock holder sees it. */
  ghost function OfTrace(t: R.Trace): View
    requires R.Inv(t)
  {
    View(Info(t.id, t.startedAt, t.updatedAt, t.changedAt, t.duration, t.state, t.errorText, t.stateTime,
              t.droppedSpans, t.droppedLogs, t.finished, false),
         t.http,
         seq(|t.list|, i requires 0 <= i < |t.list| => Span(t.list[i], R.SpanOf(t, t.list[i]))),
         t.logs)
  }

  // ----------------------------------------------------------------- freezing

  /** A copy of a span: one still open shows the time it ran so far. */
  function FreezeSpan(s: Span, now: int): Span {
    if s.span.ended then s
    else
      var ran := now - s.span.startedAt;
      s.(span := s.span.(duration := if ran < 0 then 0 else ran))
  }

  function FreezeSpans(spans: seq<Span>, nows: seq<int>): (r: seq<Span>)
    requires |nows| == |spans|
    ensures |r| == |spans|
  {
    seq(|spans|, i requires 0 <= i < |spans| => FreezeSpan(spans[i], nows[i]))
  }

  /** A copy: `now` and `nows` are the clock readings of the trace and of each
      of its spans while it is made. */
  function Freeze(v: View, now: int, nows: seq<int>): (f: View)
    requires |nows| == |v.spans|
    ensures |f.spans| == |v.spans|
  {
    v.(info := FreezeInfo(v.info, now), spans := FreezeSpans(v.spans, nows))
  }

  function FreezeInfo(info: Info, now: int): Info {
    info.(inFlight := !info.finished, duration := if info.duration == 0 then now - info.startedAt else info.duration)
  }

  /** A copy made with a clock: `at` is the reading for each span in turn. */
  function FreezeAt(v: View, now: int, at: nat -> int): View {
    Freeze(v, now, seq(|v.spans|, at))
  }

  /** Nothing in the view still runs. */
  predicate Settled(v: View) {
    v.info.finished && v.info.duration != 0 && forall i :: 0 <= i < |v.spans| ==> v.spans[i].span.ended
  }

  /** A finished trace copies to the same value at any moment. */
  lemma SettledFreezes(v: View, now: int, nows: seq<int>)
    requires Settled(v) && |nows| == |v.spans|
    ensures Freeze(v, now, nows) == v.(info := v.info.(inFlight := false))
  {
    assert Freeze(v, now, nows).spans == v.spans;
  }

  /** Copying a stored copy again is the identity. */
  lemma CopyOfCopy(v: View, now: int, nows: seq<int>, later: int, laters: seq<int>)
    requires Settled(v) && |nows| == |v.spans| && |laters| == |v.spans|
    ensures var stored := Freeze(v, now, nows); Settled(stored) && Freeze(stored, later, laters) == stored
  {
    SettledFreezes(v, now, nows);
    SettledFreezes(Freeze(v, now, nows), later, laters);
  }

  /** It is the identity at every later moment only if nothing still ran. */
  lemma IdentityIffSettled(v: View)
    requires v.info.finished && v.info.duration != 0
    ensures Settled(v) <==>
      forall now: int, nows: seq<int> {:trigger Freeze(v, now, nows)} :: |nows| == |v.spans| ==>
        Freeze(v, now, nows) == v.(info := v.info.(inFlight := false))
  {
    if Settled(v) {
      forall now: int, nows: seq<int> | |nows| == |v.spans|
        ensures Freeze(v, now, nows) == v.(info := v.info.(inFlight := false))
      {
        SettledFreezes(v, now, nows);
      }
    } else {
      var i :| 0 <= i < |v.spans| && !v.spans[i].span.ended;
      var s := v.spans[i].span;
      var later := s.startedAt + (if s.duration >= 0 then s.duration else 0) + 1;
      var nows := seq(|v.spans|, _ => later);
      assert Freeze(v, 0, nows).spans[i] == FreezeSpan(v.spans[i], later);
      assert Freeze(v, 0, nows).spans[i] != v.spans[i];
    }
  }

  /** A trace whose Finish and Ends all returned has settled. */
  lemma FinishedTraceSettles(run: seq<RR.World>, events: seq<RR.Event>, i: nat)
    requires RR.Run(run, events) && i < |run|
    requires run[i].trace.finished && forall g: nat :: Finishing.AtRest(RR.PcOf(run[i], g))
    ensures R.Inv(run[i].trace) && Settled(OfTrace(run[i].trace))
  {
    RR.RunKeepsInv(run, events, i);
    Finishing.FinishEndsEverySpan(run, events, i);
  }

  /** What a copy shows of one listed span: the span as it is, and for one
      still open the time from its start to the reading. */
  ghost predicate SpanShown(c: Span, t: R.Trace, id: nat, reading: int)
    requires R.Has(t, id)
  {
    var s := R.SpanOf(t, id);
    && c.id == id && c.span == s.(duration := c.span.duration)
    && if s.ended then c.span.duration == s.duration else s.startedAt + c.span.duration == reading
  }

  /** In every run, a copy made at any moment shows what is recorded, and of
      what still runs the time from its start to the reading of the clock. */
  lemma CopyShowsElapsed(run: seq<RR.World>, events: seq<RR.Event>, i: nat, raw: int, raws: nat -> int)
    requires RR.Run(run, events) && i < |run|
    ensures var t := run[i].trace;
            && R.Inv(t)
            && var c := FreezeAt(OfTrace(t), Clock.Peek(t.lastNanos, raw),
                                 (k: nat) => Clock.Peek(t.lastNanos, raws(k)));
            && (c.info.inFlight <==> !t.finished)
            && (if t.finished then c.info.duration == t.duration
                else t.startedAt + c.info.duration == Clock.Peek(t.lastNanos, raw))
            && c.info == OfTrace(t).info.(inFlight := c.info.inFlight, duration := c.info.duration)
            && c.http == t.http && c.logs == t.logs && |c.spans| == |t.list|
            && forall k :: 0 <= k < |t.list| ==>
                 R.Has(t, t.list[k]) && SpanShown(c.spans[k], t, t.list[k], Clock.Peek(t.lastNanos, raws(k)))
  {
    RR.RunKeepsInv(run, events, i);
    var t := run[i].trace;
    forall k | 0 <= k < |t.list| ensures R.Has(t, t.list[k]) && R.Timed(t, t.list[k]) {}
  }

  // --------------------------------------------------------------- the copies

  class HttpCell {
    var value: Http

    constructor (value: Http)
      ensures this.value == value
    {
      this.value := value;
    }
  }

  /** A pointer to an entry of a block. */
  datatype Ptr = Ptr(block: array<Span>, index: nat)

  /** A trace value that owns its allocations: a ring slot, or a copy handed
      out. A slice is its array and its length; a nil slice has no array. */
  class Copy {
    var info: Info
    var http: HttpCell?
    var spans: array?<Ptr>
    var block: array?<Span>
    var spanCount: nat
    var logs: array?<R.LogEntry>
    var logCount: nat

    /** The objects the copy owns. */
    ghost var Repr: set<object>

    constructor ()
      ensures Valid() && Value() == ZERO && Repr == {this}
    {
      info := ZERO_INFO;
      http, spans, block, logs := null, null, null, null;
      spanCount, logCount := 0, 0;
      Repr := {this};
    }

    ghost predicate Valid()
      reads this, Repr
      ensures Valid() ==> this in Repr
    {
      && this in Repr
      && (http != null ==> http in Repr)
      && (spans != null ==> spans in Repr)
      && (block != null ==> block in Repr)
      && (logs != null ==> logs in Repr)
      && (spans == null ==> spanCount == 0)
      && (spans != null ==> block != null && spanCount <= spans.Length && spanCount <= block.Length)
      && (spans != null && block != null ==> forall i :: 0 <= i < spanCount ==> spans[i] == Ptr(block, i))
      && (logs == null ==> logCount == 0)
      && (logs != null ==> logCount <= logs.Length)
    }

    function Id(): (id: string)
      requires Valid()
      reads this, Repr
      ensures id == Value().info.id
    {
      info.id
    }

    function SpanAt(i: nat): Span
      requires Valid() && i < spanCount
      reads this, Repr
    {
      spans[i].block[spans[i].index]
    }

    /** What the copy shows. */
    function Value(): View
      requires Valid()
      reads this, Repr
    {
      View(info, if http == null then None else Some(http.value),
                  seq(spanCount, i requires Valid() && 0 <= i < spanCount reads this, Repr => SpanAt(i)),
                  if logs == null then [] else logs[..logCount])
    }

    /** What it shows, in terms of its allocations. */
    lemma Shows()
      requires Valid()
      ensures Value().info == info && Value().http == if http == null then None else Some(http.value)
      ensures spans == null ==> Value().spans == []
      ensures spans != null && block != null ==> Value().spans == block[..spanCount]
      ensures Value().logs == if logs == null then [] else logs[..logCount]
    {
    }

    /** The destination's own HTTP record rewritten, or a new one. */
    method CloneHttp(source: Option<Http>) returns (copied: HttpCell?)
      modifies if http == null then {} else {http}
      ensures copied == null <==> source.None?
      ensures copied != null ==> copied.value == source.value && (copied == http || fresh(copied))
    {
      copied := null;
      if source.Some? {
        copied := http;
        if copied == null {
          copied := new HttpCell(source.value);
        }
        copied.value := source.value;
      }
    }

    /** One block carries every span copy; the block and the pointer list are
        the destination's own where they are large enough. */
    method CloneSpans(source: seq<Span>, nows: seq<int>) returns (pointers: array?<Ptr>, copies: array?<Span>)
      requires |nows| == |source|
      modifies (if spans == null then {} else {spans}), (if block == null then {} else {block})
      ensures pointers == null <==> |source| == 0
      ensures copies == null <==> |source| == 0
      ensures pointers != null ==> (pointers == spans || fresh(pointers)) && |source| <= pointers.Length
      ensures copies != null ==> (copies == block || fresh(copies)) && |source| <= copies.Length
      ensures pointers != null && copies != null ==> forall i :: 0 <= i < |source| ==> pointers[i] == Ptr(copies, i)
      ensures copies != null ==> copies[..|source|] == FreezeSpans(source, nows)
    {
      pointers, copies := null, null;
      var n := |source|;
      if n > 0 {
        var entries := block;
        if entries == null || entries.Length < n {
          entries := new Span[n](_ => source[0]);
        }
        var slots := spans;
        if slots == null || slots.Length < n {
          slots := new Ptr[n](_ => Ptr(entries, 0));
        }
        var i := 0;
        while i < n
          invariant 0 <= i <= n
          invariant forall k :: 0 <= k < i ==>
            slots[k] == Ptr(entries, k) && entries[k] == FreezeSpan(source[k], nows[k])
        {
          entries[i] := FreezeSpan(source[i], nows[i]);
          slots[i] := Ptr(entries, i);
          i := i + 1;
        }
        pointers, copies := slots, entries;
      }
    }

    method CloneLogs(source: seq<R.LogEntry>) returns (copied: array?<R.LogEntry>)
      modifies if logs == null then {} else {logs}
      ensures copied == null <==> |source| == 0
      ensures copied != null ==>
        (copied == logs || fresh(copied)) && |source| <= copied.Length && copied[..|source|] == source
    {
      copied := null;
      var n := |source|;
      if n > 0 {
        var entries := logs;
        if entries == null || entries.Length < n {
          entries := new R.LogEntry[n](_ => source[0]);
        }
        var i := 0;
        while i < n
          invariant 0 <= i <= n
          invariant forall k :: 0 <= k < i ==> entries[k] == source[k]
        {
          entries[i] := source[i];
          i := i + 1;
        }
        copied := entries;
      }
    }

    /** CloneInto this destination. Whatever it held before, it then shows the
        copy, and it owns nothing but what it owned or has just allocated. */
    method CloneFrom(source: View, now: int, nows: seq<int>)
      requires Valid() && |nows| == |source.spans|
      modifies Repr
      ensures Valid() && Value() == Freeze(source, now, nows)
      ensures fresh(Repr - old(Repr))
    {
      assert {this, http, spans, block, logs} - {null} <= Repr;
      hide FreezeSpans, FreezeInfo, Valid, Value;
      var record := CloneHttp(source.http);
      var pointers, copies := CloneSpans(source.spans, nows);
      var lines := CloneLogs(source.logs);
      ghost var frozen := Freeze(source, now, nows);
      assert frozen.spans == if copies == null then [] else copies[..|source.spans|];
      assert frozen.logs == if lines == null then [] else lines[..|source.logs|];
      Install(FreezeInfo(source.info, now), record, pointers, copies, |source.spans|, lines, |source.logs|);
    }

    /** The last assignment of CloneInto. */
    method Install(info: Info, http: HttpCell?, spans: array?<Ptr>, block: array?<Span>, n: nat,
        logs: array?<R.LogEntry>, m: nat)
      requires (spans == null <==> n == 0) && (block == null <==> n == 0) && (logs == null <==> m == 0)
      requires spans != null ==> n <= spans.Length
      requires block != null ==> n <= block.Length
      requires spans != null && block != null ==> forall i :: 0 <= i < n ==> spans[i] == Ptr(block, i)
      requires logs != null ==> m <= logs.Length
      modifies this
      ensures Valid()
      ensures forall o :: o in Repr ==> o == this || o == http || o == spans || o == block || o == logs
      ensures Value() == View(info, if http == null then None else Some(http.value),
                              if block == null then [] else block[..n], if logs == null then [] else logs[..m])
    {
      this.info, this.http := info, http;
      this.spans, this.block, spanCount := spans, block, n;
      this.logs, logCount := logs, m;
      Repr := {this} + (if http == null then {} else {http}) + (if spans == null then {} else {spans})
              + (if block == null then {} else {block}) + (if logs == null then {} else {logs});
      hide FreezeSpans;
      Shows();
    }

    /** A slot set back to the zero trace. */
    method Clear()
      modifies this
      ensures Valid() && Value() == ZERO && Repr == {this}
    {
      info := ZERO_INFO;
      http, spans, block, logs := null, null, null, null;
      spanCount, logCount := 0, 0;
      Repr := {this};
    }
  }

  /** Clone: CloneInto with an empty destination. */
  method Clone(source: View, now: int, at: nat -> int) returns (copied: Copy)
    ensures copied.Valid() && fresh(copied.Repr) && copied.Value() == FreezeAt(source, now, at)
  {
    copied := new Copy();
    copied.CloneFrom(source, now, seq(|source.spans|, at));
  }
}
