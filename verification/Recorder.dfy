/** The trace and its spans as the recorder holds them: objects whose methods
    write their fields. Each method is the critical section of Recording it is
    proved against. */
module Recorder {
  import opened Lists
  import opened Options
  import opened Requests
  import R = Recording
  import Clock

  class Span {
    const id: nat
    const traceId: string
    const parentId: nat
    const depth: nat
    const name: string
    const kind: string
    const startedAt: int
    var duration: int
    var debug: bool
    var ended: bool
    var errorText: string

    constructor (id: nat, traceId: string, parentId: nat, depth: nat, name: string, kind: string, startedAt: int)
      ensures this.id == id && this.traceId == traceId && this.depth == depth
      ensures Value() == R.Span(parentId, depth, name, kind, startedAt, 0, false, false, "")
    {
      this.id, this.traceId, this.parentId, this.depth := id, traceId, parentId, depth;
      this.name, this.kind, this.startedAt := name, kind, startedAt;
      duration, debug, ended, errorText := 0, false, false, "";
    }

    function Value(): R.Span
      reads this
    {
      R.Span(parentId, depth, name, kind, startedAt, duration, debug, ended, errorText)
    }
  }

  ghost function Values(spans: seq<Span>): (r: seq<R.Span>)
    reads spans
    ensures |r| == |spans| && forall i :: 0 <= i < |spans| ==> r[i] == spans[i].Value()
  {
    seq(|spans|, i requires 0 <= i < |spans| reads spans => spans[i].Value())
  }

  ghost function Ids(spans: seq<Span>): (r: seq<nat>)
    ensures |r| == |spans| && forall i :: 0 <= i < |spans| ==> r[i] == spans[i].id
  {
    seq<nat>(|spans|, i requires 0 <= i < |spans| => spans[i].id)
  }

  class Trace {
    const id: string
    const opts: R.Options
    const startedAt: int
    var updatedAt: int
    var changedAt: int
    var duration: int
    var state: R.State
    var errorText: string
    var stateTime: seq<int>
    var spans: seq<Span>
    var droppedSpans: nat
    var sequence: nat
    var logs: seq<R.LogEntry>
    var droppedLogs: nat
    var finished: bool
    var lastNanos: int
    var http: Option<Http>

    /** Every span handed out, retained or not; span `i + 1` is `handed[i]`. */
    ghost var handed: seq<Span>

    constructor (id: string, opts: R.Options, now: int)
      ensures Valid() && handed == [] && spans == [] && Value() == R.New(id, opts, now)
    {
      this.id, this.opts, this.startedAt := id, opts, now;
      updatedAt, changedAt, lastNanos := now, now, now;
      state, stateTime := R.Starting, seq(R.NUM_STATES, _ => 0);
      duration, errorText, spans, droppedSpans, sequence := 0, "", [], 0, 0;
      logs, droppedLogs, finished, http, handed := [], 0, false, None, [];
    }

    ghost predicate Valid()
      reads this
    {
      |stateTime| == R.NUM_STATES && Linked()
    }

    /** The spans are numbered as they were handed out. */
    ghost predicate Linked()
      reads this`handed, this`spans, this`sequence
    {
      && sequence == |handed|
      && (forall i :: 0 <= i < |handed| ==> handed[i].id == i + 1 && handed[i].traceId == id)
      && (forall i :: 0 <= i < |spans| ==> Handed(spans[i]))
    }

    ghost predicate Handed(s: Span)
      reads this`handed
    {
      1 <= s.id <= |handed| && handed[s.id - 1] == s
    }

    ghost function Value(): (t: R.Trace)
      requires Valid()
      reads this, handed
      ensures |t.all| == |handed| && |t.list| == |spans| && |t.stateTime| == R.NUM_STATES
      ensures forall i :: 0 <= i < |spans| ==> R.Has(t, t.list[i])
    {
      R.Trace(id, opts, startedAt, updatedAt, changedAt, duration, state, errorText, stateTime,
              Values(handed), Ids(spans),
              droppedSpans, logs, droppedLogs, finished, lastNanos, http)
    }

    /** The parent of a span started under `p`. */
    ghost function ParentOf(p: Span?): (parent: R.Parent)
      requires Valid()
      reads this, handed
      ensures R.KnownParent(Value(), parent)
    {
      if p == null then R.NoParent
      else if Handed(p) then R.Own(p.id)
      else R.Foreign(p.traceId, p.id, p.depth)
    }

    method Time(raw: int) returns (now: int)
      modifies this`lastNanos
      ensures now == lastNanos == Clock.NextReading(old(lastNanos), raw)
    {
      now := raw;
      if now <= lastNanos {
        now := lastNanos + 1;
      }
      lastNanos := now;
    }

    method AppendSpan(parent: Span?, name: string, kind: string, raw: int) returns (span: Span?)
      requires Valid()
      modifies this
      ensures Valid() && Value() == R.AppendSpan(old(Value()), old(ParentOf(parent)), name, kind, raw)
      ensures span == null ==> handed == old(handed) && spans == old(spans)
      ensures span != null ==> fresh(span) && handed == old(handed) + [span] && spans == old(spans) + [span]
    {
      if finished { return null; }
      if opts.maxSpans > 0 && |spans| >= opts.maxSpans {
        droppedSpans := droppedSpans + 1;
        return null;
      }
      var parentId: nat, depth: nat := 0, 0;
      if parent != null && parent.traceId == id {
        parentId, depth := parent.id, parent.depth + 1;
      }
      assert (parentId, depth) == R.Link(Value(), ParentOf(parent));
      span := Record(parentId, depth, name, kind, raw);
    }

    /** Takes the reading of a new span and lists it. */
    method Record(parentId: nat, depth: nat, name: string, kind: string, raw: int) returns (span: Span)
      requires Valid()
      modifies this
      ensures Valid() && fresh(span) && handed == old(handed) + [span] && spans == old(spans) + [span]
      ensures var t, now := old(Value()), Clock.NextReading(old(lastNanos), raw);
              Value() == t.(all := t.all + [R.Span(parentId, depth, name, kind, now, 0, false, false, "")],
                            list := t.list + [|t.all| + 1], updatedAt := now, lastNanos := now)
    {
      assert sequence == |handed|;
      hide Values, Ids, Linked;
      var now := Now(raw);
      label timed:
      updatedAt := now;
      assert Values(handed) == old@timed(Values(handed));
      span := NewSpan(parentId, depth, name, kind, now);
      Keep(span);
    }

    method NewSpan(parentId: nat, depth: nat, name: string, kind: string, now: int) returns (span: Span)
      requires Valid()
      ensures fresh(span) && span.id == sequence + 1 && span.traceId == id && span !in handed
      ensures span.Value() == R.Span(parentId, depth, name, kind, now, 0, false, false, "")
      ensures Value() == old(Value())
    {
      hide Linked;
      span := new Span(sequence + 1, id, parentId, depth, name, kind, now);
      assert Values(handed) == old(Values(handed));
    }

    /** Numbers a new span and puts it at the end of the list. */
    method Keep(span: Span)
      requires Valid() && span.id == sequence + 1 && span.traceId == id && span !in handed
      modifies this`sequence, this`spans, this`handed
      ensures Valid() && handed == old(handed) + [span] && spans == old(spans) + [span]
      ensures Value() == old(Value()).(all := old(Value()).all + [span.Value()], list := old(Value()).list + [span.id])
    {
      sequence := sequence + 1;
      spans := spans + [span];
      handed := handed + [span];
      assert forall i :: 0 <= i < |spans| - 1 ==> old(Handed(spans[i]));
      assert Values(handed) == old(Values(handed)) + [span.Value()];
      assert Ids(spans) == old(Ids(spans)) + [span.id];
    }

    /** Charges the time since the last change to the state it leaves. */
    method Move(next: R.State, now: int)
      requires Valid()
      modifies this`stateTime, this`state, this`changedAt, this`updatedAt
      ensures Valid() && Value() == R.Move(old(Value()), next, now).(lastNanos := lastNanos)
    {
      hide R.StateIndex, Linked, Values, Ids;
      var i := R.StateIndex(state);
      stateTime := stateTime[i := stateTime[i] + (now - changedAt)];
      state := next;
      changedAt := now;
      updatedAt := now;
      assert Values(handed) == old(Values(handed));
    }

    /** The reading shows in nothing but the clock. */
    method Now(raw: int) returns (now: int)
      requires Valid()
      modifies this`lastNanos
      ensures now == Clock.NextReading(old(lastNanos), raw)
      ensures Valid() && Value() == old(Value()).(lastNanos := now)
    {
      hide Linked, Values, Ids;
      now := Time(raw);
      assert Values(handed) == old(Values(handed));
    }

    method SetState(next: R.State, raw: int)
      requires Valid()
      modifies this`stateTime, this`state, this`changedAt, this`updatedAt, this`lastNanos
      ensures Valid() && Value() == R.SetState(old(Value()), next, raw)
    {
      hide Linked, Values, Ids, R.StateIndex;
      if state == R.Error && next != R.Error { return; }
      var now := Now(raw);
      Move(next, now);
    }

    method RecordError(text: string, raw: int)
      requires Valid()
      modifies this`stateTime, this`state, this`changedAt, this`updatedAt, this`lastNanos, this`errorText
      ensures Valid() && Value() == R.RecordError(old(Value()), text, raw)
    {
      hide Linked, Values, Ids, R.StateIndex;
      var now := Now(raw);
      Move(R.Error, now);
      label moved:
      errorText := text;
      assert Values(handed) == old@moved(Values(handed));
    }

    method SetHttpInfo(info: Http)
      requires Valid()
      modifies this`http
      ensures Valid() && Value() == R.SetHttp(old(Value()), info)
    {
      hide Linked, Values, Ids;
      http := Some(info);
      assert Values(handed) == old(Values(handed));
    }

    method SetResponse(status: int, bytes: int, route: string, raw: int)
      requires Valid()
      modifies this`http, this`updatedAt, this`lastNanos
      ensures Valid() && Value() == R.SetResponse(old(Value()), status, bytes, route, raw)
    {
      hide Linked, Values, Ids;
      var info := if http.None? then Http("", "", "", "", 0, 0) else http.value;
      info := info.(status := status, responseBytes := bytes);
      if route != "" {
        info := info.(route := route);
      }
      http := Some(info);
      updatedAt := Time(raw);
      assert Values(handed) == old(Values(handed));
    }

    method SetDebug(s: Span)
      requires Valid() && Handed(s)
      modifies s
      ensures Valid() && Value() == R.SetDebug(old(Value()), s.id)
    {
      s.debug := true;
      OneSpanChanged(s);
    }

    twostate lemma OneSpanChanged(s: Span)
      requires old(Valid()) && Valid() && Handed(s) && handed == old(handed)
      requires forall i :: 0 <= i < |handed| && handed[i] != s ==> handed[i].Value() == old(handed[i].Value())
      ensures Value().all == old(Value()).all[s.id - 1 := s.Value()]
    {
    }

    /** Takes one entry off the list, its later neighbours moving one place
        left, and counts it. */
    method RemoveAt(i: nat)
      requires Valid() && i < |spans|
      modifies this`spans, this`droppedSpans
      ensures Valid()
      ensures var t := old(Value());
              Value() == t.(list := t.list[..i] + t.list[i + 1..], droppedSpans := t.droppedSpans + 1)
    {
      assert forall k :: 0 <= k < |spans| ==> Handed(spans[k]);
      spans := spans[..i] + spans[i + 1..];
      droppedSpans := droppedSpans + 1;
      assert Ids(spans) == old(Ids(spans))[..i] + old(Ids(spans))[i + 1..];
    }

    lemma {:induction false} IsLast(list: seq<nat>, id: nat, i: int)
      requires -1 <= i < |list| && (i >= 0 ==> list[i] == id) && forall k :: i < k < |list| ==> list[k] != id
      ensures LastIndex(list, id) == i
    {
      if i < |list| - 1 { IsLast(list[..|list| - 1], id, i); }
    }

    /** The scan from the end of the list. */
    method Place(s: Span) returns (i: int)
      requires Valid() && Handed(s)
      ensures i == LastIndex(Ids(spans), s.id)
    {
      i := |spans| - 1;
      while i >= 0
        invariant -1 <= i < |spans|
        invariant forall k :: i < k < |spans| ==> Ids(spans)[k] != s.id
      {
        assert Handed(spans[i]);
        if spans[i] == s { break; }
        i := i - 1;
      }
      IsLast(Ids(spans), s.id, i);
    }

    /** Drops a debug span that ran too short. */
    method FilterDebugSpan(s: Span, ran: int)
      requires Valid() && Handed(s)
      modifies this`spans, this`droppedSpans
      ensures Valid() && (finished ==> spans == old(spans))
      ensures Value() == R.Filter(old(Value()), s.id, ran)
      ensures var t := old(Value());
              Value() == if 0 < opts.debugMinSpan && ran < opts.debugMinSpan && !finished && s.id in t.list
                         then t.(list := RemoveLast(t.list, s.id), droppedSpans := t.droppedSpans + 1) else t
    {
      hide Linked, Values;
      if opts.debugMinSpan <= 0 || ran >= opts.debugMinSpan { return; }
      if finished { return; }
      var i := Place(s);
      if i >= 0 {
        RemoveAt(i);
      }
    }

    /** Span.End. */
    method End(s: Span, raw: int)
      requires Valid() && Handed(s)
      modifies this, s
      ensures Valid() && handed == old(handed) && finished == old(finished)
      ensures finished ==> spans == old(spans)
      ensures Value() == R.EndSpan(old(Value()), s.id, raw)
    {
      hide Values, Ids, R.Filter;
      AtHanded(s);
      if s.ended { return; }
      hide Linked, R.MarkEnded;
      Mark(s, raw);
      if s.debug {
        FilterDebugSpan(s, s.duration);
      }
    }

    /** The locked section of End. */
    method Mark(s: Span, raw: int)
      requires Valid() && Handed(s) && !s.ended
      modifies this`lastNanos, s
      ensures Valid() && s.ended && s.debug == old(s.debug)
      ensures Value() == R.MarkEnded(old(Value()), s.id, raw)
      ensures s.duration == R.SpanOf(Value(), s.id).duration
    {
      hide R.Has;
      AtHanded(s);
      s.ended := true;
      var now := Time(raw);
      s.duration := now - s.startedAt;
      OneSpanChanged(s);
      AtHanded(s);
    }

    lemma AtHanded(s: Span)
      requires Valid() && Handed(s)
      ensures R.Has(Value(), s.id) && R.SpanOf(Value(), s.id) == s.Value()
    {
    }

    /** The first half of Finish: the close of an open trace. */
    method Close(raw: int)
      requires Valid() && !finished
      modifies this`stateTime, this`state, this`changedAt, this`updatedAt, this`lastNanos, this`duration, this`finished
      ensures Valid() && finished && Value() == R.Close(old(Value()), raw)
    {
      hide Linked, Values, Ids, R.StateIndex;
      var now := Now(raw);
      Move(state, now);
      label moved:
      duration := now - startedAt;
      finished := true;
      assert Values(handed) == old@moved(Values(handed));
    }

    /** Finish: the close, then the ends, last span first. */
    method Finish(raw: int, raws: seq<int>)
      requires Valid() && |raws| == |spans|
      modifies this, spans
      ensures Valid() && handed == old(handed)
      ensures Value() == if old(finished) then old(Value())
                         else R.EndAll(R.Close(old(Value()), raw), old(Value()).list, |raws|, raws)
    {
      if finished { return; }
      Close(raw);
      hide R.Close, R.EndAll;
      EndOpenSpans(raws);
    }

    /** The loop of Finish: ends every listed span, last one first. */
    method EndOpenSpans(raws: seq<int>)
      requires Valid() && finished && |raws| == |spans|
      modifies this, spans
      ensures Valid() && handed == old(handed)
      ensures Value() == R.EndAll(old(Value()), old(Value()).list, |raws|, raws)
    {
      var open := spans;
      ghost var closed, ids := Value(), Value().list;
      var n := |open|;
      while n > 0
        invariant 0 <= n <= |open| == |raws| == |ids|
        invariant Valid() && handed == old(handed) && spans == open && finished
        invariant forall i :: 0 <= i < |ids| ==> R.Has(Value(), ids[i])
        invariant R.EndAll(Value(), ids, n, raws) == R.EndAll(closed, ids, |raws|, raws)
      {
        n := n - 1;
        assert Handed(open[n]) && ids[n] == open[n].id;
        End(open[n], raws[n]);
      }
    }

    /** The innermost open span, found from the end of the list. */
    method OpenSpan() returns (span: Span?)
      requires Valid()
      ensures span == null ==> R.OpenSpan(Value(), |spans|) == 0
      ensures span != null ==> Handed(span) && span.id == R.OpenSpan(Value(), |spans|)
    {
      var i := |spans|;
      while i > 0
        invariant 0 <= i <= |spans|
        invariant R.OpenSpan(Value(), |spans|) == R.OpenSpan(Value(), i)
      {
        i := i - 1;
        assert Handed(spans[i]) && Value().list[i] == spans[i].id;
        if !spans[i].ended { return spans[i]; }
      }
      return null;
    }

    /** The span a log line belongs to. */
    method SpanFor(spanId: nat) returns (at: nat)
      requires Valid()
      ensures at == if spanId == 0 then R.OpenSpan(Value(), |spans|) else spanId
    {
      at := spanId;
      if at == 0 {
        var span := OpenSpan();
        if span != null {
          at := span.id;
        }
      }
    }

    method AppendLog(level: string, spanId: nat, message: string, raw: int)
      requires Valid()
      modifies this`logs, this`droppedLogs, this`updatedAt, this`lastNanos
      ensures Valid() && handed == old(handed) && spans == old(spans)
      ensures Value() == R.AppendLog(old(Value()), level, spanId, message, raw)
    {
      hide R.OpenSpan, Linked;
      if finished { return; }
      if opts.maxSpans > 0 && |logs| >= opts.maxSpans {
        droppedLogs := droppedLogs + 1;
        return;
      }
      var at := SpanFor(spanId);
      var now := Time(raw);
      logs := logs + [R.LogEntry(now, level, message, at)];
      updatedAt := now;
      assert Values(handed) == old(Values(handed));
    }

    method StateTimes(raw: int) returns (out: seq<int>)
      requires Valid()
      ensures out == R.StateTimes(Value(), raw)
    {
      out := stateTime;
      if !finished {
        var i := R.StateIndex(state);
        out := out[i := out[i] + (Clock.Peek(lastNanos, raw) - changedAt)];
      }
    }

    method Durations(raw: int) returns (result: map<R.State, int>)
      requires Valid()
      ensures result == R.Durations(Value(), raw)
    {
      hide R.Buckets, Linked;
      result := Buckets();
      if !finished {
        result := result[state := (if state in result then result[state] else 0)
            + (Clock.Peek(lastNanos, raw) - changedAt)];
      }
    }

    /** The loop of Durations. */
    method Buckets() returns (result: map<R.State, int>)
      requires |stateTime| == R.NUM_STATES
      ensures result == R.Buckets(stateTime, R.NUM_STATES)
    {
      result := map[];
      for i := 0 to R.NUM_STATES
        invariant result == R.Buckets(stateTime, i)
      {
        if stateTime[i] != 0 {
          result := result[R.STATES[i] := stateTime[i]];
        }
      }
    }
  }
}
