/** What the statistics of model/stats.go say of the requests themselves: which
    traces a listed group or host counts, what it sums up of them, and which
    entries the ranking puts first. */
module RouteGroups {
  import opened Order
  import opened Statistics
  import H = HostStatistics
  import R = Recording

  // ------------------------------------------------------ which are together

  predicate Routed(t: Trace) {
    t.http.Some? && t.http.value.route != ""
  }

  function HostText(t: Trace): string {
    if t.http.Some? then t.http.value.host else ""
  }

  /** What its entry is called. */
  function EntryName(t: Trace): string {
    if Routed(t) then t.http.value.verb + " " + t.http.value.route else t.name
  }

  /** One host, and one verb and route; without a route one name; and a name
      may read like a verb and a route. */
  predicate Together(t: Trace, u: Trace) {
    && HostText(t) == HostText(u)
    && if Routed(t) && Routed(u) then t.http.value.verb == u.http.value.verb && t.http.value.route == u.http.value.route
       else if Routed(t) then u.name == t.http.value.verb + " " + t.http.value.route
       else if Routed(u) then t.name == u.http.value.verb + " " + u.http.value.route
       else t.name == u.name
  }

  /** A verb is a token, so it holds no space. */
  ghost predicate VerbsHoldNoSpace(w: seq<Trace>) {
    forall t :: t in w && t.http.Some? ==> SpaceFree(t.http.value.verb)
  }

  ghost predicate SpaceFree(s: string) {
    forall i :: 0 <= i < |s| ==> s[i] != ' '
  }

  lemma SpaceSplits(a: string, b: string, c: string, d: string)
    requires SpaceFree(a) && SpaceFree(c) && a + " " + b == c + " " + d
    ensures a == c && b == d
  {
    var x, y := a + " " + b, c + " " + d;
    assert x[|a|] == ' ' && y[|c|] == ' ';
    assert forall i :: 0 <= i < |a| ==> x[i] == a[i];
    assert forall i :: 0 <= i < |c| ==> y[i] == c[i];
    assert |a| == |c|;
    assert a == x[..|a|] && c == y[..|c|] && b == x[|a| + 1..] && d == y[|c| + 1..];
  }

  /** Two traces of a window are counted together exactly when their requests
      say so. */
  lemma CountedTogether(w: seq<Trace>, t: Trace, u: Trace)
    requires t in w && u in w && NoClash(w) && VerbsHoldNoSpace(w)
    ensures Key(t) == Key(u) <==> Together(t, u)
  {
    if Routed(t) && Routed(u) {
      var g, h := t.http.value, u.http.value;
      if g.verb + " " + g.route == h.verb + " " + h.route { SpaceSplits(g.verb, g.route, h.verb, h.route); }
    }
  }

  // ------------------------------------------------- what a group says of them

  ghost function Places(w: seq<Trace>, p: Trace -> bool): set<int> {
    set i | 0 <= i < |w| && p(w[i])
  }

  lemma PlacesSnoc(w: seq<Trace>, t: Trace, p: Trace -> bool)
    ensures |Places(w + [t], p)| == |Places(w, p)| + if p(t) then 1 else 0
  {
    assert Places(w + [t], p) == Places(w, p) + if p(t) then {|w|} else {};
  }

  lemma {:induction false} SumIsSize(w: seq<Trace>, f: Trace -> int, p: Trace -> bool)
    requires forall t :: t in w ==> f(t) == if p(t) then 1 else 0
    ensures SumBy(w, f) == |Places(w, p)|
  {
    if w == [] {
      assert Places(w, p) == {};
    } else {
      var n := |w| - 1;
      assert w == w[..n] + [w[n]];
      hide Places;
      SumIsSize(w[..n], f, p);
      PlacesSnoc(w[..n], w[n], p);
    }
  }

  /** What a trace adds to the entry of those it is together with. */
  function Durations(t: Trace): Trace -> int {
    (u: Trace) => if Together(u, t) then u.duration else 0
  }

  /** The bytes of a response; a negative count says nothing. */
  function Bytes(t: Trace): Trace -> int {
    (u: Trace) =>
      if Together(u, t) && u.http.Some? && u.http.value.responseBytes >= 0 then u.http.value.responseBytes else 0
  }

  function Memories(t: Trace): Trace -> int {
    (u: Trace) => if Together(u, t) then u.memory else 0
  }

  function Spans(t: Trace): Trace -> int {
    (u: Trace) => if Together(u, t) then u.spans else 0
  }

  /** Where the window holds those traces, and those of them that failed. */
  ghost function Mates(w: seq<Trace>, t: Trace): set<int> {
    set i | 0 <= i < |w| && Together(w[i], t)
  }

  ghost function FailedMates(w: seq<Trace>, t: Trace): set<int> {
    set i | 0 <= i < |w| && Together(w[i], t) && (w[i].errorText != "" || w[i].state == R.Error)
  }

  /** Their longest duration, zero if all of them are less. */
  ghost predicate Longest(m: int, w: seq<Trace>, t: Trace) {
    && m >= 0 && (forall u :: u in w && Together(u, t) ==> u.duration <= m)
    && (m > 0 ==> exists u :: u in w && Together(u, t) && u.duration == m)
  }

  /** What an entry says of the traces that are together with `t`. */
  ghost predicate TellsOf(x: Statistic, w: seq<Trace>, t: Trace) {
    && x.host == HostText(t) && x.name == EntryName(t)
    && x.count == |Mates(w, t)| && x.errors == |FailedMates(w, t)| && Longest(x.maxDuration, w, t)
    && x.totalDuration == SumBy(w, Durations(t)) && x.totalBytes == SumBy(w, Bytes(t))
    && x.totalMemory == SumBy(w, Memories(t)) && x.totalSpans == SumBy(w, Spans(t))
  }

  lemma KeysTogether(w: seq<Trace>, t: Trace)
    requires t in w && NoClash(w) && VerbsHoldNoSpace(w)
    ensures forall u :: u in w ==> (Key(u) == Key(t) <==> Together(u, t))
  {
    forall u | u in w ensures Key(u) == Key(t) <==> Together(u, t) { CountedTogether(w, u, t); }
  }

  lemma SumsTell(w: seq<Trace>, t: Trace)
    requires t in w && NoClash(w) && VerbsHoldNoSpace(w)
    ensures var k := Key(t);
            && SumBy(w, In(k, DURATION)) == SumBy(w, Durations(t)) && SumBy(w, In(k, BYTES)) == SumBy(w, Bytes(t))
            && SumBy(w, In(k, MEMORY)) == SumBy(w, Memories(t)) && SumBy(w, In(k, SPANS)) == SumBy(w, Spans(t))
  {
    var k := Key(t);
    KeysTogether(w, t);
    hide Key, Together, NoClash, VerbsHoldNoSpace;
    H.SameSum(w, In(k, DURATION), Durations(t));
    H.SameSum(w, In(k, BYTES), Bytes(t));
    H.SameSum(w, In(k, MEMORY), Memories(t));
    H.SameSum(w, In(k, SPANS), Spans(t));
  }

  lemma CountTells(w: seq<Trace>, t: Trace)
    requires t in w && NoClash(w) && VerbsHoldNoSpace(w)
    ensures SumBy(w, In(Key(t), ONE)) == |Mates(w, t)|
  {
    KeysTogether(w, t);
    hide Key, Together, NoClash, VerbsHoldNoSpace, SumBy;
    var p := (u: Trace) => Together(u, t);
    SumIsSize(w, In(Key(t), ONE), p);
    assert Places(w, p) == Mates(w, t);
  }

  lemma ErrorsTell(w: seq<Trace>, t: Trace)
    requires t in w && NoClash(w) && VerbsHoldNoSpace(w)
    ensures SumBy(w, In(Key(t), FAILED)) == |FailedMates(w, t)|
  {
    KeysTogether(w, t);
    hide Key, Together, NoClash, VerbsHoldNoSpace, SumBy;
    var p := (u: Trace) => Together(u, t) && (u.errorText != "" || u.state == R.Error);
    SumIsSize(w, In(Key(t), FAILED), p);
    assert Places(w, p) == FailedMates(w, t);
  }

  lemma LongestTells(w: seq<Trace>, t: Trace)
    requires t in w && NoClash(w) && VerbsHoldNoSpace(w)
    ensures Longest(MaxBy(w, In(Key(t), DURATION)), w, t)
  {
    KeysTogether(w, t);
    var f := In(Key(t), DURATION);
    var m := MaxBy(w, f);
    hide Key, Together, NoClash, VerbsHoldNoSpace, MaxBy;
    MaxIsLargest(w, f);
    forall u | u in w && Together(u, t) ensures u.duration <= m {
      var i :| 0 <= i < |w| && w[i] == u;
      assert f(w[i]) == u.duration;
    }
    if m > 0 {
      var i :| 0 <= i < |w| && f(w[i]) == m;
      assert w[i] in w && Together(w[i], t);
    }
  }

  lemma InItsGroup(w: seq<Trace>, t: Trace)
    requires t in w && NoClash(w)
    ensures Key(t) in Keys(w) && First(w, Key(t)) == GroupKey(t)
  {
    hide GroupKey, KeyText;
    var i :| 0 <= i < |w| && w[i] == t;
    assert Key(w[i]) in Keys(w);
    var j :| 0 <= j < |w| && GroupKey(w[j]) == First(w, Key(t));
    assert w[j] in w;
  }

  lemma NameTells(t: Trace)
    ensures GroupKey(t) == (EntryName(t), HostText(t))
  {
  }

  lemma GroupTells(w: seq<Trace>, t: Trace)
    requires t in w && NoClash(w) && VerbsHoldNoSpace(w)
    ensures Key(t) in Groups(w) && TellsOf(Groups(w)[Key(t)], w, t)
  {
    NameTells(t);
    InItsGroup(w, t);
    SumsTell(w, t);
    CountTells(w, t);
    ErrorsTell(w, t);
    LongestTells(w, t);
    hide NoClash, VerbsHoldNoSpace, MaxBy, SumBy, Durations, Bytes, Memories, Spans, In, Keys, First, Longest;
    hide Mates, FailedMates, GroupKey, Key, EntryName, HostText;
  }

  /** Every trace is told of by one group, and every group tells of a trace. */
  lemma GroupsTellOfRequests(w: seq<Trace>)
    requires NoClash(w) && VerbsHoldNoSpace(w)
    ensures forall t :: t in w ==> exists x :: x in Groups(w).Values && TellsOf(x, w, t)
    ensures forall x :: x in Groups(w).Values ==> exists t :: t in w && TellsOf(x, w, t)
  {
    forall t | t in w ensures exists x :: x in Groups(w).Values && TellsOf(x, w, t) {
      GroupTells(w, t);
      assert Groups(w)[Key(t)] in Groups(w).Values;
    }
    forall x | x in Groups(w).Values ensures exists t :: t in w && TellsOf(x, w, t) {
      var k :| k in Groups(w) && Groups(w)[k] == x;
      var i :| 0 <= i < |w| && Key(w[i]) == k;
      assert w[i] in w;
      GroupTells(w, w[i]);
    }
  }

  // -------------------------------------------------------------- the ranking

  /** `x` has at least as many traces as `y`; with as many, at least as much
      time; and with as much, the smaller name or the same and the smaller host. */
  predicate Leads(x: Statistic, y: Statistic) {
    && x.count >= y.count
    && (x.count == y.count ==> x.totalDuration >= y.totalDuration)
    && (x.count == y.count && x.totalDuration == y.totalDuration ==>
          Less(x.name, y.name) || (x.name == y.name && Less(x.host, y.host)))
  }

  /** The group of the trace is listed, or all that the full list holds lead it. */
  ghost predicate ListedOrCut(top: seq<Statistic>, w: seq<Trace>, limit: int, t: Trace) {
    exists x :: TellsOf(x, w, t) && (x in top || (0 < limit == |top| && forall y :: y in top ==> Leads(y, x)))
  }

  lemma FullLeads(full: seq<Statistic>, w: seq<Trace>)
    requires Ranks(full, Groups(w)) && NoClash(w) && VerbsHoldNoSpace(w)
    ensures forall i, j :: 0 <= i < j < |full| ==> Leads(full[i], full[j])
    ensures forall x :: x in full ==> exists t :: t in w && TellsOf(x, w, t)
    ensures forall t :: t in w ==> exists x :: x in full && TellsOf(x, w, t)
  {
    GroupsTellOfRequests(w);
    hide Groups, TellsOf;
    forall i, j | 0 <= i < j < |full| ensures Leads(full[i], full[j]) { assert Before(full[i], full[j]); }
  }

  /** The first of a full list, as many as the limit lets. */
  predicate IsCut(top: seq<Statistic>, full: seq<Statistic>, limit: int) {
    top == if limit > 0 && |full| > limit then full[..limit] else full
  }

  lemma CutLeads(top: seq<Statistic>, full: seq<Statistic>, limit: int)
    requires IsCut(top, full, limit) && forall i, j :: 0 <= i < j < |full| ==> Leads(full[i], full[j])
    ensures forall i, j :: 0 <= i < j < |top| ==> Leads(top[i], top[j])
    ensures forall x :: x in top ==> x in full
    ensures forall x :: x in full ==> x in top || (0 < limit == |top| && forall y :: y in top ==> Leads(y, x))
  {
    hide Leads;
    forall x | x in full && x !in top ensures 0 < limit == |top| && forall y :: y in top ==> Leads(y, x) {
      var j :| 0 <= j < |full| && full[j] == x;
    }
  }

  /** The list holds what tells of the requests, busiest first, and what the
      limit cuts off is led by all it holds. */
  lemma TopIsBusiest(w: seq<Trace>, limit: int, top: seq<Statistic>)
    requires NoClash(w) && VerbsHoldNoSpace(w) && Listed(top, Groups(w), limit)
    ensures forall x :: x in top ==> exists t :: t in w && TellsOf(x, w, t)
    ensures forall i, j :: 0 <= i < j < |top| ==> Leads(top[i], top[j])
    ensures forall t :: t in w ==> ListedOrCut(top, w, limit, t)
  {
    hide Groups, TellsOf, NoClash, VerbsHoldNoSpace, Leads, Ranks;
    var full :| Ranks(full, Groups(w)) && top == if limit > 0 && |full| > limit then full[..limit] else full;
    FullLeads(full, w);
    CutLeads(top, full, limit);
    forall t | t in w ensures ListedOrCut(top, w, limit, t) {
      var x :| x in full && TellsOf(x, w, t);
    }
  }

  // --------------------------------------------------------------------- hosts

  /** The host a trace goes by: the one asked for, or that of background work. */
  predicate GoesBy(t: Trace, h: string) {
    if t.http.Some? && t.http.value.host != "" then h == t.http.value.host else h == "internal"
  }

  function HostDurations(h: string): Trace -> int {
    (t: Trace) => if GoesBy(t, h) then t.duration else 0
  }

  function HostSpans(h: string): Trace -> int {
    (t: Trace) => if GoesBy(t, h) then t.spans else 0
  }

  ghost predicate HostTells(x: H.HostStat, w: seq<Trace>, requests: map<string, nat>) {
    && x.requests == (if x.host in requests then requests[x.host] else 0)
    && x.traces == |set i | 0 <= i < |w| && GoesBy(w[i], x.host)|
    && x.errors == |set i | 0 <= i < |w| && GoesBy(w[i], x.host) && (w[i].errorText != "" || w[i].state == R.Error)|
    && x.totalDuration == SumBy(w, HostDurations(x.host)) && x.spans == SumBy(w, HostSpans(x.host))
    && (forall t :: t in w && GoesBy(t, x.host) ==> t.duration <= x.maxDuration) && x.maxDuration >= 0
    && (x.maxDuration > 0 ==> exists t :: t in w && GoesBy(t, x.host) && t.duration == x.maxDuration)
    && x.routes == |set i | 0 <= i < |w| && GoesBy(w[i], x.host) :: EntryName(w[i])|
  }

  lemma GoesByHost(t: Trace, h: string)
    ensures GoesBy(t, h) <==> TraceHost(t) == h
  {
  }

  lemma HostCountTells(w: seq<Trace>, h: string)
    ensures SumBy(w, H.At(h, ONE)) == |set i | 0 <= i < |w| && GoesBy(w[i], h)|
  {
    hide GoesBy, TraceHost, SumBy;
    var p := (t: Trace) => GoesBy(t, h);
    forall t | t in w ensures H.At(h, ONE)(t) == if p(t) then 1 else 0 { GoesByHost(t, h); }
    SumIsSize(w, H.At(h, ONE), p);
    assert Places(w, p) == set i | 0 <= i < |w| && GoesBy(w[i], h);
  }

  lemma HostErrorsTell(w: seq<Trace>, h: string)
    ensures SumBy(w, H.At(h, FAILED))
            == |set i | 0 <= i < |w| && GoesBy(w[i], h) && (w[i].errorText != "" || w[i].state == R.Error)|
  {
    hide GoesBy, TraceHost, SumBy;
    var p := (t: Trace) => GoesBy(t, h) && (t.errorText != "" || t.state == R.Error);
    forall t | t in w ensures H.At(h, FAILED)(t) == if p(t) then 1 else 0 { GoesByHost(t, h); }
    SumIsSize(w, H.At(h, FAILED), p);
    assert Places(w, p)
        == set i | 0 <= i < |w| && GoesBy(w[i], h) && (w[i].errorText != "" || w[i].state == R.Error);
  }

  lemma HostSumsTell(w: seq<Trace>, h: string)
    ensures SumBy(w, H.At(h, DURATION)) == SumBy(w, HostDurations(h))
    ensures SumBy(w, H.At(h, SPANS)) == SumBy(w, HostSpans(h))
    ensures var m := MaxBy(w, H.At(h, DURATION));
            && (forall t :: t in w && GoesBy(t, h) ==> t.duration <= m) && m >= 0
            && (m > 0 ==> exists t :: t in w && GoesBy(t, h) && t.duration == m)
  {
    var f := H.At(h, DURATION);
    var m := MaxBy(w, f);
    hide GoesBy, TraceHost, MaxBy, SumBy;
    forall t ensures GoesBy(t, h) <==> TraceHost(t) == h { GoesByHost(t, h); }
    H.SameSum(w, f, HostDurations(h));
    H.SameSum(w, H.At(h, SPANS), HostSpans(h));
    MaxIsLargest(w, f);
    forall t | t in w && GoesBy(t, h) ensures t.duration <= m {
      var i :| 0 <= i < |w| && w[i] == t;
      assert f(w[i]) == t.duration;
    }
    if m > 0 {
      var i :| 0 <= i < |w| && f(w[i]) == m;
      assert w[i] in w && GoesBy(w[i], h);
    }
  }

  lemma HostRoutesTell(w: seq<Trace>, h: string)
    ensures H.RoutesOf(w, h) == set i | 0 <= i < |w| && GoesBy(w[i], h) :: EntryName(w[i])
  {
    forall t ensures GoesBy(t, h) <==> TraceHost(t) == h { GoesByHost(t, h); }
    assert forall t :: GroupKey(t).0 == EntryName(t);
    hide GoesBy, TraceHost, GroupKey, EntryName;
  }

  /** Before another on the list: more requests, then more traces, then the
      smaller host. */
  predicate HostLeads(x: H.HostStat, y: H.HostStat) {
    && x.requests >= y.requests
    && (x.requests == y.requests ==> x.traces >= y.traces)
    && (x.requests == y.requests && x.traces == y.traces ==> Less(x.host, y.host))
  }

  /** The list of hosts tells of the requests and of the traces, each host once,
      those of most requests first. */
  lemma HostsTellOfRequests(w: seq<Trace>, requests: map<string, nat>, out: seq<H.HostStat>)
    requires H.HostRanks(out, H.Hosts(w, requests))
    ensures forall i, j :: 0 <= i < j < |out| ==> HostLeads(out[i], out[j])
    ensures forall x :: x in out ==> HostTells(x, w, requests)
    ensures forall h :: (exists x :: x in out && x.host == h) <==> Seen(w, requests, h)
  {
    forall h ensures (exists x :: x in out && x.host == h) <==> Seen(w, requests, h) {
      HostSeen(w, requests, h);
      if exists x :: x in out && x.host == h {
        var x :| x in out && x.host == h;
        var k :| k in H.Hosts(w, requests) && H.Hosts(w, requests)[k] == x;
      }
      if Seen(w, requests, h) {
        assert H.Hosts(w, requests)[h] in out;
      }
    }
    forall i, j | 0 <= i < j < |out| ensures HostLeads(out[i], out[j]) { assert H.HostBefore(out[i], out[j]); }
    forall x | x in out ensures HostTells(x, w, requests) { HostTold(w, requests, x); }
  }

  /** Requests were counted for the host, or a trace goes by it. */
  ghost predicate Seen(w: seq<Trace>, requests: map<string, nat>, h: string) {
    h in requests || exists t :: t in w && GoesBy(t, h)
  }

  lemma HostSeen(w: seq<Trace>, requests: map<string, nat>, h: string)
    ensures h in H.Hosts(w, requests) <==> Seen(w, requests, h)
  {
    forall t ensures GoesBy(t, h) <==> TraceHost(t) == h { GoesByHost(t, h); }
    hide GoesBy, TraceHost;
    if t :| t in w && GoesBy(t, h) {
      var i :| 0 <= i < |w| && w[i] == t;
    }
  }

  lemma HostTold(w: seq<Trace>, requests: map<string, nat>, x: H.HostStat)
    requires x in H.Hosts(w, requests).Values
    ensures HostTells(x, w, requests)
  {
    HostCountTells(w, x.host);
    HostErrorsTell(w, x.host);
    HostSumsTell(w, x.host);
    HostRoutesTell(w, x.host);
    hide GoesBy, SumBy, MaxBy, EntryName, H.At, HostDurations, HostSpans;
  }
}
