/** The second aggregation of model/stats.go: by host alone, with the lifetime
    request counts folded in; and what the two aggregations have in common. */
module HostStatistics {
  import opened Order
  import opened Ranking
  import opened Statistics

  datatype HostStat = HostStat(host: string, requests: nat, traces: int, errors: int, totalDuration: int,
                               maxDuration: int, spans: int, routes: int)

  /** A measure of the traces of one host, zero elsewhere. */
  function At(h: string, f: Trace -> int): Trace -> int {
    (t: Trace) => if TraceHost(t) == h then f(t) else 0
  }

  function HostsOf(w: seq<Trace>): set<string> {
    set i | 0 <= i < |w| :: TraceHost(w[i])
  }

  /** The routes a host was asked for. */
  function RoutesOf(w: seq<Trace>, h: string): set<string> {
    set i | 0 <= i < |w| && TraceHost(w[i]) == h :: GroupKey(w[i]).0
  }

  function StatAt(w: seq<Trace>, requests: map<string, nat>, h: string): HostStat {
    HostStat(h, if h in requests then requests[h] else 0, SumBy(w, At(h, ONE)), SumBy(w, At(h, FAILED)),
             SumBy(w, At(h, DURATION)), MaxBy(w, At(h, DURATION)), SumBy(w, At(h, SPANS)), |RoutesOf(w, h)|)
  }

  /** Hosts of the window, and those only requests were seen of. */
  function Hosts(w: seq<Trace>, requests: map<string, nat>): map<string, HostStat> {
    map h | h in requests.Keys + HostsOf(w) :: StatAt(w, requests, h)
  }

  predicate HostBefore(a: HostStat, b: HostStat) {
    if a.requests != b.requests then a.requests > b.requests
    else if a.traces != b.traces then a.traces > b.traces
    else Less(a.host, b.host)
  }

  lemma HostBeforeIsStrict()
    ensures StrictOrder(HostBefore)
  {
    LessIsStrict();
    forall a, b, c ensures !HostBefore(a, a) && (HostBefore(a, b) && HostBefore(b, c) ==> HostBefore(a, c)) {
      assert !Less(a.host, a.host);
      assert Less(a.host, b.host) && Less(b.host, c.host) ==> Less(a.host, c.host);
    }
  }

  ghost predicate HostRanks(s: seq<HostStat>, hosts: map<string, HostStat>) {
    InOrder(HostBefore, s) && forall x :: x in s <==> x in hosts.Values
  }

  /** The host list depends neither on the order of the window nor on the order
      in which either map is visited. */
  lemma HostStatisticsPermute(w: seq<Trace>, v: seq<Trace>, requests: map<string, nat>, a: seq<HostStat>,
      b: seq<HostStat>)
    requires multiset(w) == multiset(v) && HostRanks(a, Hosts(w, requests)) && HostRanks(b, Hosts(v, requests))
    ensures a == b
  {
    HostsPermute(w, v, requests);
    HostBeforeIsStrict();
    InOrderUnique(HostBefore, a, b);
  }

  lemma HostsPermute(w: seq<Trace>, v: seq<Trace>, requests: map<string, nat>)
    requires multiset(w) == multiset(v)
    ensures Hosts(w, requests) == Hosts(v, requests)
  {
    SameMembers(w, v);
    SubsetHosts(w, v);
    SubsetHosts(v, w);
    forall h ensures StatAt(w, requests, h) == StatAt(v, requests, h) {
      SumPermutes(w, v, At(h, ONE));
      SumPermutes(w, v, At(h, FAILED));
      SumPermutes(w, v, At(h, DURATION));
      MaxPermutes(w, v, At(h, DURATION));
      SumPermutes(w, v, At(h, SPANS));
      SubsetRoutes(w, v, h);
      SubsetRoutes(v, w, h);
      assert RoutesOf(w, h) == RoutesOf(v, h);
    }
  }

  lemma SubsetHosts(w: seq<Trace>, v: seq<Trace>)
    requires forall t :: t in w ==> t in v
    ensures HostsOf(w) <= HostsOf(v)
  {
    forall h | h in HostsOf(w) ensures h in HostsOf(v) {
      var i :| 0 <= i < |w| && TraceHost(w[i]) == h;
      assert w[i] in v;
    }
  }

  lemma SubsetRoutes(w: seq<Trace>, v: seq<Trace>, h: string)
    requires forall t :: t in w ==> t in v
    ensures RoutesOf(w, h) <= RoutesOf(v, h)
  {
    forall r | r in RoutesOf(w, h) ensures r in RoutesOf(v, h) {
      var i :| 0 <= i < |w| && TraceHost(w[i]) == h && GroupKey(w[i]).0 == r;
      assert w[i] in v;
    }
  }

  /** A listed host's average duration never exceeds its maximum either. */
  lemma AverageOfHost(w: seq<Trace>, requests: map<string, nat>, h: string)
    ensures var s := StatAt(w, requests, h); s.traces > 0 ==> Quotient(s.totalDuration, s.traces) <= s.maxDuration
  {
    hide SumBy, MaxBy, TraceHost, Quotient;
    CountPositive(w, At(h, ONE), At(h, DURATION));
    MaxIsLargest(w, At(h, DURATION));
    SumAtMostCountTimesMax(w, At(h, ONE), At(h, DURATION));
    if SumBy(w, At(h, ONE)) > 0 {
      AverageAtMostMaximum(SumBy(w, At(h, DURATION)), SumBy(w, At(h, ONE)), MaxBy(w, At(h, DURATION)));
    }
  }

  // ------------------------------------------------------- the two agree

  /** The entries of one host. */
  function OfHost(s: seq<Statistic>, h: string): (r: seq<Statistic>)
    ensures forall x :: x in r <==> x in s && x.host == h
  {
    if s == [] then []
    else
      var n := |s| - 1;
      assert s == s[..n] + [s[n]];
      if s[n].host == h then OfHost(s[..n], h) + [s[n]] else OfHost(s[..n], h)
  }

  function CountOf(s: seq<Statistic>): int {
    if s == [] then 0 else CountOf(s[..|s| - 1]) + s[|s| - 1].count
  }

  /** The traces whose key is one of a set. */
  function Within(keys: set<string>): Trace -> int {
    (t: Trace) => if Key(t) in keys then 1 else 0
  }

  ghost function KeysOf(s: seq<Statistic>): set<string> {
    set i | 0 <= i < |s| :: KeyText(Pair(s[i]))
  }

  ghost predicate Entry(x: Statistic, w: seq<Trace>) {
    KeyText(Pair(x)) in Keys(w) && x == StatOf(w, KeyText(Pair(x)))
  }

  /** Different entries of groups of a window. */
  ghost predicate Entries(s: seq<Statistic>, w: seq<Trace>) {
    && (forall i :: 0 <= i < |s| ==> Entry(s[i], w))
    && (forall i, j :: 0 <= i < j < |s| ==> KeyText(Pair(s[i])) != KeyText(Pair(s[j])))
  }

  lemma {:induction false} WithinOneMore(w: seq<Trace>, keys: set<string>, k: string)
    requires k !in keys
    ensures SumBy(w, Within(keys + {k})) == SumBy(w, Within(keys)) + SumBy(w, In(k, ONE))
  {
    if w != [] { WithinOneMore(w[..|w| - 1], keys, k); }
  }

  lemma {:induction false} WithinNone(w: seq<Trace>)
    ensures SumBy(w, Within({})) == 0
  {
    if w != [] { WithinNone(w[..|w| - 1]); }
  }

  lemma LastEntry(s: seq<Statistic>, w: seq<Trace>)
    requires Entries(s, w) && s != []
    ensures var n := |s| - 1; var k := KeyText(Pair(s[n]));
            && Entries(s[..n], w) && k !in KeysOf(s[..n]) && KeysOf(s) == KeysOf(s[..n]) + {k}
            && s[n].count == SumBy(w, In(k, ONE))
  {
    assert Entry(s[|s| - 1], w);
  }

  /** The counts of some groups add up to the traces that are in one of them. */
  lemma {:induction false} CountsAddUp(s: seq<Statistic>, w: seq<Trace>)
    requires Entries(s, w)
    ensures CountOf(s) == SumBy(w, Within(KeysOf(s)))
  {
    if s == [] {
      assert KeysOf(s) == {};
      WithinNone(w);
    } else {
      var n := |s| - 1;
      LastEntry(s, w);
      CountsAddUp(s[..n], w);
      WithinOneMore(w, KeysOf(s[..n]), KeyText(Pair(s[n])));
    }
  }

  lemma {:induction false} SameSum(w: seq<Trace>, f: Trace -> int, g: Trace -> int)
    requires forall t :: t in w ==> f(t) == g(t)
    ensures SumBy(w, f) == SumBy(w, g)
  {
    if w != [] {
      assert w == w[..|w| - 1] + [w[|w| - 1]];
      SameSum(w[..|w| - 1], f, g);
    }
  }

  lemma {:induction false} SumOfOnes(w: seq<Trace>)
    ensures SumBy(w, ONE) == |w|
  {
    if w != [] { SumOfOnes(w[..|w| - 1]); }
  }

  lemma RankingIsEntries(full: seq<Statistic>, w: seq<Trace>)
    requires Ranks(full, Groups(w))
    ensures Entries(full, w) && KeysOf(full) == Keys(w)
  {
    forall i | 0 <= i < |full| ensures Entry(full[i], w) {
      assert full[i] in full;
      var k :| k in Groups(w) && Groups(w)[k] == full[i];
      GroupGoesByKey(w, k);
    }
    forall i, j | 0 <= i < j < |full| ensures KeyText(Pair(full[i])) != KeyText(Pair(full[j])) {
      BeforeIsStrict();
      assert Before(full[i], full[j]);
      assert !Before(full[i], full[i]);
    }
    forall k | k in Keys(w) ensures k in KeysOf(full) {
      GroupGoesByKey(w, k);
      assert Groups(w)[k] in Groups(w).Values;
      var i :| 0 <= i < |full| && full[i] == Groups(w)[k];
      assert KeyText(Pair(full[i])) == k;
    }
  }

  /** Uncut, the counts of the groups sum to the size of the window. */
  lemma CountsSumToWindow(full: seq<Statistic>, w: seq<Trace>)
    requires Ranks(full, Groups(w))
    ensures CountOf(full) == |w|
  {
    RankingIsEntries(full, w);
    CountsAddUp(full, w);
    forall t | t in w ensures Within(Keys(w))(t) == ONE(t) {
      var i :| 0 <= i < |w| && w[i] == t;
      assert Key(w[i]) in Keys(w);
    }
    SameSum(w, Within(Keys(w)), ONE);
    SumOfOnes(w);
  }

  /** A host both aggregations name: not one that stands for having none. */
  predicate Named(h: string) {
    h != "" && h != BACKGROUND_HOST
  }

  lemma NamedHost(t: Trace, h: string)
    requires Named(h)
    ensures TraceHost(t) == h <==> GroupKey(t).1 == h
  {
  }

  lemma {:induction false} OfHostEntries(s: seq<Statistic>, w: seq<Trace>, h: string)
    requires Entries(s, w)
    ensures Entries(OfHost(s, h), w)
  {
    hide KeyText, Pair, Entry;
    if s != [] {
      var n := |s| - 1;
      OfHostEntries(s[..n], w, h);
      var front := OfHost(s[..n], h);
      forall i | 0 <= i < |front| ensures KeyText(Pair(front[i])) != KeyText(Pair(s[n])) {
        assert front[i] in front && front[i] in s[..n];
      }
    }
  }

  // -------------------------------------------------------------- the method

  /** What the two maps hold after some of the window. */
  ghost predicate Tallied(grouped: map<string, HostStat>, routes: map<string, set<string>>, w: seq<Trace>,
      requests: map<string, nat>) {
    && grouped.Keys == routes.Keys == requests.Keys + HostsOf(w)
    && (forall h :: h in grouped ==> grouped[h] == StatAt(w, requests, h).(routes := 0))
    && (forall h :: h in routes ==> routes[h] == RoutesOf(w, h))
  }

  function Zero(h: string): HostStat {
    HostStat(h, 0, 0, 0, 0, 0, 0, 0)
  }

  lemma NothingAt(requests: map<string, nat>, h: string)
    ensures StatAt([], requests, h) == Zero(h).(requests := if h in requests then requests[h] else 0)
    ensures RoutesOf([], h) == {} && HostsOf([]) == {}
  {
  }

  /** The first loop: every host requests were seen of. */
  method FromRequests(requests: map<string, nat>)
      returns (grouped: map<string, HostStat>, routes: map<string, set<string>>)
    ensures Tallied(grouped, routes, [], requests)
  {
    hide StatAt, RoutesOf, HostsOf, Tallied;
    grouped, routes := map[], map[];
    var todo := requests.Keys;
    while todo != {}
      invariant todo <= requests.Keys && grouped.Keys == routes.Keys == requests.Keys - todo
      invariant forall h :: h in grouped ==> grouped[h] == Zero(h).(requests := requests[h])
      invariant forall h :: h in routes ==> routes[h] == {}
      decreases todo
    {
      var name :| name in todo;
      grouped := grouped[name := Zero(name).(requests := requests[name])];
      routes := routes[name := {}];
      todo := todo - {name};
    }
    assert requests.Keys - todo == requests.Keys;
    TalliedFromNothing(grouped, routes, requests);
  }

  lemma TalliedFromNothing(grouped: map<string, HostStat>, routes: map<string, set<string>>, requests: map<string, nat>)
    requires grouped.Keys == routes.Keys == requests.Keys
    requires forall h :: h in grouped ==> grouped[h] == Zero(h).(requests := requests[h])
    requires forall h :: h in routes ==> routes[h] == {}
    ensures Tallied(grouped, routes, [], requests)
  {
    hide StatAt, RoutesOf, HostsOf;
    NothingAt(requests, "");
    assert requests.Keys + HostsOf([]) == requests.Keys;
    forall h | h in grouped
        ensures grouped[h] == StatAt([], requests, h).(routes := 0) && routes[h] == RoutesOf([], h) {
      NothingAt(requests, h);
    }
  }

  function AddTrace(s: HostStat, t: Trace): HostStat {
    s.(traces := s.traces + 1, errors := s.errors + FAILED(t), totalDuration := s.totalDuration + t.duration,
       spans := s.spans + t.spans, maxDuration := if t.duration > s.maxDuration then t.duration else s.maxDuration)
  }

  lemma {:induction false} NothingOf(w: seq<Trace>, h: string, f: Trace -> int)
    requires h !in HostsOf(w)
    ensures SumBy(w, At(h, f)) == 0 && MaxBy(w, At(h, f)) == 0
  {
    if w != [] {
      var n := |w| - 1;
      assert TraceHost(w[n]) in HostsOf(w);
      assert HostsOf(w[..n]) <= HostsOf(w) by { assert forall i :: 0 <= i < n ==> w[..n][i] == w[i]; }
      NothingOf(w[..n], h, f);
    }
  }

  lemma SetsSnoc(w: seq<Trace>, t: Trace, h: string)
    ensures HostsOf(w + [t]) == HostsOf(w) + {TraceHost(t)}
    ensures RoutesOf(w + [t], h) == RoutesOf(w, h) + if TraceHost(t) == h then {GroupKey(t).0} else {}
  {
    var v := w + [t];
    assert v[|w|] == t && forall i :: 0 <= i < |w| ==> v[i] == w[i];
  }

  lemma StatAtSnoc(w: seq<Trace>, t: Trace, requests: map<string, nat>, h: string)
    ensures StatAt(w + [t], requests, h).(routes := 0)
            == if TraceHost(t) == h then AddTrace(StatAt(w, requests, h).(routes := 0), t)
               else StatAt(w, requests, h).(routes := 0)
  {
    assert (w + [t])[..|w|] == w;
  }

  lemma NewHost(w: seq<Trace>, requests: map<string, nat>, h: string)
    requires h !in HostsOf(w) && h !in requests
    ensures StatAt(w, requests, h).(routes := 0) == Zero(h) && RoutesOf(w, h) == {}
  {
    NothingOf(w, h, ONE);
    NothingOf(w, h, FAILED);
    NothingOf(w, h, DURATION);
    NothingOf(w, h, SPANS);
    forall i | 0 <= i < |w| ensures TraceHost(w[i]) != h { assert TraceHost(w[i]) in HostsOf(w); }
  }

  /** What one host's entries are after a trace more. */
  lemma TalliedSnocAt(grouped: map<string, HostStat>, routes: map<string, set<string>>, w: seq<Trace>, t: Trace,
                      requests: map<string, nat>, h: string)
    requires Tallied(grouped, routes, w, requests)
    requires h in grouped || h == TraceHost(t)
    ensures var stat := if h in grouped then grouped[h] else Zero(h);
            StatAt(w + [t], requests, h).(routes := 0) == if h == TraceHost(t) then AddTrace(stat, t) else stat
    ensures var seen := if h in routes then routes[h] else {};
            RoutesOf(w + [t], h) == if h == TraceHost(t) then seen + {GroupKey(t).0} else seen
  {
    hide StatAt, RoutesOf, HostsOf, TraceHost, GroupKey;
    StatAtSnoc(w, t, requests, h);
    SetsSnoc(w, t, h);
    if h !in grouped { NewHost(w, requests, h); }
  }

  lemma TalliedSnoc(grouped: map<string, HostStat>, routes: map<string, set<string>>, w: seq<Trace>, t: Trace,
                    requests: map<string, nat>, grouped': map<string, HostStat>, routes': map<string, set<string>>)
    requires Tallied(grouped, routes, w, requests)
    requires var name := TraceHost(t);
             && grouped' == grouped[name := AddTrace(if name in grouped then grouped[name] else Zero(name), t)]
             && routes' == routes[name := (if name in routes then routes[name] else {}) + {GroupKey(t).0}]
    ensures Tallied(grouped', routes', w + [t], requests)
  {
    hide StatAt, RoutesOf, HostsOf, TraceHost, GroupKey, AddTrace, Zero;
    var name := TraceHost(t);
    SetsSnoc(w, t, name);
    assert grouped'.Keys == grouped.Keys + {name} && routes'.Keys == routes.Keys + {name};
    assert requests.Keys + HostsOf(w + [t]) == requests.Keys + HostsOf(w) + {name};
    forall h | h in grouped'
        ensures grouped'[h] == StatAt(w + [t], requests, h).(routes := 0) && routes'[h] == RoutesOf(w + [t], h) {
      TalliedSnocAt(grouped, routes, w, t, requests, h);
    }
  }

  /** One round of the second loop. */
  method AddOne(grouped: map<string, HostStat>, routes: map<string, set<string>>, ghost w: seq<Trace>, t: Trace,
      ghost requests: map<string, nat>)
    returns (grouped': map<string, HostStat>, routes': map<string, set<string>>)
    requires Tallied(grouped, routes, w, requests)
    ensures Tallied(grouped', routes', w + [t], requests)
  {
    hide StatAt, RoutesOf, HostsOf, TraceHost, GroupKey, AddTrace, Zero;
    var name := TraceHost(t);
    var stat := if name in grouped then grouped[name] else Zero(name);
    var seen := if name in grouped then routes[name] else {};
    grouped' := grouped[name := AddTrace(stat, t)];
    routes' := routes[name := seen + {GroupKey(t).0}];
    TalliedSnoc(grouped, routes, w, t, requests, grouped', routes');
  }

  /** hostStatistics: the ranking of the hosts. */
  method HostList(w: seq<Trace>, requests: map<string, nat>) returns (out: seq<HostStat>)
    ensures HostRanks(out, Hosts(w, requests))
  {
    out := [];
    var grouped, routes := FromRequests(requests);
    var i := 0;
    while i < |w|
      invariant 0 <= i <= |w|
      invariant Tallied(grouped, routes, w[..i], requests)
    {
      assert w[..i + 1] == w[..i] + [w[i]];
      grouped, routes := AddOne(grouped, routes, w[..i], w[i], requests);
      i := i + 1;
    }
    assert w[..i] == w;
    out := Gather(grouped, routes, w, requests);
    HostBeforeIsStrict();
    SortRanks(HostBefore, out);
    out := Sort(HostBefore, out);
  }

  lemma TalliedHost(grouped: map<string, HostStat>, routes: map<string, set<string>>, w: seq<Trace>,
      requests: map<string, nat>, h: string)
    requires Tallied(grouped, routes, w, requests)
    ensures h in grouped <==> h in Hosts(w, requests)
    ensures h in grouped ==>
      && h in routes && Hosts(w, requests)[h] == grouped[h].(routes := |routes[h]|)
      && Hosts(w, requests)[h].host == h
  {
    hide RoutesOf, HostsOf;
  }

  /** The entries of some hosts, each once. */
  ghost predicate Listed(all: seq<HostStat>, hosts: map<string, HostStat>, done: set<string>) {
    && (forall a :: 0 <= a < |all| ==> all[a].host in done && all[a].host in hosts && all[a] == hosts[all[a].host])
    && (forall h :: h in done ==> h in hosts && hosts[h] in all)
    && (forall a, b :: 0 <= a < b < |all| ==> all[a].host != all[b].host)
  }

  lemma ListedAll(all: seq<HostStat>, hosts: map<string, HostStat>)
    requires Listed(all, hosts, hosts.Keys)
    ensures Decided(HostBefore, all) && forall x :: x in all <==> x in hosts.Values
  {
    hide Less;
    forall a, b | 0 <= a < b < |all| ensures HostBefore(all[a], all[b]) || HostBefore(all[b], all[a]) {
      LessTotal(all[a].host, all[b].host);
    }
    forall x | x in hosts.Values ensures x in all {
      var h :| h in hosts && hosts[h] == x;
    }
  }

  /** The third loop visits the map in any order. */
  method Gather(grouped: map<string, HostStat>, routes: map<string, set<string>>, ghost w: seq<Trace>,
      ghost requests: map<string, nat>)
    returns (all: seq<HostStat>)
    requires Tallied(grouped, routes, w, requests)
    ensures Decided(HostBefore, all) && forall x :: x in all <==> x in Hosts(w, requests).Values
  {
    hide Tallied, Hosts, HostBefore, Decided;
    all := [];
    var todo := grouped.Keys;
    ghost var hosts := Hosts(w, requests);
    forall h ensures (h in grouped <==> h in hosts)
        && (h in grouped ==> h in routes && hosts[h] == grouped[h].(routes := |routes[h]|) && hosts[h].host == h) {
      TalliedHost(grouped, routes, w, requests, h);
    }
    while todo != {}
      invariant todo <= grouped.Keys && Listed(all, hosts, grouped.Keys - todo)
      decreases todo
    {
      var name :| name in todo;
      var stat := grouped[name].(routes := |routes[name]|);
      assert grouped.Keys - (todo - {name}) == (grouped.Keys - todo) + {name};
      assert (all + [stat])[|all|] == stat;
      all := all + [stat];
      todo := todo - {name};
    }
    assert grouped.Keys - todo == hosts.Keys;
    ListedAll(all, hosts);
  }
}
