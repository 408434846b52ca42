/** When the two aggregations of model/stats.go agree about hosts: over all
    orders of a window, exactly when its groups do not clash. */
module HostAgreement {
  import opened Statistics
  import opened HostStatistics

  // --------------------------------------------------------- in one window

  /** The host that the group of a trace goes by. */
  function GroupHost(w: seq<Trace>, t: Trace): string {
    if Key(t) in Keys(w) then First(w, Key(t)).1 else ""
  }

  /** A trace of the host whose group goes by another, and the other way round. */
  function Lost(w: seq<Trace>, h: string): Trace -> int {
    (t: Trace) => if TraceHost(t) == h && GroupHost(w, t) != h then 1 else 0
  }

  function Gained(w: seq<Trace>, h: string): Trace -> int {
    (t: Trace) => if TraceHost(t) != h && GroupHost(w, t) == h then 1 else 0
  }

  ghost predicate NoneIn(w: seq<Trace>, f: Trace -> int) {
    forall t :: t in w ==> f(t) == 0
  }

  lemma {:induction false} SumOfNone(w: seq<Trace>, f: Trace -> int)
    requires NoneIn(w, f)
    ensures SumBy(w, f) == 0
  {
    if w != [] {
      assert w == w[..|w| - 1] + [w[|w| - 1]];
      SumOfNone(w[..|w| - 1], f);
    }
  }

  lemma {:induction false} SumBalance(w: seq<Trace>, a: Trace -> int, b: Trace -> int, less: Trace -> int,
      more: Trace -> int)
    requires forall t :: t in w ==> a(t) == b(t) - less(t) + more(t)
    ensures SumBy(w, a) == SumBy(w, b) - SumBy(w, less) + SumBy(w, more)
  {
    if w != [] {
      assert w == w[..|w| - 1] + [w[|w| - 1]];
      SumBalance(w[..|w| - 1], a, b, less, more);
    }
  }

  lemma InKeys(w: seq<Trace>, t: Trace)
    requires t in w
    ensures Key(t) in Keys(w)
  {
    var i :| 0 <= i < |w| && w[i] == t;
    assert Key(w[i]) in Keys(w);
  }

  /** A trace's group is listed under the host it goes by, and no other. */
  lemma GroupListed(full: seq<Statistic>, w: seq<Trace>, h: string, t: Trace)
    requires Ranks(full, Groups(w)) && t in w
    ensures Key(t) in Groups(w) && Pair(Groups(w)[Key(t)]) == First(w, Key(t))
    ensures Groups(w)[Key(t)] in OfHost(full, h) <==> GroupHost(w, t) == h
    ensures Key(t) in KeysOf(OfHost(full, h)) <==> GroupHost(w, t) == h
  {
    InKeys(w, t);
    RankingIsEntries(full, w);
    var k := Key(t);
    var g, of := Groups(w)[k], OfHost(full, h);
    GroupGoesByKey(w, k);
    hide KeyText, First;
    assert g in Groups(w).Values && g in full;
    if g.host == h {
      var m :| 0 <= m < |of| && of[m] == g;
    }
    if k in KeysOf(of) {
      var m :| 0 <= m < |of| && KeyText(Pair(of[m])) == k;
      assert of[m] in of && of[m] in full;
      var n :| 0 <= n < |full| && full[n] == of[m];
      assert Entry(full[n], w);
      assert of[m] == g;
    }
  }

  /** The groups of a named host count its traces, but for those whose group
      goes by another host and those of other hosts in groups that go by it. */
  lemma HostTracesAreGroupCounts(full: seq<Statistic>, w: seq<Trace>, requests: map<string, nat>, h: string)
    requires Ranks(full, Groups(w)) && Named(h)
    ensures CountOf(OfHost(full, h))
            == StatAt(w, requests, h).traces - SumBy(w, Lost(w, h)) + SumBy(w, Gained(w, h))
  {
    RankingIsEntries(full, w);
    OfHostEntries(full, w, h);
    CountsAddUp(OfHost(full, h), w);
    var keys := KeysOf(OfHost(full, h));
    hide Ranks, Groups, Entries, KeysOf, SumBy, TraceHost, GroupHost, Key;
    forall t | t in w ensures Within(keys)(t) == At(h, ONE)(t) - Lost(w, h)(t) + Gained(w, h)(t) {
      GroupListed(full, w, h, t);
    }
    SumBalance(w, Within(keys), At(h, ONE), Lost(w, h), Gained(w, h));
  }

  function Names(s: seq<Statistic>): set<string> {
    set i | 0 <= i < |s| :: s[i].name
  }

  lemma {:induction false} NameCount(s: seq<Statistic>, h: string)
    requires forall i :: 0 <= i < |s| ==> s[i].host == h
    requires forall i, j :: 0 <= i < j < |s| ==> KeyText(Pair(s[i])) != KeyText(Pair(s[j]))
    ensures |Names(s)| == |s|
  {
    if s == [] {
      assert Names(s) == {};
    } else {
      var n := |s| - 1;
      NameCount(s[..n], h);
      assert Names(s) == Names(s[..n]) + {s[n].name};
      forall i | 0 <= i < n ensures s[i].name != s[n].name { assert KeyText(Pair(s[i])) != KeyText(Pair(s[n])); }
    }
  }

  lemma EntryHasRoute(x: Statistic, w: seq<Trace>, h: string)
    requires x.host == h && Named(h) && Entry(x, w)
    ensures x.name in RoutesOf(w, h)
  {
    var i :| 0 <= i < |w| && GroupKey(w[i]) == First(w, KeyText(Pair(x)));
    NamedHost(w[i], h);
  }

  /** A route whose trace is in a group of its own host has an entry. */
  lemma RouteHasEntry(full: seq<Statistic>, w: seq<Trace>, h: string, t: Trace)
    requires Ranks(full, Groups(w)) && Named(h) && t in w && TraceHost(t) == h
    ensures GroupKey(t).0 in Names(OfHost(full, h)) <==> GroupHost(w, t) == h
  {
    NamedHost(t, h);
    GroupListed(full, w, h, t);
    RankingIsEntries(full, w);
    var g, of := Groups(w)[Key(t)], OfHost(full, h);
    assert KeyText(First(w, Key(t))) == Key(t);
    if GroupHost(w, t) == h {
      SameName(First(w, Key(t)), GroupKey(t));
      var j :| 0 <= j < |of| && of[j] == g;
      assert of[j].name == GroupKey(t).0;
    }
    hide Ranks, Groups, Entries, KeyText, First;
    if GroupKey(t).0 in Names(of) {
      var j :| 0 <= j < |of| && of[j].name == GroupKey(t).0;
      assert of[j] in of;
      assert Pair(of[j]) == GroupKey(t);
      assert KeyText(Pair(of[j])) in KeysOf(of);
    }
  }

  lemma SameName(p: (string, string), q: (string, string))
    requires KeyText(p) == KeyText(q) && p.1 == q.1
    ensures p == q
  {
    assert KeyText(p)[|p.1| + 1..] == p.0 && KeyText(q)[|q.1| + 1..] == q.0;
  }

  lemma Fewer(a: set<string>, b: set<string>, x: string)
    requires a <= b && x in b && x !in a
    ensures |a| < |b|
  {
    assert b == a + (b - a) && x in b - a;
  }

  lemma NamesAreRoutes(full: seq<Statistic>, w: seq<Trace>, h: string)
    requires Ranks(full, Groups(w)) && Named(h)
    ensures Names(OfHost(full, h)) <= RoutesOf(w, h) && |Names(OfHost(full, h))| == |OfHost(full, h)|
  {
    RankingIsEntries(full, w);
    OfHostEntries(full, w, h);
    var of := OfHost(full, h);
    assert forall i :: 0 <= i < |of| ==> of[i] in of;
    hide Ranks, Groups, KeyText;
    NameCount(of, h);
    forall r | r in Names(of) ensures r in RoutesOf(w, h) {
      var j :| 0 <= j < |of| && of[j].name == r;
      EntryHasRoute(of[j], w, h);
    }
  }

  lemma RouteOfTrace(w: seq<Trace>, h: string, t: Trace)
    requires t in w && TraceHost(t) == h
    ensures GroupKey(t).0 in RoutesOf(w, h)
  {
    var i :| 0 <= i < |w| && w[i] == t;
    assert GroupKey(w[i]).0 in RoutesOf(w, h);
  }

  /** A named host has at least as many routes as groups, and as many exactly
      when no trace of it is in a group that goes by another host. */
  lemma HostRoutesAreGroups(full: seq<Statistic>, w: seq<Trace>, requests: map<string, nat>, h: string)
    requires Ranks(full, Groups(w)) && Named(h)
    ensures StatAt(w, requests, h).routes >= |OfHost(full, h)|
    ensures StatAt(w, requests, h).routes == |OfHost(full, h)| <==> NoneIn(w, Lost(w, h))
  {
    NamesAreRoutes(full, w, h);
    var names, routes := Names(OfHost(full, h)), RoutesOf(w, h);
    hide Ranks, Groups, Names, GroupHost, Key, TraceHost, GroupKey, OfHost, Named;
    if NoneIn(w, Lost(w, h)) {
      forall r | r in routes ensures r in names {
        var i :| 0 <= i < |w| && TraceHost(w[i]) == h && GroupKey(w[i]).0 == r;
        assert w[i] in w && Lost(w, h)(w[i]) == 0;
        RouteHasEntry(full, w, h, w[i]);
      }
      assert routes == names;
    } else {
      var t :| t in w && Lost(w, h)(t) != 0;
      RouteHasEntry(full, w, h, t);
      RouteOfTrace(w, h, t);
      Fewer(names, routes, GroupKey(t).0);
      assert |names| < |routes|;
    }
  }

  // ------------------------------------------------------- over all its orders

  /** Whatever the window's order, each named host's traces are the counts of
      its groups. */
  ghost predicate TracesAgree(w: seq<Trace>, requests: map<string, nat>) {
    forall v, full, h :: multiset(v) == multiset(w) && Ranks(full, Groups(v)) && Named(h) ==>
      StatAt(v, requests, h).traces == CountOf(OfHost(full, h))
  }

  /** Whatever the window's order, each named host's routes are the number of
      its groups. */
  ghost predicate RoutesAgree(w: seq<Trace>, requests: map<string, nat>) {
    forall v, full, h :: multiset(v) == multiset(w) && Ranks(full, Groups(v)) && Named(h) ==>
      StatAt(v, requests, h).routes == |OfHost(full, h)|
  }

  // ---------------------------------------------------- a host's traces last

  function AtHost(w: seq<Trace>, h: string): (r: seq<Trace>)
    ensures forall t :: t in r <==> t in w && TraceHost(t) == h
  {
    if w == [] then []
    else
      var n := |w| - 1;
      assert w == w[..n] + [w[n]];
      if TraceHost(w[n]) == h then AtHost(w[..n], h) + [w[n]] else AtHost(w[..n], h)
  }

  function Elsewhere(w: seq<Trace>, h: string): (r: seq<Trace>)
    ensures forall t :: t in r <==> t in w && TraceHost(t) != h
  {
    if w == [] then []
    else
      var n := |w| - 1;
      assert w == w[..n] + [w[n]];
      if TraceHost(w[n]) != h then Elsewhere(w[..n], h) + [w[n]] else Elsewhere(w[..n], h)
  }

  function HostLast(w: seq<Trace>, h: string): seq<Trace> {
    Elsewhere(w, h) + AtHost(w, h)
  }

  lemma {:induction false} HostLastPermutes(w: seq<Trace>, h: string)
    ensures multiset(HostLast(w, h)) == multiset(w)
  {
    if w != [] {
      var n := |w| - 1;
      assert w == w[..n] + [w[n]];
      HostLastPermutes(w[..n], h);
    }
  }

  lemma {:induction false} FirstOfFront(a: seq<Trace>, b: seq<Trace>, k: string)
    requires k in Keys(a)
    ensures k in Keys(a + b) && First(a + b, k) == First(a, k)
  {
    hide GroupKey, KeyText, First;
    if b == [] {
      assert a + b == a;
    } else {
      var n := |b| - 1;
      FirstOfFront(a, b[..n], k);
      assert a + b == (a + b[..n]) + [b[n]];
      FirstSnoc(a + b[..n], b[n], k);
    }
  }

  /** With the host last, the traces of other hosts name their own groups. */
  lemma OtherHostsFirst(w: seq<Trace>, h: string, t: Trace)
    requires Named(h) && t in w && TraceHost(t) != h
    ensures Key(t) in Keys(HostLast(w, h)) && GroupHost(HostLast(w, h), t) != h
  {
    var a := Elsewhere(w, h);
    InKeys(a, t);
    FirstOfFront(a, AtHost(w, h), Key(t));
    FirstIsOf(a, Key(t), h);
  }

  lemma FirstIsOf(a: seq<Trace>, k: string, h: string)
    requires k in Keys(a) && Named(h) && forall t :: t in a ==> TraceHost(t) != h
    ensures First(a, k).1 != h
  {
    var i :| 0 <= i < |a| && GroupKey(a[i]) == First(a, k);
    assert a[i] in a;
    NamedHost(a[i], h);
  }

  /** Two traces of different groups with one key: the longer host of the two
      holds a NUL, so both aggregations name it. */
  lemma ClashIsNamed(t: Trace, u: Trace)
    requires Key(t) == Key(u) && GroupKey(t) != GroupKey(u) && |GroupKey(t).1| >= |GroupKey(u).1|
    ensures Named(GroupKey(t).1) && GroupKey(u).1 != GroupKey(t).1
  {
    var p, q := GroupKey(t), GroupKey(u);
    var x := KeyText(p);
    assert x[..|p.1|] == p.1 && x[|p.1| + 1..] == p.0;
    assert KeyText(q)[..|q.1|] == q.1 && KeyText(q)[|q.1| + 1..] == q.0;
    assert KeyText(q)[|q.1|] == '\0';
    if |p.1| > |q.1| {
      assert p.1[|q.1|] == x[|q.1|] == '\0';
    }
  }

  lemma {:induction false} SumPositive(w: seq<Trace>, f: Trace -> int, t: Trace)
    requires t in w && f(t) > 0 && forall u :: u in w ==> f(u) >= 0
    ensures SumBy(w, f) > 0
  {
    var n := |w| - 1;
    assert w == w[..n] + [w[n]];
    if t in w[..n] { SumPositive(w[..n], f, t); } else { SumNotNegative(w[..n], f); }
  }

  lemma {:induction false} SumNotNegative(w: seq<Trace>, f: Trace -> int)
    requires forall u :: u in w ==> f(u) >= 0
    ensures SumBy(w, f) >= 0
  {
    if w != [] {
      var n := |w| - 1;
      assert w == w[..n] + [w[n]];
      SumNotNegative(w[..n], f);
    }
  }

  /** With the longer host of a clash last, it loses a trace and gains none. */
  lemma ClashLoses(w: seq<Trace>, t: Trace, u: Trace)
    requires t in w && u in w && Key(t) == Key(u) && GroupKey(t) != GroupKey(u)
    requires |GroupKey(t).1| >= |GroupKey(u).1|
    ensures var h := GroupKey(t).1; var v := HostLast(w, h);
            Named(h) && t in v && Lost(v, h)(t) == 1 && NoneIn(v, Gained(v, h))
  {
    var h := GroupKey(t).1;
    ClashIsNamed(t, u);
    NamedHost(t, h);
    NamedHost(u, h);
    var v := HostLast(w, h);
    forall s | s in v && TraceHost(s) != h ensures GroupHost(v, s) != h { OtherHostsFirst(w, h, s); }
    OtherHostsFirst(w, h, u);
  }

  /** So the host has more traces than its groups count, and more routes than
      it has groups. */
  lemma ClashBreaksAgreement(w: seq<Trace>, requests: map<string, nat>, t: Trace, u: Trace, full: seq<Statistic>)
    requires t in w && u in w && Key(t) == Key(u) && GroupKey(t) != GroupKey(u)
    requires |GroupKey(t).1| >= |GroupKey(u).1|
    requires var h := GroupKey(t).1; Ranks(full, Groups(HostLast(w, h)))
    ensures var h := GroupKey(t).1;
            && StatAt(HostLast(w, h), requests, h).traces > CountOf(OfHost(full, h))
            && StatAt(HostLast(w, h), requests, h).routes > |OfHost(full, h)|
  {
    var h := GroupKey(t).1;
    var v := HostLast(w, h);
    ClashLoses(w, t, u);
    hide Ranks, Groups, HostLast, GroupKey, Key, StatAt, Named;
    SumPositive(v, Lost(v, h), t);
    SumOfNone(v, Gained(v, h));
    HostTracesAreGroupCounts(full, v, requests, h);
    HostRoutesAreGroups(full, v, requests, h);
  }

  // --------------------------------------------------------------- the result

  /** Without clashes every trace is in a group of its own host. */
  lemma NoClashNoLoss(v: seq<Trace>, h: string)
    requires NoClash(v) && Named(h)
    ensures NoneIn(v, Lost(v, h)) && NoneIn(v, Gained(v, h))
  {
    forall t | t in v ensures TraceHost(t) == h <==> GroupHost(v, t) == h {
      NamedHost(t, h);
      InKeys(v, t);
      var j :| 0 <= j < |v| && GroupKey(v[j]) == First(v, Key(t));
      assert KeyText(First(v, Key(t))) == Key(t);
      assert v[j] in v && Key(v[j]) == Key(t);
    }
  }

  lemma Agree(w: seq<Trace>, requests: map<string, nat>)
    requires NoClash(w)
    ensures TracesAgree(w, requests) && RoutesAgree(w, requests)
  {
    forall v, full, h | multiset(v) == multiset(w) && Ranks(full, Groups(v)) && Named(h)
      ensures StatAt(v, requests, h).traces == CountOf(OfHost(full, h))
      ensures StatAt(v, requests, h).routes == |OfHost(full, h)|
    {
      SameMembers(v, w);
      NoClashNoLoss(v, h);
      hide Ranks, Groups, NoClash, StatAt;
      SumOfNone(v, Lost(v, h));
      SumOfNone(v, Gained(v, h));
      HostTracesAreGroupCounts(full, v, requests, h);
      HostRoutesAreGroups(full, v, requests, h);
    }
  }

  lemma Disagree(w: seq<Trace>, requests: map<string, nat>, t: Trace, u: Trace)
    requires t in w && u in w && Key(t) == Key(u) && GroupKey(t) != GroupKey(u)
    requires |GroupKey(t).1| >= |GroupKey(u).1|
    ensures !TracesAgree(w, requests) && !RoutesAgree(w, requests)
  {
    var h := GroupKey(t).1;
    ClashIsNamed(t, u);
    HostLastPermutes(w, h);
    var full := RankingExists(HostLast(w, h));
    ClashBreaksAgreement(w, requests, t, u, full);
  }

  /** Over all orders of the window and all named hosts the two aggregations
      agree, on traces as on routes, exactly when no two groups share a key. */
  lemma AgreementIffNoClash(w: seq<Trace>, requests: map<string, nat>)
    ensures TracesAgree(w, requests) <==> NoClash(w)
    ensures RoutesAgree(w, requests) <==> NoClash(w)
  {
    if NoClash(w) {
      Agree(w, requests);
    } else {
      var t, u :| t in w && u in w && Key(t) == Key(u) && GroupKey(t) != GroupKey(u);
      if |GroupKey(t).1| >= |GroupKey(u).1| { Disagree(w, requests, t, u); } else { Disagree(w, requests, u, t); }
    }
  }
}
