/** The rolling window's statistics (model/stats.go): completed traces grouped
    by host and route, and again by host alone. */
module Statistics {
  import opened Arithmetic
  import opened Options
  import opened Order
  import opened Ranking
  import opened Requests
  import R = Recording

  /** What the statistics read of a completed trace. */
  datatype Trace = Trace(name: string, state: R.State, errorText: string, duration: int, http: Option<Http>,
                         memory: nat, spans: nat)

  const BACKGROUND_HOST := "internal"

  /** The group of a trace: its name or routed pattern, and its host. */
  function GroupKey(t: Trace): (string, string) {
    match t.http
    case None => (t.name, "")
    case Some(h) => if h.route != "" then (h.verb + " " + h.route, h.host) else (t.name, h.host)
  }

  function TraceHost(t: Trace): string {
    if t.http.None? || t.http.value.host == "" then BACKGROUND_HOST else t.http.value.host
  }

  /** The text two traces of one group share: host, a NUL, name. */
  function KeyText(pair: (string, string)): string {
    pair.1 + "\0" + pair.0
  }

  function Key(t: Trace): string {
    KeyText(GroupKey(t))
  }

  // ------------------------------------------------------------ aggregation

  function SumBy(w: seq<Trace>, f: Trace -> int): int {
    if w == [] then 0 else SumBy(w[..|w| - 1], f) + f(w[|w| - 1])
  }

  /** The largest value, and never less than zero. */
  function MaxBy(w: seq<Trace>, f: Trace -> int): (m: int)
    ensures m >= 0
  {
    if w == [] then 0
    else
      var m, last := MaxBy(w[..|w| - 1], f), f(w[|w| - 1]);
      if last > m then last else m
  }

  lemma {:induction false} MaxIsLargest(w: seq<Trace>, f: Trace -> int)
    ensures MaxBy(w, f) >= 0 && forall i :: 0 <= i < |w| ==> f(w[i]) <= MaxBy(w, f)
    ensures MaxBy(w, f) > 0 ==> exists i :: 0 <= i < |w| && f(w[i]) == MaxBy(w, f)
  {
    if w != [] {
      var n := |w| - 1;
      MaxIsLargest(w[..n], f);
      assert forall i :: 0 <= i < n ==> w[..n][i] == w[i];
    }
  }

  lemma {:induction false} SumConcat(a: seq<Trace>, b: seq<Trace>, f: Trace -> int)
    ensures SumBy(a + b, f) == SumBy(a, f) + SumBy(b, f)
  {
    if b == [] {
      assert a + b == a;
    } else {
      assert (a + b)[..|a + b| - 1] == a + b[..|b| - 1];
      SumConcat(a, b[..|b| - 1], f);
    }
  }

  lemma SumSnoc(a: seq<Trace>, t: Trace, f: Trace -> int)
    ensures SumBy(a + [t], f) == SumBy(a, f) + f(t)
  {
    assert (a + [t])[..|a|] == a;
  }

  lemma SumTakeOut(v: seq<Trace>, i: nat, f: Trace -> int)
    requires i < |v|
    ensures SumBy(v, f) == SumBy(v[..i] + v[i + 1..], f) + f(v[i])
  {
    hide SumBy;
    var a, b := v[..i], v[i + 1..];
    SumSnoc(a, v[i], f);
    SumConcat(a + [v[i]], b, f);
    SumConcat(a, b, f);
    assert v == (a + [v[i]]) + b;
  }

  lemma TakeOut(w: seq<Trace>, v: seq<Trace>) returns (i: nat)
    requires multiset(w) == multiset(v) && w != []
    ensures i < |v| && v[i] == w[|w| - 1] && multiset(w[..|w| - 1]) == multiset(v[..i] + v[i + 1..])
  {
    var n := |w| - 1;
    assert w == w[..n] + [w[n]];
    assert w[n] in multiset(v);
    i :| 0 <= i < |v| && v[i] == w[n];
    assert v == v[..i] + [v[i]] + v[i + 1..];
    assert multiset(v[..i] + v[i + 1..]) == multiset(v) - multiset{v[i]};
    assert multiset(w[..n]) == multiset(w) - multiset{w[n]};
  }

  /** Sums and maxima do not depend on the order of the window. */
  lemma {:induction false} SumPermutes(w: seq<Trace>, v: seq<Trace>, f: Trace -> int)
    requires multiset(w) == multiset(v)
    ensures SumBy(w, f) == SumBy(v, f)
    decreases |w|
  {
    if w == [] {
      assert |multiset(v)| == 0;
      assert v == [];
    } else {
      var i := TakeOut(w, v);
      SumPermutes(w[..|w| - 1], v[..i] + v[i + 1..], f);
      SumTakeOut(v, i, f);
    }
  }

  lemma SameMembers(w: seq<Trace>, v: seq<Trace>)
    requires multiset(w) == multiset(v)
    ensures |w| == |v| && forall t :: t in w <==> t in v
  {
    assert |multiset(w)| == |multiset(v)|;
    forall t ensures t in w <==> t in v {
      assert t in w <==> t in multiset(w);
      assert t in v <==> t in multiset(v);
    }
  }

  lemma MaxPermutes(w: seq<Trace>, v: seq<Trace>, f: Trace -> int)
    requires multiset(w) == multiset(v)
    ensures MaxBy(w, f) == MaxBy(v, f)
  {
    SameMembers(w, v);
    MaxAtMost(w, v, f);
    MaxAtMost(v, w, f);
  }

  lemma MaxAtMost(w: seq<Trace>, v: seq<Trace>, f: Trace -> int)
    requires forall t :: t in w ==> t in v
    ensures MaxBy(w, f) <= MaxBy(v, f)
  {
    MaxIsLargest(w, f);
    MaxIsLargest(v, f);
    if MaxBy(w, f) > 0 {
      var i :| 0 <= i < |w| && f(w[i]) == MaxBy(w, f);
      assert w[i] in v;
    }
  }

  /** Go's integer division, which truncates toward zero. */
  function Quotient(total: int, count: int): int
    requires count > 0
  {
    if total >= 0 then total / count else -(-total / count)
  }

  /** The average never exceeds the maximum, whatever the signs: the maximum
      starts from zero. */
  lemma AverageAtMostMaximum(total: int, count: int, max: int)
    requires count > 0 && max >= 0 && total <= count * max
    ensures Quotient(total, count) <= max
  {
    if total >= 0 {
      var q := total / count;
      assert total == q * count + total % count;
      Monotone(max + 1, q, count);
    }
  }

  // ----------------------------------------------------------------- groups

  datatype Statistic = Statistic(name: string, host: string, count: int, errors: int, totalDuration: int,
                                 maxDuration: int, totalBytes: int, totalMemory: int, totalSpans: int)

  function Pair(s: Statistic): (string, string) {
    (s.name, s.host)
  }

  /** A measure of the traces of one group, zero elsewhere. */
  function In(k: string, f: Trace -> int): Trace -> int {
    (t: Trace) => if Key(t) == k then f(t) else 0
  }

  const ONE: Trace -> int := (t: Trace) => 1
  const FAILED: Trace -> int := (t: Trace) => if t.errorText != "" || t.state == R.Error then 1 else 0
  const DURATION: Trace -> int := (t: Trace) => t.duration
  const BYTES: Trace -> int :=
    (t: Trace) => if t.http.Some? && t.http.value.responseBytes > 0 then t.http.value.responseBytes else 0
  const MEMORY: Trace -> int := (t: Trace) => t.memory
  const SPANS: Trace -> int := (t: Trace) => t.spans

  function Keys(w: seq<Trace>): set<string> {
    set i | 0 <= i < |w| :: Key(w[i])
  }

  /** The name and host a group goes by: those of its first trace. */
  function First(w: seq<Trace>, k: string): (p: (string, string))
    requires k in Keys(w)
    ensures KeyText(p) == k
    ensures exists i :: 0 <= i < |w| && GroupKey(w[i]) == p
  {
    var n := |w| - 1;
    if k in Keys(w[..n]) then First(w[..n], k) else GroupKey(w[n])
  }

  function StatOf(w: seq<Trace>, k: string): Statistic
    requires k in Keys(w)
  {
    var p := First(w, k);
    Statistic(p.0, p.1, SumBy(w, In(k, ONE)), SumBy(w, In(k, FAILED)), SumBy(w, In(k, DURATION)),
              MaxBy(w, In(k, DURATION)), SumBy(w, In(k, BYTES)), SumBy(w, In(k, MEMORY)), SumBy(w, In(k, SPANS)))
  }

  function Groups(w: seq<Trace>): map<string, Statistic> {
    map k | k in Keys(w) :: StatOf(w, k)
  }

  /** `g` counts some of the traces and `f` is zero on the rest. */
  ghost predicate Counts(g: Trace -> int, f: Trace -> int) {
    forall t :: g(t) == 1 || (g(t) == 0 && f(t) == 0)
  }

  predicate AtMost(total: int, count: int, m: int) {
    total <= count * m
  }

  lemma {:induction false} CountPositive(w: seq<Trace>, g: Trace -> int, f: Trace -> int)
    requires Counts(g, f)
    ensures SumBy(w, g) >= 0
    ensures forall i :: 0 <= i < |w| && g(w[i]) == 1 ==> SumBy(w, g) > 0
  {
    if w != [] {
      var n := |w| - 1;
      assert forall i :: 0 <= i < n ==> w[..n][i] == w[i];
      CountPositive(w[..n], g, f);
    }
  }

  lemma {:induction false} SumAtMostCountTimesMax(w: seq<Trace>, g: Trace -> int, f: Trace -> int)
    requires Counts(g, f)
    ensures AtMost(SumBy(w, f), SumBy(w, g), MaxBy(w, f))
  {
    if w != [] {
      hide AtMost;
      var n := |w| - 1;
      SumAtMostCountTimesMax(w[..n], g, f);
      CountPositive(w[..n], g, f);
      OneMore(SumBy(w[..n], f), SumBy(w[..n], g), MaxBy(w[..n], f), MaxBy(w, f), f(w[n]));
    }
  }

  lemma OneMore(total: int, count: nat, m: int, top: int, x: int)
    requires AtMost(total, count, m) && m <= top
    ensures AtMost(total, count, top) && (x <= top ==> AtMost(total + x, count + 1, top))
  {
    Monotone(m, top, count);
    assert (count + 1) * top == count * top + top;
  }

  /** A listed group's average duration is defined and never exceeds its maximum. */
  lemma AverageOfGroup(w: seq<Trace>, k: string)
    requires k in Keys(w)
    ensures var s := StatOf(w, k); s.count > 0 && Quotient(s.totalDuration, s.count) <= s.maxDuration
  {
    hide SumBy, MaxBy, KeyText, Quotient;
    CountPositive(w, In(k, ONE), In(k, DURATION));
    MaxIsLargest(w, In(k, DURATION));
    SumAtMostCountTimesMax(w, In(k, ONE), In(k, DURATION));
    AverageAtMostMaximum(SumBy(w, In(k, DURATION)), SumBy(w, In(k, ONE)), MaxBy(w, In(k, DURATION)));
  }

  /** No two groups share a key text. */
  ghost predicate NoClash(w: seq<Trace>) {
    forall t, u :: t in w && u in w && Key(t) == Key(u) ==> GroupKey(t) == GroupKey(u)
  }

  ghost predicate NulFree(s: string) {
    forall i :: 0 <= i < |s| ==> s[i] != '\0'
  }

  /** Hosts without a NUL keep the groups apart. */
  lemma NulFreeHostsDoNotClash(w: seq<Trace>)
    requires forall t :: t in w ==> NulFree(GroupKey(t).1)
    ensures NoClash(w)
  {
    forall t, u | t in w && u in w && Key(t) == Key(u) ensures GroupKey(t) == GroupKey(u) {
      KeyTextSplits(GroupKey(t), GroupKey(u));
    }
  }

  lemma KeyTextSplits(p: (string, string), q: (string, string))
    requires KeyText(p) == KeyText(q) && NulFree(p.1) && NulFree(q.1)
    ensures p == q
  {
    var x, y := KeyText(p), KeyText(q);
    assert x[|p.1|] == '\0' && y[|q.1|] == '\0';
    assert forall i :: 0 <= i < |p.1| ==> x[i] == p.1[i];
    assert forall i :: 0 <= i < |q.1| ==> y[i] == q.1[i];
    assert |p.1| == |q.1|;
    assert p.1 == x[..|p.1|] && q.1 == y[..|q.1|];
    assert p.0 == x[|p.1| + 1..] && q.0 == y[|q.1| + 1..];
  }

  lemma FirstPermutes(w: seq<Trace>, v: seq<Trace>, k: string)
    requires (forall t :: t in w <==> t in v) && NoClash(w) && k in Keys(w) && k in Keys(v)
    ensures First(w, k) == First(v, k)
  {
    hide KeyText, GroupKey;
    var i :| 0 <= i < |w| && GroupKey(w[i]) == First(w, k);
    var j :| 0 <= j < |v| && GroupKey(v[j]) == First(v, k);
    assert w[i] in w && v[j] in w;
  }

  /** The groups of a window do not depend on its order. */
  lemma GroupsPermute(w: seq<Trace>, v: seq<Trace>)
    requires multiset(w) == multiset(v) && NoClash(w)
    ensures Groups(w) == Groups(v)
  {
    SameMembers(w, v);
    SameKeys(w, v);
    hide Keys, First, SumBy, MaxBy, In, NoClash;
    forall k | k in Keys(w) ensures StatOf(w, k) == StatOf(v, k) {
      MaxPermutes(w, v, In(k, DURATION));
      SumPermutes(w, v, In(k, ONE));
      SumPermutes(w, v, In(k, FAILED));
      SumPermutes(w, v, In(k, DURATION));
      SumPermutes(w, v, In(k, BYTES));
      SumPermutes(w, v, In(k, MEMORY));
      SumPermutes(w, v, In(k, SPANS));
      FirstPermutes(w, v, k);
    }
  }

  lemma SameKeys(w: seq<Trace>, v: seq<Trace>)
    requires forall t :: t in w <==> t in v
    ensures Keys(w) == Keys(v)
  {
    forall k | k in Keys(w) ensures k in Keys(v) {
      var i :| 0 <= i < |w| && Key(w[i]) == k;
      assert w[i] in v;
    }
    forall k | k in Keys(v) ensures k in Keys(w) {
      var i :| 0 <= i < |v| && Key(v[i]) == k;
      assert v[i] in w;
    }
  }

  lemma NoKeys()
    ensures Keys([]) == {}
  {
  }

  /** The first trace decides what its group is called. */
  lemma {:induction false} HeadNamesGroup(t: Trace, w: seq<Trace>)
    ensures Key(t) in Keys([t] + w) && First([t] + w, Key(t)) == GroupKey(t)
  {
    hide GroupKey, KeyText, Key, Keys, First;
    if w == [] {
      assert [t] + w == [] + [t];
      NoKeys();
      FirstSnoc([], t, Key(t));
    } else {
      var n := |w| - 1;
      HeadNamesGroup(t, w[..n]);
      FirstSnoc([t] + w[..n], w[n], Key(t));
      assert [t] + w == ([t] + w[..n]) + [w[n]];
    }
  }

  ghost function Fronted(w: seq<Trace>, i: nat): seq<Trace>
    requires i < |w|
  {
    [w[i]] + (w[..i] + w[i + 1..])
  }

  lemma FrontedPermutes(w: seq<Trace>, i: nat)
    requires i < |w|
    ensures multiset(Fronted(w, i)) == multiset(w)
  {
    assert w == w[..i] + [w[i]] + w[i + 1..];
  }

  /** The groups are independent of the order of the window exactly when no two
      traces of it write one key text for different names or hosts. */
  lemma OrderIndependentIffNoClash(w: seq<Trace>)
    ensures (forall v :: multiset(v) == multiset(w) ==> Groups(v) == Groups(w)) <==> NoClash(w)
  {
    if NoClash(w) {
      forall v | multiset(v) == multiset(w) ensures Groups(v) == Groups(w) { GroupsPermute(w, v); }
    } else {
      var t, u :| t in w && u in w && Key(t) == Key(u) && GroupKey(t) != GroupKey(u);
      var i :| 0 <= i < |w| && w[i] == t;
      var j :| 0 <= j < |w| && w[j] == u;
      FrontedPermutes(w, i);
      FrontedPermutes(w, j);
      HeadNamesGroup(t, w[..i] + w[i + 1..]);
      HeadNamesGroup(u, w[..j] + w[j + 1..]);
      assert Pair(Groups(Fronted(w, i))[Key(t)]) != Pair(Groups(Fronted(w, j))[Key(t)]);
    }
  }

  /** Two traces that clash: a NUL in a host moves the border between the two. */
  lemma NulClashes()
    ensures var t := Trace("b", R.Waiting, "", 1, Some(Http("GET", "/", "", "a\0x", 200, 0)), 0, 0);
            var u := Trace("x\0b", R.Waiting, "", 1, Some(Http("GET", "/", "", "a", 200, 0)), 0, 0);
            Key(t) == Key(u) && !NoClash([t, u])
  {
    var t := Trace("b", R.Waiting, "", 1, Some(Http("GET", "/", "", "a\0x", 200, 0)), 0, 0);
    var u := Trace("x\0b", R.Waiting, "", 1, Some(Http("GET", "/", "", "a", 200, 0)), 0, 0);
    assert Key(t) == Key(u);
    assert t in [t, u] && u in [t, u] && GroupKey(t).1 != GroupKey(u).1;
  }

  // ------------------------------------------------------------- the ranking

  /** The order of the list: more traces, then more time, then name and host. */
  predicate Before(a: Statistic, b: Statistic) {
    if a.count != b.count then a.count > b.count
    else if a.totalDuration != b.totalDuration then a.totalDuration > b.totalDuration
    else if a.name != b.name then Less(a.name, b.name)
    else Less(a.host, b.host)
  }

  lemma BeforeIsStrict()
    ensures StrictOrder(Before)
  {
    LessIsStrict();
    forall a, b, c ensures !Before(a, a) && (Before(a, b) && Before(b, c) ==> Before(a, c)) {
      assert !Less(a.host, a.host) && !Less(a.name, a.name);
      assert Less(a.name, b.name) && Less(b.name, c.name) ==> Less(a.name, c.name);
      assert Less(a.host, b.host) && Less(b.host, c.host) ==> Less(a.host, c.host);
      assert !(Less(a.name, b.name) && Less(b.name, a.name));
    }
  }

  lemma BeforeDecides(a: Statistic, b: Statistic)
    requires Pair(a) != Pair(b)
    ensures Before(a, b) || Before(b, a)
  {
    LessTotal(a.name, b.name);
    LessTotal(a.host, b.host);
  }

  /** A list that ranks the groups. */
  ghost predicate Ranks(s: seq<Statistic>, groups: map<string, Statistic>) {
    InOrder(Before, s) && forall x :: x in s <==> x in groups.Values
  }

  /** The statistics of a window do not depend on its order, nor on the order
      in which the groups are visited: there is one ranking. */
  lemma StatisticsPermute(w: seq<Trace>, v: seq<Trace>, a: seq<Statistic>, b: seq<Statistic>)
    requires multiset(w) == multiset(v) && NoClash(w) && Ranks(a, Groups(w)) && Ranks(b, Groups(v))
    ensures a == b
  {
    GroupsPermute(w, v);
    BeforeIsStrict();
    InOrderUnique(Before, a, b);
  }

  // -------------------------------------------------------------- the method

  /** What the loop over the window holds: the groups, and their keys in the
      order they came up. */
  ghost predicate Grouped(groups: map<string, Statistic>, order: seq<string>, w: seq<Trace>) {
    && groups == Groups(w)
    && (forall k :: k in order <==> k in groups)
    && (forall i, j :: 0 <= i < j < |order| ==> order[i] != order[j])
  }

  /** One trace more in its group. */
  function Add(s: Statistic, t: Trace): Statistic {
    s.(count := s.count + 1, errors := s.errors + FAILED(t), totalDuration := s.totalDuration + t.duration,
       maxDuration := if t.duration > s.maxDuration then t.duration else s.maxDuration,
       totalBytes := s.totalBytes + BYTES(t), totalMemory := s.totalMemory + t.memory,
       totalSpans := s.totalSpans + t.spans)
  }

  lemma KeysSnoc(w: seq<Trace>, t: Trace)
    ensures Keys(w + [t]) == Keys(w) + {Key(t)}
  {
    var v := w + [t];
    assert v[|w|] == t && forall i :: 0 <= i < |w| ==> v[i] == w[i];
  }

  lemma {:induction false} NothingIn(w: seq<Trace>, k: string, f: Trace -> int)
    requires k !in Keys(w)
    ensures SumBy(w, In(k, f)) == 0 && MaxBy(w, In(k, f)) == 0
  {
    if w != [] {
      var n := |w| - 1;
      assert w == w[..n] + [w[n]];
      KeysSnoc(w[..n], w[n]);
      NothingIn(w[..n], k, f);
    }
  }

  lemma InSnoc(w: seq<Trace>, t: Trace, k: string, f: Trace -> int)
    ensures var now, was := SumBy(w + [t], In(k, f)), SumBy(w, In(k, f));
            if Key(t) == k then now == was + f(t) else now == was
    ensures var now, was := MaxBy(w + [t], In(k, f)), MaxBy(w, In(k, f));
            if Key(t) == k && f(t) > was then now == f(t) else now == was
    ensures k !in Keys(w) ==> SumBy(w, In(k, f)) == 0 && MaxBy(w, In(k, f)) == 0
  {
    hide Keys, Key;
    assert (w + [t])[..|w|] == w;
    if k !in Keys(w) { NothingIn(w, k, f); }
  }

  lemma FirstSnoc(w: seq<Trace>, t: Trace, k: string)
    requires k in Keys(w) || k == Key(t)
    ensures k in Keys(w + [t]) && First(w + [t], k) == if k in Keys(w) then First(w, k) else GroupKey(t)
  {
    hide GroupKey, KeyText;
    KeysSnoc(w, t);
    assert (w + [t])[..|w|] == w;
  }

  lemma StatElsewhere(w: seq<Trace>, t: Trace, k: string)
    requires k in Keys(w) && k != Key(t)
    ensures k in Keys(w + [t]) && StatOf(w + [t], k) == StatOf(w, k)
  {
    hide SumBy, MaxBy, In, Key, Keys, First;
    FirstSnoc(w, t, k);
    InSnoc(w, t, k, ONE);
    InSnoc(w, t, k, FAILED);
    InSnoc(w, t, k, DURATION);
    InSnoc(w, t, k, BYTES);
    InSnoc(w, t, k, MEMORY);
    InSnoc(w, t, k, SPANS);
  }

  lemma StatSnoc(w: seq<Trace>, t: Trace, k: string)
    requires k == Key(t)
    ensures k in Keys(w + [t])
    ensures StatOf(w + [t], k) == Add(if k in Keys(w) then StatOf(w, k)
                                      else Statistic(GroupKey(t).0, GroupKey(t).1, 0, 0, 0, 0, 0, 0, 0), t)
  {
    hide SumBy, MaxBy, In, Key, Keys, First;
    FirstSnoc(w, t, k);
    InSnoc(w, t, k, ONE);
    InSnoc(w, t, k, FAILED);
    InSnoc(w, t, k, DURATION);
    InSnoc(w, t, k, BYTES);
    InSnoc(w, t, k, MEMORY);
    InSnoc(w, t, k, SPANS);
  }

  /** The groups with one trace more. */
  function AddTo(groups: map<string, Statistic>, t: Trace): map<string, Statistic> {
    var k, pair := Key(t), GroupKey(t);
    groups[k := Add(if k in groups then groups[k] else Statistic(pair.0, pair.1, 0, 0, 0, 0, 0, 0, 0), t)]
  }

  lemma GroupsSnocAt(w: seq<Trace>, t: Trace, k: string)
    requires k in Keys(w) || k == Key(t)
    ensures k in Groups(w + [t]) && Groups(w + [t])[k] == AddTo(Groups(w), t)[k]
  {
    hide Key, StatOf, Add, GroupKey;
    if k == Key(t) { StatSnoc(w, t, k); } else { StatElsewhere(w, t, k); }
  }

  lemma GroupsSnoc(w: seq<Trace>, t: Trace)
    ensures Groups(w + [t]) == AddTo(Groups(w), t)
  {
    KeysSnoc(w, t);
    GroupKeys(w);
    GroupKeys(w + [t]);
    AddedKeys(Groups(w), t);
    forall k | k in Keys(w) + {Key(t)} ensures k in Groups(w + [t]) && Groups(w + [t])[k] == AddTo(Groups(w), t)[k] {
      GroupsSnocAt(w, t, k);
    }
    SameMap(Groups(w + [t]), AddTo(Groups(w), t));
  }

  lemma GroupKeys(w: seq<Trace>)
    ensures Groups(w).Keys == Keys(w)
  {
  }

  lemma AddedKeys(groups: map<string, Statistic>, t: Trace)
    ensures AddTo(groups, t).Keys == groups.Keys + {Key(t)}
  {
  }

  lemma SameMap(m: map<string, Statistic>, n: map<string, Statistic>)
    requires m.Keys == n.Keys && forall k :: k in m ==> m[k] == n[k]
    ensures m == n
  {
  }

  lemma GroupGoesByKey(w: seq<Trace>, k: string)
    requires k in Groups(w)
    ensures KeyText(Pair(Groups(w)[k])) == k
  {
  }

  method Collect(w: seq<Trace>) returns (groups: map<string, Statistic>, order: seq<string>)
    ensures Grouped(groups, order, w)
  {
    groups, order := map[], [];
    var i := 0;
    while i < |w|
      invariant 0 <= i <= |w|
      invariant Grouped(groups, order, w[..i])
    {
      var t := w[i];
      var pair := GroupKey(t);
      var key := pair.1 + "\0" + pair.0;
      GroupsSnoc(w[..i], t);
      assert w[..i + 1] == w[..i] + [t];
      var stat := if key in groups then groups[key] else Statistic(pair.0, pair.1, 0, 0, 0, 0, 0, 0, 0);
      if key !in groups {
        order := order + [key];
      }
      groups := groups[key := Add(stat, t)];
      i := i + 1;
    }
    assert w[..i] == w;
  }

  /** The ranking of some groups, cut at the limit if there is one. */
  ghost predicate Listed(top: seq<Statistic>, groups: map<string, Statistic>, limit: int) {
    exists full :: Ranks(full, groups) && top == if limit > 0 && |full| > limit then full[..limit] else full
  }

  /** The groups in some order of their keys: each once, any two decided. */
  lemma AllDecided(groups: map<string, Statistic>, order: seq<string>, w: seq<Trace>, all: seq<Statistic>)
    requires Grouped(groups, order, w) && |all| == |order|
    requires forall k :: 0 <= k < |order| ==> all[k] == groups[order[k]]
    ensures Decided(Before, all) && forall x :: x in all <==> x in groups.Values
  {
    hide Keys, StatOf;
    forall x | x in groups.Values ensures x in all {
      var k :| k in groups && groups[k] == x;
      var j :| 0 <= j < |order| && order[j] == k;
      assert all[j] == x;
    }
    forall k, l | 0 <= k < l < |all| ensures Before(all[k], all[l]) || Before(all[l], all[k]) {
      GroupGoesByKey(w, order[k]);
      GroupGoesByKey(w, order[l]);
      BeforeDecides(all[k], all[l]);
    }
  }

  lemma GroupedInOrder(w: seq<Trace>)
    ensures Grouped(Groups(w), Sorted(Keys(w)), w)
  {
    hide Keys, Groups, StatOf;
    var order := Sorted(Keys(w));
    GroupKeys(w);
    forall i, j | 0 <= i < j < |order| ensures order[i] != order[j] {
      assert Less(order[i], order[j]);
      LessIrreflexive(order[i]);
    }
  }

  /** Every window's groups have a ranking. */
  lemma RankingExists(w: seq<Trace>) returns (full: seq<Statistic>)
    ensures Ranks(full, Groups(w))
  {
    hide Keys, Groups, StatOf, Before, Grouped;
    var groups, order := Groups(w), Sorted(Keys(w));
    GroupedInOrder(w);
    assert forall i :: 0 <= i < |order| ==> order[i] in groups by { GroupKeys(w); }
    var all := seq(|order|, i requires 0 <= i < |order| => groups[order[i]]);
    AllDecided(groups, order, w, all);
    BeforeIsStrict();
    SortRanks(Before, all);
    full := Sort(Before, all);
  }

  /** Two windows of the same traces give one list. */
  lemma ListPermutes(w: seq<Trace>, v: seq<Trace>, limit: int, a: seq<Statistic>, b: seq<Statistic>)
    requires multiset(w) == multiset(v) && NoClash(w) && Listed(a, Groups(w), limit) && Listed(b, Groups(v), limit)
    ensures a == b
  {
    var x :| Ranks(x, Groups(w)) && a == if limit > 0 && |x| > limit then x[..limit] else x;
    var y :| Ranks(y, Groups(v)) && b == if limit > 0 && |y| > limit then y[..limit] else y;
    hide Groups, NoClash, Ranks;
    StatisticsPermute(w, v, x, y);
  }

  /** Statistics, the list of groups. */
  method Top(w: seq<Trace>, limit: int) returns (top: seq<Statistic>)
    ensures Listed(top, Groups(w), limit)
  {
    top := [];
    if |w| == 0 {
      assert Ranks(top, Groups(w));
      return;
    }
    var groups, order := Collect(w);
    hide Keys, StatOf, Before;
    top := Gather(groups, order, w);
    BeforeIsStrict();
    SortRanks(Before, top);
    top := Sort(Before, top);
    assert Ranks(top, Groups(w));
    if limit > 0 && |top| > limit {
      top := top[..limit];
    }
  }

  /** The groups in the order they came up. */
  method Gather(groups: map<string, Statistic>, order: seq<string>, ghost w: seq<Trace>) returns (all: seq<Statistic>)
    requires Grouped(groups, order, w)
    ensures Decided(Before, all) && forall x :: x in all <==> x in groups.Values
  {
    all := [];
    var i := 0;
    while i < |order|
      invariant 0 <= i <= |order|
      invariant |all| == i && forall k :: 0 <= k < i ==> all[k] == groups[order[k]]
    {
      all := all + [groups[order[i]]];
      i := i + 1;
    }
    AllDecided(groups, order, w, all);
  }
}
