/** The legend of the timeline (frontend/view/page.go): the time of each kind. */
module KindShares {
  import opened Options
  import opened Ranking
  import opened Timeline

  /** The time the segments of one kind take. */
  function TotalOf(segments: seq<Segment>, kind: Kind): int {
    if segments == [] then 0
    else
      var last := segments[|segments| - 1];
      TotalOf(segments[..|segments| - 1], kind) + if last.kind == kind then last.duration else 0
  }

  /** How many of the first `n` instants are painted with a kind. */
  function Instants(segments: seq<Segment>, kind: Kind, n: int): int
    decreases if n < 0 then 0 else n
  {
    if n <= 0 then 0 else Instants(segments, kind, n - 1) + if Painted(segments, n - 1) == Some(kind) then 1 else 0
  }

  lemma {:induction false} SameInstants(a: seq<Segment>, b: seq<Segment>, kind: Kind, n: nat)
    requires forall x :: 0 <= x < n ==> Painted(a, x) == Painted(b, x)
    ensures Instants(a, kind, n) == Instants(b, kind, n)
  {
    if n > 0 { SameInstants(a, b, kind, n - 1); }
  }

  lemma {:induction false} RunOfInstants(segments: seq<Segment>, kind: Kind, paint: Option<Kind>, lo: nat, hi: nat)
    requires lo <= hi && forall x :: lo <= x < hi ==> Painted(segments, x) == paint
    ensures Instants(segments, kind, hi) == Instants(segments, kind, lo) + if paint == Some(kind) then hi - lo else 0
    decreases hi
  {
    if lo < hi { RunOfInstants(segments, kind, paint, lo, hi - 1); }
  }

  /** The time of a kind is the number of instants at which that kind is painted. */
  lemma {:induction false} TotalIsInstants(segments: seq<Segment>, total: int, kind: Kind)
    requires Tidy(segments, total)
    ensures TotalOf(segments, kind) == Instants(segments, kind, total)
  {
    if segments == [] {
      if total > 0 { RunOfInstants(segments, kind, None, 0, total); }
    } else {
      var n := |segments| - 1;
      var front, s := segments[..n], segments[n];
      TotalIsInstants(front, total, kind);
      forall x | s.offset <= x ensures Painted(front, x) == None { BlankAfter(front, total, x); }
      RunOfInstants(front, kind, None, s.offset, total);
      SameInstants(segments, front, kind, s.offset);
      RunOfInstants(segments, kind, Some(s.kind), s.offset, End(s));
      RunOfInstants(segments, kind, None, End(s), total);
    }
  }

  function Plus(a: Ratio, b: Ratio): Ratio {
    if a.num == 0 then b
    else if a.den == b.den then Ratio(a.num + b.num, a.den)
    else Ratio(a.num * b.den + b.num * a.den, a.den * b.den)
  }

  predicate Larger(a: Ratio, b: Ratio) {
    if a.den == b.den then a.num > b.num else a.num * b.den > b.num * a.den
  }

  ghost predicate HasKind(s: seq<Segment>, kind: Kind) {
    exists i :: 0 <= i < |s| && s[i].kind == kind
  }

  /** One entry of the legend per kind. */
  ghost predicate Entries(entries: seq<Segment>, segments: seq<Segment>, total: int) {
    && (forall i :: 0 <= i < |entries| ==>
          entries[i].duration == TotalOf(segments, entries[i].kind)
          && entries[i].share == Share(entries[i].duration, total))
    && (forall i, j :: 0 <= i < j < |entries| ==> entries[i].kind != entries[j].kind)
    && (forall kind :: HasKind(entries, kind) <==> HasKind(segments, kind))
  }

  ghost predicate LargestFirst(s: seq<Segment>) {
    forall i, j :: 0 <= i < j < |s| ==> s[i].duration >= s[j].duration
  }

  ghost predicate Shared(s: seq<Segment>, total: int) {
    forall i :: 0 <= i < |s| ==> s[i].share == Share(s[i].duration, total)
  }

  ghost predicate Distinct(s: seq<Segment>) {
    forall i, j :: 0 <= i < j < |s| ==> s[i].kind != s[j].kind
  }

  /** Shares of one total order as the times behind them. */
  lemma LargerIsLonger(a: Segment, b: Segment, total: int)
    requires total > 0 && a.share == Share(a.duration, total) && b.share == Share(b.duration, total)
    ensures Larger(a.share, b.share) <==> a.duration > b.duration
  {
  }

  predicate ShareLarger(a: Segment, b: Segment) {
    Larger(a.share, b.share)
  }

  /** `a` may stand before `b`: no less time, and another kind. */
  predicate NoSmaller(a: Segment, b: Segment) {
    a.duration >= b.duration && a.kind != b.kind
  }

  /** The stable sort puts the largest first. */
  lemma {:induction false} SortByShare(s: seq<Segment>, total: int)
    requires Shared(s, total) && Distinct(s) && (s != [] ==> total > 0)
    ensures InOrder(NoSmaller, Sort(ShareLarger, s))
    ensures forall y :: y in Sort(ShareLarger, s) <==> y in s
  {
    SortHas(ShareLarger, s);
    if s != [] {
      var front, x := s[..|s| - 1], s[|s| - 1];
      SortByShare(front, total);
      forall y | y in front ensures y.kind != x.kind && (ShareLarger(x, y) <==> x.duration > y.duration) {
        LargerIsLonger(x, y, total);
      }
      hide InOrder, Shared, Distinct, Larger, Share;
      InsertKeeps(ShareLarger, NoSmaller, x, Sort(ShareLarger, front));
    }
  }

  lemma Ranked(s: seq<Segment>, out: seq<Segment>, total: int)
    requires Shared(s, total) && InOrder(NoSmaller, out) && forall y :: y in out <==> y in s
    ensures LargestFirst(out) && Shared(out, total) && Distinct(out)
  {
    forall i | 0 <= i < |out| ensures out[i].share == Share(out[i].duration, total) {
      assert out[i] in out;
    }
  }

  lemma OrderKeepsEntries(entries: seq<Segment>, out: seq<Segment>, segments: seq<Segment>, total: int)
    requires Entries(entries, segments, total) && Shared(out, total) && Distinct(out)
    requires forall y :: y in out <==> y in entries
    ensures Entries(out, segments, total)
  {
    assert forall i :: 0 <= i < |out| ==> out[i] in entries;
    forall kind ensures HasKind(out, kind) <==> HasKind(entries, kind) {
      if HasKind(entries, kind) {
        var i :| 0 <= i < |entries| && entries[i].kind == kind;
        assert entries[i] in out;
      }
    }
  }

  /** KindShares: one entry per kind, largest first, each with the time at which
      its kind is painted. */
  method KindShares(segments: seq<Segment>, total: int) returns (out: seq<Segment>)
    requires Tidy(segments, total)
    ensures Entries(out, segments, total) && LargestFirst(out)
    ensures forall i :: 0 <= i < |out| ==> out[i].duration == Instants(segments, out[i].kind, total)
  {
    out := [];
    if segments == [] { return; }
    assert 0 <= segments[0].offset < End(segments[0]) <= total;
    var shares, order := Tally(segments, total);
    out := Collected(shares, order, segments, total);
    ghost var entries := out;
    SortByShare(out, total);
    out := Sort(ShareLarger, out);
    Ranked(entries, out, total);
    OrderKeepsEntries(entries, out, segments, total);
    forall k | 0 <= k < |out| ensures out[k].duration == Instants(segments, out[k].kind, total) {
      TotalIsInstants(segments, total, out[k].kind);
    }
  }

  /** The first loop. */
  method Tally(segments: seq<Segment>, ghost total: int) returns (shares: map<Kind, Segment>, order: seq<Kind>)
    requires Tidy(segments, total)
    ensures Tallied(shares, order, segments, total)
  {
    shares, order := map[], [];
    var i := 0;
    NothingTallied(total);
    hide Tallied, Plus, Share;
    while i < |segments|
      invariant 0 <= i <= |segments|
      invariant Tallied(shares, order, segments[..i], total)
    {
      var s := segments[i];
      assert 0 <= s.offset < End(s) <= total && s.share == Share(s.duration, total);
      var was := if s.kind in shares then shares[s.kind] else Segment(s.kind, 0, 0, Ratio(0, 1), Ratio(0, 1));
      TallyOne(shares, order, segments[..i], s, total);
      assert segments[..i + 1] == segments[..i] + [s];
      if s.kind !in shares {
        order := order + [s.kind];
      }
      shares := shares[s.kind := was.(duration := was.duration + s.duration, share := Plus(was.share, s.share))];
      i := i + 1;
    }
    assert segments[..i] == segments;
  }

  /** The second loop: the totals in the order their kinds came up. */
  method Collected(shares: map<Kind, Segment>, order: seq<Kind>, ghost segments: seq<Segment>, ghost total: int)
    returns (out: seq<Segment>)
    requires Tallied(shares, order, segments, total)
    ensures Entries(out, segments, total) && Shared(out, total) && Distinct(out)
  {
    out := [];
    var j := 0;
    while j < |order|
      invariant 0 <= j <= |order|
      invariant |out| == j && forall k :: 0 <= k < j ==> out[k] == shares[order[k]]
    {
      out := out + [shares[order[j]]];
      j := j + 1;
    }
    forall kind ensures HasKind(out, kind) <==> HasKind(segments, kind) {
      if kind in order {
        var i :| 0 <= i < |order| && order[i] == kind;
        assert out[i].kind == kind;
      }
    }
  }

  /** What the first loop holds: the totals so far, and their kinds in the
      order they came up. */
  ghost predicate Tallied(shares: map<Kind, Segment>, order: seq<Kind>, seen: seq<Segment>, total: int) {
    Listed(shares, order, seen) && Summed(shares, seen, total)
  }

  ghost predicate Listed(shares: map<Kind, Segment>, order: seq<Kind>, seen: seq<Segment>) {
    && (forall k :: k in shares <==> k in order)
    && (forall i, j :: 0 <= i < j < |order| ==> order[i] != order[j])
    && (forall k :: k in order <==> HasKind(seen, k))
  }

  ghost predicate Summed(shares: map<Kind, Segment>, seen: seq<Segment>, total: int) {
    && (forall k :: k in shares ==>
          shares[k].kind == k && shares[k].duration == TotalOf(seen, k)
          && shares[k].share == Share(TotalOf(seen, k), total))
    && (forall k :: k !in shares ==> TotalOf(seen, k) == 0)
  }

  lemma NothingTallied(total: int)
    ensures Tallied(map[], [], [], total)
  {
  }

  lemma TallyOne(shares: map<Kind, Segment>, order: seq<Kind>, seen: seq<Segment>, s: Segment, total: int)
    requires Tallied(shares, order, seen, total) && total > 0 && s.share == Share(s.duration, total)
    ensures var was := if s.kind in shares then shares[s.kind] else Segment(s.kind, 0, 0, Ratio(0, 1), Ratio(0, 1));
            Tallied(shares[s.kind := was.(duration := was.duration + s.duration, share := Plus(was.share, s.share))],
                    if s.kind in shares then order else order + [s.kind], seen + [s], total)
  {
    var was := if s.kind in shares then shares[s.kind] else Segment(s.kind, 0, 0, Ratio(0, 1), Ratio(0, 1));
    PlusShare(TotalOf(seen, s.kind), was.share, s, total);
    hide Plus, Share;
    SumOne(shares, seen, s, was.(duration := was.duration + s.duration, share := Plus(was.share, s.share)), total);
    hide Summed;
    ListOne(shares, order, seen, s, was.(duration := was.duration + s.duration, share := Plus(was.share, s.share)));
  }

  lemma SumOne(shares: map<Kind, Segment>, seen: seq<Segment>, s: Segment, now: Segment, total: int)
    requires Summed(shares, seen, total) && now.kind == s.kind
    requires now.duration == TotalOf(seen, s.kind) + s.duration && now.share == Share(now.duration, total)
    ensures Summed(shares[s.kind := now], seen + [s], total)
  {
    hide Share;
    assert (seen + [s])[..|seen|] == seen;
    forall k ensures TotalOf(seen + [s], k) == TotalOf(seen, k) + if k == s.kind then s.duration else 0 {}
    hide TotalOf;
  }

  lemma ListOne(shares: map<Kind, Segment>, order: seq<Kind>, seen: seq<Segment>, s: Segment, now: Segment)
    requires Listed(shares, order, seen)
    ensures Listed(shares[s.kind := now], if s.kind in shares then order else order + [s.kind], seen + [s])
  {
    forall k ensures HasKind(seen + [s], k) <==> k == s.kind || HasKind(seen, k) { KindOfSnoc(seen, s, k); }
    hide HasKind;
  }

  lemma KindOfSnoc(seen: seq<Segment>, s: Segment, kind: Kind)
    ensures HasKind(seen + [s], kind) <==> kind == s.kind || HasKind(seen, kind)
  {
    var after := seen + [s];
    assert after[|seen|].kind == s.kind;
    assert forall i :: 0 <= i < |seen| ==> after[i] == seen[i];
  }

  lemma PlusShare(sum: int, was: Ratio, s: Segment, total: int)
    requires total > 0 && s.share == Share(s.duration, total)
    requires was == Share(sum, total) || (sum == 0 && was == Ratio(0, 1))
    ensures Plus(was, s.share) == Share(sum + s.duration, total)
  {
  }
}
