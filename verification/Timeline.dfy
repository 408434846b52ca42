/** The timeline of a trace (frontend/view/timeline.go): a sweep over the span
    boundaries that paints every instant with the kind of its innermost span. */
module Timeline {
  import opened Options
  import Ranking

  type Kind = string
  const HTTP: Kind := "http"

  datatype Span = Span(kind: Kind, depth: int, startedAt: int, duration: int)
  datatype Trace = Trace(startedAt: int, duration: int, spans: seq<Span>)
  datatype Interval = Interval(kind: Kind, depth: int, start: int, stop: int)
  datatype Segment = Segment(kind: Kind, offset: int, duration: int, offsetShare: Ratio, share: Ratio)

  function End(s: Segment): int {
    s.offset + s.duration
  }

  /** An exact quotient, where the source rounds to a floating point number. */
  datatype Ratio = Ratio(num: int, den: int)

  /** A part as a percentage of the whole. */
  function Share(part: int, total: int): Ratio {
    if total <= 0 then Ratio(0, 1) else Ratio(part * 100, total)
  }

  /** The ratio says how much of a hundred the part is of the whole. */
  ghost predicate IsPercent(r: Ratio, part: int, total: int) {
    if total > 0 then r.den > 0 && r.num * total == 100 * part * r.den else r.num == 0
  }

  lemma ShareIsPercent(part: int, total: int)
    ensures IsPercent(Share(part, total), part, total)
    ensures total > 0 ==> IsPercent(Share(total, total), 1, 1)
  {
  }

  // ------------------------------------------------------------ what it means

  /** The part of a span that counts: measured, not the request itself, and
      inside the trace. */
  predicate Counts(t: Trace, s: Span, at: int) {
    && s.duration > 0 && !(s.kind == "http" && s.depth == 0)
    && s.startedAt <= at < s.startedAt + s.duration
    && t.startedAt <= at < t.startedAt + t.duration
  }

  predicate Covers(v: Interval, at: int) {
    v.start <= at < v.stop
  }

  /** Deeper wins, then the later clipped start. */
  predicate Inner(a: Interval, b: Interval) {
    a.depth > b.depth || (a.depth == b.depth && a.start > b.start)
  }

  /** `j` is innermost at an instant: nothing covering it is further in, and
      what ties with it comes later in the list. */
  ghost predicate IsInnermost(vs: seq<Interval>, at: int, j: int) {
    && 0 <= j < |vs| && Covers(vs[j], at)
    && (forall k :: 0 <= k < |vs| && Covers(vs[k], at) ==> !Inner(vs[k], vs[j]))
    && (forall k :: 0 <= k < j && Covers(vs[k], at) ==> Inner(vs[j], vs[k]))
  }

  lemma InnermostUnique(vs: seq<Interval>, at: int, i: int, j: int)
    requires IsInnermost(vs, at, i) && IsInnermost(vs, at, j)
    ensures i == j
  {
  }

  /** The kind an instant is to be painted with. */
  ghost function KindAt(vs: seq<Interval>, at: int): Option<Kind> {
    if exists j :: IsInnermost(vs, at, j) then
      var j :| IsInnermost(vs, at, j);
      Some(vs[j].kind)
    else None
  }

  /** The kind an instant is painted with. */
  function Painted(segments: seq<Segment>, x: int): Option<Kind> {
    if segments == [] then None
    else
      var last := segments[|segments| - 1];
      if last.offset <= x < End(last) then Some(last.kind) else Painted(segments[..|segments| - 1], x)
  }

  /** Segments follow each other inside the trace, no two touching ones of one
      kind, each with the share of its extent. */
  ghost predicate Tidy(segments: seq<Segment>, total: int) {
    && (forall k :: 0 <= k < |segments| ==>
          var s := segments[k];
          0 <= s.offset < End(s) <= total && s.offsetShare == Share(s.offset, total)
          && s.share == Share(s.duration, total))
    && (forall j, k :: 0 <= j < k < |segments| ==>
          End(segments[j]) <= segments[k].offset
          && (End(segments[j]) == segments[k].offset ==> segments[j].kind != segments[k].kind))
  }

  // ------------------------------------------------------- clipped intervals

  function Max(a: int, b: int): int { if a < b then b else a }
  function Min(a: int, b: int): int { if a > b then b else a }

  function Clip(t: Trace, s: Span): Option<Interval> {
    var start, stop := Max(s.startedAt, t.startedAt), Min(s.startedAt + s.duration, t.startedAt + t.duration);
    if s.duration <= 0 || (s.kind == HTTP && s.depth == 0) || stop <= start then None
    else Some(Interval(s.kind, s.depth, start, stop))
  }

  function Intervals(t: Trace, spans: seq<Span>): seq<Interval> {
    if spans == [] then []
    else
      var front := Intervals(t, spans[..|spans| - 1]);
      match Clip(t, spans[|spans| - 1])
      case None => front
      case Some(v) => front + [v]
  }

  /** The innermost of the first `n` intervals, as the inner loop finds it. */
  function Best(vs: seq<Interval>, n: nat, at: int): (j: int)
    requires n <= |vs|
    ensures -1 <= j < n && (j >= 0 ==> Covers(vs[j], at))
    ensures j >= 0 ==> forall k :: 0 <= k < n && Covers(vs[k], at) ==> !Inner(vs[k], vs[j])
    ensures j >= 0 ==> forall k :: 0 <= k < j && Covers(vs[k], at) ==> Inner(vs[j], vs[k])
    ensures j < 0 ==> forall k :: 0 <= k < n ==> !Covers(vs[k], at)
  {
    if n == 0 then -1
    else
      var j := Best(vs, n - 1, at);
      if Covers(vs[n - 1], at) && (j < 0 || Inner(vs[n - 1], vs[j])) then n - 1 else j
  }

  lemma BestIsInnermost(vs: seq<Interval>, at: int)
    ensures var j := Best(vs, |vs|, at);
            KindAt(vs, at) == if j < 0 then None else Some(vs[j].kind)
  {
    var j := Best(vs, |vs|, at);
    if j >= 0 {
      assert IsInnermost(vs, at, j);
      var i :| IsInnermost(vs, at, i) && KindAt(vs, at) == Some(vs[i].kind);
      InnermostUnique(vs, at, i, j);
    }
  }

  // -------------------------------------------------------------- boundaries

  ghost predicate Sorted(s: seq<int>) {
    forall i, j :: 0 <= i < j < |s| ==> s[i] <= s[j]
  }

  ghost predicate StrictlySorted(s: seq<int>) {
    forall i, j :: 0 <= i < j < |s| ==> s[i] < s[j]
  }

  predicate Earlier(x: int, y: int) {
    x < y
  }

  predicate NoLater(x: int, y: int) {
    x <= y
  }

  /** slices.Sort, as far as the sweep depends on it. */
  lemma {:induction false} SortSorts(s: seq<int>)
    ensures Sorted(Ranking.Sort(Earlier, s)) && forall x :: x in Ranking.Sort(Earlier, s) <==> x in s
  {
    Ranking.SortHas(Earlier, s);
    if s != [] {
      var front := s[..|s| - 1];
      SortSorts(front);
      Ranking.InsertKeeps(Earlier, NoLater, s[|s| - 1], Ranking.Sort(Earlier, front));
    }
  }

  /** slices.Compact on a sorted slice. */
  function Compact(s: seq<int>): (r: seq<int>)
    requires Sorted(s)
    ensures StrictlySorted(r) && forall y :: y in r <==> y in s
  {
    if s == [] then []
    else
      var x := s[|s| - 1];
      var front := Compact(s[..|s| - 1]);
      assert s == s[..|s| - 1] + [x];
      if front != [] && front[|front| - 1] == x then front
      else
        assert forall y :: y in front ==> y in s && y <= x;
        front + [x]
  }

  /** Every end of an interval is a boundary, and the boundaries lie in the trace. */
  ghost predicate Bounded(t: Trace, vs: seq<Interval>, b: seq<int>) {
    && (forall j :: 0 <= j < |vs| ==> vs[j].start < vs[j].stop && vs[j].start in b && vs[j].stop in b)
    && (forall x :: x in b ==> t.startedAt <= x <= t.startedAt + t.duration)
  }

  /** Between two neighbouring boundaries nothing starts or stops. */
  lemma SameBetween(t: Trace, vs: seq<Interval>, b: seq<int>, i: nat, at: int)
    requires Bounded(t, vs, b) && StrictlySorted(b) && i + 1 < |b| && b[i] <= at < b[i + 1]
    ensures forall j :: 0 <= j < |vs| ==> (Covers(vs[j], at) <==> Covers(vs[j], b[i]))
    ensures KindAt(vs, at) == KindAt(vs, b[i])
  {
    forall j | 0 <= j < |vs| ensures Covers(vs[j], at) <==> Covers(vs[j], b[i]) {
      var p :| 0 <= p < |b| && b[p] == vs[j].start;
      var q :| 0 <= q < |b| && b[q] == vs[j].stop;
    }
    BestIsInnermost(vs, at);
    BestIsInnermost(vs, b[i]);
    SameBest(vs, |vs|, at, b[i]);
  }

  lemma {:induction false} SameBest(vs: seq<Interval>, n: nat, x: int, y: int)
    requires n <= |vs| && forall j :: 0 <= j < |vs| ==> (Covers(vs[j], x) <==> Covers(vs[j], y))
    ensures Best(vs, n, x) == Best(vs, n, y)
  {
    if n > 0 { SameBest(vs, n - 1, x, y); }
  }

  /** Outside the boundaries nothing is covered. */
  lemma NothingOutside(t: Trace, vs: seq<Interval>, b: seq<int>, at: int)
    requires Bounded(t, vs, b) && StrictlySorted(b) && (b == [] || at < b[0] || at >= b[|b| - 1])
    ensures KindAt(vs, at) == None
  {
    forall j | 0 <= j < |vs| ensures !Covers(vs[j], at) {
      var p :| 0 <= p < |b| && b[p] == vs[j].start;
      var q :| 0 <= q < |b| && b[q] == vs[j].stop;
    }
  }

  // --------------------------------------------------------------- the sweep

  /** The loop over the spans. */
  method Collect(t: Trace) returns (vs: seq<Interval>, boundaries: seq<int>)
    ensures vs == Intervals(t, t.spans) && Bounded(t, vs, boundaries)
  {
    vs, boundaries := [], [];
    var i := 0;
    while i < |t.spans|
      invariant 0 <= i <= |t.spans|
      invariant vs == Intervals(t, t.spans[..i]) && Bounded(t, vs, boundaries)
    {
      var span := t.spans[i];
      assert t.spans[..i + 1][..i] == t.spans[..i];
      i := i + 1;
      if span.duration <= 0 || (span.kind == HTTP && span.depth == 0) { continue; }
      var start, stop := span.startedAt, span.startedAt + span.duration;
      if start < t.startedAt {
        start := t.startedAt;
      }
      if stop > t.startedAt + t.duration {
        stop := t.startedAt + t.duration;
      }
      if stop <= start { continue; }
      vs := vs + [Interval(span.kind, span.depth, start, stop)];
      boundaries := boundaries + [start, stop];
    }
    assert t.spans[..i] == t.spans;
  }

  /** The loop over the intervals, at one boundary. */
  method FindInnermost(vs: seq<Interval>, start: int) returns (active: int)
    ensures active == Best(vs, |vs|, start)
  {
    active := -1;
    var j := 0;
    while j < |vs|
      invariant 0 <= j <= |vs|
      invariant active == Best(vs, j, start)
    {
      var candidate := vs[j];
      if !(candidate.start > start || candidate.stop <= start) {
        if active < 0 || candidate.depth > vs[active].depth
           || (candidate.depth == vs[active].depth && candidate.start > vs[active].start) {
          active := j;
        }
      }
      j := j + 1;
    }
  }

  /** The kind to paint at an offset into the trace. */
  ghost function Wanted(t: Trace, vs: seq<Interval>, x: int): Option<Kind> {
    KindAt(vs, t.startedAt + x)
  }

  /** The segments painted so far: right before offset `upTo`, blank from there on. */
  ghost predicate PaintedTo(t: Trace, vs: seq<Interval>, segments: seq<Segment>, upTo: int) {
    && Tidy(segments, t.duration)
    && (segments != [] ==> End(segments[|segments| - 1]) <= upTo)
    && (forall x :: x < upTo ==> Painted(segments, x) == Wanted(t, vs, x))
  }

  lemma {:induction false} BlankAfter(segments: seq<Segment>, total: int, x: int)
    requires Tidy(segments, total) && (segments != [] ==> End(segments[|segments| - 1]) <= x)
    ensures Painted(segments, x) == None
  {
    if segments != [] {
      var n := |segments| - 1;
      BlankAfter(segments[..n], total, x);
    }
  }

  lemma PaintedSnoc(segments: seq<Segment>, s: Segment, x: int)
    ensures Painted(segments + [s], x) == if s.offset <= x < End(s) then Some(s.kind) else Painted(segments, x)
  {
    assert (segments + [s])[..|segments|] == segments;
  }

  /** A segment that may follow the given ones. */
  ghost predicate Follows(segments: seq<Segment>, s: Segment, total: int) {
    && 0 <= s.offset < End(s) <= total && s.offsetShare == Share(s.offset, total) && s.share == Share(s.duration, total)
    && (segments != [] ==>
          var last := segments[|segments| - 1];
          End(last) <= s.offset && (End(last) == s.offset ==> last.kind != s.kind))
  }

  lemma TidySnoc(segments: seq<Segment>, s: Segment, total: int)
    requires Tidy(segments, total) && Follows(segments, s, total)
    ensures Tidy(segments + [s], total)
  {
    var r, n := segments + [s], |segments| - 1;
    forall j, k | 0 <= j < k < |r|
      ensures End(r[j]) <= r[k].offset && (End(r[j]) == r[k].offset ==> r[j].kind != r[k].kind)
    {
      if k == n + 1 && j < n { assert End(segments[j]) <= segments[n].offset < End(segments[n]); }
    }
  }

  function Extended(s: Segment, more: int, total: int): Segment {
    s.(duration := s.duration + more, share := Share(s.duration + more, total))
  }

  lemma ExtendPaints(segments: seq<Segment>, more: int, total: int)
    requires segments != [] && Tidy(segments, total) && more > 0 && End(segments[|segments| - 1]) + more <= total
    ensures var n := |segments| - 1; var r := segments[n := Extended(segments[n], more, total)];
            && Tidy(r, total) && End(r[n]) == End(segments[n]) + more
            && forall x :: Painted(r, x) ==
                 if End(segments[n]) <= x < End(segments[n]) + more then Some(segments[n].kind)
                 else Painted(segments, x)
  {
    var n := |segments| - 1;
    var r := segments[n := Extended(segments[n], more, total)];
    assert r[..n] == segments[..n];
  }

  /** Adds the stretch between two offsets in one kind. */
  method Paint(segments: seq<Segment>, kind: Kind, offset: int, duration: int, total: int)
      returns (result: seq<Segment>)
    requires 0 <= offset < offset + duration <= total
    requires Tidy(segments, total) && (segments != [] ==> End(segments[|segments| - 1]) <= offset)
    ensures Tidy(result, total) && result != [] && End(result[|result| - 1]) == offset + duration
    ensures forall x ::
      Painted(result, x) == if offset <= x < offset + duration then Some(kind) else Painted(segments, x)
  {
    var n := |segments| - 1;
    if |segments| > 0 {
      var previous := segments[n];
      if previous.kind == kind && previous.offset + previous.duration == offset {
        ExtendPaints(segments, duration, total);
        result := segments[n := previous.(duration := previous.duration + duration,
                                           share := Share(previous.duration + duration, total))];
        return;
      }
    }
    var s := Segment(kind, offset, duration, Share(offset, total), Share(duration, total));
    TidySnoc(segments, s, total);
    forall x ensures Painted(segments + [s], x)
      == if offset <= x < offset + duration then Some(kind) else Painted(segments, x) {
      PaintedSnoc(segments, s, x);
    }
    result := segments + [s];
  }

  lemma WantedBetween(t: Trace, vs: seq<Interval>, b: seq<int>, i: nat)
    requires Bounded(t, vs, b) && StrictlySorted(b) && i + 1 < |b|
    ensures forall x :: b[i] - t.startedAt <= x < b[i + 1] - t.startedAt ==> Wanted(t, vs, x) == KindAt(vs, b[i])
  {
    forall x | b[i] - t.startedAt <= x < b[i + 1] - t.startedAt ensures Wanted(t, vs, x) == KindAt(vs, b[i]) {
      SameBetween(t, vs, b, i, t.startedAt + x);
    }
  }

  /** One round of the sweep: from boundary `i` to the next. */
  method SweepStep(t: Trace, vs: seq<Interval>, b: seq<int>, i: nat, segments: seq<Segment>)
      returns (result: seq<Segment>)
    requires Bounded(t, vs, b) && StrictlySorted(b) && i + 1 < |b|
    requires PaintedTo(t, vs, segments, b[i] - t.startedAt)
    ensures PaintedTo(t, vs, result, b[i + 1] - t.startedAt)
  {
    var start, stop := b[i], b[i + 1];
    var active := FindInnermost(vs, start);
    BestIsInnermost(vs, start);
    assert start in b && stop in b;
    var from, to := start - t.startedAt, stop - t.startedAt;
    WantedBetween(t, vs, b, i);
    hide Bounded, KindAt, Wanted, StrictlySorted, Best;
    if active < 0 {
      forall x | from <= x ensures Painted(segments, x) == None { BlankAfter(segments, t.duration, x); }
      result := segments;
    } else {
      result := Paint(segments, vs[active].kind, from, stop - start, t.duration);
    }
  }

  /** Timeline. Every instant of the result is painted with the kind of its
      innermost counted span and no other instant is painted; the segments are
      in order, inside the trace and as long as they can be. */
  method Timeline(t: Trace) returns (segments: seq<Segment>)
    ensures Tidy(segments, t.duration)
    ensures t.duration > 0 ==> forall x :: Painted(segments, x) == Wanted(t, Intervals(t, t.spans), x)
    ensures t.duration <= 0 ==> segments == []
  {
    segments := [];
    if t.duration <= 0 || |t.spans| == 0 {
      forall x ensures Wanted(t, [], x) == None {}
      return;
    }
    var vs, unsorted := Collect(t);
    SortSorts(unsorted);
    var b := Compact(Ranking.Sort(Earlier, unsorted));
    if |vs| == 0 {
      forall x ensures Wanted(t, vs, x) == None {}
      return;
    }
    assert vs[0].start in b;
    segments := Sweep(t, vs, b);
  }

  /** The loop over the boundaries. */
  method Sweep(t: Trace, vs: seq<Interval>, b: seq<int>) returns (segments: seq<Segment>)
    requires Bounded(t, vs, b) && StrictlySorted(b) && b != []
    ensures Tidy(segments, t.duration)
    ensures forall x :: Painted(segments, x) == Wanted(t, vs, x)
  {
    segments := [];
    forall x | x < b[0] - t.startedAt ensures Wanted(t, vs, x) == None { NothingOutside(t, vs, b, t.startedAt + x); }
    var i := 0;
    while i + 1 < |b|
      invariant 0 <= i < |b| && PaintedTo(t, vs, segments, b[i] - t.startedAt)
    {
      segments := SweepStep(t, vs, b, i, segments);
      i := i + 1;
    }
    forall x | x >= b[i] - t.startedAt ensures Painted(segments, x) == None == Wanted(t, vs, x) {
      NothingOutside(t, vs, b, t.startedAt + x);
      BlankAfter(segments, t.duration, x);
    }
  }

  // ------------------------------------------------------ what it determines

  /** Of two spans the deeper one is further in, then the one that starts later
      within the trace. */
  predicate Further(t: Trace, a: Span, b: Span) {
    a.depth > b.depth || (a.depth == b.depth && Max(a.startedAt, t.startedAt) > Max(b.startedAt, t.startedAt))
  }

  /** Span `i` is the innermost that counts at an instant: no other is further
      in, and those as far in come after it. */
  ghost predicate InnermostSpan(t: Trace, spans: seq<Span>, at: int, i: int) {
    && 0 <= i < |spans| && Counts(t, spans[i], at)
    && (forall k :: 0 <= k < |spans| && Counts(t, spans[k], at) ==> !Further(t, spans[k], spans[i]))
    && (forall k :: 0 <= k < i && Counts(t, spans[k], at) ==> Further(t, spans[i], spans[k]))
  }

  ghost predicate NoneCounts(t: Trace, spans: seq<Span>, at: int) {
    forall i :: 0 <= i < |spans| ==> !Counts(t, spans[i], at)
  }

  lemma {:induction false} BestOfFront(vs: seq<Interval>, v: Interval, n: nat, at: int)
    requires n <= |vs|
    ensures Best(vs + [v], n, at) == Best(vs, n, at)
  {
    if n > 0 { BestOfFront(vs, v, n - 1, at); }
  }

  lemma BestSnoc(vs: seq<Interval>, v: Interval, at: int)
    ensures var j, more := Best(vs, |vs|, at), vs + [v];
            Best(more, |more|, at) == if Covers(v, at) && (j < 0 || Inner(v, vs[j])) then |vs| else j
  {
    BestOfFront(vs, v, |vs|, at);
  }

  /** The innermost span of a list with one span more. */
  lemma InnermostSnoc(t: Trace, spans: seq<Span>, s: Span, at: int, i: int)
    requires if i < 0 then NoneCounts(t, spans, at) else InnermostSpan(t, spans, at, i)
    ensures var all := spans + [s];
            if Counts(t, s, at) && (i < 0 || Further(t, s, spans[i])) then InnermostSpan(t, all, at, |spans|)
            else if i < 0 then NoneCounts(t, all, at) else InnermostSpan(t, all, at, i)
  {
    var all := spans + [s];
    assert all[|spans|] == s && forall k :: 0 <= k < |spans| ==> all[k] == spans[k];
  }

  /** The clipped interval the sweep picks is that of the innermost span. */
  lemma {:induction false} BestIsInnermostSpan(t: Trace, spans: seq<Span>, at: int) returns (i: int)
    ensures var vs := Intervals(t, spans); var j := Best(vs, |vs|, at);
            if j < 0 then i < 0 && NoneCounts(t, spans, at)
            else InnermostSpan(t, spans, at, i) && Clip(t, spans[i]) == Some(vs[j])
  {
    if spans == [] {
      i := -1;
    } else {
      var front, s := spans[..|spans| - 1], spans[|spans| - 1];
      assert spans == front + [s];
      i := BestIsInnermostSpan(t, front, at);
      InnermostSnoc(t, front, s, at, i);
      var clip, isNew := Clip(t, s), Counts(t, s, at) && (i < 0 || Further(t, s, front[i]));
      assert Counts(t, s, at) <==> clip.Some? && Covers(clip.value, at);
      hide InnermostSpan, NoneCounts, Counts, Best;
      if clip.Some? {
        BestSnoc(Intervals(t, front), clip.value, at);
        if isNew { i := |front|; }
      }
    }
  }

  /** The instants of the trace that are painted are those some counted span
      covers, and each has the kind of the innermost one: the deepest, then the
      one that starts latest within the trace, then the first. */
  lemma PaintedIffCounted(t: Trace, segments: seq<Segment>, at: int)
    requires t.duration > 0 && forall y :: Painted(segments, y) == Wanted(t, Intervals(t, t.spans), y)
    ensures Painted(segments, at - t.startedAt).None? <==> NoneCounts(t, t.spans, at)
    ensures Painted(segments, at - t.startedAt).Some? ==> exists i :: InnermostSpan(t, t.spans, at, i)
    ensures forall i :: InnermostSpan(t, t.spans, at, i) ==>
      Painted(segments, at - t.startedAt) == Some(t.spans[i].kind)
  {
    var vs := Intervals(t, t.spans);
    BestIsInnermost(vs, at);
    var i := BestIsInnermostSpan(t, t.spans, at);
    assert Painted(segments, at - t.startedAt) == KindAt(vs, at);
    assert InnermostSpan(t, t.spans, at, i) ==> !NoneCounts(t, t.spans, at);
    hide Painted, KindAt, Intervals, Best, NoneCounts;
    forall k | InnermostSpan(t, t.spans, at, k)
      ensures Painted(segments, at - t.startedAt) == Some(t.spans[k].kind)
    {
      InnermostCounts(t, t.spans, at, k);
      InnermostSpanUnique(t, t.spans, at, k, i);
    }
  }

  lemma InnermostCounts(t: Trace, spans: seq<Span>, at: int, i: int)
    requires InnermostSpan(t, spans, at, i)
    ensures !NoneCounts(t, spans, at)
  {
  }

  lemma InnermostSpanUnique(t: Trace, spans: seq<Span>, at: int, i: int, j: int)
    requires InnermostSpan(t, spans, at, i) && InnermostSpan(t, spans, at, j)
    ensures i == j
  {
  }

  lemma {:induction false} PaintedInside(segments: seq<Segment>, total: int, k: nat, x: int)
    requires Tidy(segments, total) && k < |segments| && segments[k].offset <= x < End(segments[k])
    ensures Painted(segments, x) == Some(segments[k].kind)
  {
    var n := |segments| - 1;
    if k < n {
      PaintedInside(segments[..n], total, k, x);
    }
  }

  ghost predicate SamePainting(a: seq<Segment>, b: seq<Segment>) {
    forall x :: Painted(a, x) == Painted(b, x)
  }

  lemma EndsNoLater(a: seq<Segment>, b: seq<Segment>, total: int)
    requires a != [] && Tidy(a, total) && Tidy(b, total) && SamePainting(a, b)
    ensures b != [] && End(a[|a| - 1]) <= End(b[|b| - 1])
  {
    var x := End(a[|a| - 1]) - 1;
    PaintedInside(a, total, |a| - 1, x);
    if b == [] || End(b[|b| - 1]) <= x { BlankAfter(b, total, x); }
  }

  lemma TidyFront(s: seq<Segment>, total: int)
    requires s != [] && Tidy(s, total)
    ensures Tidy(s[..|s| - 1], total)
  {
  }

  lemma PaintedBefore(segments: seq<Segment>, x: int)
    requires segments != [] && x < segments[|segments| - 1].offset
    ensures Painted(segments, x) == Painted(segments[..|segments| - 1], x)
  {
  }

  /** What is painted last of all is the end of the last segment. */
  lemma PaintedAtEnd(segments: seq<Segment>, total: int, x: int)
    requires Tidy(segments, total) && Painted(segments, x).Some?
    requires segments != [] ==> End(segments[|segments| - 1]) <= x + 1
    ensures segments != [] && End(segments[|segments| - 1]) == x + 1
    ensures Painted(segments, x) == Some(segments[|segments| - 1].kind)
  {
    if segments == [] || End(segments[|segments| - 1]) <= x {
      BlankAfter(segments, total, x);
    } else {
      PaintedInside(segments, total, |segments| - 1, x);
    }
  }

  /** Were the last segment of `a` to start earlier, `b` would show its kind
      just before its own last segment, in a segment that touches it. */
  lemma StartsNoEarlier(a: seq<Segment>, b: seq<Segment>, total: int)
    requires a != [] && b != [] && Tidy(a, total) && Tidy(b, total) && SamePainting(a, b)
    requires End(a[|a| - 1]) == End(b[|b| - 1]) && a[|a| - 1].kind == b[|b| - 1].kind
    ensures a[|a| - 1].offset >= b[|b| - 1].offset
  {
    hide Painted;
    var s, u, front := a[|a| - 1], b[|b| - 1], b[..|b| - 1];
    if s.offset < u.offset {
      var x := u.offset - 1;
      TidyFront(b, total);
      PaintedInside(a, total, |a| - 1, x);
      PaintedBefore(b, x);
      PaintedAtEnd(front, total, x);
    }
  }

  lemma SameLast(a: seq<Segment>, b: seq<Segment>, total: int)
    requires a != [] && Tidy(a, total) && Tidy(b, total) && SamePainting(a, b)
    ensures b != [] && a[|a| - 1] == b[|b| - 1]
  {
    EndsNoLater(a, b, total);
    EndsNoLater(b, a, total);
    var x := End(a[|a| - 1]) - 1;
    PaintedInside(a, total, |a| - 1, x);
    PaintedInside(b, total, |b| - 1, x);
    StartsNoEarlier(a, b, total);
    StartsNoEarlier(b, a, total);
  }

  lemma SameFront(a: seq<Segment>, b: seq<Segment>, total: int)
    requires a != [] && b != [] && Tidy(a, total) && Tidy(b, total) && SamePainting(a, b) && a[|a| - 1] == b[|b| - 1]
    ensures SamePainting(a[..|a| - 1], b[..|b| - 1])
  {
    var m, n := |a| - 1, |b| - 1;
    forall x ensures Painted(a[..m], x) == Painted(b[..n], x) {
      assert Painted(a, x) == Painted(b, x);
      if a[m].offset <= x {
        BlankAfter(a[..m], total, x);
        BlankAfter(b[..n], total, x);
      }
    }
  }

  /** The claims about Timeline leave no choice: what is painted decides the
      list of segments. */
  lemma {:induction false} PaintingDecides(a: seq<Segment>, b: seq<Segment>, total: int)
    requires Tidy(a, total) && Tidy(b, total) && SamePainting(a, b)
    ensures a == b
  {
    if a != [] {
      SameLast(a, b, total);
      SameFront(a, b, total);
      TidyFront(a, total);
      TidyFront(b, total);
      hide Tidy, SamePainting;
      PaintingDecides(a[..|a| - 1], b[..|b| - 1], total);
      assert a == a[..|a| - 1] + [a[|a| - 1]] && b == b[..|b| - 1] + [b[|b| - 1]];
    } else if b != [] {
      SameLast(b, a, total);
    }
  }
}
