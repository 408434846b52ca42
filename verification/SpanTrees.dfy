/** The parent links of the spans of a trace (model/trace.go): when a start
    keeps them a tree, and when a run does. */
module SpanTrees {
  import opened Lists
  import opened Recording
  import opened RecorderRuns

  ghost predicate TreeEdge(t: Trace, id: nat)
    requires Has(t, id)
  {
    var s := SpanOf(t, id);
    if s.parentId == 0 then s.depth == 0
    else
      && Has(t, s.parentId)
      && s.parentId < id
      && SpanOf(t, s.parentId).startedAt < s.startedAt
      && s.depth == SpanOf(t, s.parentId).depth + 1
  }

  /** Every child has a larger id, a later start and a depth one more than its
      parent, dropped parents included. */
  ghost predicate Tree(t: Trace) {
    forall id {:trigger Has(t, id)} :: Has(t, id) ==> TreeEdge(t, id)
  }

  /** A refused start adds no span. */
  predicate Refused(t: Trace) {
    t.finished || Full(t, |t.list|)
  }

  /** What a parent must be for a new span to fit the tree: a span of another
      trace under the same trace id must have the number and the depth of a
      span of this one. */
  predicate Fits(t: Trace, p: Parent) {
    !Refused(t) && p.Foreign? && p.traceId == t.id ==> Has(t, p.id) && SpanOf(t, p.id).depth == p.depth
  }

  /** The spans a step keeps have the parents, depths and starts they had. */
  ghost predicate SameEdges(t: Trace, t': Trace) {
    |t.all| <= |t'.all| && forall i :: 0 <= i < |t.all| ==>
      t'.all[i].parentId == t.all[i].parentId && t'.all[i].depth == t.all[i].depth
      && t'.all[i].startedAt == t.all[i].startedAt
  }

  /** A span's place in the tree is decided when it starts. */
  lemma EdgeStays(t: Trace, t': Trace, id: nat)
    requires SameEdges(t, t') && Has(t, id)
    ensures TreeEdge(t', id) <==> TreeEdge(t, id)
  {
    assert t'.all[id - 1].parentId == t.all[id - 1].parentId;
    var parent := t.all[id - 1].parentId;
    assert Has(t, parent) ==> t'.all[parent - 1].depth == t.all[parent - 1].depth;
  }

  lemma TreeStays(t: Trace, t': Trace)
    requires SameEdges(t, t') && |t'.all| == |t.all|
    ensures Tree(t') <==> Tree(t)
  {
    hide SameEdges, TreeEdge;
    forall id: nat | Has(t, id) ensures Has(t', id) && (TreeEdge(t', id) <==> TreeEdge(t, id)) { EdgeStays(t, t', id); }
    forall id: nat | Has(t', id) ensures Has(t, id) {}
  }

  lemma TreeGrows(t: Trace, t': Trace)
    requires SameEdges(t, t') && |t'.all| == |t.all| + 1
    ensures Tree(t') <==> Tree(t) && TreeEdge(t', |t.all| + 1)
  {
    hide SameEdges, TreeEdge;
    forall id: nat | Has(t, id) ensures Has(t', id) && (TreeEdge(t', id) <==> TreeEdge(t, id)) { EdgeStays(t, t', id); }
    assert Has(t', |t.all| + 1);
    forall id: nat | Has(t', id) ensures Has(t, id) || id == |t.all| + 1 {}
  }

  lemma NewEdge(t: Trace, p: Parent, name: string, kind: string, raw: int)
    requires Inv(t) && KnownParent(t, p) && !Refused(t)
    ensures TreeEdge(AppendSpan(t, p, name, kind, raw), |t.all| + 1) <==> Fits(t, p)
  {
    hide Accounted;
    if (p.Own? || p.Foreign?) && Has(t, p.id) { assert Timed(t, p.id); }
  }

  /** Starting a span keeps the tree exactly when its parent fits. */
  lemma StartKeepsTreeIff(t: Trace, p: Parent, name: string, kind: string, raw: int)
    requires Inv(t) && KnownParent(t, p)
    ensures Tree(AppendSpan(t, p, name, kind, raw)) <==> Tree(t) && Fits(t, p)
  {
    hide Accounted, Shaped, TreeEdge, Tree;
    var t' := AppendSpan(t, p, name, kind, raw);
    assert SameEdges(t, t');
    hide Link;
    if Refused(t) {
      TreeStays(t, t');
    } else {
      NewEdge(t, p, name, kind, raw);
      TreeGrows(t, t');
    }
  }

  /** Two traces under one id: a span whose context carries the other trace's
      span takes that span's number for its parent, so it can name itself. */
  lemma SharedIdBreaksTree()
    ensures var t := New("id", Options(0, 0), 0);
            var p := Foreign("id", 1, 0);
            !Fits(t, p) && Tree(t) && !Tree(AppendSpan(t, p, "child", "internal", 0))
  {
    var t := AppendSpan(New("id", Options(0, 0), 0), Foreign("id", 1, 0), "child", "internal", 0);
    assert Has(t, 1) && !TreeEdge(t, 1);
  }

  // -------------------------------------------------------------------- runs

  lemma NextKeepsEdges(w: World, w': World, g: nat, step: Step)
    requires Next(w, w', g, step) && !step.Start?
    ensures SameEdges(w.trace, w'.trace) && |w'.trace.all| == |w.trace.all|
  {
    hide Shaped, StateIndex, OpenSpan, Link, RemoveLast;
  }

  lemma NextKeepsTreeIff(w: World, w': World, g: nat, step: Step)
    requires Next(w, w', g, step)
    ensures Tree(w'.trace) <==> Tree(w.trace) && (step.Start? ==> Fits(w.trace, step.parent))
  {
    hide Tree, AppendSpan, Fits, Inv, SameEdges;
    if step.Start? {
      StartKeepsTreeIff(w.trace, step.parent, step.name, step.kind, step.raw);
    } else {
      NextKeepsEdges(w, w', g, step);
      TreeStays(w.trace, w'.trace);
    }
  }

  /** The parent of every start in the first `i` steps fits. */
  ghost predicate ParentsFit(run: seq<World>, events: seq<Event>, i: nat)
    requires i <= |events| < |run|
  {
    forall k :: 0 <= k < i && events[k].step.Start? ==> Fits(run[k].trace, events[k].step.parent)
  }

  /** Parents come first: in every reachable state the spans form a forest
      exactly when every start so far had a parent that fits. A misplaced span
      is never put right. */
  lemma {:induction false} SpansFormForestIff(run: seq<World>, events: seq<Event>, i: nat)
    requires Run(run, events) && i < |run|
    ensures Tree(run[i].trace) <==> ParentsFit(run, events, i)
  {
    hide Next, Fits;
    if i > 0 {
      SpansFormForestIff(run, events, i - 1);
      NextKeepsTreeIff(run[i - 1], run[i], events[i - 1].goroutine, events[i - 1].step);
    }
  }
}
