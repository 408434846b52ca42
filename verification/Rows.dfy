/** Flattening the spans of a trace into render rows (frontend/view/timeline.go):
    a depth-first walk from the roots, then whatever the walk missed. */
module Rows {
  import opened Timeline

  /** A recorded span; `parentId` is zero for a root, and may name a span that
      was dropped or one further down. */
  datatype Node = Node(id: int, parentId: int, startedAt: int, duration: int)

  datatype Row = Row(node: Node, offset: int, open: bool, last: bool, offsetShare: Ratio, share: Ratio)

  datatype Tree = Tree(startedAt: int, duration: int, nodes: seq<Node>)

  /** What every recorded list has: ids count from one. */
  ghost predicate Numbered(nodes: seq<Node>) {
    && (forall i, j :: 0 <= i < j < |nodes| ==> nodes[i].id != nodes[j].id)
    && (forall i :: 0 <= i < |nodes| ==> nodes[i].id != 0)
  }

  function RowOf(t: Tree, node: Node, last: bool): Row {
    var zero := Ratio(0, 1);
    Row(node, node.startedAt - t.startedAt, node.duration == 0, last,
        if t.duration > 0 then Share(node.startedAt - t.startedAt, t.duration) else zero,
        if t.duration > 0 then Share(node.duration, t.duration) else zero)
  }

  /** The spans under a parent, in list order. */
  function Children(nodes: seq<Node>, parent: int): (r: seq<Node>)
    ensures forall n :: n in r <==> n in nodes && n.parentId == parent
  {
    if nodes == [] then []
    else
      var n := |nodes| - 1;
      assert nodes == nodes[..n] + [nodes[n]];
      var front := Children(nodes[..n], parent);
      if nodes[n].parentId == parent then front + [nodes[n]] else front
  }

  // -------------------------------------------------------------------- paths

  ghost predicate Edge(nodes: seq<Node>, parent: int, id: int) {
    exists n :: n in nodes && n.id == id && n.parentId == parent
  }

  /** Ids from zero down, each the parent of the next. */
  ghost predicate Path(nodes: seq<Node>, p: seq<int>) {
    p != [] && if |p| == 1 then p[0] == 0 else Path(nodes, p[..|p| - 1]) && Edge(nodes, p[|p| - 2], p[|p| - 1])
  }

  /** The ancestors of a span lead up to a root. */
  ghost predicate Reachable(nodes: seq<Node>, id: int) {
    exists p :: Path(nodes, p) && |p| > 1 && p[|p| - 1] == id
  }

  /** A span has one parent, so it ends one path. */
  lemma {:induction false} PathUnique(nodes: seq<Node>, p: seq<int>, q: seq<int>)
    requires Numbered(nodes) && Path(nodes, p) && Path(nodes, q) && p[|p| - 1] == q[|q| - 1]
    ensures p == q
    decreases |p|
  {
    var m, n := |p| - 1, |q| - 1;
    if m > 0 && n > 0 {
      assert p[m - 1] == q[n - 1];
      PathUnique(nodes, p[..m], q[..n]);
      assert p == p[..m] + [p[m]] && q == q[..n] + [q[n]];
    }
  }

  lemma {:induction false} PathPrefix(nodes: seq<Node>, p: seq<int>, k: nat)
    requires Path(nodes, p) && 0 < k <= |p|
    ensures Path(nodes, p[..k])
    decreases |p|
  {
    if k < |p| {
      assert p[..|p| - 1][..k] == p[..k];
      PathPrefix(nodes, p[..|p| - 1], k);
    } else {
      assert p[..k] == p;
    }
  }

  ghost function IdsOf(nodes: seq<Node>): set<int> {
    set n | n in nodes :: n.id
  }

  lemma {:induction false} IdCount(nodes: seq<Node>)
    requires forall i, j :: 0 <= i < j < |nodes| ==> nodes[i].id != nodes[j].id
    ensures |IdsOf(nodes)| == |nodes|
  {
    if nodes != [] {
      var n := |nodes| - 1;
      IdCount(nodes[..n]);
      assert nodes == nodes[..n] + [nodes[n]];
      assert IdsOf(nodes) == IdsOf(nodes[..n]) + {nodes[n].id};
    } else {
      assert IdsOf(nodes) == {};
    }
  }

  ghost function Below(p: seq<int>): set<int>
    requires p != []
  {
    set k | 0 < k < |p| :: p[k]
  }

  /** A path never comes back, so it is no longer than the list. */
  lemma {:induction false} PathSize(nodes: seq<Node>, p: seq<int>)
    requires Numbered(nodes) && Path(nodes, p)
    ensures Below(p) <= IdsOf(nodes) && |Below(p)| == |p| - 1
    decreases |p|
  {
    var n := |p| - 1;
    if n == 0 {
      assert Below(p) == {};
    } else {
      PathSize(nodes, p[..n]);
      if p[n] in Below(p[..n]) {
        var k :| 0 < k < n && p[..n][k] == p[n];
        PathPrefix(nodes, p, k + 1);
        PathUnique(nodes, p[..k + 1], p);
      }
      assert Below(p) == Below(p[..n]) + {p[n]};
    }
  }

  lemma PathIsShort(nodes: seq<Node>, p: seq<int>)
    requires Numbered(nodes) && Path(nodes, p)
    ensures |p| <= |nodes| + 1
  {
    PathSize(nodes, p);
    IdCount(nodes);
    assert IdsOf(nodes) == Below(p) + (IdsOf(nodes) - Below(p));
  }

  /** One step further down a path. */
  lemma Descend(nodes: seq<Node>, p: seq<int>, n: Node)
    requires Numbered(nodes) && Path(nodes, p) && n in nodes && n.parentId == p[|p| - 1]
    ensures Path(nodes, p + [n.id]) && |p| <= |nodes|
  {
    var q := p + [n.id];
    assert q[..|q| - 1] == p;
    PathIsShort(nodes, q);
  }

  // ----------------------------------------------------------------- the walk

  /** The rows below the end of a path: for each child in list order, its row
      and then everything below it. */
  ghost function Walked(t: Tree, p: seq<int>): seq<Row>
    requires Numbered(t.nodes) && Path(t.nodes, p)
    decreases |t.nodes| + 1 - |p|, 1, 0
  {
    PathIsShort(t.nodes, p);
    WalkedFrom(t, p, Children(t.nodes, p[|p| - 1]), 0)
  }

  ghost function WalkedFrom(t: Tree, p: seq<int>, siblings: seq<Node>, i: nat): seq<Row>
    requires Numbered(t.nodes) && Path(t.nodes, p)
    requires siblings == Children(t.nodes, p[|p| - 1]) && i <= |siblings|
    decreases |t.nodes| + 1 - |p|, 0, |siblings| - i
  {
    if i == |siblings| then []
    else
      Descend(t.nodes, p, siblings[i]);
      [RowOf(t, siblings[i], i == |siblings| - 1)] + Walked(t, p + [siblings[i].id]) + WalkedFrom(t, p, siblings, i + 1)
  }

  /** The recursive closure. The path is what the proof of its return follows:
      it cannot come back to a span, so it cannot go on for ever. */
  method Walk(t: Tree, children: map<int, seq<Node>>, parent: int, ghost p: seq<int>, rows: seq<Row>)
      returns (result: seq<Row>)
    requires Numbered(t.nodes) && Path(t.nodes, p) && p[|p| - 1] == parent
    requires forall k :: (if k in children then children[k] else []) == Children(t.nodes, k)
    ensures result == rows + Walked(t, p)
    decreases |t.nodes| + 1 - |p|
  {
    PathIsShort(t.nodes, p);
    var siblings := if parent in children then children[parent] else [];
    result := rows;
    var i := 0;
    while i < |siblings|
      invariant 0 <= i <= |siblings|
      invariant result + WalkedFrom(t, p, siblings, i) == rows + Walked(t, p)
    {
      Descend(t.nodes, p, siblings[i]);
      ghost var before, row := result, RowOf(t, siblings[i], i == |siblings| - 1);
      result := result + [RowOf(t, siblings[i], i == |siblings| - 1)];
      result := Walk(t, children, siblings[i].id, p + [siblings[i].id], result);
      Regroup(before, row, Walked(t, p + [siblings[i].id]), WalkedFrom(t, p, siblings, i + 1));
      i := i + 1;
    }
  }

  lemma Regroup(a: seq<Row>, row: Row, b: seq<Row>, c: seq<Row>)
    ensures a + [row] + b + c == a + ([row] + b + c)
  {
  }

  // ------------------------------------------------ each span once, no more

  /** Below the end of `p`, at any depth. */
  ghost predicate Under(nodes: seq<Node>, p: seq<int>, id: int) {
    exists q :: Path(nodes, q) && |q| > |p| && q[..|p|] == p && q[|q| - 1] == id
  }

  ghost predicate Holds(rows: seq<Row>, id: int) {
    exists k :: 0 <= k < |rows| && rows[k].node.id == id
  }

  ghost predicate NoRepeats(rows: seq<Row>) {
    forall i, j :: 0 <= i < j < |rows| ==> rows[i].node.id != rows[j].node.id
  }

  ghost predicate FromTree(rows: seq<Row>, nodes: seq<Node>) {
    forall k :: 0 <= k < |rows| ==> rows[k].node in nodes
  }

  lemma NoRepeatsConcat(a: seq<Row>, b: seq<Row>)
    requires NoRepeats(a) && NoRepeats(b)
    requires forall j :: 0 <= j < |b| ==> !Holds(a, b[j].node.id)
    ensures NoRepeats(a + b)
  {
    forall i, j | 0 <= i < j < |a + b| ensures (a + b)[i].node.id != (a + b)[j].node.id {
      if i < |a| <= j {
        assert !Holds(a, b[j - |a|].node.id);
      }
    }
  }

  lemma HoldsConcat(a: seq<Row>, b: seq<Row>, id: int)
    ensures Holds(a + b, id) <==> Holds(a, id) || Holds(b, id)
  {
    if Holds(a, id) {
      var k :| 0 <= k < |a| && a[k].node.id == id;
      assert (a + b)[k].node.id == id;
    }
    if Holds(b, id) {
      var k :| 0 <= k < |b| && b[k].node.id == id;
      assert (a + b)[|a| + k].node.id == id;
    }
  }

  /** `id` is the child `n` of the end of `p`, or below it. */
  ghost predicate AtOrUnder(nodes: seq<Node>, p: seq<int>, n: Node, id: int) {
    n.id == id || Under(nodes, p + [n.id], id)
  }

  /** Below a path is a child or below a child. */
  lemma UnderChild(nodes: seq<Node>, p: seq<int>, id: int) returns (n: Node)
    requires Numbered(nodes) && Path(nodes, p) && Under(nodes, p, id)
    ensures n in nodes && n.parentId == p[|p| - 1] && AtOrUnder(nodes, p, n, id)
  {
    var q :| Path(nodes, q) && |q| > |p| && q[..|p|] == p && q[|q| - 1] == id;
    PathPrefix(nodes, q, |p| + 1);
    var r := q[..|p| + 1];
    assert r[..|p|] == p && r[|r| - 2] == p[|p| - 1];
    assert Edge(nodes, r[|r| - 2], r[|r| - 1]);
    n :| n in nodes && n.id == r[|p|] && n.parentId == p[|p| - 1];
    assert r == p + [n.id];
    if |q| > |r| { assert q[..|r|] == r; }
  }

  lemma ChildIsUnder(nodes: seq<Node>, p: seq<int>, n: Node, id: int)
    requires Numbered(nodes) && Path(nodes, p) && n in nodes && n.parentId == p[|p| - 1] && AtOrUnder(nodes, p, n, id)
    ensures Under(nodes, p, id)
  {
    Descend(nodes, p, n);
    var r := p + [n.id];
    assert r[..|p|] == p;
    if n.id != id {
      var q :| Path(nodes, q) && |q| > |r| && q[..|r|] == r && q[|q| - 1] == id;
      assert q[..|p|] == r[..|p|];
    }
  }

  /** What is below one path is below no other of the same length. */
  lemma UnderOne(nodes: seq<Node>, p: seq<int>, q: seq<int>, id: int)
    requires Numbered(nodes) && |p| == |q| && Under(nodes, p, id) && Under(nodes, q, id)
    ensures p == q
  {
    var a :| Path(nodes, a) && |a| > |p| && a[..|p|] == p && a[|a| - 1] == id;
    var b :| Path(nodes, b) && |b| > |q| && b[..|q|] == q && b[|b| - 1] == id;
    PathUnique(nodes, a, b);
  }

  lemma NotUnderItself(nodes: seq<Node>, p: seq<int>)
    requires Numbered(nodes) && Path(nodes, p)
    ensures !Under(nodes, p, p[|p| - 1])
  {
    if Under(nodes, p, p[|p| - 1]) {
      var q :| Path(nodes, q) && |q| > |p| && q[..|p|] == p && q[|q| - 1] == p[|p| - 1];
      PathUnique(nodes, p, q);
    }
  }

  /** The walk below a path lists exactly the spans below it, each once. */
  lemma {:induction false} WalkedIsUnder(t: Tree, p: seq<int>)
    requires Numbered(t.nodes) && Path(t.nodes, p)
    ensures NoRepeats(Walked(t, p)) && FromTree(Walked(t, p), t.nodes)
    ensures forall id :: Holds(Walked(t, p), id) <==> Under(t.nodes, p, id)
    decreases |t.nodes| + 1 - |p|, 1, 0
  {
    PathIsShort(t.nodes, p);
    var siblings := Children(t.nodes, p[|p| - 1]);
    WalkedFromIsUnder(t, p, siblings, 0);
    forall id ensures Holds(Walked(t, p), id) <==> Under(t.nodes, p, id) {
      if Under(t.nodes, p, id) {
        var n := UnderChild(t.nodes, p, id);
        assert n in siblings;
        var k :| 0 <= k < |siblings| && siblings[k] == n;
        assert AtOrUnder(t.nodes, p, siblings[k], id);
      }
      if UnderFrom(t.nodes, p, siblings, 0, id) {
        var k :| 0 <= k < |siblings| && AtOrUnder(t.nodes, p, siblings[k], id);
        assert siblings[k] in siblings;
        ChildIsUnder(t.nodes, p, siblings[k], id);
      }
    }
  }

  lemma NumberedFront(nodes: seq<Node>, n: nat)
    requires Numbered(nodes) && |nodes| == n + 1
    ensures Numbered(nodes[..n]) && nodes[n].id != 0 && forall c :: c in nodes[..n] ==> c.id != nodes[n].id
  {
  }

  lemma NumberedSnoc(nodes: seq<Node>, n: Node)
    requires Numbered(nodes) && n.id != 0 && forall c :: c in nodes ==> c.id != n.id
    ensures Numbered(nodes + [n])
  {
  }

  lemma {:induction false} ChildrenDistinct(nodes: seq<Node>, parent: int)
    requires Numbered(nodes)
    ensures Numbered(Children(nodes, parent))
  {
    if nodes != [] {
      var n := |nodes| - 1;
      NumberedFront(nodes, n);
      hide Numbered;
      ChildrenDistinct(nodes[..n], parent);
      NumberedSnoc(Children(nodes[..n], parent), nodes[n]);
    }
  }

  ghost predicate UnderFrom(nodes: seq<Node>, p: seq<int>, siblings: seq<Node>, i: nat, id: int) {
    exists k :: i <= k < |siblings| && AtOrUnder(nodes, p, siblings[k], id)
  }

  lemma UnderFromStep(nodes: seq<Node>, p: seq<int>, siblings: seq<Node>, i: nat, id: int)
    requires i < |siblings|
    ensures UnderFrom(nodes, p, siblings, i, id) <==>
              AtOrUnder(nodes, p, siblings[i], id) || UnderFrom(nodes, p, siblings, i + 1, id)
  {
  }

  /** A row and the rows below it hold a child and what is below it, once. */
  lemma ChildPart(t: Tree, p: seq<int>, n: Node, row: seq<Row>, below: seq<Row>)
    requires Numbered(t.nodes) && Path(t.nodes, p) && n in t.nodes && n.parentId == p[|p| - 1]
    requires |row| == 1 && row[0].node == n
    requires NoRepeats(below) && forall id :: Holds(below, id) <==> Under(t.nodes, p + [n.id], id)
    ensures NoRepeats(row + below)
    ensures forall id :: Holds(row + below, id) <==> AtOrUnder(t.nodes, p, n, id)
  {
    Descend(t.nodes, p, n);
    NotUnderItself(t.nodes, p + [n.id]);
    assert (p + [n.id])[|p|] == n.id;
    hide Numbered, Path, Under, Holds, NoRepeats;
    forall id ensures Holds(row, id) <==> id == n.id { HoldsOne(row, id); }
    forall j | 0 <= j < |below| ensures !Holds(row, below[j].node.id) { HoldsAt(below, j); }
    OneNoRepeats(row);
    NoRepeatsConcat(row, below);
    forall id ensures Holds(row + below, id) <==> AtOrUnder(t.nodes, p, n, id) { HoldsConcat(row, below, id); }
  }

  lemma OneNoRepeats(row: seq<Row>)
    requires |row| == 1
    ensures NoRepeats(row)
  {
  }

  lemma HoldsOne(row: seq<Row>, id: int)
    requires |row| == 1
    ensures Holds(row, id) <==> row[0].node.id == id
  {
  }

  lemma HoldsAt(rows: seq<Row>, j: nat)
    requires j < |rows|
    ensures Holds(rows, rows[j].node.id)
  {
  }

  lemma FromTreeConcat(a: seq<Row>, b: seq<Row>, nodes: seq<Node>)
    requires FromTree(a, nodes) && FromTree(b, nodes)
    ensures FromTree(a + b, nodes)
  {
  }

  /** The rows of one child and those of the children after it. */
  lemma RestPart(t: Tree, p: seq<int>, siblings: seq<Node>, i: nat, first: seq<Row>, rest: seq<Row>)
    requires Numbered(t.nodes) && Path(t.nodes, p) && siblings == Children(t.nodes, p[|p| - 1]) && i < |siblings|
    requires NoRepeats(first) && forall id :: Holds(first, id) <==> AtOrUnder(t.nodes, p, siblings[i], id)
    requires NoRepeats(rest) && forall id :: Holds(rest, id) <==> UnderFrom(t.nodes, p, siblings, i + 1, id)
    ensures NoRepeats(first + rest)
    ensures forall id :: Holds(first + rest, id) <==> UnderFrom(t.nodes, p, siblings, i, id)
  {
    forall j | 0 <= j < |rest| ensures !Holds(first, rest[j].node.id) {
      var id := rest[j].node.id;
      assert Holds(rest, id);
      var k :| i + 1 <= k < |siblings| && AtOrUnder(t.nodes, p, siblings[k], id);
      SiblingsApart(t, p, siblings, i, k, id);
    }
    NoRepeatsConcat(first, rest);
    forall id ensures Holds(first + rest, id) <==> UnderFrom(t.nodes, p, siblings, i, id) {
      HoldsConcat(first, rest, id);
      UnderFromStep(t.nodes, p, siblings, i, id);
    }
  }

  lemma {:induction false} WalkedFromIsUnder(t: Tree, p: seq<int>, siblings: seq<Node>, i: nat)
    requires Numbered(t.nodes) && Path(t.nodes, p)
    requires siblings == Children(t.nodes, p[|p| - 1]) && i <= |siblings|
    ensures NoRepeats(WalkedFrom(t, p, siblings, i)) && FromTree(WalkedFrom(t, p, siblings, i), t.nodes)
    ensures forall id :: Holds(WalkedFrom(t, p, siblings, i), id) <==> UnderFrom(t.nodes, p, siblings, i, id)
    decreases |t.nodes| + 1 - |p|, 0, |siblings| - i
  {
    if i < |siblings| {
      var n := siblings[i];
      assert n in siblings;
      Descend(t.nodes, p, n);
      var q := p + [n.id];
      var row, below, rest := [RowOf(t, n, i == |siblings| - 1)], Walked(t, q), WalkedFrom(t, p, siblings, i + 1);
      WalkedIsUnder(t, q);
      WalkedFromIsUnder(t, p, siblings, i + 1);
      assert FromTree(row, t.nodes);
      assert WalkedFrom(t, p, siblings, i) == row + below + rest;
      hide Numbered, Path, Under, UnderFrom, AtOrUnder, Holds, NoRepeats, FromTree, Walked, WalkedFrom;
      FromTreeConcat(row, below, t.nodes);
      FromTreeConcat(row + below, rest, t.nodes);
      ChildPart(t, p, n, row, below);
      RestPart(t, p, siblings, i, row + below, rest);
    }
  }

  /** Nothing is at or below two children. */
  lemma SiblingsApart(t: Tree, p: seq<int>, siblings: seq<Node>, i: nat, k: nat, id: int)
    requires Numbered(t.nodes) && Path(t.nodes, p) && siblings == Children(t.nodes, p[|p| - 1]) && i < k < |siblings|
    ensures !(AtOrUnder(t.nodes, p, siblings[i], id) && AtOrUnder(t.nodes, p, siblings[k], id))
  {
    ChildrenDistinct(t.nodes, p[|p| - 1]);
    var a, b := siblings[i], siblings[k];
    assert a in siblings && b in siblings;
    Descend(t.nodes, p, a);
    Descend(t.nodes, p, b);
    var q, r := p + [a.id], p + [b.id];
    assert q[|p|] != r[|p|];
    EndsUnder(t.nodes, r, q);
    EndsUnder(t.nodes, q, r);
    if Under(t.nodes, q, id) && Under(t.nodes, r, id) { UnderOne(t.nodes, q, r, id); }
  }

  lemma EndsUnder(nodes: seq<Node>, p: seq<int>, q: seq<int>)
    requires Numbered(nodes) && Path(nodes, p) && Path(nodes, q) && |p| == |q| && p != q
    ensures !Under(nodes, p, q[|q| - 1])
  {
    if Under(nodes, p, q[|q| - 1]) {
      var a :| Path(nodes, a) && |a| > |p| && a[..|p|] == p && a[|a| - 1] == q[|q| - 1];
      PathUnique(nodes, a, q);
    }
  }

  // --------------------------------------------------------------- the orphans

  /** The spans of a list that a set of ids leaves out, in list order. */
  function Missed(t: Tree, nodes: seq<Node>, seen: set<int>): (r: seq<Row>)
    ensures forall k :: 0 <= k < |r| ==> r[k].node in nodes && r[k].node.id !in seen && r[k].last
  {
    if nodes == [] then []
    else
      var n := |nodes| - 1;
      assert nodes == nodes[..n] + [nodes[n]];
      var front := Missed(t, nodes[..n], seen);
      if nodes[n].id in seen then front else front + [RowOf(t, nodes[n], true)]
  }

  lemma {:induction false} MissedHolds(t: Tree, nodes: seq<Node>, seen: set<int>)
    requires Numbered(nodes)
    ensures NoRepeats(Missed(t, nodes, seen))
    ensures forall n :: n in nodes ==> (Holds(Missed(t, nodes, seen), n.id) <==> n.id !in seen)
  {
    if nodes != [] {
      var k := |nodes| - 1;
      var front, all := Missed(t, nodes[..k], seen), Missed(t, nodes, seen);
      MissedHolds(t, nodes[..k], seen);
      assert nodes == nodes[..k] + [nodes[k]];
      forall n | n in nodes ensures Holds(all, n.id) <==> n.id !in seen {
        if n.id !in seen {
          HoldsConcat(front, [RowOf(t, nodes[k], true)], n.id);
          if n == nodes[k] { assert [RowOf(t, nodes[k], true)][0].node.id == n.id; }
          else { assert n in nodes[..k]; }
        }
      }
    }
  }

  ghost function Root(): seq<int> { [0] }

  /** What Rows returns: the walk from zero, then the spans it left out. */
  ghost function AllRows(t: Tree): seq<Row>
    requires Numbered(t.nodes)
  {
    Walked(t, Root()) + Missed(t, t.nodes, SeenIn(Walked(t, Root())))
  }

  function SeenIn(rows: seq<Row>): set<int> {
    set k | 0 <= k < |rows| :: rows[k].node.id
  }

  lemma ReachableIsUnderRoot(nodes: seq<Node>, id: int)
    requires Numbered(nodes)
    ensures Reachable(nodes, id) <==> Under(nodes, Root(), id)
  {
    if Reachable(nodes, id) {
      var p :| Path(nodes, p) && |p| > 1 && p[|p| - 1] == id;
      PathPrefix(nodes, p, 1);
      assert p[..1] == Root();
    }
  }

  /** The walked rows are the spans whose ancestors lead to a root. */
  lemma WalkedIsReachable(t: Tree, id: int)
    requires Numbered(t.nodes)
    ensures Holds(Walked(t, Root()), id) <==> Reachable(t.nodes, id)
  {
    WalkedIsUnder(t, Root());
    ReachableIsUnderRoot(t.nodes, id);
  }

  lemma SeenIsHeld(rows: seq<Row>, id: int)
    ensures id in SeenIn(rows) <==> Holds(rows, id)
  {
  }

  lemma AllRowsOnce(t: Tree)
    requires Numbered(t.nodes)
    ensures NoRepeats(AllRows(t)) && FromTree(AllRows(t), t.nodes)
    ensures forall n :: n in t.nodes ==> Holds(AllRows(t), n.id)
  {
    var walked := Walked(t, Root());
    var missed := Missed(t, t.nodes, SeenIn(walked));
    WalkedIsUnder(t, Root());
    MissedHolds(t, t.nodes, SeenIn(walked));
    forall j | 0 <= j < |missed| ensures !Holds(walked, missed[j].node.id) { SeenIsHeld(walked, missed[j].node.id); }
    NoRepeatsConcat(walked, missed);
    forall n | n in t.nodes ensures Holds(AllRows(t), n.id) {
      HoldsConcat(walked, missed, n.id);
      SeenIsHeld(walked, n.id);
    }
  }

  /** Nothing is lost and nothing repeats: the rows are the spans, each once. */
  lemma RowsHoldEverySpanOnce(t: Tree)
    requires Numbered(t.nodes)
    ensures NoRepeats(AllRows(t)) && FromTree(AllRows(t), t.nodes) && |AllRows(t)| == |t.nodes|
    ensures forall n :: n in t.nodes ==> Holds(AllRows(t), n.id)
  {
    AllRowsOnce(t);
    RowCount(AllRows(t));
    IdCount(t.nodes);
    forall id ensures id in SeenIn(AllRows(t)) <==> id in IdsOf(t.nodes) { SeenIsHeld(AllRows(t), id); }
    assert SeenIn(AllRows(t)) == IdsOf(t.nodes);
  }

  lemma {:induction false} RowCount(rows: seq<Row>)
    requires NoRepeats(rows)
    ensures |SeenIn(rows)| == |rows|
  {
    if rows == [] {
      assert SeenIn(rows) == {};
    } else {
      var n := |rows| - 1;
      RowCount(rows[..n]);
      assert SeenIn(rows) == SeenIn(rows[..n]) + {rows[n].node.id};
    }
  }

  /** A row's parent is the root or a row before it. */
  ghost predicate ParentBefore(rows: seq<Row>, parent: int, k: nat)
    requires k < |rows|
  {
    rows[k].node.parentId == parent || exists j :: 0 <= j < k && rows[j].node.id == rows[k].node.parentId
  }

  ghost predicate ParentsFirst(rows: seq<Row>, parent: int) {
    forall k :: 0 <= k < |rows| ==> ParentBefore(rows, parent, k)
  }

  /** A row and the rows below it, then the rows of the next children. */
  lemma JoinParents(row: Row, below: seq<Row>, rest: seq<Row>, parent: int)
    requires row.node.parentId == parent && ParentsFirst(below, row.node.id) && ParentsFirst(rest, parent)
    ensures ParentsFirst([row] + below + rest, parent)
  {
    var all := [row] + below + rest;
    forall k | 0 <= k < |all| ensures ParentBefore(all, parent, k) {
      if 0 < k <= |below| {
        BelowParent(row, below, k - 1);
        var j :| 0 <= j < k && ([row] + below)[j].node.id == below[k - 1].node.parentId;
        assert all[j].node.id == all[k].node.parentId;
      } else if k > |below| {
        RestParent([row] + below, rest, parent, k - 1 - |below|);
      }
    }
  }

  lemma BelowParent(row: Row, below: seq<Row>, k: nat)
    requires k < |below| && ParentsFirst(below, row.node.id)
    ensures exists j :: 0 <= j < k + 1 && ([row] + below)[j].node.id == below[k].node.parentId
  {
    assert ParentBefore(below, row.node.id, k);
    if below[k].node.parentId == row.node.id {
      assert ([row] + below)[0].node.id == below[k].node.parentId;
    } else {
      var j :| 0 <= j < k && below[j].node.id == below[k].node.parentId;
      assert ([row] + below)[j + 1].node.id == below[k].node.parentId;
    }
  }

  lemma RestParent(first: seq<Row>, rest: seq<Row>, parent: int, k: nat)
    requires k < |rest| && ParentsFirst(rest, parent)
    ensures ParentBefore(first + rest, parent, |first| + k)
  {
    assert ParentBefore(rest, parent, k);
    if rest[k].node.parentId != parent {
      var j :| 0 <= j < k && rest[j].node.id == rest[k].node.parentId;
      assert (first + rest)[|first| + j].node.id == rest[k].node.parentId;
    }
  }

  /** Parents come first: in the walk every row follows its parent's. */
  lemma {:induction false} ParentsComeFirst(t: Tree, p: seq<int>)
    requires Numbered(t.nodes) && Path(t.nodes, p)
    ensures ParentsFirst(Walked(t, p), p[|p| - 1])
    decreases |t.nodes| + 1 - |p|, 1, 0
  {
    PathIsShort(t.nodes, p);
    ParentsComeFirstFrom(t, p, Children(t.nodes, p[|p| - 1]), 0);
  }

  lemma {:induction false} ParentsComeFirstFrom(t: Tree, p: seq<int>, siblings: seq<Node>, i: nat)
    requires Numbered(t.nodes) && Path(t.nodes, p)
    requires siblings == Children(t.nodes, p[|p| - 1]) && i <= |siblings|
    ensures ParentsFirst(WalkedFrom(t, p, siblings, i), p[|p| - 1])
    decreases |t.nodes| + 1 - |p|, 0, |siblings| - i
  {
    if i < |siblings| {
      var n := siblings[i];
      assert n in siblings;
      Descend(t.nodes, p, n);
      var q := p + [n.id];
      assert q[|q| - 1] == n.id;
      ParentsComeFirst(t, q);
      ParentsComeFirstFrom(t, p, siblings, i + 1);
      var row, below, rest := RowOf(t, n, i == |siblings| - 1), Walked(t, q), WalkedFrom(t, p, siblings, i + 1);
      assert WalkedFrom(t, p, siblings, i) == [row] + below + rest;
      hide Numbered, Path, ParentsFirst, Walked, WalkedFrom;
      JoinParents(row, below, rest, p[|p| - 1]);
    }
  }

  // --------------------------------------------------------------- the method

  method ChildMap(nodes: seq<Node>) returns (children: map<int, seq<Node>>)
    ensures forall k :: (if k in children then children[k] else []) == Children(nodes, k)
  {
    children := map[];
    var i := 0;
    while i < |nodes|
      invariant 0 <= i <= |nodes|
      invariant forall k :: (if k in children then children[k] else []) == Children(nodes[..i], k)
    {
      var n := nodes[i];
      assert nodes[..i + 1][..i] == nodes[..i];
      children := children[n.parentId := (if n.parentId in children then children[n.parentId] else []) + [n]];
      i := i + 1;
    }
    assert nodes[..i] == nodes;
  }

  /** Rows. It returns for any parent links, cycles and missing parents
      included, with every span exactly once. */
  method Rows(t: Tree) returns (rows: seq<Row>)
    requires Numbered(t.nodes)
    ensures rows == AllRows(t)
    ensures NoRepeats(rows) && |rows| == |t.nodes| && forall n :: n in t.nodes ==> Holds(rows, n.id)
  {
    RowsHoldEverySpanOnce(t);
    rows := [];
    if |t.nodes| == 0 { return; }
    var children := ChildMap(t.nodes);
    rows := Walk(t, children, 0, Root(), []);
    assert rows == Walked(t, Root());
    if |rows| < |t.nodes| {
      rows := AddMissed(t, rows);
    }
  }

  /** Spans whose parent was dropped, or is below them, are still rendered. */
  method AddMissed(t: Tree, walked: seq<Row>) returns (rows: seq<Row>)
    ensures rows == walked + Missed(t, t.nodes, SeenIn(walked))
  {
    var seen := SeenIn(walked);
    rows := walked;
    var i := 0;
    while i < |t.nodes|
      invariant 0 <= i <= |t.nodes|
      invariant rows == walked + Missed(t, t.nodes[..i], seen)
    {
      var n := t.nodes[i];
      assert t.nodes[..i + 1][..i] == t.nodes[..i];
      if n.id !in seen {
        rows := rows + [RowOf(t, n, true)];
      }
      i := i + 1;
    }
    assert t.nodes[..i] == t.nodes;
  }
}
