/** The order of the render rows (frontend/view/timeline.go): the walk goes down
    the tree in list order, so its rows are sorted by the places of the spans
    along their paths. */
module RowOrder {
  import opened Rows
  import T = Timeline

  // ---------------------------------------------------------- places in lists

  /** `x` stands before `y` in the list. */
  ghost predicate PlaceLess(nodes: seq<Node>, x: int, y: int) {
    exists a, b :: 0 <= a < b < |nodes| && nodes[a].id == x && nodes[b].id == y
  }

  lemma PlaceStrict(nodes: seq<Node>, x: int, y: int)
    requires Numbered(nodes) && PlaceLess(nodes, x, y)
    ensures x != y && !PlaceLess(nodes, y, x)
  {
  }

  lemma PlaceInFront(nodes: seq<Node>, n: nat, x: int, y: int)
    requires n <= |nodes| && PlaceLess(nodes[..n], x, y)
    ensures PlaceLess(nodes, x, y)
  {
    var a, b :| 0 <= a < b < n && nodes[..n][a].id == x && nodes[..n][b].id == y;
    assert nodes[a].id == x && nodes[b].id == y;
  }

  /** Children keep the order of the list. */
  lemma {:induction false} ChildrenInOrder(nodes: seq<Node>, parent: int, i: nat, j: nat)
    requires i < j < |Children(nodes, parent)|
    ensures PlaceLess(nodes, Children(nodes, parent)[i].id, Children(nodes, parent)[j].id)
  {
    var n, all := |nodes| - 1, Children(nodes, parent);
    var front := Children(nodes[..n], parent);
    if j < |front| {
      ChildrenInOrder(nodes[..n], parent, i, j);
      PlaceInFront(nodes, n, all[i].id, all[j].id);
    } else {
      assert all[i] == front[i] && front[i] in front && front[i] in nodes[..n];
      var a :| 0 <= a < n && nodes[..n][a] == front[i];
      assert nodes[a].id == all[i].id && nodes[n].id == all[j].id;
    }
  }

  // ------------------------------------------------------------ paths in order

  /** A path comes before those that go on from it, and before those that part
      from it to a span further down the list. */
  ghost predicate PathBefore(nodes: seq<Node>, r: seq<int>, s: seq<int>) {
    exists k :: PartsAt(nodes, r, s, k)
  }

  ghost predicate PartsAt(nodes: seq<Node>, r: seq<int>, s: seq<int>, k: int) {
    && 0 <= k <= |r| && k < |s| && r[..k] == s[..k]
    && (k < |r| ==> PlaceLess(nodes, r[k], s[k]))
  }

  ghost predicate PathOf(nodes: seq<Node>, row: Row, r: seq<int>) {
    Path(nodes, r) && |r| > 1 && r[|r| - 1] == row.node.id
  }

  ghost predicate PathsInOrder(nodes: seq<Node>, rows: seq<Row>) {
    forall i, j, r, s :: 0 <= i < j < |rows| && PathOf(nodes, rows[i], r) && PathOf(nodes, rows[j], s) ==>
      PathBefore(nodes, r, s)
  }

  /** The rows go on from this path. */
  ghost predicate AllExtend(nodes: seq<Node>, rows: seq<Row>, p: seq<int>) {
    forall i, r :: 0 <= i < |rows| && PathOf(nodes, rows[i], r) ==> |r| > |p| && r[..|p|] == p
  }

  /** The rows go on from this path with one of these spans. */
  ghost predicate AllBranch(nodes: seq<Node>, rows: seq<Row>, p: seq<int>, siblings: seq<Node>, i: nat) {
    forall k, r :: 0 <= k < |rows| && PathOf(nodes, rows[k], r) ==>
      |r| > |p| && r[..|p|] == p && exists m :: i <= m < |siblings| && r[|p|] == siblings[m].id
  }

  /** The rows are at the end of this path or go on from it. */
  ghost predicate AllFrom(nodes: seq<Node>, rows: seq<Row>, q: seq<int>) {
    forall k, r :: 0 <= k < |rows| && PathOf(nodes, rows[k], r) ==> |r| >= |q| && r[..|q|] == q
  }

  ghost predicate AllBefore(nodes: seq<Node>, first: seq<Row>, rest: seq<Row>) {
    forall i, j, r, s ::
      0 <= i < |first| && 0 <= j < |rest| && PathOf(nodes, first[i], r) && PathOf(nodes, rest[j], s) ==>
        PathBefore(nodes, r, s)
  }

  lemma JoinInOrder(nodes: seq<Node>, first: seq<Row>, rest: seq<Row>)
    requires PathsInOrder(nodes, first) && PathsInOrder(nodes, rest) && AllBefore(nodes, first, rest)
    ensures PathsInOrder(nodes, first + rest)
  {
    hide PathOf, PathBefore;
    var all := first + rest;
    forall i, j, r, s | 0 <= i < j < |all| && PathOf(nodes, all[i], r) && PathOf(nodes, all[j], s)
      ensures PathBefore(nodes, r, s)
    {
      if j < |first| { assert all[i] == first[i] && all[j] == first[j]; }
      else if i >= |first| { assert all[i] == rest[i - |first|] && all[j] == rest[j - |first|]; }
      else { assert all[i] == first[i] && all[j] == rest[j - |first|]; }
    }
  }

  /** The one row at the end of a path, and the rows below it. */
  lemma RowThenBelow(nodes: seq<Node>, q: seq<int>, row: Row, below: seq<Row>)
    requires Numbered(nodes) && PathOf(nodes, row, q) && PathsInOrder(nodes, below) && AllExtend(nodes, below, q)
    ensures PathsInOrder(nodes, [row] + below)
    ensures AllFrom(nodes, [row] + below, q)
  {
    forall r | PathOf(nodes, row, r) ensures r == q { PathUnique(nodes, r, q); }
    assert q[..|q|] == q;
    forall j, s | 0 <= j < |below| && PathOf(nodes, below[j], s) ensures PathBefore(nodes, q, s) {
      assert PartsAt(nodes, q, s, |q|);
    }
    hide PathOf, PathBefore, Path;
    JoinInOrder(nodes, [row], below);
  }

  /** Rows under one child come before those under later ones. */
  lemma ChildThenRest(nodes: seq<Node>, p: seq<int>, siblings: seq<Node>, i: nat, first: seq<Row>, rest: seq<Row>)
    requires p != [] && siblings == Children(nodes, p[|p| - 1]) && i < |siblings|
    requires PathsInOrder(nodes, first) && PathsInOrder(nodes, rest) && AllBranch(nodes, rest, p, siblings, i + 1)
    requires AllFrom(nodes, first, p + [siblings[i].id])
    ensures PathsInOrder(nodes, first + rest) && AllBranch(nodes, first + rest, p, siblings, i)
  {
    var q := p + [siblings[i].id];
    hide PathOf;
    forall a, b, r, s | 0 <= a < |first| && 0 <= b < |rest| && PathOf(nodes, first[a], r) && PathOf(nodes, rest[b], s)
      ensures PathBefore(nodes, r, s)
    {
      var m :| i + 1 <= m < |siblings| && s[|p|] == siblings[m].id;
      ChildrenInOrder(nodes, p[|p| - 1], i, m);
      assert r[..|p|] == r[..|q|][..|p|] == p && r[|p|] == r[..|q|][|p|] == siblings[i].id;
      assert PartsAt(nodes, r, s, |p|);
    }
    hide PathBefore;
    JoinInOrder(nodes, first, rest);
    BranchesJoin(nodes, p, siblings, i, first, rest);
  }

  lemma BranchesJoin(nodes: seq<Node>, p: seq<int>, siblings: seq<Node>, i: nat, first: seq<Row>, rest: seq<Row>)
    requires i < |siblings| && AllBranch(nodes, rest, p, siblings, i + 1)
    requires AllFrom(nodes, first, p + [siblings[i].id])
    ensures AllBranch(nodes, first + rest, p, siblings, i)
  {
    hide PathOf;
    var q, all := p + [siblings[i].id], first + rest;
    forall k, r | 0 <= k < |all| && PathOf(nodes, all[k], r)
      ensures |r| > |p| && r[..|p|] == p && exists m :: i <= m < |siblings| && r[|p|] == siblings[m].id
    {
      if k < |first| {
        assert all[k] == first[k];
        assert r[..|p|] == r[..|q|][..|p|] == p && r[|p|] == r[..|q|][|p|] == siblings[i].id;
      } else {
        assert all[k] == rest[k - |first|];
      }
    }
  }

  /** The walk is sorted by paths. */
  lemma {:induction false} WalkedInOrder(t: Tree, p: seq<int>)
    requires Numbered(t.nodes) && Path(t.nodes, p)
    ensures PathsInOrder(t.nodes, Walked(t, p)) && AllExtend(t.nodes, Walked(t, p), p)
    decreases |t.nodes| + 1 - |p|, 1, 0
  {
    PathIsShort(t.nodes, p);
    var siblings := Children(t.nodes, p[|p| - 1]);
    WalkedFromInOrder(t, p, siblings, 0);
    assert Walked(t, p) == WalkedFrom(t, p, siblings, 0);
    hide Walked, WalkedFrom, PathsInOrder, AllExtend, AllBranch, Numbered, Path, Children;
    BranchExtends(t.nodes, Walked(t, p), p, siblings);
  }

  lemma BranchExtends(nodes: seq<Node>, rows: seq<Row>, p: seq<int>, siblings: seq<Node>)
    requires AllBranch(nodes, rows, p, siblings, 0)
    ensures AllExtend(nodes, rows, p)
  {
    hide PathOf;
  }

  lemma {:induction false} WalkedFromInOrder(t: Tree, p: seq<int>, siblings: seq<Node>, i: nat)
    requires Numbered(t.nodes) && Path(t.nodes, p)
    requires siblings == Children(t.nodes, p[|p| - 1]) && i <= |siblings|
    ensures PathsInOrder(t.nodes, WalkedFrom(t, p, siblings, i))
    ensures AllBranch(t.nodes, WalkedFrom(t, p, siblings, i), p, siblings, i)
    decreases |t.nodes| + 1 - |p|, 0, |siblings| - i
  {
    if i < |siblings| {
      var n := siblings[i];
      assert n in siblings;
      Descend(t.nodes, p, n);
      var q, row := p + [n.id], RowOf(t, n, i == |siblings| - 1);
      assert PathOf(t.nodes, row, q);
      WalkedInOrder(t, q);
      WalkedFromInOrder(t, p, siblings, i + 1);
      assert WalkedFrom(t, p, siblings, i) == [row] + Walked(t, q) + WalkedFrom(t, p, siblings, i + 1);
      hide Numbered, Path, PathsInOrder, AllExtend, AllBranch, AllFrom, PathOf, Walked, WalkedFrom;
      RowThenBelow(t.nodes, q, row, Walked(t, q));
      ChildThenRest(t.nodes, p, siblings, i, [row] + Walked(t, q), WalkedFrom(t, p, siblings, i + 1));
    }
  }

  // --------------------------------------------------------- what that means

  /** The rows of the walk from the roots. */
  ghost function WalkedRows(t: Tree): seq<Row>
    requires Numbered(t.nodes)
  {
    Walked(t, Root())
  }

  lemma SameNode(nodes: seq<Node>, m: Node, n: Node)
    requires Numbered(nodes) && m in nodes && n in nodes && m.id == n.id
    ensures m == n
  {
  }

  /** Every walked row stands at the end of a path, below its parent. */
  lemma RowHasPath(t: Tree, i: nat) returns (r: seq<int>)
    requires Numbered(t.nodes) && i < |WalkedRows(t)|
    ensures PathOf(t.nodes, WalkedRows(t)[i], r) && r[|r| - 2] == WalkedRows(t)[i].node.parentId
    ensures WalkedRows(t)[i].node in t.nodes
  {
    WalkedIsUnder(t, Root());
    var row := WalkedRows(t)[i];
    assert Holds(WalkedRows(t), row.node.id);
    r :| Path(t.nodes, r) && |r| > 1 && r[..1] == Root() && r[|r| - 1] == row.node.id;
    assert Edge(t.nodes, r[|r| - 2], r[|r| - 1]);
    var n :| n in t.nodes && n.id == r[|r| - 1] && n.parentId == r[|r| - 2];
    SameNode(t.nodes, n, row.node);
  }

  lemma PathsOrdered(t: Tree, i: nat, j: nat, r: seq<int>, s: seq<int>)
    requires Numbered(t.nodes) && i < j < |WalkedRows(t)|
    requires PathOf(t.nodes, WalkedRows(t)[i], r) && PathOf(t.nodes, WalkedRows(t)[j], s)
    ensures PathBefore(t.nodes, r, s)
  {
    WalkedInOrder(t, Root());
  }

  /** Where two paths part, they differ. */
  lemma PartsDiffer(nodes: seq<Node>, r: seq<int>, s: seq<int>, k: int)
    requires Numbered(nodes) && PartsAt(nodes, r, s, k)
    ensures k < |r| ==> r[k] != s[k] && !PlaceLess(nodes, s[k], r[k])
  {
  }

  lemma AgreeAt(r: seq<int>, u: seq<int>, s: seq<int>, k: nat, l: nat)
    requires l < k <= |r| && k <= |u| && r[..k] == u[..k] && k <= |s| && s[..k] == r[..k]
    ensures u[l] == s[l]
  {
    assert u[l] == u[..k][l] && s[l] == s[..k][l];
  }

  /** Walked rows of one parent stand in list order. */
  lemma SiblingsInOrder(t: Tree, i: nat, j: nat)
    requires Numbered(t.nodes) && i < j < |WalkedRows(t)|
    requires WalkedRows(t)[i].node.parentId == WalkedRows(t)[j].node.parentId
    ensures PlaceLess(t.nodes, WalkedRows(t)[i].node.id, WalkedRows(t)[j].node.id)
  {
    var r := RowHasPath(t, i);
    var s := RowHasPath(t, j);
    PathsOrdered(t, i, j, r, s);
    var m, n := |r| - 1, |s| - 1;
    PathUnique(t.nodes, r[..m], s[..n]);
    assert r == r[..m] + [r[m]] && s == s[..n] + [s[n]];
    var k :| PartsAt(t.nodes, r, s, k);
    PartsDiffer(t.nodes, r, s, k);
    hide PlaceLess, Numbered, Path;
  }

  /** One span stands above another: on the path to it. */
  ghost predicate Above(nodes: seq<Node>, top: int, id: int) {
    exists q, m :: Path(nodes, q) && 0 < m < |q| - 1 && q[m] == top && q[|q| - 1] == id
  }

  lemma AboveIsPrefix(nodes: seq<Node>, r: seq<int>, s: seq<int>)
    requires Numbered(nodes) && Path(nodes, r) && Path(nodes, s) && |r| > 1 && |s| > 1
    ensures Above(nodes, r[|r| - 1], s[|s| - 1]) <==> |s| > |r| && s[..|r|] == r
  {
    hide Path, Numbered;
    var top, id := r[|r| - 1], s[|s| - 1];
    if Above(nodes, top, id) {
      var q, m :| Path(nodes, q) && 0 < m < |q| - 1 && q[m] == top && q[|q| - 1] == id;
      EndsPrefix(nodes, q, s);
      TopPrefix(nodes, r, s, m);
    }
    if |s| > |r| && s[..|r|] == r {
      assert s[|r| - 1] == s[..|r|][|r| - 1] == top;
    }
  }

  lemma TopPrefix(nodes: seq<Node>, r: seq<int>, s: seq<int>, m: nat)
    requires Numbered(nodes) && Path(nodes, r) && Path(nodes, s) && m < |s| && s[m] == r[|r| - 1]
    ensures s[..m + 1] == r && |r| == m + 1
  {
    PathPrefix(nodes, s, m + 1);
    EndsPrefix(nodes, s[..m + 1], r);
  }

  lemma EndsPrefix(nodes: seq<Node>, p: seq<int>, r: seq<int>)
    requires Numbered(nodes) && Path(nodes, p) && Path(nodes, r) && p[|p| - 1] == r[|r| - 1]
    ensures p == r && |p| == |r|
  {
    PathUnique(nodes, p, r);
  }

  /** A path between two that begin alike begins like them. */
  lemma BetweenExtends(nodes: seq<Node>, r: seq<int>, u: seq<int>, s: seq<int>)
    requires Numbered(nodes) && |s| > |r| && s[..|r|] == r && PathBefore(nodes, r, u) && PathBefore(nodes, u, s)
    ensures |u| > |r| && u[..|r|] == r
  {
    var k :| PartsAt(nodes, r, u, k);
    var l :| PartsAt(nodes, u, s, l);
    PartsDiffer(nodes, r, u, k);
    PartsDiffer(nodes, u, s, l);
    hide PlaceLess;
    if k < |r| {
      assert s[..k] == s[..|r|][..k];
      assert s[k] == s[..|r|][k] == r[k];
      if l < k { AgreeAt(r, u, s, k, l); }
      if l > k { AgreeAt(s, u, s, l, k); }
    }
  }

  /** The rows below a row follow it without a gap. */
  lemma BelowWithoutGap(t: Tree, i: nat, j: nat, k: nat)
    requires Numbered(t.nodes) && i < j < k < |WalkedRows(t)|
    requires Above(t.nodes, WalkedRows(t)[i].node.id, WalkedRows(t)[k].node.id)
    ensures Above(t.nodes, WalkedRows(t)[i].node.id, WalkedRows(t)[j].node.id)
  {
    var r := RowHasPath(t, i);
    var u := RowHasPath(t, j);
    var s := RowHasPath(t, k);
    PathsOrdered(t, i, j, r, u);
    PathsOrdered(t, j, k, u, s);
    AboveIsPrefix(t.nodes, r, s);
    BetweenExtends(t.nodes, r, u, s);
    AboveIsPrefix(t.nodes, r, u);
  }

  /** A row tells where in the trace its span starts and which part of it the
      span takes, in percent, and whether the span has no duration yet. */
  ghost predicate Tells(t: Tree, row: Row) {
    && t.startedAt + row.offset == row.node.startedAt
    && (row.open <==> row.node.duration == 0)
    && T.IsPercent(row.offsetShare, row.offset, t.duration) && T.IsPercent(row.share, row.node.duration, t.duration)
  }

  lemma RowTells(t: Tree, node: Node, last: bool)
    ensures Tells(t, RowOf(t, node, last))
  {
    T.ShareIsPercent(node.startedAt - t.startedAt, t.duration);
    T.ShareIsPercent(node.duration, t.duration);
  }

  /** `last` says that no later span of the list has the same parent. */
  ghost predicate LastIsLast(nodes: seq<Node>, row: Row) {
    row.last <==> forall n :: n in nodes && n.parentId == row.node.parentId ==> !PlaceLess(nodes, row.node.id, n.id)
  }

  lemma ChildIsLast(t: Tree, parent: int, i: nat)
    requires Numbered(t.nodes) && i < |Children(t.nodes, parent)|
    ensures var siblings := Children(t.nodes, parent);
            LastIsLast(t.nodes, RowOf(t, siblings[i], i == |siblings| - 1))
  {
    var siblings := Children(t.nodes, parent);
    assert siblings[i] in siblings;
    if i < |siblings| - 1 {
      ChildrenInOrder(t.nodes, parent, i, i + 1);
      assert siblings[i + 1] in siblings;
    } else {
      forall n | n in t.nodes && n.parentId == parent ensures !PlaceLess(t.nodes, siblings[i].id, n.id) {
        assert n in siblings;
        var k :| 0 <= k < |siblings| && siblings[k] == n;
        if k < i {
          ChildrenInOrder(t.nodes, parent, k, i);
          PlaceStrict(t.nodes, n.id, siblings[i].id);
        } else if PlaceLess(t.nodes, siblings[i].id, n.id) {
          PlaceStrict(t.nodes, n.id, n.id);
        }
      }
    }
  }

  ghost predicate AllRight(t: Tree, rows: seq<Row>) {
    forall k :: 0 <= k < |rows| ==> LastIsLast(t.nodes, rows[k]) && Tells(t, rows[k])
  }

  lemma RightJoins(t: Tree, a: seq<Row>, b: seq<Row>)
    requires AllRight(t, a) && AllRight(t, b)
    ensures AllRight(t, a + b)
  {
    hide LastIsLast, Tells;
  }

  lemma OneRight(t: Tree, row: Row)
    requires LastIsLast(t.nodes, row) && Tells(t, row)
    ensures AllRight(t, [row])
  {
    hide LastIsLast, Tells;
  }

  lemma {:induction false} WalkedRight(t: Tree, p: seq<int>)
    requires Numbered(t.nodes) && Path(t.nodes, p)
    ensures AllRight(t, Walked(t, p))
    decreases |t.nodes| + 1 - |p|, 1, 0
  {
    PathIsShort(t.nodes, p);
    WalkedFromRight(t, p, Children(t.nodes, p[|p| - 1]), 0);
  }

  lemma {:induction false} WalkedFromRight(t: Tree, p: seq<int>, siblings: seq<Node>, i: nat)
    requires Numbered(t.nodes) && Path(t.nodes, p)
    requires siblings == Children(t.nodes, p[|p| - 1]) && i <= |siblings|
    ensures AllRight(t, WalkedFrom(t, p, siblings, i))
    decreases |t.nodes| + 1 - |p|, 0, |siblings| - i
  {
    if i < |siblings| {
      var n := siblings[i];
      assert n in siblings;
      Descend(t.nodes, p, n);
      var q, row := p + [n.id], RowOf(t, n, i == |siblings| - 1);
      WalkedRight(t, q);
      WalkedFromRight(t, p, siblings, i + 1);
      ChildIsLast(t, p[|p| - 1], i);
      assert WalkedFrom(t, p, siblings, i) == [row] + Walked(t, q) + WalkedFrom(t, p, siblings, i + 1);
      RowTells(t, n, i == |siblings| - 1);
      OneRight(t, row);
      hide Numbered, Path, AllRight, Walked, WalkedFrom, LastIsLast, Tells;
      RightJoins(t, [row], Walked(t, q));
      RightJoins(t, [row] + Walked(t, q), WalkedFrom(t, p, siblings, i + 1));
    }
  }

  /** A walked row is marked last exactly when no later span of the list has
      its parent. */
  lemma LastIffNoLaterSibling(t: Tree, i: nat)
    requires Numbered(t.nodes) && i < |WalkedRows(t)|
    ensures var row := WalkedRows(t)[i];
            row.last <==> forall n :: n in t.nodes && n.parentId == row.node.parentId ==>
              !PlaceLess(t.nodes, row.node.id, n.id)
  {
    WalkedRight(t, Root());
    hide Walked;
    assert LastIsLast(t.nodes, WalkedRows(t)[i]);
  }

  // ---------------------------------------------------------- the other rows

  lemma {:induction false} MissedOrdered(t: Tree, nodes: seq<Node>, seen: set<int>, i: nat, j: nat)
    requires i < j < |Missed(t, nodes, seen)|
    ensures PlaceLess(nodes, Missed(t, nodes, seen)[i].node.id, Missed(t, nodes, seen)[j].node.id)
  {
    var n, all := |nodes| - 1, Missed(t, nodes, seen);
    var front := Missed(t, nodes[..n], seen);
    if j < |front| {
      MissedOrdered(t, nodes[..n], seen, i, j);
      PlaceInFront(nodes, n, all[i].node.id, all[j].node.id);
    } else {
      assert all[i] == front[i] && front[i].node in nodes[..n];
      var a :| 0 <= a < n && nodes[..n][a] == front[i].node;
      assert nodes[a].id == all[i].node.id && nodes[n].id == all[j].node.id;
    }
  }

  lemma {:induction false} MissedTell(t: Tree, nodes: seq<Node>, seen: set<int>, i: nat)
    requires i < |Missed(t, nodes, seen)|
    ensures Tells(t, Missed(t, nodes, seen)[i])
  {
    var n := |nodes| - 1;
    if i < |Missed(t, nodes[..n], seen)| {
      MissedTell(t, nodes[..n], seen, i);
    } else {
      RowTells(t, nodes[n], true);
    }
  }

  /** The rows the walk missed come after it, in list order, each marked last. */
  lemma MissedInOrder(t: Tree, i: nat, j: nat)
    requires Numbered(t.nodes) && |WalkedRows(t)| <= i < j < |AllRows(t)|
    ensures PlaceLess(t.nodes, AllRows(t)[i].node.id, AllRows(t)[j].node.id)
    ensures AllRows(t)[i].last && AllRows(t)[j].last
  {
    hide Walked, PlaceLess;
    var m, seen := |WalkedRows(t)|, SeenIn(WalkedRows(t));
    MissedOrdered(t, t.nodes, seen, i - m, j - m);
  }

  /** Every row tells offset, length and shares of its span. */
  lemma RowsTell(t: Tree, i: nat)
    requires Numbered(t.nodes) && i < |AllRows(t)|
    ensures Tells(t, AllRows(t)[i])
  {
    var m, seen := |WalkedRows(t)|, SeenIn(WalkedRows(t));
    WalkedRight(t, Root());
    hide Walked, Tells;
    if i >= m { MissedTell(t, t.nodes, seen, i - m); }
  }
}
