/** The live page's row merge (frontend/view/assets/oida.js): brings the rows on
    the page to an incoming list, touching only the ones that changed. */
module MergeRows {
  import opened Options

  /** A row element: its data-key attribute, its markup apart from the "fresh"
      class, and that class. */
  class Row {
    const key: Option<string>
    const markup: string
    var isNew: bool

    constructor (key: Option<string>, markup: string, isNew: bool)
      ensures this.key == key && this.markup == markup && this.isNew == isNew
    {
      this.key, this.markup, this.isNew := key, markup, isNew;
    }

    /** outerHTML, as far as the comparison of two rows depends on it. */
    function Outer(): (Option<string>, string, bool)
      reads this
    {
      (key, markup, isNew)
    }
  }

  ghost predicate Distinct(s: seq<Row>) {
    forall i, j :: 0 <= i < j < |s| ==> s[i] != s[j]
  }

  ghost predicate Apart(s: seq<Row>, t: seq<Row>) {
    forall r :: r in s ==> r !in t
  }

  /** `s` without some rows, in order. */
  ghost function Keep(s: seq<Row>, gone: set<Row>): (r: seq<Row>)
    ensures forall x :: x in r ==> x in s && x !in gone
    ensures forall x :: x in s && x !in gone ==> x in r
  {
    if s == [] then []
    else
      var n := |s| - 1;
      assert s == s[..n] + [s[n]];
      if s[n] in gone then Keep(s[..n], gone) else Keep(s[..n], gone) + [s[n]]
  }

  lemma {:induction false} KeepDistinct(s: seq<Row>, gone: set<Row>)
    requires Distinct(s)
    ensures Distinct(Keep(s, gone))
  {
    if s != [] {
      KeepDistinct(s[..|s| - 1], gone);
      var front := Keep(s[..|s| - 1], gone);
      assert forall i :: 0 <= i < |front| ==> front[i] in front;
    }
  }

  lemma {:induction false} KeepTwice(s: seq<Row>, a: set<Row>, b: set<Row>)
    ensures Keep(Keep(s, a), b) == Keep(s, a + b)
  {
    if s != [] {
      var n := |s| - 1;
      KeepTwice(s[..n], a, b);
      if s[n] !in a {
        var front := Keep(s[..n], a);
        assert (front + [s[n]])[..|front|] == front;
      }
    }
  }

  lemma {:induction false} KeepAll(s: seq<Row>, gone: set<Row>)
    requires forall x :: x in s ==> x !in gone
    ensures Keep(s, gone) == s
  {
    if s != [] {
      assert s == s[..|s| - 1] + [s[|s| - 1]];
      KeepAll(s[..|s| - 1], gone);
    }
  }

  lemma {:induction false} KeepNone(s: seq<Row>, gone: set<Row>)
    requires forall x :: x in s ==> x in gone
    ensures Keep(s, gone) == []
  {
    if s != [] { KeepNone(s[..|s| - 1], gone); }
  }

  lemma {:induction false} KeepConcat(a: seq<Row>, b: seq<Row>, gone: set<Row>)
    ensures Keep(a + b, gone) == Keep(a, gone) + Keep(b, gone)
  {
    if b == [] {
      assert a + b == a;
    } else {
      var n := |b| - 1;
      assert (a + b)[..|a + b| - 1] == a + b[..n];
      KeepConcat(a, b[..n], gone);
    }
  }

  // ----------------------------------------------------- which row is which

  /** The name a key is looked up under: a missing attribute reads as null. */
  function Name(row: Row): string {
    if row.key.None? then "null" else row.key.value
  }

  /** A row the index of existing rows takes in. */
  predicate Indexed(row: Row) {
    row.key.Some? && row.key.value != ""
  }

  /** The index: for each key the last row that has it. */
  function Index(current: seq<Row>): (m: map<string, Row>)
    ensures forall k :: k in m ==> m[k] in current && m[k].key == Some(k) && k != ""
    ensures forall r :: r in current && Indexed(r) ==> r.key.value in m
  {
    if current == [] then map[]
    else
      var n := |current| - 1;
      assert current == current[..n] + [current[n]];
      var m := Index(current[..n]);
      if Indexed(current[n]) then m[current[n].key.value := current[n]] else m
  }

  /** This place of the list is the last that has the key. */
  ghost predicate LastWith(current: seq<Row>, k: string, i: int) {
    && 0 <= i < |current| && current[i].key == Some(k)
    && forall j :: i < j < |current| ==> current[j].key != Some(k)
  }

  lemma {:induction false} IndexIsLast(current: seq<Row>, k: string) returns (i: nat)
    requires k in Index(current)
    ensures LastWith(current, k, i) && current[i] == Index(current)[k]
  {
    i := |current| - 1;
    if current[i].key != Some(k) {
      var front := current[..i];
      i := IndexIsLast(front, k);
      assert forall j :: i < j < |front| ==> current[j] == front[j];
    }
  }

  /** The row an incoming row meets: the one under its key, unless an earlier
      incoming row with that key took it. */
  function Met(index: map<string, Row>, rows: seq<Row>, i: nat): Option<Row>
    requires i < |rows|
  {
    if Name(rows[i]) in index && forall k :: 0 <= k < i ==> Name(rows[k]) != Name(rows[i])
    then Some(index[Name(rows[i])]) else None
  }

  ghost function Taken(index: map<string, Row>, rows: seq<Row>, n: nat): set<Row>
    requires n <= |rows|
  {
    set k | 0 <= k < n && Name(rows[k]) in index :: index[Name(rows[k])]
  }

  function LeftIn(index: map<string, Row>, rows: seq<Row>, n: nat): map<string, Row>
    requires n <= |rows|
  {
    index - set k | 0 <= k < n :: Name(rows[k])
  }

  /** The rows no incoming row and no removal reaches: those without a key and
      those a later row with the same key hides. */
  ghost function Unreached(current: seq<Row>): seq<Row> {
    Keep(current, Index(current).Values)
  }

  /** Every row is keyed and no two share a key. */
  ghost predicate WellKeyed(current: seq<Row>) {
    && (forall i :: 0 <= i < |current| ==> Indexed(current[i]))
    && (forall i, j :: 0 <= i < j < |current| ==> current[i].key != current[j].key)
  }

  lemma IndexStep(current: seq<Row>, n: nat, key: string)
    requires |current| == n + 1
    ensures var m := Index(current[..n]);
            if current[n].key == Some(key) && key != "" then key in Index(current) && Index(current)[key] == current[n]
            else key in m ==> key in Index(current) && Index(current)[key] == m[key]
  {
  }

  /** The index holds the last row of each key. */
  lemma {:induction false} IndexHolds(current: seq<Row>, i: nat)
    requires i < |current| && Indexed(current[i])
    requires forall j :: i < j < |current| ==> current[j].key != current[i].key
    ensures current[i].key.value in Index(current) && Index(current)[current[i].key.value] == current[i]
  {
    hide Index;
    var n := |current| - 1;
    IndexStep(current, n, current[i].key.value);
    if i < n {
      assert current[..n][i] == current[i];
      IndexHolds(current[..n], i);
    }
  }

  /** Nothing is out of reach exactly when the page's rows are well keyed. */
  lemma UnreachedIffIllKeyed(current: seq<Row>)
    requires Distinct(current)
    ensures Unreached(current) == [] <==> WellKeyed(current)
  {
    var index := Index(current);
    if WellKeyed(current) {
      forall x | x in current ensures x in index.Values {
        var i :| 0 <= i < |current| && current[i] == x;
        IndexHolds(current, i);
      }
      KeepNone(current, index.Values);
    } else {
      if i :| 0 <= i < |current| && !Indexed(current[i]) {
        assert current[i] in Unreached(current);
      } else {
        var i, j :| 0 <= i < j < |current| && current[i].key == current[j].key;
        var k := current[i].key.value;
        assert current[i] in current && current[j] in current;
        var hidden := if index[k] == current[i] then current[j] else current[i];
        assert hidden in Unreached(current);
      }
    }
  }

  // ---------------------------------------------------------------- the merge

  /** The row element the feed ends up with in place `i`. */
  ghost function Merged(index: map<string, Row>, rows: seq<Row>, i: nat): Row
    requires i < |rows|
    reads rows, index.Values
  {
    var met := Met(index, rows, i);
    if met.Some? && met.value.Outer() == rows[i].Outer() then met.value else rows[i]
  }

  class Feed {
    var children: seq<Row>

    /** node.replaceWith(row). */
    method ReplaceWith(node: Row, row: Row)
      requires Distinct(children) && node in children && row !in children
      modifies this
      ensures exists j ::
        0 <= j < |children| == |old(children)| && old(children)[j] == node && children == old(children)[j := row]
    {
      var j :| 0 <= j < |children| && children[j] == node;
      children := children[j := row];
    }

    /** insertBefore the child at `index`, or at the end: a node already in the
        list moves. */
    method InsertAt(node: Row, index: nat)
      requires Distinct(children) && index <= |children| && node !in children[..index]
      modifies this
      ensures children == old(children)[..index] + [node] + Keep(old(children)[index..], {node})
    {
      var before, after := children[..index], children[index..];
      assert children == before + after;
      if node in after {
        var j :| 0 <= j < |after| && after[j] == node;
        KeepOne(after, j);
        after := after[..j] + after[j + 1..];
      } else {
        KeepAll(after, {node});
      }
      children := before + [node] + after;
    }

    method Remove(node: Row)
      requires Distinct(children) && node in children
      modifies this
      ensures children == Keep(old(children), {node})
    {
      var j :| 0 <= j < |children| && children[j] == node;
      KeepOne(children, j);
      children := children[..j] + children[j + 1..];
    }
  }

  lemma NotBefore(s: seq<Row>, j: nat)
    requires Distinct(s) && j < |s|
    ensures s[j] !in s[..j]
  {
  }

  lemma NotAfter(s: seq<Row>, j: nat)
    requires Distinct(s) && j < |s|
    ensures s[j] !in s[j + 1..]
  {
  }

  lemma KeepOne(s: seq<Row>, j: nat)
    requires Distinct(s) && j < |s|
    ensures Keep(s, {s[j]}) == s[..j] + s[j + 1..]
  {
    var a, b := s[..j], s[j + 1..];
    hide Keep, Distinct;
    NotBefore(s, j);
    NotAfter(s, j);
    assert s == a + [s[j]] + b;
    KeepMiddle(a, s[j], b);
  }

  lemma KeepMiddle(a: seq<Row>, row: Row, b: seq<Row>)
    requires row !in a && row !in b
    ensures Keep(a + [row] + b, {row}) == a + b
  {
    KeepConcat(a + [row], b, {row});
    KeepConcat(a, [row], {row});
    KeepAll(a, {row});
    KeepAll(b, {row});
    KeepNone([row], {row});
    hide Keep;
  }

  /** The first loop: indexes the rows on the page. */
  method BuildIndex(current: seq<Row>) returns (existing: map<string, Row>)
    ensures existing == Index(current)
  {
    existing := map[];
    var i := 0;
    while i < |current|
      invariant 0 <= i <= |current|
      invariant existing == Index(current[..i])
    {
      var row := current[i];
      assert current[..i + 1][..i] == current[..i];
      if row.key.Some? && row.key.value != "" {
        existing := existing[row.key.value := row];
      }
      i := i + 1;
    }
    assert current[..i] == current;
  }

  // Facts about the index that one round of the merge needs.

  lemma MetIsLeft(index: map<string, Row>, rows: seq<Row>, i: nat)
    requires i < |rows|
    ensures Name(rows[i]) in LeftIn(index, rows, i) <==> Met(index, rows, i).Some?
    ensures Met(index, rows, i).Some? ==> LeftIn(index, rows, i)[Name(rows[i])] == Met(index, rows, i).value
    ensures LeftIn(index, rows, i + 1) == LeftIn(index, rows, i) - {Name(rows[i])}
    ensures Met(index, rows, i).None? ==> LeftIn(index, rows, i + 1) == LeftIn(index, rows, i)
  {
    var before, after := set k | 0 <= k < i :: Name(rows[k]), set k | 0 <= k < i + 1 :: Name(rows[k]);
    assert after == before + {Name(rows[i])};
  }

  lemma TakenGrows(current: seq<Row>, rows: seq<Row>, i: nat)
    requires i < |rows|
    ensures var index := Index(current); var met := Met(index, rows, i);
            && Taken(index, rows, i + 1) == Taken(index, rows, i) + (if met.Some? then {met.value} else {})
            && (met.Some? ==> met.value in current && met.value !in Taken(index, rows, i))
  {
    var index := Index(current);
    var before, after := Taken(index, rows, i), Taken(index, rows, i + 1);
    var met := Met(index, rows, i);
    if met.None? && Name(rows[i]) in index {
      var k :| 0 <= k < i && Name(rows[k]) == Name(rows[i]);
      assert index[Name(rows[i])] in before;
    }
    assert after == before + (if met.Some? then {met.value} else {});
  }

  lemma TakenOrLeft(current: seq<Row>, rows: seq<Row>)
    ensures var index := Index(current);
            && Taken(index, rows, |rows|) + LeftIn(index, rows, |rows|).Values == index.Values
            && Taken(index, rows, |rows|) !! LeftIn(index, rows, |rows|).Values
  {
    var index := Index(current);
    var taken, left := Taken(index, rows, |rows|), LeftIn(index, rows, |rows|);
    forall x | x in index.Values ensures x in taken + left.Values {
      var k :| k in index && index[k] == x;
      if k in left { assert left[k] == x; }
    }
  }

  lemma KeepFirst(s: seq<Row>, node: Row)
    requires Distinct(s) && s != [] && s[0] == node
    ensures s == [node] + Keep(s, {node})
  {
    KeepOne(s, 0);
  }

  /** Puts a node in place `i`, unless it is there. */
  method Place(feed: Feed, node: Row, ghost done: seq<Row>, ghost tail: seq<Row>, i: nat)
    requires feed.children == done + tail && |done| == i && Distinct(feed.children) && node !in done
    modifies feed
    ensures feed.children == done + [node] + Keep(tail, {node})
  {
    hide Keep;
    assert feed.children[..i] == done && feed.children[i..] == tail;
    if i < |feed.children| && feed.children[i] == node {
      DistinctTail(done, tail);
      KeepFirst(tail, node);
    } else {
      feed.InsertAt(node, i);
    }
  }

  /** What the places of the feed hold after `n` rounds: the rows placed, then
      what is left of the old children. */
  ghost predicate Placed(feed: Feed, current: seq<Row>, rows: seq<Row>, n: nat, done: seq<Row>)
    requires n <= |rows|
    reads feed
  {
    && feed.children == done + Keep(current, Taken(Index(current), rows, n))
    && Distinct(feed.children) && |done| == n
    && (forall x :: x in done ==> x in rows[..n] || x in Taken(Index(current), rows, n))
  }

  /** One round: finds the node for row `i`, replaces it if it changed, and puts
      it in its place. */
  method Round(feed: Feed, existing: map<string, Row>, rows: seq<Row>, i: nat, ghost current: seq<Row>,
      ghost done: seq<Row>)
    returns (node: Row, left: map<string, Row>)
    requires i < |rows| && Distinct(rows) && Distinct(current) && Apart(rows, current)
    requires existing == LeftIn(Index(current), rows, i) && Placed(feed, current, rows, i, done)
    modifies feed, rows[i]
    ensures left == LeftIn(Index(current), rows, i + 1)
    ensures node == old(Merged(Index(current), rows, i))
    ensures rows[i].isNew == (Met(Index(current), rows, i).None? || old(rows[i].isNew))
    ensures Placed(feed, current, rows, i + 1, done + [node])
  {
    ghost var index, gone := Index(current), Taken(Index(current), rows, i);
    ghost var tail := Keep(current, gone);
    ghost var met := Met(index, rows, i);
    MetIsLeft(index, rows, i);
    TakenGrows(current, rows, i);
    KeepDistinct(current, gone);
    assert rows[i] !in rows[..i] && rows[i] in rows;
    assert rows[i] !in feed.children;
    assert Distinct(done) by { assert forall a :: 0 <= a < |done| ==> feed.children[a] == done[a]; }
    left := existing;
    if Name(rows[i]) in left {
      node := left[Name(rows[i])];
      KeepTwice(current, gone, {node});
      assert gone + {node} == Taken(index, rows, i + 1);
      if node.Outer() != rows[i].Outer() {
        feed.ReplaceWith(node, rows[i]);
        tail := Swap(feed.children, done, tail, node, rows[i]);
        node := rows[i];
      }
      left := left - {Name(rows[i])};
    } else {
      node := rows[i];
      node.isNew := true;
      KeepAll(tail, {node});
      assert Taken(index, rows, i + 1) == gone;
    }
    assert node !in done;
    assert Keep(tail, {node}) == Keep(current, Taken(index, rows, i + 1));
    Place(feed, node, done, tail, i);
    assert feed.children == done + [node] + Keep(current, Taken(index, rows, i + 1));
    StillDistinct(current, done, node, Taken(index, rows, i + 1));
  }

  /** Replacing a child behind the placed ones changes the tail alone, and
      leaves the same rows behind it. */
  lemma Swap(children: seq<Row>, done: seq<Row>, tail: seq<Row>, node: Row, row: Row) returns (swapped: seq<Row>)
    requires Distinct(done + tail) && node in tail && row !in done + tail
    requires exists j ::
      0 <= j < |children| == |done + tail| && (done + tail)[j] == node && children == (done + tail)[j := row]
    ensures children == done + swapped && Distinct(children)
    ensures Keep(swapped, {row}) == Keep(tail, {node})
  {
    var all := done + tail;
    var j :| 0 <= j < |children| == |all| && all[j] == node && children == all[j := row];
    var k :| 0 <= k < |tail| && tail[k] == node;
    assert all[|done| + k] == node;
    swapped := tail[k := row];
    hide Keep;
    DistinctUpdate(all, j, row);
    DistinctTail(done, tail);
    assert row !in tail by { assert forall a :: 0 <= a < |tail| ==> tail[a] == all[|done| + a]; }
    hide Distinct;
    KeepSwapped(tail, k, row);
  }

  lemma DistinctUpdate(s: seq<Row>, j: nat, row: Row)
    requires Distinct(s) && j < |s| && row !in s
    ensures Distinct(s[j := row])
  {
  }

  lemma DistinctTail(a: seq<Row>, b: seq<Row>)
    requires Distinct(a + b)
    ensures Distinct(b)
  {
    assert forall i :: 0 <= i < |b| ==> (a + b)[|a| + i] == b[i];
  }

  lemma KeepSwapped(s: seq<Row>, k: nat, row: Row)
    requires Distinct(s) && k < |s| && row !in s
    ensures Keep(s[k := row], {row}) == Keep(s, {s[k]})
  {
    DistinctUpdate(s, k, row);
    KeepOne(s, k);
    KeepOne(s[k := row], k);
  }

  lemma StillDistinct(current: seq<Row>, done: seq<Row>, node: Row, gone: set<Row>)
    requires Distinct(current) && Distinct(done) && node !in done
    requires forall x :: x in done + [node] ==> x !in Keep(current, gone)
    ensures Distinct(done + [node] + Keep(current, gone))
  {
    KeepDistinct(current, gone);
    DistinctConcat(done + [node], Keep(current, gone));
  }

  lemma DistinctConcat(a: seq<Row>, b: seq<Row>)
    requires Distinct(a) && Distinct(b) && forall x :: x in a ==> x !in b
    ensures Distinct(a + b)
  {
    forall i, j | 0 <= i < j < |a + b| ensures (a + b)[i] != (a + b)[j] {
      if i < |a| <= j { assert a[i] in a && b[j - |a|] in b; }
    }
  }

  ghost function Choices(index: map<string, Row>, rows: seq<Row>): (r: seq<Row>)
    reads rows, index.Values
    ensures |r| == |rows| && forall k :: 0 <= k < |rows| ==> r[k] == Merged(index, rows, k)
  {
    seq(|rows|, k requires 0 <= k < |rows| reads rows, index.Values => Merged(index, rows, k))
  }

  ghost predicate Marked(index: map<string, Row>, rows: seq<Row>, was: seq<bool>, n: nat)
    requires n <= |rows| == |was|
    reads rows
  {
    && (forall k :: 0 <= k < n ==> rows[k].isNew == (Met(index, rows, k).None? || was[k]))
    && (forall k :: n <= k < |rows| ==> rows[k].isNew == was[k])
  }

  ghost function Marks(rows: seq<Row>): (r: seq<bool>)
    reads rows
    ensures |r| == |rows| && forall k :: 0 <= k < |rows| ==> r[k] == rows[k].isNew
  {
    seq(|rows|, k requires 0 <= k < |rows| reads rows => rows[k].isNew)
  }

  /** The loop over the incoming rows. */
  method MergeKeyed(feed: Feed, rows: seq<Row>) returns (existing: map<string, Row>)
    requires Distinct(rows) && Distinct(feed.children) && Apart(rows, feed.children)
    modifies feed, rows
    ensures existing == LeftIn(Index(old(feed.children)), rows, |rows|)
    ensures Placed(feed, old(feed.children), rows, |rows|, old(Choices(Index(feed.children), rows)))
    ensures Marked(Index(old(feed.children)), rows, old(Marks(rows)), |rows|)
  {
    ghost var current := feed.children;
    ghost var choices, was := Choices(Index(current), rows), Marks(rows);
    existing := BuildIndex(feed.children);
    NothingPlaced(feed, rows);
    hide Index, Placed, LeftIn, Taken, Keep, Met, Marked, Choices, Marks;
    existing := MergeAll(feed, existing, rows, current, choices, was);
  }

  /** What holds before the first round. */
  lemma NothingPlaced(feed: Feed, rows: seq<Row>)
    requires Distinct(feed.children)
    ensures LeftIn(Index(feed.children), rows, 0) == Index(feed.children)
    ensures Placed(feed, feed.children, rows, 0, [])
    ensures Marked(Index(feed.children), rows, Marks(rows), 0)
  {
    var index := Index(feed.children);
    KeepAll(feed.children, {});
    assert Taken(index, rows, 0) == {};
  }

  /** All rounds in turn. */
  method MergeAll(feed: Feed, index: map<string, Row>, rows: seq<Row>,
                  ghost current: seq<Row>, ghost choices: seq<Row>, ghost was: seq<bool>)
    returns (left: map<string, Row>)
    requires Distinct(rows) && Distinct(current) && Apart(rows, current)
    requires index == Index(current) == LeftIn(Index(current), rows, 0) && Placed(feed, current, rows, 0, [])
    requires |rows| == |choices| == |was| && Marked(index, rows, was, 0) && was == Marks(rows)
    requires forall k :: 0 <= k < |rows| ==> choices[k] == Merged(index, rows, k)
    modifies feed, rows
    ensures left == LeftIn(index, rows, |rows|) && Placed(feed, current, rows, |rows|, choices)
    ensures Marked(index, rows, was, |rows|)
  {
    assert index.Values <= set x | x in current;
    assert forall k :: 0 <= k < |rows| ==> rows[k] !in current;
    hide Index, Placed, LeftIn, Taken, Keep, Met, Marked, Distinct, Apart;
    assert choices[..0] == [];
    left := index;
    var i := 0;
    while i < |rows|
      invariant 0 <= i <= |rows|
      invariant left == LeftIn(index, rows, i) && Placed(feed, current, rows, i, choices[..i])
      invariant forall x: Row :: x in current ==> x.isNew == old(x.isNew)
      invariant Marked(index, rows, was, i)
    {
      MetIsIndexed(index, rows, i);
      MarkedStill(index, rows, was, i);
      assert Merged(index, rows, i) == old(Merged(index, rows, i));
      left := OneRow(feed, left, rows, i, current, choices, was);
      i := i + 1;
    }
    assert choices[..i] == choices;
  }

  lemma MetIsIndexed(index: map<string, Row>, rows: seq<Row>, i: nat)
    requires i < |rows|
    ensures Met(index, rows, i).Some? ==> Met(index, rows, i).value in index.Values
  {
  }

  lemma MarkedStill(index: map<string, Row>, rows: seq<Row>, was: seq<bool>, i: nat)
    requires i < |rows| == |was| && Marked(index, rows, was, i)
    ensures rows[i].isNew == was[i]
  {
  }

  lemma OthersDiffer(rows: seq<Row>, i: nat)
    requires Distinct(rows) && i < |rows|
    ensures forall k :: 0 <= k < |rows| && k != i ==> rows[k] != rows[i]
  {
  }

  /** One round, with the marks of all rows. */
  method OneRow(feed: Feed, existing: map<string, Row>, rows: seq<Row>, i: nat,
                ghost current: seq<Row>, ghost choices: seq<Row>, ghost was: seq<bool>)
    returns (left: map<string, Row>)
    requires i < |rows| == |choices| == |was| && Distinct(rows) && Distinct(current)
    requires Apart(rows, current)
    requires existing == LeftIn(Index(current), rows, i) && Placed(feed, current, rows, i, choices[..i])
    requires choices[i] == Merged(Index(current), rows, i) && Marked(Index(current), rows, was, i)
    modifies feed, rows[i]
    ensures left == LeftIn(Index(current), rows, i + 1) && Placed(feed, current, rows, i + 1, choices[..i + 1])
    ensures Marked(Index(current), rows, was, i + 1)
  {
    hide Index, Placed, LeftIn, Keep, Taken, Met, Distinct, Merged, Apart;
    OthersDiffer(rows, i);
    var node;
    node, left := Round(feed, existing, rows, i, current, choices[..i]);
    assert choices[..i + 1] == choices[..i] + [node];
  }

  /** The last loop: removes the rows no incoming row met. */
  method RemoveLeft(feed: Feed, existing: set<Row>, ghost done: seq<Row>, ghost current: seq<Row>,
      ghost taken: set<Row>)
    requires feed.children == done + Keep(current, taken) && Distinct(feed.children)
    requires existing !! taken && forall x :: x in existing ==> x in current && x !in done
    modifies feed
    ensures feed.children == done + Keep(current, taken + existing)
  {
    var left := existing;
    ghost var gone := taken;
    while left != {}
      invariant left <= existing && left !! gone && gone + left == taken + existing
      invariant feed.children == done + Keep(current, gone) && Distinct(feed.children)
      decreases left
    {
      var node :| node in left;
      RemoveOne(feed, node, done, current, gone);
      gone := gone + {node};
      left := left - {node};
    }
    assert gone == taken + existing;
  }

  method RemoveOne(feed: Feed, node: Row, ghost done: seq<Row>, ghost current: seq<Row>, ghost gone: set<Row>)
    requires feed.children == done + Keep(current, gone) && Distinct(feed.children)
    requires node in current && node !in gone && node !in done
    modifies feed
    ensures feed.children == done + Keep(current, gone + {node}) && Distinct(feed.children)
  {
    KeepConcat(done, Keep(current, gone), {node});
    KeepAll(done, {node});
    KeepTwice(current, gone, {node});
    KeepDistinct(feed.children, {node});
    feed.Remove(node);
  }

  lemma ChoicesText(index: map<string, Row>, rows: seq<Row>)
    ensures forall k :: 0 <= k < |rows| ==>
      Choices(index, rows)[k].key == rows[k].key && Choices(index, rows)[k].markup == rows[k].markup
  {
  }

  /** mergeRows for keyed rows. The feed ends up with the incoming rows in
      their order, and behind them only those rows of the page that were out of
      reach; an incoming row whose page row has the same markup and the same
      mark is the page's own element, every other is the incoming one; those
      that met no page row are marked new, and nothing else changes. */
  method Merge(feed: Feed, rows: seq<Row>)
    requires Distinct(rows) && Distinct(feed.children) && Apart(rows, feed.children)
    modifies feed, rows
    ensures feed.children == old(Choices(Index(feed.children), rows)) + Unreached(old(feed.children))
    ensures forall k :: 0 <= k < |rows| ==>
      feed.children[k].key == rows[k].key && feed.children[k].markup == rows[k].markup
    ensures Marked(Index(old(feed.children)), rows, old(Marks(rows)), |rows|)
  {
    ghost var current := feed.children;
    ghost var index := Index(current);
    ghost var done := Choices(index, rows);
    ghost var taken := Taken(index, rows, |rows|);
    ChoicesText(index, rows);
    hide Choices, Marks, Marked, Distinct, Keep, LeftIn, Taken, Index;
    var existing := MergeKeyed(feed, rows);
    LeftIsBehind(current, rows, done);
    RemoveLeft(feed, existing.Values, done, current, taken);
  }

  /** The rows left over are rows of the page behind the placed ones. */
  lemma LeftIsBehind(current: seq<Row>, rows: seq<Row>, done: seq<Row>)
    requires Apart(rows, current)
    requires forall x :: x in done ==> x in rows[..|rows|] || x in Taken(Index(current), rows, |rows|)
    ensures var index, taken := Index(current), Taken(Index(current), rows, |rows|);
            var left := LeftIn(index, rows, |rows|).Values;
            && left !! taken && taken + left == index.Values
            && forall x :: x in left ==> x in current && x !in done
  {
    TakenOrLeft(current, rows);
    assert rows[..|rows|] == rows;
    var left := LeftIn(Index(current), rows, |rows|).Values;
    forall x | x in left ensures x in current && x !in done {
      assert x in Index(current).Values;
    }
  }

  method CopyRows(rows: seq<Row>) returns (copies: seq<Row>)
    ensures |copies| == |rows| && fresh(copies)
    ensures forall i :: 0 <= i < |rows| ==> copies[i].Outer() == rows[i].Outer()
  {
    copies := [];
    for i := 0 to |rows|
      invariant |copies| == i && fresh(copies)
      invariant forall k :: 0 <= k < i ==> copies[k].Outer() == rows[k].Outer()
    {
      var copy := new Row(rows[i].key, rows[i].markup, rows[i].isNew);
      copies := copies + [copy];
    }
  }

  /** mergeRows. When the first incoming row is not keyed the page takes the
      incoming markup over as it is; otherwise the rows are merged, and the
      result is exactly the incoming list if and only if every row on the page
      was keyed and no two shared a key. */
  method MergeRows(feed: Feed, rows: seq<Row>)
    requires Distinct(rows) && Distinct(feed.children) && Apart(rows, feed.children)
    modifies feed, rows
    ensures (rows == [] || rows[0].key.None?) ==>
              |feed.children| == |rows|
              && forall i :: 0 <= i < |rows| ==> feed.children[i].Outer() == old(rows[i].Outer())
    ensures rows != [] && rows[0].key.Some? ==>
              (feed.children == old(Choices(Index(feed.children), rows)) <==> WellKeyed(old(feed.children)))
              && |feed.children| >= |rows|
              && Marked(Index(old(feed.children)), rows, old(Marks(rows)), |rows|)
              && forall i :: 0 <= i < |rows| ==>
                   feed.children[i].key == rows[i].key && feed.children[i].markup == rows[i].markup
  {
    var keyed := |rows| > 0 && rows[0].key.Some?;
    if !keyed {
      feed.children := CopyRows(rows);
      return;
    }
    UnreachedIffIllKeyed(feed.children);
    Merge(feed, rows);
  }

  // ------------------------------------------------------------ merging again

  /** `again` is the same incoming list once more, in elements of its own, and
      neither of the two carries marks. */
  ghost predicate SameList(rows: seq<Row>, again: seq<Row>)
    reads rows, again
  {
    && |again| == |rows|
    && (forall i :: 0 <= i < |rows| ==> again[i].key == rows[i].key && again[i].markup == rows[i].markup)
    && (forall i :: 0 <= i < |rows| ==> !rows[i].isNew && !again[i].isNew)
  }

  /** The incoming row `i` has a row of its key on the page. */
  ghost predicate OnPage(page: seq<Row>, row: Row) {
    exists r :: r in page && r.key == row.key
  }

  lemma WellKeyedDistinct(s: seq<Row>)
    requires WellKeyed(s)
    ensures Distinct(s)
  {
  }

  lemma SameKeysWellKeyed(s: seq<Row>, t: seq<Row>)
    requires WellKeyed(s) && |t| == |s| && forall i :: 0 <= i < |s| ==> t[i].key == s[i].key
    ensures WellKeyed(t)
  {
    forall i | 0 <= i < |t| ensures Indexed(t[i]) { assert Indexed(s[i]); }
  }

  /** Well keyed rows meet the row of their key, whichever came before. */
  lemma MeetsItsKey(page: seq<Row>, rows: seq<Row>, i: nat)
    requires WellKeyed(page) && WellKeyed(rows) && i < |rows|
    ensures Met(Index(page), rows, i).Some? <==> OnPage(page, rows[i])
    ensures forall j :: 0 <= j < |page| && page[j].key == rows[i].key ==> Met(Index(page), rows, i) == Some(page[j])
  {
    assert Indexed(rows[i]);
    forall k | 0 <= k < i ensures Name(rows[k]) != Name(rows[i]) { assert Indexed(rows[k]); }
    forall j | 0 <= j < |page| && page[j].key == rows[i].key ensures Met(Index(page), rows, i) == Some(page[j]) {
      IndexHolds(page, j);
    }
  }

  /** What the row `i` of a merge over a well keyed page becomes. */
  lemma ChoiceAt(page: seq<Row>, rows: seq<Row>, i: nat)
    requires WellKeyed(page) && WellKeyed(rows) && i < |rows|
    ensures var c := Merged(Index(page), rows, i);
            && c.key == rows[i].key && c.markup == rows[i].markup && c.isNew == rows[i].isNew
            && (c == rows[i] || (c in page && OnPage(page, rows[i])))
    ensures forall j :: 0 <= j < |page| && page[j].key == rows[i].key && page[j].markup == rows[i].markup ==>
      Merged(Index(page), rows, i) == if page[j].isNew == rows[i].isNew then page[j] else rows[i]
  {
    MeetsItsKey(page, rows, i);
    hide WellKeyed, Met;
  }

  /** A merge over a well keyed page leaves one, and marks the rows it did not
      have. */
  method MergeWellKeyed(feed: Feed, rows: seq<Row>)
    requires rows != [] && WellKeyed(rows) && WellKeyed(feed.children)
    requires forall i :: 0 <= i < |rows| ==> rows[i] !in feed.children && !rows[i].isNew
    modifies feed, rows
    ensures feed.children == old(Choices(Index(feed.children), rows)) && WellKeyed(feed.children)
    ensures forall i :: 0 <= i < |rows| ==> (rows[i].isNew <==> !OnPage(old(feed.children), rows[i]))
    ensures forall i :: 0 <= i < |rows| ==>
      var c := feed.children[i]; c.key == rows[i].key && c.markup == rows[i].markup && c.isNew == rows[i].isNew
    ensures forall i :: 0 <= i < |rows| ==> feed.children[i] in old(feed.children) || feed.children[i] == rows[i]
  {
    ghost var page := feed.children;
    ghost var choices := Choices(Index(page), rows);
    WellKeyedDistinct(rows);
    WellKeyedDistinct(page);
    assert rows[0].key.Some? by { assert Indexed(rows[0]); }
    forall i | 0 <= i < |rows|
      ensures var c := choices[i]; c == rows[i] || (c in page && !c.isNew && OnPage(page, rows[i]))
    {
      ChoiceAt(page, rows, i);
    }
    forall i | 0 <= i < |rows| ensures Met(Index(page), rows, i).Some? <==> OnPage(page, rows[i]) {
      MeetsItsKey(page, rows, i);
    }
    MergeRows(feed, rows);
    SameKeysWellKeyed(rows, choices);
  }

  /** A merge of rows the page has, in the page's order: those it had marked are
      replaced. */
  method MergeAgain(feed: Feed, rows: seq<Row>)
    requires rows != [] && WellKeyed(rows) && WellKeyed(feed.children) && |feed.children| == |rows|
    requires forall i :: 0 <= i < |rows| ==> rows[i] !in feed.children && !rows[i].isNew
    requires forall i :: 0 <= i < |rows| ==>
      feed.children[i].key == rows[i].key && feed.children[i].markup == rows[i].markup
    modifies feed, rows
    ensures |feed.children| == |rows|
    ensures forall i :: 0 <= i < |rows| ==>
      feed.children[i] == if old(feed.children[i].isNew) then rows[i] else old(feed.children)[i]
    ensures forall i :: 0 <= i < |rows| ==> !feed.children[i].isNew
  {
    ghost var page := feed.children;
    ghost var choices := Choices(Index(page), rows);
    forall i | 0 <= i < |rows|
      ensures choices[i] == if page[i].isNew then rows[i] else page[i]
      ensures OnPage(page, rows[i])
    {
      ChoiceAt(page, rows, i);
      assert page[i] in page;
    }
    hide WellKeyed, Merged, Index, Choices;
    MergeWellKeyed(feed, rows);
    assert |choices| == |rows|;
  }

  /** Merging the same list again replaces exactly the rows the first merge
      marked new, which are those whose key was not on the page: they come in a
      second time, unmarked. Every other element stays, and no mark is left. */
  method MergeTwice(feed: Feed, rows: seq<Row>, again: seq<Row>)
    requires rows != [] && WellKeyed(rows) && WellKeyed(feed.children) && SameList(rows, again)
    requires Apart(rows, feed.children)
    requires forall r :: r in again ==> r !in feed.children && r !in rows
    modifies feed, rows, again
    ensures |feed.children| == |rows|
    ensures forall i :: 0 <= i < |rows| ==> (rows[i].isNew <==> !OnPage(old(feed.children), rows[i]))
    ensures forall i :: 0 <= i < |rows| ==>
      feed.children[i] == if rows[i].isNew then again[i] else old(Merged(Index(feed.children), rows, i))
    ensures forall i :: 0 <= i < |rows| ==> !feed.children[i].isNew
  {
    SameKeysWellKeyed(rows, again);
    hide WellKeyed, Index, Merged;
    MergeWellKeyed(feed, rows);
    assert forall i :: 0 <= i < |rows| ==> again[i] in again;
    MergeAgain(feed, again);
  }
}
