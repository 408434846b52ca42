/** The newest names of a folder: names sort by time, so they are the largest. */
module TopNames {
  import opened Order

  /** The `limit` largest names of a set. */
  function Top(limit: nat, names: set<string>): set<string> {
    set x | x in names && |Above(x, names)| < limit
  }

  lemma SubsetSize(a: set<string>, b: set<string>)
    requires a <= b
    ensures |a| <= |b|
  {
    assert b == a + (b - a);
  }

  lemma AboveGrows(x: string, a: set<string>, b: set<string>)
    requires a <= b
    ensures |Above(x, a)| <= |Above(x, b)|
  {
    SubsetSize(Above(x, a), Above(x, b));
  }

  lemma {:induction false} SetOfIncreasing(s: seq<string>)
    requires Increasing(s)
    ensures |set x | x in s| == |s|
  {
    var all := set x | x in s;
    if s == [] {
      assert all == {};
    } else {
      var rest := set x | x in s[1..];
      SetOfIncreasing(s[1..]);
      assert s == [s[0]] + s[1..];
      LessIrreflexive(s[0]);
      assert all == rest + {s[0]};
    }
  }

  /** The end of the sorted listing is the top of the folder. */
  lemma TopIsTail(limit: nat, names: set<string>)
    ensures var s := Sorted(names); var k := if |s| > limit then |s| - limit else 0;
            Top(limit, names) == set x | x in s[k..]
  {
    var s := Sorted(names);
    var k := if |s| > limit then |s| - limit else 0;
    assert (set n | n in s) == names;
    forall x ensures x in Top(limit, names) <==> x in s[k..] {
      if x in names {
        var i :| 0 <= i < |s| && s[i] == x;
        RankFromTop(s, i);
        if i >= k { assert s[k..][i - k] == x; }
        if x in s[k..] {
          var j :| 0 <= j < |s[k..]| && s[k..][j] == x;
          if i < k + j { NotBackward(s, i, k + j); assert Less(s[i], s[k + j]); }
        }
      }
    }
  }

  lemma TopSize(limit: nat, names: set<string>)
    ensures |Top(limit, names)| == if |names| > limit then limit else |names|
  {
    var s := Sorted(names);
    var k := if |s| > limit then |s| - limit else 0;
    TopIsTail(limit, names);
    SetOfIncreasing(s[k..]);
    SetOfIncreasing(s);
    assert (set n | n in s) == names;
  }

  /** A name outside the top has the whole top above it. */
  lemma TopIsAbove(limit: nat, names: set<string>, x: string)
    requires x in names && x !in Top(limit, names)
    ensures |Above(x, Top(limit, names))| == limit
  {
    var s, top := Sorted(names), Top(limit, names);
    assert (set n | n in s) == names;
    var i :| 0 <= i < |s| && s[i] == x;
    RankFromTop(s, i);
    TopIsTail(limit, names);
    TopSize(limit, names);
    var k := |s| - limit;
    forall y | y in top ensures Less(x, y) {
      var j :| 0 <= j < |s[k..]| && s[k..][j] == y;
      assert s[k + j] == y;
    }
    SubsetSize(Above(x, names), names);
    assert Above(x, top) == top;
  }

  /** The top does not depend on the names outside it. */
  lemma TopWithoutOthers(limit: nat, names: set<string>, gone: set<string>)
    requires gone !! Top(limit, names)
    ensures Top(limit, names - gone) == Top(limit, names)
  {
    var rest := names - gone;
    forall x ensures x in Top(limit, rest) <==> x in Top(limit, names) {
      if x in Top(limit, names) {
        TopShrinks(limit, rest, names, x);
      } else if x in Top(limit, rest) {
        TopIsAbove(limit, names, x);
        AboveGrows(x, Top(limit, names), rest);
      }
    }
  }

  /** What prune removes of a listing: all but its last `limit` names. */
  function Excess(limit: nat, seen: set<string>): set<string> {
    seen - Top(limit, seen)
  }

  /** More names push names out of the top and never bring one back. */
  lemma TopShrinks(limit: nat, a: set<string>, b: set<string>, x: string)
    requires a <= b && x in a && x in Top(limit, b)
    ensures x in Top(limit, a)
  {
    AboveGrows(x, a, b);
  }

  lemma ExcessIsBelowTop(limit: nat, seen: set<string>, ever: set<string>)
    requires seen <= ever
    ensures Excess(limit, seen) !! Top(limit, ever)
  {
    forall x | x in Excess(limit, seen) ensures x !in Top(limit, ever) {
      if x in Top(limit, ever) { TopShrinks(limit, seen, ever, x); }
    }
  }

  /** A listing that shows the whole top shows `x` to be in excess of it. */
  lemma ListedIsExcess(limit: nat, seen: set<string>, ever: set<string>, x: string)
    requires x in seen && x in ever && Top(limit, ever) <= seen && x !in Top(limit, ever)
    ensures x in Excess(limit, seen)
  {
    TopIsAbove(limit, ever, x);
    AboveGrows(x, Top(limit, ever), seen);
  }
}
