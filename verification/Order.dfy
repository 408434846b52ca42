/** Byte-wise order of strings, and sorting by it, as the standard library's
    sort and comparison operators give them to every other module. */
module Order {
  import Ranking

  /** The order `<` gives two strings. */
  predicate Less(a: string, b: string) {
    b != [] && (a == [] || a[0] < b[0] || (a[0] == b[0] && Less(a[1..], b[1..])))
  }

  lemma {:induction false} LessIrreflexive(a: string)
    ensures !Less(a, a)
  {
    if a != [] { LessIrreflexive(a[1..]); }
  }

  lemma {:induction false} LessTransitive(a: string, b: string, c: string)
    requires Less(a, b) && Less(b, c)
    ensures Less(a, c)
  {
    if a != [] && a[0] == b[0] && b[0] == c[0] { LessTransitive(a[1..], b[1..], c[1..]); }
  }

  lemma {:induction false} LessTotal(a: string, b: string)
    ensures a == b || Less(a, b) || Less(b, a)
  {
    if a != [] && b != [] && a[0] == b[0] {
      LessTotal(a[1..], b[1..]);
      if a[1..] == b[1..] { assert a == [a[0]] + a[1..] == b; }
    }
  }

  /** Strings of one length compare by their heads first and by the last
      character when the heads agree. */
  lemma {:induction false} LessSnoc(a: string, b: string, x: char, y: char)
    requires |a| == |b|
    ensures Less(a + [x], b + [y]) <==> Less(a, b) || (a == b && x < y)
  {
    if a == [] {
    } else {
      assert (a + [x])[1..] == a[1..] + [x] && (b + [y])[1..] == b[1..] + [y];
      LessSnoc(a[1..], b[1..], x, y);
      assert a == [a[0]] + a[1..] && b == [b[0]] + b[1..];
    }
  }

  ghost predicate Increasing(s: seq<string>) {
    forall i, j :: 0 <= i < j < |s| ==> Less(s[i], s[j])
  }

  /** The elements of `s` above `x`. */
  function Above(x: string, s: set<string>): set<string> {
    set y | y in s && Less(x, y)
  }

  /** The place of `x` in an increasing list is told by how many names are above it. */
  lemma {:induction false} RankFromTop(names: seq<string>, i: nat)
    requires Increasing(names) && i < |names|
    ensures |Above(names[i], set n | n in names)| == |names| - 1 - i
    decreases |names| - i
  {
    var all := set n | n in names;
    if i == |names| - 1 {
      forall y | y in all ensures !Less(names[i], y) {
        var k :| 0 <= k < |names| && names[k] == y;
        NotBackward(names, k, i);
      }
      assert Above(names[i], all) == {};
    } else {
      RankFromTop(names, i + 1);
      var above, next := Above(names[i], all), Above(names[i + 1], all);
      forall y ensures y in above <==> y in next + {names[i + 1]} {
        if y in all {
          var k :| 0 <= k < |names| && names[k] == y;
          if k <= i { NotBackward(names, k, i); NotBackward(names, k, i + 1); }
        }
      }
      LessIrreflexive(names[i + 1]);
      assert above == next + {names[i + 1]};
    }
  }

  lemma NotBackward(names: seq<string>, k: nat, i: nat)
    requires Increasing(names) && k <= i < |names|
    ensures !Less(names[i], names[k])
  {
    LessIrreflexive(names[i]);
    if k < i && Less(names[i], names[k]) { LessTransitive(names[i], names[k], names[i]); }
  }

  lemma LessIsStrict()
    ensures Ranking.StrictOrder(Less)
  {
    forall a, b, c ensures !Less(a, a) && (Less(a, b) && Less(b, c) ==> Less(a, c)) {
      LessIrreflexive(a);
      if Less(a, b) && Less(b, c) { LessTransitive(a, b, c); }
    }
  }

  ghost predicate Lists(r: seq<string>, s: set<string>) {
    Increasing(r) && |r| == |s| && forall x :: x in r <==> x in s
  }

  /** What sort.Strings makes of a folder's names: all of them, increasing. */
  ghost function Sorted(s: set<string>): (r: seq<string>)
    ensures Lists(r, s)
  {
    SortedExists(s);
    var r :| Lists(r, s);
    r
  }

  lemma {:induction false} SortedExists(s: set<string>)
    ensures exists r :: Lists(r, s)
  {
    if s == {} {
      assert Lists([], s);
    } else {
      var x :| x in s;
      SortedExists(s - {x});
      var rest :| Lists(rest, s - {x});
      LessIsStrict();
      forall i | 0 <= i < |rest| ensures Less(x, rest[i]) || Less(rest[i], x) {
        assert rest[i] in rest;
        LessTotal(x, rest[i]);
      }
      Ranking.InsertHas(Less, x, rest);
      Ranking.InsertKeeps(Less, Less, x, rest);
      assert Lists(Ranking.Insert(Less, x, rest), s);
    }
  }

  /** There is one such list. */
  lemma SortedUnique(a: seq<string>, b: seq<string>, s: set<string>)
    requires Lists(a, s) && Lists(b, s)
    ensures a == b
  {
    LessIsStrict();
    Ranking.InOrderUnique(Less, a, b);
  }
}
