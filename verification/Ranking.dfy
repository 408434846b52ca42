/** Sorting by insertion, whatever the order, and what it gives when the order
    decides any two of the elements: one list, whatever order they come in. */
module Ranking {

  ghost predicate StrictOrder<T(!new)>(before: (T, T) -> bool) {
    && (forall x :: !before(x, x))
    && (forall x, y, z :: before(x, y) && before(y, z) ==> before(x, z))
  }

  ghost predicate InOrder<T>(before: (T, T) -> bool, s: seq<T>) {
    forall i, j :: 0 <= i < j < |s| ==> before(s[i], s[j])
  }

  /** The order decides between any two places of the list. */
  ghost predicate Decided<T>(before: (T, T) -> bool, s: seq<T>) {
    forall i, j :: 0 <= i < j < |s| ==> before(s[i], s[j]) || before(s[j], s[i])
  }

  /** Two lists in order with the same elements are the same list. */
  lemma {:induction false} InOrderUnique<T(!new)>(before: (T, T) -> bool, a: seq<T>, b: seq<T>)
    requires StrictOrder(before) && InOrder(before, a) && InOrder(before, b)
    requires forall x :: x in a <==> x in b
    ensures a == b
  {
    assert (a != [] ==> a[0] in a) && (b != [] ==> b[0] in b);
    if a != [] && b != [] {
      var x, y := a[0], b[0];
      assert a == [x] + a[1..] && b == [y] + b[1..];
      assert x == y || (before(x, y) && before(y, x));
      forall z ensures z in a[1..] <==> z in b[1..] {
        if z in a[1..] { assert z in b && before(x, z); }
        if z in b[1..] { assert z in a && before(x, z); }
      }
      InOrderUnique(before, a[1..], b[1..]);
    }
  }

  /** Stable insertion: `x` goes before the last elements it comes before. */
  function Insert<T>(before: (T, T) -> bool, x: T, s: seq<T>): seq<T> {
    if s != [] && before(x, s[|s| - 1]) then Insert(before, x, s[..|s| - 1]) + [s[|s| - 1]] else s + [x]
  }

  function Sort<T>(before: (T, T) -> bool, s: seq<T>): seq<T> {
    if s == [] then [] else Insert(before, s[|s| - 1], Sort(before, s[..|s| - 1]))
  }

  lemma {:induction false} InsertHas<T(!new)>(before: (T, T) -> bool, x: T, s: seq<T>)
    ensures |Insert(before, x, s)| == |s| + 1 && forall y :: y in Insert(before, x, s) <==> y == x || y in s
  {
    if s != [] && before(x, s[|s| - 1]) {
      assert s == s[..|s| - 1] + [s[|s| - 1]];
      InsertHas(before, x, s[..|s| - 1]);
    }
  }

  lemma {:induction false} SortHas<T(!new)>(before: (T, T) -> bool, s: seq<T>)
    ensures |Sort(before, s)| == |s| && forall y :: y in Sort(before, s) <==> y in s
  {
    if s != [] {
      assert s == s[..|s| - 1] + [s[|s| - 1]];
      SortHas(before, s[..|s| - 1]);
      InsertHas(before, s[|s| - 1], Sort(before, s[..|s| - 1]));
    }
  }

  lemma InOrderSnoc<T(!new)>(rel: (T, T) -> bool, s: seq<T>, x: T)
    requires InOrder(rel, s) && forall y :: y in s ==> rel(y, x)
    ensures InOrder(rel, s + [x])
  {
  }

  lemma InOrderFront<T(!new)>(rel: (T, T) -> bool, s: seq<T>)
    requires InOrder(rel, s) && s != []
    ensures var front, last := s[..|s| - 1], s[|s| - 1];
            && InOrder(rel, front) && (forall y :: y in front ==> rel(y, last))
            && forall y :: y in s <==> y in front || y == last
  {
    assert s == s[..|s| - 1] + [s[|s| - 1]];
  }

  /** Insertion keeps a list in any order that follows from where it stops. */
  lemma {:induction false} InsertKeeps<T(!new)>(before: (T, T) -> bool, rel: (T, T) -> bool, x: T, s: seq<T>)
    requires InOrder(rel, s)
    requires forall y :: y in s ==> if before(x, y) then rel(x, y) else rel(y, x)
    requires forall u, v :: u in s && v in s && rel(u, v) && !before(x, v) ==> rel(u, x)
    ensures InOrder(rel, Insert(before, x, s))
  {
    if s == [] {
      InOrderSnoc(rel, s, x);
    } else {
      var front, last := s[..|s| - 1], s[|s| - 1];
      InOrderFront(rel, s);
      assert last in s;
      if before(x, last) {
        InsertKeeps(before, rel, x, front);
        InsertHas(before, x, front);
        hide InOrder, Insert;
        InOrderSnoc(rel, Insert(before, x, front), last);
      } else {
        hide InOrder;
        InOrderSnoc(rel, s, x);
      }
    }
  }

  /** Sorting by a strict order that decides. */
  lemma {:induction false} SortRanks<T(!new)>(before: (T, T) -> bool, s: seq<T>)
    requires StrictOrder(before) && Decided(before, s)
    ensures InOrder(before, Sort(before, s))
    ensures |Sort(before, s)| == |s| && forall y :: y in Sort(before, s) <==> y in s
  {
    SortHas(before, s);
    if s != [] {
      var front, x := s[..|s| - 1], s[|s| - 1];
      SortRanks(before, front);
      assert forall y :: y in front ==> before(x, y) || before(y, x);
      hide InOrder, Decided;
      InsertKeeps(before, before, x, Sort(before, front));
    }
  }
}
