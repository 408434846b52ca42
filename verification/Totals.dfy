/** Tables of totals: maps whose values add up. */
module Totals {

  function Lookup<K>(m: map<K, int>, k: K): int {
    if k in m then m[k] else 0
  }

  ghost function Total<K>(m: map<K, int>): int {
    if m == map[] then 0
    else
      var k :| k in m;
      m[k] + Total(m - {k})
  }

  lemma TotalOfNone<K>()
    ensures Total<K>(map[]) == 0
  {
  }

  /** Any entry can be taken out first. */
  lemma {:induction false} TotalWithout<K>(m: map<K, int>, k: K)
    requires k in m
    ensures Total(m) == m[k] + Total(m - {k})
    decreases |m|
  {
    var j :| j in m && Total(m) == m[j] + Total(m - {j});
    if j != k {
      TotalWithout(m - {j}, k);
      TotalWithout(m - {k}, j);
      assert m - {j} - {k} == m - {k} - {j};
    }
  }

  lemma TotalUpdate<K>(m: map<K, int>, k: K, v: int)
    ensures Total(m[k := v]) == Total(m) - Lookup(m, k) + v
  {
    TotalWithout(m[k := v], k);
    assert m[k := v] - {k} == m - {k};
    if k in m {
      TotalWithout(m, k);
    } else {
      assert m - {k} == m;
    }
  }

  /** Every entry of `b` added to the entry of `a` under the same key. */
  function Plus<K>(a: map<K, int>, b: map<K, int>): map<K, int> {
    map k | k in a.Keys + b.Keys :: Lookup(a, k) + Lookup(b, k)
  }

  lemma PlusAt<K>(a: map<K, int>, b: map<K, int>, k: K)
    ensures Lookup(Plus(a, b), k) == Lookup(a, k) + Lookup(b, k)
  {
  }

  lemma PlusOne<K>(a: map<K, int>, b: map<K, int>, k: K)
    requires k in b
    ensures Plus(a, b) == var rest := Plus(a, b - {k}); rest[k := Lookup(rest, k) + b[k]]
  {
  }

  lemma PlusNone<K>(a: map<K, int>)
    ensures Plus(a, map[]) == a && Total<K>(map[]) == 0
  {
  }

  lemma {:induction false} TotalPlus<K>(a: map<K, int>, b: map<K, int>)
    ensures Total(Plus(a, b)) == Total(a) + Total(b)
    decreases |b|
  {
    hide Total, Plus;
    if b == map[] {
      PlusNone(a);
    } else {
      var k :| k in b;
      var rest := Plus(a, b - {k});
      TotalPlus(a, b - {k});
      PlusOne(a, b, k);
      TotalUpdate(rest, k, Lookup(rest, k) + b[k]);
      TotalWithout(b, k);
    }
  }

  /** The loop behind Plus visits `b` in any order. */
  method AddEntries<K(==)>(a: map<K, int>, b: map<K, int>) returns (sum: map<K, int>)
    ensures sum == Plus(a, b)
  {
    sum := a;
    var todo := b.Keys;
    while todo != {}
      invariant todo <= b.Keys && sum.Keys == a.Keys + (b.Keys - todo)
      invariant forall k :: k in sum ==> sum[k] == Lookup(a, k) + if k in todo then 0 else Lookup(b, k)
      decreases todo
    {
      var k :| k in todo;
      sum := sum[k := (if k in sum then sum[k] else 0) + b[k]];
      todo := todo - {k};
    }
  }

  /** Pointwise smaller tables have the smaller total, and the same one only
      when they are the same. */
  lemma {:induction false} TotalAtMost<K>(a: map<K, int>, b: map<K, int>)
    requires a.Keys == b.Keys && forall k :: k in a ==> a[k] <= b[k]
    ensures Total(a) <= Total(b) && (Total(a) == Total(b) <==> a == b)
    decreases |a|
  {
    if a == map[] {
      assert b == map[];
    } else {
      var k :| k in a;
      TotalAtMost(a - {k}, b - {k});
      TotalWithout(a, k);
      TotalWithout(b, k);
      hide Total;
      assert a[k] == b[k] && a - {k} == b - {k} ==> forall j :: j in a ==> a[j] == b[j] by {
        forall j | j in a && a[k] == b[k] && a - {k} == b - {k} ensures a[j] == b[j] {
          assert j != k ==> j in a - {k} && (a - {k})[j] == (b - {k})[j];
        }
      }
    }
  }
}
