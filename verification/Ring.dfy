/** The ring of completed traces (internal/ring/ring.go): slots allocated once
    and rewritten in place, which must show the last traces pushed. */
module Ring {
  import opened Options
  import opened Copies
  import opened Arithmetic

  // --------------------------------------------------------- the bounded log

  /** The last `n` entries of a log. */
  function LastOf<T>(log: seq<T>, n: nat): (r: seq<T>)
    ensures |r| == if |log| > n then n else |log|
  {
    if |log| > n then log[|log| - n..] else log
  }

  /** Newest first, without those that have no id. */
  function NewestFirst(s: seq<View>): seq<View> {
    if s == [] then []
    else (if s[|s| - 1].info.id != "" then [s[|s| - 1]] else []) + NewestFirst(s[..|s| - 1])
  }

  /** The entries with an id, from the last of the list to the first, `at` being
      their places. */
  ghost predicate Reversed(s: seq<View>, at: seq<nat>, shown: seq<View>) {
    && |at| == |shown|
    && (forall i :: 0 <= i < |at| ==> at[i] < |s| && shown[i] == s[at[i]] && shown[i].info.id != "")
    && (forall i, j :: 0 <= i < j < |at| ==> at[i] > at[j])
    && (forall k :: 0 <= k < |s| && s[k].info.id != "" ==> k in at)
  }

  lemma ReversedSnoc(s: seq<View>, at: seq<nat>, shown: seq<View>, v: View)
    requires Reversed(s, at, shown)
    ensures v.info.id != "" ==> Reversed(s + [v], [|s|] + at, [v] + shown)
    ensures v.info.id == "" ==> Reversed(s + [v], at, shown)
  {
  }

  lemma {:induction false} NewestFirstIsReversed(s: seq<View>) returns (at: seq<nat>)
    ensures Reversed(s, at, NewestFirst(s))
  {
    at := [];
    if s != [] {
      var front, v := s[..|s| - 1], s[|s| - 1];
      at := NewestFirstIsReversed(front);
      ReversedSnoc(front, at, NewestFirst(front), v);
      hide Reversed;
      assert s == front + [v];
      if v.info.id != "" { at := [|front|] + at; } else { assert [] + NewestFirst(front) == NewestFirst(front); }
    }
  }

  function FirstWith(s: seq<View>, id: string): Option<View> {
    if s == [] then None else if s[0].info.id == id then Some(s[0]) else FirstWith(s[1..], id)
  }

  /** That is the first entry with the id, if there is one. */
  lemma {:induction false} FirstWithIsFirst(s: seq<View>, id: string)
    ensures FirstWith(s, id).None? <==> forall i :: 0 <= i < |s| ==> s[i].info.id != id
    ensures FirstWith(s, id).Some? ==>
      exists k :: 0 <= k < |s| && s[k] == FirstWith(s, id).value && s[k].info.id == id
        && forall i :: 0 <= i < k ==> s[i].info.id != id
  {
    if s != [] && s[0].info.id != id {
      var rest := s[1..];
      FirstWithIsFirst(rest, id);
      assert forall i :: 0 < i < |s| ==> s[i] == rest[i - 1];
      if FirstWith(rest, id).Some? {
        var k :| 0 <= k < |rest| && rest[k] == FirstWith(rest, id).value && rest[k].info.id == id
            && forall i :: 0 <= i < k ==> rest[i].info.id != id;
        assert s[k + 1] == rest[k];
      }
    }
  }

  /** Pushing drops the oldest entry once the log is longer than the ring. */
  lemma LastOfPush(log: seq<View>, v: View, n: nat)
    requires n > 0
    ensures LastOf(log + [v], n) == (if |log| >= n then LastOf(log, n)[1..] else log) + [v]
  {
  }

  /** The entries of the ring, oldest first: the slots from the next one on and
      then those before it, once the ring has been filled. */
  function Unrolled(slots: seq<View>, next: nat, full: bool): seq<View>
    requires next <= |slots|
  {
    if full then slots[next..] + slots[..next] else slots[..next]
  }

  /** Rewriting the next slot drops the oldest entry, if there is one in it,
      and adds the newest. */
  lemma UnrolledRewrite(slots: seq<View>, next: nat, full: bool, v: View)
    requires next < |slots|
    ensures var after, u := slots[next := v], Unrolled(slots, next, full);
            && (full ==> |u| > 0)
            && after[..next + 1] == slots[..next] + [v]
            && (if full then after[next + 1..] + after[..next + 1] == u[1..] + [v] else after[..next + 1] == u + [v])
  {
    assert full ==> Unrolled(slots, next, full)[1..] == slots[next + 1..] + slots[..next];
  }

  /** The index after a push. */
  function Following(next: nat, n: nat): (r: nat)
    requires next < n
    ensures r == if next + 1 == n then 0 else next + 1
  {
    if next + 1 == n then RemainderUnique(n, n, 1, 0); (next + 1) % n
    else RemainderUnique(next + 1, n, 0, next + 1); (next + 1) % n
  }

  lemma UnrolledPush(slots: seq<View>, next: nat, full: bool, log: seq<View>, v: View)
    requires next < |slots| && Unrolled(slots, next, full) == LastOf(log, |slots|) && (full <==> |log| >= |slots|)
    ensures var n := |slots|; var next' := Following(next, n);
            && next' < n
            && Unrolled(slots[next := v], next', full || next' == 0) == LastOf(log + [v], n)
            && ((full || next' == 0) <==> |log| + 1 >= n)
  {
    hide LastOf;
    var n := |slots|;
    LastOfPush(log, v, n);
    UnrolledRewrite(slots, next, full, v);
    LastOfAll(log, n);
    var after := slots[next := v];
    if next + 1 == n {
      assert after[0..] + after[..0] == after[..n];
      assert after[n..] == [];
    }
  }

  lemma LastOfAll(log: seq<View>, n: nat)
    ensures |log| <= n ==> LastOf(log, n) == log
  {
  }

  /** The slot about to be rewritten shows the entry that leaves the ring. */
  lemma Oldest(slots: seq<View>, next: nat, full: bool, log: seq<View>)
    requires next < |slots| && Unrolled(slots, next, full) == LastOf(log, |slots|) && (full <==> |log| >= |slots|)
    ensures full ==> slots[next] == log[|log| - |slots|]
  {
    assert full ==> slots[next] == Unrolled(slots, next, full)[0];
  }

  /** The slot of the `i`-th newest entry. */
  function SlotOf(next: nat, i: nat, n: nat): (k: nat)
    requires next < n && i < n
    ensures k == if i < next then next - 1 - i else next - 1 - i + n
  {
    var k := if i < next then next - 1 - i else next - 1 - i + n;
    RemainderUnique(next - 1 - i + n * 2, n, if i < next then 2 else 1, k);
    (next - 1 - i + n * 2) % n
  }

  lemma SlotShows(slots: seq<View>, next: nat, full: bool, i: nat)
    requires next < |slots| && i < (if full then |slots| else next)
    ensures var u := Unrolled(slots, next, full); slots[SlotOf(next, i, |slots|)] == u[|u| - 1 - i]
  {
  }

  /** The slots show the last of the log, and nothing beyond it. */
  ghost predicate Matches(slots: seq<View>, next: nat, full: bool, log: seq<View>) {
    && (if slots == [] then next == 0 && !full else next < |slots| && (full <==> |log| >= |slots|))
    && Unrolled(slots, next, full) == LastOf(log, |slots|)
    && (!full ==> forall i :: next <= i < |slots| ==> slots[i] == ZERO)
  }

  lemma MatchesNothing(slots: seq<View>)
    requires forall i :: 0 <= i < |slots| ==> slots[i] == ZERO
    ensures Matches(slots, 0, false, [])
  {
  }

  lemma MatchesPush(slots: seq<View>, next: nat, full: bool, log: seq<View>, v: View)
    requires slots != [] && Matches(slots, next, full, log)
    ensures next < |slots|
    ensures var next' := Following(next, |slots|); Matches(slots[next := v], next', full || next' == 0, log + [v])
  {
    UnrolledPush(slots, next, full, log, v);
  }

  lemma MatchesShows(slots: seq<View>, next: nat, full: bool, log: seq<View>, i: nat)
    requires slots != [] && Matches(slots, next, full, log) && i < |LastOf(log, |slots|)|
    ensures next < |slots| && i < |slots|
    ensures var last := LastOf(log, |slots|); slots[SlotOf(next, i, |slots|)] == last[|last| - 1 - i]
  {
    hide SlotOf;
    SlotShows(slots, next, full, i);
  }

  // ----------------------------------------------------------------- the ring

  function Shown(copies: seq<Copy>): (r: seq<View>)
    requires forall i :: 0 <= i < |copies| ==> copies[i].Valid()
    reads copies, set i, o | 0 <= i < |copies| && o in copies[i].Repr :: o
    ensures |r| == |copies| && forall i :: 0 <= i < |copies| ==> r[i] == copies[i].Value()
  {
    if copies == [] then [] else Shown(copies[..|copies| - 1]) + [copies[|copies| - 1].Value()]
  }

  /** Slots that hold nothing yet. */
  method NewSlots(n: nat) returns (slots: seq<Copy>)
    ensures |slots| == n
    ensures forall i :: 0 <= i < n ==>
      fresh(slots[i]) && slots[i].Repr == {slots[i]} && slots[i].Valid() && slots[i].Value() == ZERO
    ensures forall i, j :: 0 <= i < j < n ==> slots[i] != slots[j]
  {
    hide Copy.Valid, Copy.Value;
    slots := [];
    while |slots| < n
      invariant |slots| <= n
      invariant forall i :: 0 <= i < |slots| ==>
        fresh(slots[i]) && slots[i].Repr == {slots[i]} && slots[i].Valid() && slots[i].Value() == ZERO
      invariant forall i, j :: 0 <= i < j < |slots| ==> slots[i] != slots[j]
    {
      var slot := new Copy();
      slots := slots + [slot];
    }
  }

  lemma Append(a: seq<View>, v: View, b: seq<View>)
    ensures a + ([v] + b) == (a + [v]) + b && a + ([] + b) == a + b && a + [] == a
  {
  }

  lemma NewestFirstStep(s: seq<View>, k: nat)
    requires k <= |s|
    ensures k == 0 ==> NewestFirst(s[..k]) == []
    ensures k > 0 ==>
      NewestFirst(s[..k]) == (if s[k - 1].info.id != "" then [s[k - 1]] else []) + NewestFirst(s[..k - 1])
  {
    assert k > 0 ==> s[..k][..k - 1] == s[..k - 1];
  }

  /** List's loop: walks the slots back from the newest. */
  method Collect(items: seq<Copy>, next: nat, n: nat, ghost entries: seq<View>) returns (out: seq<Copy>)
    requires forall i :: 0 <= i < |items| ==> items[i].Valid()
    requires next < |items| && n == |entries| <= |items|
    requires forall i :: 0 <= i < n ==> items[SlotOf(next, i, |items|)].Value() == entries[n - 1 - i]
    ensures forall i :: 0 <= i < |out| ==> out[i] in items && out[i].Valid()
    ensures Shown(out) == NewestFirst(entries)
  {
    hide Copy.Valid, Copy.Value, SlotOf, NewestFirst, Shown;
    out := [];
    ghost var shown: seq<View> := [];
    assert entries[..n] == entries;
    var i := 0;
    while i < n
      invariant 0 <= i <= n
      invariant |shown| == |out|
      invariant forall k :: 0 <= k < |out| ==> out[k] in items && out[k].Valid() && shown[k] == out[k].Value()
      invariant shown + NewestFirst(entries[..n - i]) == NewestFirst(entries)
    {
      var trace := items[SlotOf(next, i, |items|)];
      NewestFirstStep(entries, n - i);
      Append(shown, trace.Value(), NewestFirst(entries[..n - i - 1]));
      if trace.Id() != "" {
        out := out + [trace];
        shown := shown + [trace.Value()];
      }
      i := i + 1;
    }
    NewestFirstStep(entries, 0);
    Append(shown, ZERO, []);
    assert Shown(out) == shown;
  }

  lemma {:induction false} FirstWithAt(s: seq<View>, k: nat, id: string)
    requires k <= |s| && (k < |s| ==> s[k].info.id == id) && forall i :: 0 <= i < k ==> s[i].info.id != id
    ensures FirstWith(s, id) == if k < |s| then Some(s[k]) else None
  {
    if k > 0 { FirstWithAt(s[1..], k - 1, id); }
  }

  /** Find's loop. */
  method Search(traces: seq<Copy>, id: string) returns (found: Copy?)
    requires forall i :: 0 <= i < |traces| ==> traces[i].Valid()
    ensures found == null <==> FirstWith(Shown(traces), id).None?
    ensures found != null ==> found in traces && found.Valid() && Some(found.Value()) == FirstWith(Shown(traces), id)
  {
    hide FirstWith, Copy.Valid, Copy.Value;
    ghost var shown := Shown(traces);
    hide Shown;
    var i := 0;
    while i < |traces|
      invariant 0 <= i <= |traces|
      invariant forall k :: 0 <= k < i ==> shown[k].info.id != id
    {
      if traces[i].Id() == id {
        FirstWithAt(shown, i, id);
        return traces[i];
      }
      i := i + 1;
    }
    FirstWithAt(shown, i, id);
    found := null;
  }

  class Ring {
    const items: seq<Copy>
    var next: nat
    var full: bool

    /** Every trace pushed since the ring was new or reset, as its copy. */
    ghost var log: seq<View>
    ghost var Repr: set<object>

    /** Slots own their allocations, each its own. */
    ghost predicate Apart()
      reads this`Repr, Repr - {this}
    {
      && this in Repr
      && (forall i :: 0 <= i < |items| ==> items[i] in Repr)
      && (forall i :: 0 <= i < |items| ==> items[i].Repr <= Repr && this !in items[i].Repr && items[i].Valid())
      && (forall i, j :: 0 <= i < j < |items| ==> items[i].Repr !! items[j].Repr)
    }

    ghost predicate Valid()
      reads this, Repr
      ensures Valid() ==> Apart()
    {
      Apart() && Matches(Shown(items), next, full, log)
    }

    constructor (size: int)
      ensures Valid() && log == [] && |items| == (if size < 0 then 0 else size) && fresh(Repr)
    {
      hide Copy.Valid, Copy.Value, Matches, Shown;
      var slots := NewSlots(if size < 0 then 0 else size);
      items := slots;
      next, full := 0, false;
      log := [];
      Repr := {this} + set i | 0 <= i < |slots| :: slots[i];
      new;
      MatchesNothing(Shown(items));
    }

    /** Rewrites one slot, and leaves the others what they were. */
    method Rewrite(k: nat, source: View, now: int, nows: seq<int>)
      requires Apart() && k < |items| && |nows| == |source.spans|
      modifies items[k].Repr, this`Repr
      ensures Apart() && fresh(Repr - old(Repr))
      ensures items[k].Value() == Freeze(source, now, nows)
      ensures forall i :: 0 <= i < |items| && i != k ==> items[i].Value() == old(items[i].Value())
    {
      hide Freeze, Copy.Valid, Copy.Value;
      items[k].CloneFrom(source, now, nows);
      Repr := Repr + items[k].Repr;
    }

    /** The bookkeeping after a slot was rewritten. */
    method Advance(ghost slots: seq<View>, ghost copied: View)
      requires Apart() && items != [] && |slots| == |items|
      requires Matches(slots, next, full, log)
      requires next < |items| ==> Shown(items) == slots[next := copied]
      modifies this`next, this`full, this`log
      ensures Valid() && log == old(log) + [copied]
    {
      hide Matches, Following, Shown;
      MatchesPush(slots, next, full, log, copied);
      next := Following(next, |items|);
      if next == 0 {
        full := true;
      }
      log := log + [copied];
    }

    /** Push: the log grows by the copy, whatever the slot held before. The
        trace is evicted whose id the slot still showed. */
    method Push(source: View, now: int, nows: seq<int>) returns (evicted: bool)
      requires Valid() && |nows| == |source.spans|
      modifies Repr
      ensures Valid() && log == old(log) + [Freeze(source, now, nows)] && fresh(Repr - old(Repr))
      ensures evicted <==> items == [] || (|old(log)| >= |items| && old(log)[|old(log)| - |items|].info.id != "")
    {
      hide Freeze, Copy.Valid, Copy.Value;
      if |items| == 0 {
        log := log + [Freeze(source, now, nows)];
        return true;
      }
      evicted := SlotTaken();
      PushInto(source, now, nows);
    }

    /** Rewrites the next slot and moves on. */
    method PushInto(source: View, now: int, nows: seq<int>)
      requires Valid() && items != [] && |nows| == |source.spans|
      modifies Repr
      ensures Valid() && log == old(log) + [Freeze(source, now, nows)] && fresh(Repr - old(Repr))
    {
      ghost var copied, slots := Freeze(source, now, nows), Shown(items);
      assert next < |items|;
      hide Freeze, Copy.Valid, Copy.Value, Matches, Shown;
      Rewrite(next, source, now, nows);
      assert Shown(items) == slots[next := copied];
      Advance(slots, copied);
    }

    /** Whether the next slot shows a trace. */
    method SlotTaken() returns (taken: bool)
      requires Valid() && items != []
      ensures taken <==> |log| >= |items| && log[|log| - |items|].info.id != ""
    {
      Oldest(Shown(items), next, full, log);
      taken := items[next].Id() != "";
    }

    /** How many entries the ring shows, those without an id included. */
    method Len() returns (n: nat)
      requires Valid()
      ensures n == |LastOf(log, |items|)| == if full then |items| else next
    {
      n := if full then |items| else next;
    }

    /** List: the last traces pushed, newest first, as the slots themselves. */
    method List() returns (out: seq<Copy>)
      requires Valid()
      ensures forall i :: 0 <= i < |out| ==> out[i] in items && out[i].Valid()
      ensures Shown(out) == NewestFirst(LastOf(log, |items|))
    {
      out := [];
      if |items| == 0 { return; }
      var n := Len();
      ghost var last := LastOf(log, |items|);
      ItemsShow();
      hide Copy.Valid, Copy.Value, SlotOf, NewestFirst, Matches, LastOf, Shown;
      out := Collect(items, next, n, last);
    }

    lemma ItemsShow()
      requires Valid() && items != []
      ensures next < |items|
      ensures var last := LastOf(log, |items|);
              forall i :: 0 <= i < |last| ==> items[SlotOf(next, i, |items|)].Value() == last[|last| - 1 - i]
    {
      hide Copy.Valid, Copy.Value, SlotOf;
      ghost var slots, last := Shown(items), LastOf(log, |items|);
      assert next < |items| && |last| <= |items|;
      hide Shown, Matches, Apart, LastOf, Valid;
      forall i | 0 <= i < |last| ensures items[SlotOf(next, i, |items|)].Value() == last[|last| - 1 - i] {
        MatchesShows(slots, next, full, log, i);
      }
    }

    /** Find: the newest trace with the id. */
    method Find(id: string) returns (found: Copy?)
      requires Valid()
      ensures found == null <==> id == "" || FirstWith(NewestFirst(LastOf(log, |items|)), id).None?
      ensures found != null ==>
        found in items && Some(found.Value()) == FirstWith(NewestFirst(LastOf(log, |items|)), id)
    {
      found := null;
      if id == "" { return; }
      hide Copy.Valid, Copy.Value, NewestFirst, FirstWith, LastOf, Matches, Apart, Shown;
      var traces := List();
      found := Search(traces, id);
    }

    /** Reset: the log starts over. */
    method Reset()
      requires Valid()
      modifies Repr
      ensures Valid() && log == [] && fresh(Repr - old(Repr))
    {
      hide Copy.Valid, Copy.Value, Shown, Matches;
      var i := 0;
      while i < |items|
        invariant 0 <= i <= |items|
        invariant Apart() && Repr == old(Repr)
        invariant forall k :: 0 <= k < i ==> items[k].Value() == ZERO
      {
        items[i].Clear();
        i := i + 1;
      }
      MatchesNothing(Shown(items));
      next, full := 0, false;
      log := [];
    }
  }
}
