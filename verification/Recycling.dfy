/** What the registry's interleavings keep: nobody reads, saves or releases a
    trace whose memory has moved on, and the pool and the finalizers stay in
    step. */
module Recycling {
  import opened Registry

  /** Recycling is safe for readers: in every interleaving a trace cloned under
      the read lock is still the one that was registered, with its box attached
      and out of the pool, even if two live traces share its id. */
  lemma CloneIsSafe(run: seq<World>, steps: seq<Step>, i: nat)
    requires Run(run, steps) && i < |steps| && steps[i].Clone?
    ensures var w, id := run[i], steps[i].id;
            id in w.active && Owned(w, w.active[id]) && w.boxes[w.active[id].box].id == id
  {
    RunKeepsInv(run, steps, i);
    assert PcOf(run[i], steps[i].g).Cloning?;
  }

  /** And for the recorder and its callers: the trace a goroutine closes, hands
      to storage or releases, and the trace a caller kept, is its own. */
  lemma HeldTracesAreOwned(run: seq<World>, steps: seq<Step>, i: nat)
    requires Run(run, steps) && i < |run|
    ensures forall g: nat :: Holds(PcOf(run[i], g)) ==> Owned(run[i], PcOf(run[i], g).t)
    ensures forall t :: t in run[i].kept ==> Owned(run[i], t)
  {
    RunKeepsInv(run, steps, i);
  }

  /** While a reader is inside, the active traces are the ones it found. */
  lemma {:induction false} ReaderSeesOneMoment(run: seq<World>, steps: seq<Step>, g: nat, i: nat, j: nat)
    requires Run(run, steps) && i <= j < |run|
    requires forall k :: i <= k <= j ==> g in run[k].readers
    ensures run[j].active == run[i].active
  {
    if i < j {
      ReaderSeesOneMoment(run, steps, g, i, j - 1);
      ReadersHoldActive(run[j - 1], steps[j - 1]);
    }
  }

  /** No box is pooled twice, a pooled box has no finalizer, and a box is armed
      exactly while it has one. */
  lemma PoolAndFinalizers(run: seq<World>, steps: seq<Step>, i: nat)
    requires Run(run, steps) && i < |run|
    ensures forall b: nat :: InPool(run[i].pool, b) <= 1
    ensures forall b: nat :: InPool(run[i].pool, b) > 0 ==>
      b < |run[i].boxes| && b !in run[i].finalizers + run[i].finalizing
    ensures forall b: nat :: (b < |run[i].boxes| && run[i].boxes[b].armed) <==>
      b in run[i].finalizers + run[i].finalizing
  {
    RunKeepsInv(run, steps, i);
    forall b: nat
      ensures InPool(run[i].pool, b) <= 1
      ensures InPool(run[i].pool, b) > 0 ==> b < |run[i].boxes| && b !in run[i].finalizers + run[i].finalizing
    {
      assert PooledBox(run[i], b);
    }
  }

  /** No finalizer is ever set on a box that already has one. */
  lemma NoDoubleFinalizer(run: seq<World>, steps: seq<Step>, i: nat)
    requires Run(run, steps) && i < |steps| && steps[i].Arm?
    ensures var b := PcOf(run[i], steps[i].g).t.box;
            run[i + 1].finalizers != run[i].finalizers ==> b !in run[i].finalizers + run[i].finalizing
  {
    RunKeepsInv(run, steps, i);
  }

  /** A request's box always returns: its release puts it in the pool, and the
      trace in it has no box any more, so that a second one would do nothing. */
  lemma ReleaseReturnsBox(run: seq<World>, steps: seq<Step>, i: nat)
    requires Run(run, steps) && i < |steps| && steps[i].Release?
    ensures var b := PcOf(run[i], steps[i].g).t.box; InPool(run[i].pool, b) == 0 && InPool(run[i + 1].pool, b) == 1
    ensures !run[i + 1].boxes[PcOf(run[i], steps[i].g).t.box].attached && PcOf(run[i + 1], steps[i].g).Idle?
  {
    RunKeepsInv(run, steps, i);
    assert Owned(run[i], PcOf(run[i], steps[i].g).t);
  }
}
