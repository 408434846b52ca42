/** What a live stream shows, over every run of LiveView: no update is lost but
    those a Reset makes, and no send meets a closed channel. */
module LiveUpdates {
  import opened LiveView

  /** No send ever meets a closed channel. */
  lemma NoSendOnClosed(run: seq<World>, steps: seq<Step>, i: nat)
    requires Run(run, steps) && i < |steps| && steps[i].Send?
    ensures !StreamOf(run[i], steps[i].c).closed && Subscribed(StreamOf(run[i], steps[i].c))
  {
    RunKeepsInv(run, steps, i);
  }

  /** A Reset emptied the counters after stream `c` last read the active half. */
  predicate ActiveReset(steps: seq<Step>, i: nat, c: nat)
    requires i <= |steps|
  {
    i > 0 && steps[i - 1] != TakeActive(c) &&
    ((steps[i - 1].ResetCounters? && steps[i - 1].emptied) || ActiveReset(steps, i - 1, c))
  }

  /** A Reset emptied the log after stream `c` last read it. */
  predicate StoredReset(steps: seq<Step>, i: nat, c: nat)
    requires i <= |steps|
  {
    i > 0 && steps[i - 1] != TakeStored(c) &&
    ((steps[i - 1].ResetStored? && steps[i - 1].emptied) || StoredReset(steps, i - 1, c))
  }

  /** What a stream has read of one half and shows, or is about to show. */
  datatype Seen = Nothing | Version(number: nat)

  function ActiveSeen(s: Stream): Seen {
    match s.phase
    case ReadStored(a) => Version(a)
    case Writing(a, _) => Version(a)
    case Waiting => Version(s.shownActive)
    case _ => Nothing
  }

  function StoredSeen(s: Stream): Seen {
    match s.phase
    case Writing(_, b) => Version(b)
    case Waiting => Version(s.shownStored)
    case _ => Nothing
  }

  /** A version that was read stays behind for good once a Reset passed it, and
      otherwise is the current one unless the stream has a token or is owed one. */
  ghost predicate Tracks(seen: Seen, now: nat, wasReset: bool, woken: bool) {
    seen.Version? ==>
      && seen.number <= now
      && (wasReset ==> seen.number < now)
      && (!wasReset ==> seen.number == now || woken)
  }

  ghost predicate Woken(w: World, c: nat) {
    StreamOf(w, c).pending || Owed(w, c)
  }

  /** What is owed stays owed until the token is in the channel, and a token
      stays until the stream takes it to read again. */
  lemma WokenUntilRead(w: World, step: Step, c: nat)
    requires Woken(w, c) && Enabled(w, step)
    ensures Woken(After(w, step), c)
         || (ActiveSeen(StreamOf(After(w, step), c)).Nothing? && StoredSeen(StreamOf(After(w, step), c)).Nothing?)
  {
    var w' := After(w, step);
    if !StreamOf(w, c).pending {
      var p: nat :| Owes(w, p, c);
      if !Owes(w', p, c) {
        assert step == Lock(p) || step == Send(p, c);
        assert step == Lock(p) ==> !Subscribed(StreamOf(w, c));
      }
    }
  }

  /** Begin, Complete and Save leave a notification owed to every subscriber. */
  lemma UpdatesAreOwed(w: World, step: Step, c: nat)
    requires Enabled(w, step) && (step.Begin? || step.Complete? || step.Save?)
    ensures Woken(After(w, step), c)
  {
    assert Owes(After(w, step), step.p, c);
  }

  lemma StepTracksActive(w: World, step: Step, c: nat, wasReset: bool)
    requires Enabled(w, step) && Tracks(ActiveSeen(StreamOf(w, c)), w.active, wasReset, Woken(w, c))
    ensures
      var now := step != TakeActive(c) && ((step.ResetCounters? && step.emptied) || wasReset);
      var w' := After(w, step);
      Tracks(ActiveSeen(StreamOf(w', c)), w'.active, now, Woken(w', c))
  {
    if step.Begin? || step.Complete? || step.Save? { UpdatesAreOwed(w, step, c); }
    if Woken(w, c) { WokenUntilRead(w, step, c); }
  }

  lemma StepTracksStored(w: World, step: Step, c: nat, wasReset: bool)
    requires Enabled(w, step) && Tracks(StoredSeen(StreamOf(w, c)), w.stored, wasReset, Woken(w, c))
    ensures
      var now := step != TakeStored(c) && ((step.ResetStored? && step.emptied) || wasReset);
      var w' := After(w, step);
      Tracks(StoredSeen(StreamOf(w', c)), w'.stored, now, Woken(w', c))
  {
    if step.Begin? || step.Complete? || step.Save? { UpdatesAreOwed(w, step, c); }
    if Woken(w, c) { WokenUntilRead(w, step, c); }
  }

  lemma {:induction false} RunTracks(run: seq<World>, steps: seq<Step>, i: nat, c: nat)
    requires Run(run, steps) && i < |run|
    ensures Tracks(ActiveSeen(StreamOf(run[i], c)), run[i].active, ActiveReset(steps, i, c), Woken(run[i], c))
    ensures Tracks(StoredSeen(StreamOf(run[i], c)), run[i].stored, StoredReset(steps, i, c), Woken(run[i], c))
  {
    if i > 0 {
      RunTracks(run, steps, i - 1, c);
      StepTracksActive(run[i - 1], steps[i - 1], c, ActiveReset(steps, i - 1, c));
      StepTracksStored(run[i - 1], steps[i - 1], c, StoredReset(steps, i - 1, c));
    }
  }

  /** A waiting stream shows the current version of each half exactly where no
      Reset emptied that half after the stream read it. */
  ghost predicate ShowsAllButResets(w: World, steps: seq<Step>, i: nat, c: nat)
    requires i <= |steps|
  {
    && (StreamOf(w, c).shownActive == w.active <==> !ActiveReset(steps, i, c))
    && (StreamOf(w, c).shownStored == w.stored <==> !StoredReset(steps, i, c))
  }

  /** No lost update: over every interleaving, a stream that waits with an empty
      channel, while nobody is between an update and its notification, shows
      every change but those a Reset made. */
  lemma NoLostUpdate(run: seq<World>, steps: seq<Step>, i: nat, c: nat)
    requires Run(run, steps) && i < |run|
    requires StreamOf(run[i], c).phase.Waiting? && !StreamOf(run[i], c).pending
    requires forall p: nat :: !Owes(run[i], p, c)
    ensures ShowsAllButResets(run[i], steps, i, c)
  {
    RunTracks(run, steps, i, c);
  }

  /** A stream that waits without a token while nobody owes it one. */
  ghost predicate Quiet(w: World, c: nat) {
    StreamOf(w, c).phase.Waiting? && !StreamOf(w, c).pending && forall p: nat :: !Owes(w, p, c)
  }

  /** The run ends with a quiet stream that shows old versions of both halves. */
  ghost predicate Stale(run: seq<World>, steps: seq<Step>, c: nat) {
    && Run(run, steps) && Quiet(run[|steps|], c)
    && StreamOf(run[|steps|], c).shownActive < run[|steps|].active
    && StreamOf(run[|steps|], c).shownStored < run[|steps|].stored
  }

  /** Reset wakes nobody: whenever it empties both halves behind a quiet stream,
      the stream stays quiet and shows old versions of both. */
  lemma ResetIsNotShown(run: seq<World>, steps: seq<Step>, c: nat, p: nat)
    requires Run(run, steps) && Quiet(run[|steps|], c) && ProducerOf(run[|steps|], p).Resting?
    ensures
      var more := steps + [ResetStored(p, true), ResetCounters(p, true)];
      exists longer: seq<World> :: Stale(longer, more, c)
  {
    RunTracks(run, steps, |steps|, c);
    var more := steps + [ResetStored(p, true), ResetCounters(p, true)];
    var w := run[|steps|];
    var once := Extend(run, steps, ResetStored(p, true));
    var longer := Extend(once, steps + [ResetStored(p, true)], ResetCounters(p, true));
    assert steps + [ResetStored(p, true)] + [ResetCounters(p, true)] == more;
    var w' := longer[|more|];
    forall q: nat ensures !Owes(w', q, c) { assert !Owes(w, q, c); }
    assert StreamOf(w', c) == StreamOf(w, c);
    assert Stale(longer, more, c);
  }

  /** One more step of stream `c` alone. */
  lemma Moves(run: seq<World>, steps: seq<Step>, step: Step, w: World, c: nat, to: Stream) returns (longer: seq<World>)
    requires Run(run, steps) && SameElse(run[|steps|], w) && Enabled(run[|steps|], step)
    requires After(run[|steps|], step) == SetStream(run[|steps|], c, to)
    ensures Run(longer, steps + [step]) && SameElse(longer[|steps| + 1], w) && StreamOf(longer[|steps| + 1], c) == to
  {
    longer := Extend(run, steps, step);
  }

  /** The worlds differ in streams at most. */
  ghost predicate SameElse(w: World, w': World) {
    w'.active == w.active && w'.stored == w.stored && w'.lock == w.lock && w'.producers == w.producers
  }

  /** A stream that is about to read may read both halves, write, and wait. */
  lemma Rereads(run: seq<World>, steps: seq<Step>, w: World, c: nat) returns (longer: seq<World>)
    requires Run(run, steps) && SameElse(run[|steps|], w) && StreamOf(run[|steps|], c).phase.ReadActive?
    ensures Run(longer, steps + [TakeActive(c)] + [TakeStored(c)] + [Write(c, true)])
    ensures SameElse(longer[|steps| + 3], w)
    ensures StreamOf(longer[|steps| + 3], c)
      == StreamOf(run[|steps|], c).(phase := Waiting, shownActive := w.active, shownStored := w.stored)
  {
    var s := StreamOf(run[|steps|], c);
    hide Run;
    var r1 := Moves(run, steps, TakeActive(c), w, c, s.(phase := ReadStored(w.active)));
    var r2 := Moves(r1, steps + [TakeActive(c)], TakeStored(c), w, c, s.(phase := Writing(w.active, w.stored)));
    longer := Moves(r2, steps + [TakeActive(c)] + [TakeStored(c)], Write(c, true), w, c,
                    s.(phase := Waiting, shownActive := w.active, shownStored := w.stored));
  }

  /** A stream that has not opened may open, read both halves, write, and wait. */
  lemma StreamOpens(run: seq<World>, steps: seq<Step>, c: nat) returns (longer: seq<World>, more: seq<Step>)
    requires Run(run, steps) && StreamOf(run[|steps|], c) == Stream(Away, false, false, 0, 0) && run[|steps|].lock == {}
    ensures Run(longer, more) && |more| == |steps| + 4
    ensures StreamOf(longer[|more|], c).phase.Waiting? && !StreamOf(longer[|more|], c).pending
    ensures longer[|more|].producers == run[|steps|].producers
  {
    var w := run[|steps|];
    hide Run;
    var r1 := Moves(run, steps, Subscribe(c), w, c, Stream(ReadActive, false, false, 0, 0));
    longer := Rereads(r1, steps + [Subscribe(c)], w, c);
    more := steps + [Subscribe(c)] + [TakeActive(c)] + [TakeStored(c)] + [Write(c, true)];
  }

  /** The run that loses an update: a stream opens, reads, writes and waits, and
      then the tracer is reset. */
  lemma ResetLosesUpdate()
    ensures exists run: seq<World>, steps: seq<Step> :: Stale(run, steps, 1)
  {
    var start := World(0, 0, {}, map[], map[]);
    NoStep(start);
    hide Run;
    var run, steps := StreamOpens([start], [], 1);
    ResetIsNotShown(run, steps, 1, 1);
  }

  // -------------------------------------------------------------- liveness

  /** The steps that bring a token to stream `c`: those of a producer that owes
      it one, and those of the sender that has the broker. */
  predicate Brings(w: World, step: Step, c: nat) {
    match step
    case Save(p, _) => Owes(w, p, c)
    case Lock(p) => Owes(w, p, c)
    case Send(p, _) => p in w.lock
    case Unlock(p) => p in w.lock
    case _ => false
  }

  /** A token that is owed is on its way: a step that brings it is enabled. */
  lemma OwedIsBrought(w: World, c: nat)
    requires Locked(w) && Owed(w, c)
    ensures exists step :: Enabled(w, step) && Brings(w, step, c)
  {
    var p: nat :| Owes(w, p, c);
    match ProducerOf(w, p) {
      case Saving => assert Enabled(w, Save(p, true)) && Brings(w, Save(p, true), c);
      case Sending(todo) => assert Enabled(w, Send(p, c)) && Brings(w, Send(p, c), c);
      case Due =>
        if w.lock == {} {
          assert Enabled(w, Lock(p)) && Brings(w, Lock(p), c);
        } else {
          var q :| q in w.lock;
          assert ProducerOf(w, q).Sending?;
          if ProducerOf(w, q).todo == {} {
            assert Enabled(w, Unlock(q)) && Brings(w, Unlock(q), c);
          } else {
            var d :| d in ProducerOf(w, q).todo;
            assert Enabled(w, Send(q, d)) && Brings(w, Send(q, d), c);
          }
        }
      case _ => assert false;
    }
  }

  /** A waiting stream is never stuck behind an update: it has a token to
      receive, or a step that brings it one is enabled, or it shows every change
      but those a Reset made. */
  lemma StaleStreamIsWoken(run: seq<World>, steps: seq<Step>, i: nat, c: nat)
    requires Run(run, steps) && i < |run| && StreamOf(run[i], c).phase.Waiting?
    ensures Enabled(run[i], Receive(c))
         || (exists step :: Enabled(run[i], step) && Brings(run[i], step, c))
         || ShowsAllButResets(run[i], steps, i, c)
  {
    if !StreamOf(run[i], c).pending {
      if Owed(run[i], c) {
        RunKeepsInv(run, steps, i);
        OwedIsBrought(run[i], c);
      } else {
        NoLostUpdate(run, steps, i, c);
      }
    }
  }

  // --------------------------------------------------------------- versions

  /** The steps that change the active map or the counters, and those that
      change the retained log. */
  predicate ChangesActive(step: Step) {
    step.Begin? || step.Complete? || (step.ResetCounters? && step.emptied)
  }

  predicate ChangesStored(step: Step) {
    (step.Save? && step.ok) || (step.ResetStored? && step.emptied)
  }

  function Changes(steps: seq<Step>, i: nat, of: Step -> bool): nat
    requires i <= |steps|
  {
    if i == 0 then 0 else Changes(steps, i - 1, of) + if of(steps[i - 1]) then 1 else 0
  }

  /** The versions count the changes of each half, so a stream shows a current
      version exactly if it has seen them all. */
  lemma {:induction false} VersionsCountChanges(run: seq<World>, steps: seq<Step>, i: nat)
    requires Run(run, steps) && i < |run|
    ensures run[i].active == Changes(steps, i, ChangesActive) && run[i].stored == Changes(steps, i, ChangesStored)
  {
    if i > 0 { VersionsCountChanges(run, steps, i - 1); }
  }

  // --------------------------------------------------------- the way back

  /** A token is enough: from any state a run may reach, a waiting stream that
      has one shows the current version of both halves after six steps of its
      own, and waits again. */
  lemma WokenStreamCatchesUp(run: seq<World>, steps: seq<Step>, c: nat)
    requires Run(run, steps) && StreamOf(run[|steps|], c).phase.Waiting? && StreamOf(run[|steps|], c).pending
    ensures var own := [Receive(c), Debounced(c), DrainDone(c), TakeActive(c), TakeStored(c), Write(c, true)];
            exists longer: seq<World> :: Run(longer, steps + own) && CaughtUp(run[|steps|], longer[|steps + own|], c)
  {
    var w, s := run[|steps|], StreamOf(run[|steps|], c).(pending := false);
    hide Run;
    var r1 := Moves(run, steps, Receive(c), w, c, s.(phase := Debouncing));
    var r2 := Moves(r1, steps + [Receive(c)], Debounced(c), w, c, s.(phase := Draining));
    var r3 := Moves(r2, steps + [Receive(c)] + [Debounced(c)], DrainDone(c), w, c, s.(phase := ReadActive));
    var more := steps + [Receive(c)] + [Debounced(c)] + [DrainDone(c)];
    var longer := Rereads(r3, more, w, c);
    var own := [Receive(c), Debounced(c), DrainDone(c), TakeActive(c), TakeStored(c), Write(c, true)];
    assert more + [TakeActive(c)] + [TakeStored(c)] + [Write(c, true)] == steps + own;
    assert CaughtUp(w, longer[|steps + own|], c);
  }

  /** Nothing changed but that stream `c` shows what there was. */
  ghost predicate CaughtUp(w: World, w': World, c: nat) {
    && SameElse(w', w) && StreamOf(w', c).phase.Waiting?
    && StreamOf(w', c).shownActive == w.active && StreamOf(w', c).shownStored == w.stored
  }
}
