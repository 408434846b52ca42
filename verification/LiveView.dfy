/** The live view's notifications: the broker (internal/broker.go), the tracers
    that update and then notify (tracer.go), and the stream that receives,
    drains and renders (frontend/handler.go, frontend/drain.go). */
module LiveView {

  // ------------------------------------------------------------- the broker

  /** A subscriber's channel of capacity one. */
  class Channel {
    var pending: bool
    var closed: bool

    constructor ()
      ensures !pending && !closed
    {
      pending, closed := false, false;
    }
  }

  class Broker {
    var subscribers: set<Channel>

    constructor ()
      ensures Valid() && subscribers == {}
    {
      subscribers := {};
    }

    /** A channel is closed only once it is off the list. */
    ghost predicate Valid()
      reads this, subscribers
    {
      forall c :: c in subscribers ==> !c.closed
    }

    method Subscribe() returns (events: Channel)
      requires Valid()
      modifies this
      ensures Valid() && fresh(events) && !events.pending
      ensures subscribers == old(subscribers) + {events}
    {
      events := new Channel();
      subscribers := subscribers + {events};
    }

    /** The release function; calling it again changes nothing. */
    method Release(events: Channel)
      requires Valid()
      modifies this, events`closed
      ensures Valid() && events.closed && subscribers == old(subscribers) - {events}
      ensures events.pending == old(events.pending)
    {
      if events.closed { return; }
      subscribers := subscribers - {events};
      events.closed := true;
    }

    /** Wakes every subscriber, skipping those already woken. */
    method Notify()
      requires Valid()
      modifies subscribers`pending
      ensures Valid() && forall c :: c in subscribers ==> c.pending
    {
      var todo := subscribers;
      while todo != {}
        invariant todo <= subscribers
        invariant forall c :: c in subscribers - todo ==> c.pending
        decreases todo
      {
        var events :| events in todo;
        assert !events.closed;
        if !events.pending {
          events.pending := true;
        }
        todo := todo - {events};
      }
    }
  }

  /** Empties a channel so a burst redraws once. */
  method Drain(events: Channel)
    modifies events`pending
    ensures !events.pending
  {
    while events.pending
      decreases events.pending
    {
      events.pending := false;
    }
  }

  // ----------------------------------------------------------- the protocol

  /** A goroutine that changes the tracer: it may owe the storage its trace, it
      may owe everybody a notification, it is sending with the broker locked, or
      it is inside Reset, which empties the storage, then the counters, and
      notifies nobody. */
  datatype Producer = Resting | Saving | Due | Sending(todo: set<nat>) | Resetting

  /** A stream: reading the two halves of a snapshot at two moments, writing
      what it read, waiting, or on its way out. */
  datatype Phase =
    | Away
    | ReadActive
    | ReadStored(active: nat)
    | Writing(active: nat, stored: nat)
    | Waiting
    | Debouncing
    | Draining
    | Leaving
    | Closing
    | Gone

  datatype Stream = Stream(phase: Phase, pending: bool, closed: bool, shownActive: nat, shownStored: nat)

  /** `active` counts the changes of the active map and the ledger, `stored`
      those of the retained log. */
  datatype World = World(
    active: nat,
    stored: nat,
    lock: set<nat>,
    producers: map<nat, Producer>,
    streams: map<nat, Stream>)

  datatype Step =
    | Begin(p: nat)
    | Complete(p: nat)
    | Save(p: nat, ok: bool)
    | Lock(p: nat)
    | Send(p: nat, c: nat)
    | Unlock(p: nat)
    | ResetStored(p: nat, emptied: bool)
    | ResetCounters(p: nat, emptied: bool)
    | Subscribe(c: nat)
    | TakeActive(c: nat)
    | TakeStored(c: nat)
    | Write(c: nat, ok: bool)
    | Receive(c: nat)
    | Debounced(c: nat)
    | DrainOne(c: nat)
    | DrainDone(c: nat)
    | Cancel(c: nat)
    | Delete(c: nat)
    | Close(c: nat)

  function ProducerOf(w: World, p: nat): Producer {
    if p in w.producers then w.producers[p] else Resting
  }

  function StreamOf(w: World, c: nat): Stream {
    if c in w.streams then w.streams[c] else Stream(Away, false, false, 0, 0)
  }

  /** The broker's subscriber list holds a stream from Subscribe to Delete. */
  predicate Subscribed(s: Stream) {
    !s.phase.Away? && !s.phase.Closing? && !s.phase.Gone?
  }

  function Subscribers(w: World): set<nat> {
    set c | c in w.streams && Subscribed(w.streams[c])
  }

  predicate Enabled(w: World, step: Step) {
    match step
    case Begin(p) => ProducerOf(w, p).Resting?
    case Complete(p) => ProducerOf(w, p).Resting?
    case Save(p, _) => ProducerOf(w, p).Saving?
    case Lock(p) => ProducerOf(w, p).Due? && w.lock == {}
    case Send(p, c) => ProducerOf(w, p).Sending? && c in ProducerOf(w, p).todo
    case Unlock(p) => ProducerOf(w, p) == Sending({})
    case ResetStored(p, _) => ProducerOf(w, p).Resting?
    case ResetCounters(p, _) => ProducerOf(w, p).Resetting?
    case Subscribe(c) => StreamOf(w, c).phase.Away? && w.lock == {}
    case TakeActive(c) => StreamOf(w, c).phase.ReadActive?
    case TakeStored(c) => StreamOf(w, c).phase.ReadStored?
    case Write(c, _) => StreamOf(w, c).phase.Writing?
    case Receive(c) => StreamOf(w, c).phase.Waiting? && StreamOf(w, c).pending
    case Debounced(c) => StreamOf(w, c).phase.Debouncing?
    case DrainOne(c) => StreamOf(w, c).phase.Draining? && StreamOf(w, c).pending
    case DrainDone(c) => StreamOf(w, c).phase.Draining? && !StreamOf(w, c).pending
    case Cancel(c) => StreamOf(w, c).phase.Waiting? || StreamOf(w, c).phase.Debouncing?
    case Delete(c) => StreamOf(w, c).phase.Leaving? && w.lock == {}
    case Close(c) => StreamOf(w, c).phase.Closing?
  }

  function SetProducer(w: World, p: nat, to: Producer): World {
    w.(producers := w.producers[p := to])
  }

  function SetStream(w: World, c: nat, to: Stream): World {
    w.(streams := w.streams[c := to])
  }

  function After(w: World, step: Step): World
    requires Enabled(w, step)
  {
    match step
    case Begin(p) => SetProducer(w, p, Due).(active := w.active + 1)
    case Complete(p) => SetProducer(w, p, Saving).(active := w.active + 1)
    case Save(p, ok) => SetProducer(w, p, Due).(stored := if ok then w.stored + 1 else w.stored)
    case Lock(p) => SetProducer(w, p, Sending(Subscribers(w))).(lock := {p})
    case Send(p, c) =>
      SetStream(SetProducer(w, p, Sending(ProducerOf(w, p).todo - {c})), c, StreamOf(w, c).(pending := true))
    case Unlock(p) => SetProducer(w, p, Resting).(lock := {})
    case ResetStored(p, emptied) =>
      SetProducer(w, p, Resetting).(stored := if emptied then w.stored + 1 else w.stored)
    case ResetCounters(p, emptied) =>
      SetProducer(w, p, Resting).(active := if emptied then w.active + 1 else w.active)
    case Subscribe(c) => SetStream(w, c, StreamOf(w, c).(phase := ReadActive))
    case TakeActive(c) => SetStream(w, c, StreamOf(w, c).(phase := ReadStored(w.active)))
    case TakeStored(c) => SetStream(w, c, StreamOf(w, c).(phase := Writing(StreamOf(w, c).phase.active, w.stored)))
    case Write(c, ok) =>
      var s := StreamOf(w, c);
      SetStream(w, c, if ok then s.(phase := Waiting, shownActive := s.phase.active, shownStored := s.phase.stored)
                      else s.(phase := Leaving))
    case Receive(c) => SetStream(w, c, StreamOf(w, c).(phase := Debouncing, pending := false))
    case Debounced(c) => SetStream(w, c, StreamOf(w, c).(phase := Draining))
    case DrainOne(c) => SetStream(w, c, StreamOf(w, c).(pending := false))
    case DrainDone(c) => SetStream(w, c, StreamOf(w, c).(phase := ReadActive))
    case Cancel(c) => SetStream(w, c, StreamOf(w, c).(phase := Leaving))
    case Delete(c) => SetStream(w, c, StreamOf(w, c).(phase := Closing))
    case Close(c) => SetStream(w, c, StreamOf(w, c).(phase := Gone, closed := true))
  }

  ghost predicate Run(run: seq<World>, steps: seq<Step>) {
    && |run| == |steps| + 1
    && run[0] == World(0, 0, {}, map[], map[])
    && forall i :: 0 <= i < |steps| ==> Enabled(run[i], steps[i]) && run[i + 1] == After(run[i], steps[i])
  }

  // -------------------------------------------------------------- invariants

  /** Producer `p` will still put a token into the channel of stream `c`. */
  predicate Owes(w: World, p: nat, c: nat) {
    match ProducerOf(w, p)
    case Saving => true
    case Due => true
    case Sending(todo) => c in todo
    case _ => false
  }

  ghost predicate Owed(w: World, c: nat) {
    exists p: nat :: Owes(w, p, c)
  }

  /** The broker lock is held by the one sender, who sends to subscribers. */
  ghost predicate Locked(w: World) {
    && (forall p: nat :: ProducerOf(w, p).Sending? <==> p in w.lock)
    && (forall p: nat, q: nat :: p in w.lock && q in w.lock ==> p == q)
    && (forall p: nat, c: nat :: ProducerOf(w, p).Sending? && c in ProducerOf(w, p).todo ==>
          Subscribed(StreamOf(w, c)))
  }

  ghost predicate Open(w: World) {
    forall c: nat :: StreamOf(w, c).closed ==> StreamOf(w, c).phase.Gone?
  }

  ghost predicate Inv(w: World) {
    Locked(w) && Open(w)
  }

  lemma StepKeepsInv(w: World, step: Step)
    requires Inv(w) && Enabled(w, step)
    ensures Inv(After(w, step))
  {
    var w' := After(w, step);
    forall c: nat | StreamOf(w', c).closed ensures StreamOf(w', c).phase.Gone? {
      assert StreamOf(w, c).closed || step == Close(c);
    }
    StepKeepsLocked(w, step);
  }

  lemma StepKeepsLocked(w: World, step: Step)
    requires Locked(w) && Enabled(w, step)
    ensures Locked(After(w, step))
  {
    var w' := After(w, step);
    forall p: nat ensures ProducerOf(w', p).Sending? <==> p in w'.lock {
      assert ProducerOf(w, p).Sending? <==> p in w.lock;
    }
    forall p: nat, c: nat | ProducerOf(w', p).Sending? && c in ProducerOf(w', p).todo
      ensures Subscribed(StreamOf(w', c))
    {
      if step != Lock(p) { assert p in w.lock && c in ProducerOf(w, p).todo && Subscribed(StreamOf(w, c)); }
    }
  }

  lemma NoStep(w: World)
    requires w == World(0, 0, {}, map[], map[])
    ensures Run([w], [])
  {
  }

  /** A run goes on with any step that is enabled at its end. */
  lemma Extend(run: seq<World>, steps: seq<Step>, step: Step) returns (longer: seq<World>)
    requires Run(run, steps) && Enabled(run[|steps|], step)
    ensures longer == run + [After(run[|steps|], step)] && Run(longer, steps + [step])
  {
    longer := run + [After(run[|steps|], step)];
  }

  lemma {:induction false} RunKeepsInv(run: seq<World>, steps: seq<Step>, i: nat)
    requires Run(run, steps) && i < |run|
    ensures Inv(run[i])
  {
    if i > 0 {
      RunKeepsInv(run, steps, i - 1);
      StepKeepsInv(run[i - 1], steps[i - 1]);
    }
  }
}
