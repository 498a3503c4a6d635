/**
 A broadcast subscriber on its ring (broadcastgroup.go, consumer.go, spsc_ring.go): the
 park/wake handshake with every Push and Pop taken apart into the ring's atomic operations.

 Waker 0 is the producer; its Send pushes, dropping the oldest value as popper 0 when the
 ring is full, and then wakes. Popper 1 is the consumer in Wait; the others poll or close.
 Every run of this system is one of the ring and one of the handshake with atomic ring
 operations, so the theorems about both carry over.
 */
module BroadcastRing {
  import opened Common
  import opened Masking
  import Ring = SpscRing
  import Park = BroadcastConsumer

  datatype State = State(
    ring: Ring.State,
    wantWake: bool,
    sema: nat,
    cancelled: bool,
    consumer: Park.ConsumerPc,
    callback: Park.Callback,
    wakers: seq<Park.WakerPc>)

  datatype Action =
    | CallWait
    | Consumer(cancellable: bool)
    | Cancel
    | FireCallback(waker: nat)
    | CallWake(waker: nat)
    | Waker(waker: nat)
    | CallSend(value: nat)
    | Producer
    | StartPop(popper: nat)
    | Popper(popper: nat)

  /** The handshake, with the ring reduced to its two counters. */
  function Parked(s: State): Park.State {
    Park.State(s.wantWake, s.sema, s.ring.head, s.ring.tail, s.cancelled, s.consumer, s.callback, s.wakers)
  }

  /** The handshake takes a step that is not one of the ring. */
  function WithPark(s: State, p: Park.State): State {
    s.(wantWake := p.wantWake, sema := p.sema, cancelled := p.cancelled,
    consumer := p.consumer, callback := p.callback, wakers := p.wakers)
  }

  /** One operation of the consumer's Pop; when the call returns, Wait returns a value or goes on to park. */
  function PopStep(s: State): State
    requires |s.ring.poppers| >= 2
  {
    if s.ring.poppers[1].PopIdle? then s.(ring := Ring.Step(s.ring, Ring.StartPop(1)))
    else
      var ring := Ring.Step(s.ring, Ring.Popper(1));
      var returned := |ring.poppers| >= 2 && ring.poppers[1].PopIdle?;
      s.(ring := ring,
      consumer := if !returned then Park.TryPop
      else if |ring.departed| > |s.ring.departed| then Park.Running(Some(Park.Got(s.ring.tail)))
      else Park.CheckContext)
  }

  /** One operation of the producer's Push; when the call returns, accepted or not, Send goes on to wake. */
  function PushStep(s: State): State
    requires |s.wakers| >= 1
  {
    var ring := Ring.Step(s.ring, if s.ring.producer.PushDropping? then Ring.Popper(0) else Ring.Producer);
    s.(ring := ring, wakers := if ring.producer.PushIdle? then s.wakers[0 := Park.LoadWant] else s.wakers)
  }

  /** One atomic operation of one goroutine; an action that is not enabled changes nothing. */
  function Step(s: State, a: Action): State {
    if |s.ring.poppers| < 2 || |s.wakers| < 1 then s else
    match a
    case CallWait => WithPark(s, Park.Step(Parked(s), Park.CallWait))
    case Consumer(cancellable) =>
      if s.consumer.TryPop? then PopStep(s) else WithPark(s, Park.Step(Parked(s), Park.Consumer(cancellable)))
    case Cancel => WithPark(s, Park.Step(Parked(s), Park.Cancel))
    case FireCallback(u) => WithPark(s, Park.Step(Parked(s), Park.FireCallback(u)))
    case CallWake(u) => WithPark(s, Park.Step(Parked(s), Park.CallWake(u)))
    case Waker(u) =>
      if u < |s.wakers| && !s.wakers[u].Push? then WithPark(s, Park.Step(Parked(s), Park.Waker(u, false))) else s
    case CallSend(value) =>
      if s.wakers[0].Resting? then
        s.(ring := Ring.Step(s.ring, Ring.Offer(value)), wakers := s.wakers[0 := Park.Push])
      else
        s
    case Producer => if s.wakers[0].Push? then PushStep(s) else s
    case StartPop(i) => if i >= 2 then s.(ring := Ring.Step(s.ring, Ring.StartPop(i))) else s
    case Popper(i) => if i >= 2 then s.(ring := Ring.Step(s.ring, Ring.Popper(i))) else s
  }

  function Run(s: State, actions: seq<Action>): State {
    if actions == [] then s
    else Step(Run(s, actions[..|actions| - 1]), actions[|actions| - 1])
  }

  function Init(capacity: nat, poppers: nat, dropOldest: bool, wakers: nat): State {
    State(Ring.Init(capacity, poppers, dropOldest), false, 0, false, Park.Running(None), Park.Unset,
          seq(wakers, _ => Park.Resting))
  }

  // Refinement

  /** The calls that are under way in the ring are those that their callers wait for. */
  ghost predicate Tied(s: State) {
    && |s.ring.poppers| >= 2 && |s.wakers| >= 1
    && (forall u :: 0 < u < |s.wakers| ==> !s.wakers[u].Push?)
    && (s.wakers[0].Push? <==> !s.ring.producer.PushIdle?)
    && (!s.consumer.TryPop? ==> s.ring.poppers[1].PopIdle?)
  }

  ghost predicate Inv(s: State) {
    Ring.Inv(s.ring) && Tied(s)
  }

  /** What one operation of a Pop does to the counters. */
  lemma PopEffect(r: Ring.State, i: nat)
    requires Ring.Inv(r) && i < |r.poppers| && !r.poppers[i].PopIdle?
    ensures var r' := Ring.Step(r, Ring.Popper(i));
            && r'.head == r.head && |r'.poppers| == |r.poppers|
            && (forall j :: 0 <= j < |r.poppers| && j != i ==> r'.poppers[j] == r.poppers[j])
            && (i != 0 || !r.producer.PushDropping? ==> r'.producer == r.producer)
            && (r'.producer.PushIdle? <==> r.producer.PushIdle?)
            && (if |r'.departed| > |r.departed| then r.tail < r.head && r'.tail == r.tail + 1 && r'.poppers[i].PopIdle?
                else r'.tail == r.tail && (r'.poppers[i].PopIdle? ==> r.tail == r.head))
  {
    assert Ring.PopperOk(r, r.poppers[i]);
  }

  /** What one operation of a Push, outside of its own Pop, does to the counters. */
  lemma PushEffect(r: Ring.State)
    requires Ring.Inv(r) && !r.producer.PushIdle? && !r.producer.PushDropping?
    ensures var r' := Ring.Step(r, Ring.Producer);
            && r'.tail == r.tail && |r'.poppers| == |r.poppers|
            && (forall j :: 0 < j < |r.poppers| ==> r'.poppers[j] == r.poppers[j])
            && (r'.head == r.head || (r'.head == r.head + 1 && r'.producer.PushIdle?))
  {
  }

  /** Each step is at most one step of the ring, and at most one of the handshake. */
  lemma StepRefines(s: State, a: Action) returns (r: Option<Ring.Action>, p: Option<Park.Action>)
    requires Inv(s)
    ensures Inv(Step(s, a))
    ensures Step(s, a).ring == if r.None? then s.ring else Ring.Step(s.ring, r.value)
    ensures Parked(Step(s, a)) == if p.None? then Parked(s) else Park.Step(Parked(s), p.value)
  {
    r, p := None, None;
    if a.Consumer? && s.consumer.TryPop? {
      r, p := ConsumerPops(s);
    } else if a.Producer? && s.wakers[0].Push? {
      r, p := ProducerPushes(s);
    } else if a.Popper? && a.popper >= 2 {
      r, p := OtherPops(s, a.popper);
    } else if a.StartPop? && a.popper >= 2 {
      r := Some(Ring.StartPop(a.popper));
      OtherStarts(s, a.popper);
    } else if a.CallSend? && s.wakers[0].Resting? {
      r, p := Some(Ring.Offer(a.value)), Some(Park.CallSend(0));
      ProducerStarts(s, a.value);
    } else {
      p := Quiet(s, a);
      if p.Some? {
        HandshakeSteps(s, a);
      }
    }
  }

  lemma ConsumerPops(s: State) returns (r: Option<Ring.Action>, p: Option<Park.Action>)
    requires Inv(s) && s.consumer.TryPop?
    ensures Inv(PopStep(s))
    ensures PopStep(s).ring == if r.None? then s.ring else Ring.Step(s.ring, r.value)
    ensures Parked(PopStep(s)) == if p.None? then Parked(s) else Park.Step(Parked(s), p.value)
  {
    if s.ring.poppers[1].PopIdle? {
      r, p := Some(Ring.StartPop(1)), None;
    } else {
      r := Some(Ring.Popper(1));
      PopEffect(s.ring, 1);
      p := if Ring.Step(s.ring, r.value).poppers[1].PopIdle? then Some(Park.Consumer(false)) else None;
    }
    Ring.StepKeepsInv(s.ring, r.value);
  }

  lemma OtherStarts(s: State, i: nat)
    requires Inv(s) && i >= 2
    ensures var s' := s.(ring := Ring.Step(s.ring, Ring.StartPop(i)));
            Inv(s') && Parked(s') == Parked(s)
  {
    Ring.StepKeepsInv(s.ring, Ring.StartPop(i));
  }

  lemma ProducerStarts(s: State, value: nat)
    requires Inv(s) && s.wakers[0].Resting?
    ensures var s' := s.(ring := Ring.Step(s.ring, Ring.Offer(value)), wakers := s.wakers[0 := Park.Push]);
            Inv(s') && Parked(s') == Park.Step(Parked(s), Park.CallSend(0))
  {
    Ring.StepKeepsInv(s.ring, Ring.Offer(value));
  }

  lemma ProducerPushes(s: State) returns (r: Option<Ring.Action>, p: Option<Park.Action>)
    requires Inv(s) && s.wakers[0].Push?
    ensures Inv(PushStep(s))
    ensures PushStep(s).ring == if r.None? then s.ring else Ring.Step(s.ring, r.value)
    ensures Parked(PushStep(s)) == if p.None? then Parked(s) else Park.Step(Parked(s), p.value)
  {
    if s.ring.producer.PushDropping? {
      p := ProducerDrops(s);
      r := Some(Ring.Popper(0));
    } else {
      p := ProducerPlaces(s);
      r := Some(Ring.Producer);
    }
  }

  lemma ProducerDrops(s: State) returns (p: Option<Park.Action>)
    requires Inv(s) && s.wakers[0].Push? && s.ring.producer.PushDropping?
    ensures Inv(PushStep(s))
    ensures Parked(PushStep(s)) == if p.None? then Parked(s) else Park.Step(Parked(s), p.value)
  {
    p := None;
    Ring.StepKeepsInv(s.ring, Ring.Popper(0));
    if !s.ring.poppers[0].PopIdle? {
      PopEffect(s.ring, 0);
      p := if Ring.Step(s.ring, Ring.Popper(0)).tail > s.ring.tail then Some(Park.Drop) else None;
    }
  }

  lemma ProducerPlaces(s: State) returns (p: Option<Park.Action>)
    requires Inv(s) && s.wakers[0].Push? && !s.ring.producer.PushDropping?
    ensures Inv(PushStep(s))
    ensures Parked(PushStep(s)) == if p.None? then Parked(s) else Park.Step(Parked(s), p.value)
  {
    Ring.StepKeepsInv(s.ring, Ring.Producer);
    PushEffect(s.ring);
    var ring := Ring.Step(s.ring, Ring.Producer);
    p := if ring.producer.PushIdle? then Some(Park.Waker(0, ring.head > s.ring.head)) else None;
  }

  lemma OtherPops(s: State, i: nat) returns (r: Option<Ring.Action>, p: Option<Park.Action>)
    requires Inv(s) && i >= 2
    ensures var s' := s.(ring := Ring.Step(s.ring, Ring.Popper(i)));
            && Inv(s')
            && s'.ring == (if r.None? then s.ring else Ring.Step(s.ring, r.value))
            && Parked(s') == (if p.None? then Parked(s) else Park.Step(Parked(s), p.value))
  {
    r, p := Some(Ring.Popper(i)), None;
    Ring.StepKeepsInv(s.ring, r.value);
    if i < |s.ring.poppers| && !s.ring.poppers[i].PopIdle? {
      PopEffect(s.ring, i);
      p := if Ring.Step(s.ring, r.value).tail > s.ring.tail then Some(Park.Drop) else None;
    }
  }

  /** The steps of the handshake that leave the ring alone. */
  function Quiet(s: State, a: Action): Option<Park.Action> {
    match a
    case CallWait => Some(Park.CallWait)
    case Consumer(cancellable) => if s.consumer.TryPop? then None else Some(Park.Consumer(cancellable))
    case Cancel => Some(Park.Cancel)
    case FireCallback(u) => Some(Park.FireCallback(u))
    case CallWake(u) => Some(Park.CallWake(u))
    case Waker(u) => if u < |s.wakers| && !s.wakers[u].Push? then Some(Park.Waker(u, false)) else None
    case _ => None
  }

  lemma QuietEffect(s: State, a: Action)
    requires Quiet(s, a).Some? && |s.wakers| >= 1
    ensures var p, p' := Parked(s), Park.Step(Parked(s), Quiet(s, a).value);
            && p'.head == p.head && p'.tail == p.tail && |p'.wakers| == |p.wakers|
            && (forall u :: 0 <= u < |p.wakers| ==> (p'.wakers[u].Push? <==> p.wakers[u].Push?))
            && (p.consumer.TryPop? ==> p'.consumer.TryPop?)
  {
  }

  /** The steps that only look at the ring's counters, or not at the ring at all. */
  lemma HandshakeSteps(s: State, a: Action)
    requires Tied(s) && Quiet(s, a).Some?
    ensures Tied(Step(s, a)) && Step(s, a).ring == s.ring
    ensures Parked(Step(s, a)) == Park.Step(Parked(s), Quiet(s, a).value)
  {
    QuietEffect(s, a);
    assert Step(s, a) == WithPark(s, Park.Step(Parked(s), Quiet(s, a).value));
  }

  /** Every run is a run of the ring and a run of the handshake with atomic ring operations. */
  lemma {:induction false} RunRefines(capacity: nat, poppers: nat, dropOldest: bool, wakers: nat, actions: seq<Action>)
    returns (ring: seq<Ring.Action>, park: seq<Park.Action>)
    requires IsPow2(capacity) && poppers >= 2 && wakers >= 1
    ensures var s := Run(Init(capacity, poppers, dropOldest, wakers), actions);
            && Inv(s)
            && s.ring == Ring.Run(Ring.Init(capacity, poppers, dropOldest), ring)
            && Parked(s) == Park.Run(Park.Init(wakers), park)
  {
    if actions == [] {
      ring, park := [], [];
      Ring.RunKeepsInv(capacity, poppers, dropOldest, []);
    } else {
      var before, a := actions[..|actions| - 1], actions[|actions| - 1];
      ring, park := RunRefines(capacity, poppers, dropOldest, wakers, before);
      var r, p := StepRefines(Run(Init(capacity, poppers, dropOldest, wakers), before), a);
      if r.Some? {
        ring := ring + [r.value];
        assert ring[..|ring| - 1] + [r.value] == ring;
      }
      if p.Some? {
        park := park + [p.value];
        assert park[..|park| - 1] + [p.value] == park;
      }
    }
  }

  // Main results

  /**
   No lost wakeup, with every operation of the ring in its place. A consumer that blocks
   although a value was accepted that has not left the ring, or although its context is
   cancelled, has a release available or in flight, or a goroutine that will still see
   wantWake set, or a cancellation callback that has yet to start.
   */
  lemma NoLostWakeup(capacity: nat, poppers: nat, dropOldest: bool, wakers: nat, actions: seq<Action>)
    requires IsPow2(capacity) && poppers >= 2 && wakers >= 1
    requires var s := Run(Init(capacity, poppers, dropOldest, wakers), actions);
             s.consumer.Blocked? && (|s.ring.departed| < |s.ring.accepted| || (!s.callback.Unset? && s.cancelled))
    ensures var s := Parked(Run(Init(capacity, poppers, dropOldest, wakers), actions));
            || Park.CreditComing(s)
            || (s.wantWake && Park.WakeComing(s))
            || (s.wantWake && s.callback.Registered? && s.cancelled)
  {
    var ring, park := RunRefines(capacity, poppers, dropOldest, wakers, actions);
    Park.NoLostWakeup(wakers, park);
  }

  /** When no goroutine is about to send or wake, a consumer sleeps only on a ring whose every value has left. */
  lemma SleepsOnlyWhenDrained(capacity: nat, poppers: nat, dropOldest: bool, wakers: nat, actions: seq<Action>)
    requires IsPow2(capacity) && poppers >= 2 && wakers >= 1
    requires var s := Run(Init(capacity, poppers, dropOldest, wakers), actions);
             && s.consumer.Blocked? && s.sema == 0 && !s.cancelled
             && forall u :: 0 <= u < |s.wakers| ==> s.wakers[u].Resting?
    ensures var s := Run(Init(capacity, poppers, dropOldest, wakers), actions).ring;
            |s.departed| == |s.accepted| && Ring.Values(s.departed) == s.accepted
  {
    var s := Run(Init(capacity, poppers, dropOldest, wakers), actions);
    var ring, park := RunRefines(capacity, poppers, dropOldest, wakers, actions);
    if |s.ring.departed| < |s.ring.accepted| {
      NoLostWakeup(capacity, poppers, dropOldest, wakers, actions);
    }
    Ring.LeavesInPushOrder(capacity, poppers, dropOldest, ring);
  }

  /** The armed flag, the releases in flight and the semaphore add up to one while armed and to zero otherwise. */
  lemma OneCreditPerArm(capacity: nat, poppers: nat, dropOldest: bool, wakers: nat, actions: seq<Action>)
    requires IsPow2(capacity) && poppers >= 2 && wakers >= 1
    ensures var s := Run(Init(capacity, poppers, dropOldest, wakers), actions);
            (if s.wantWake then 1 else 0) + Sum(Park.InFlight, s.wakers) + s.sema
            == (if Park.Armed(s.consumer) then 1 else 0)
  {
    var ring, park := RunRefines(capacity, poppers, dropOldest, wakers, actions);
    Park.OneCreditPerArm(wakers, park);
  }

  /** What the consumer was given, it has taken out of the ring itself. */
  ghost predicate TookIt(s: State) {
    s.consumer.Running? && s.consumer.outcome.Some? && s.consumer.outcome.value.Got? ==>
      var p := s.consumer.outcome.value.position;
      p < |s.ring.departed| && s.ring.departed[p].popper == 1
  }

  lemma DepartureBy(r: Ring.State, i: nat)
    requires i < |r.poppers|
    ensures var r' := Ring.Step(r, Ring.Popper(i));
            && r.departed <= r'.departed
            && (|r'.departed| > |r.departed| ==>
                  |r'.departed| == |r.departed| + 1 && r'.departed[|r.departed|].popper == i)
  {
  }

  lemma RingKeepsDepartures(r: Ring.State, a: Ring.Action)
    ensures r.departed <= Ring.Step(r, a).departed
  {
  }

  /** Outside of its Pop the consumer is given nothing. */
  lemma NothingElseGiven(s: State, a: Action)
    requires !(a.Consumer? && s.consumer.TryPop?)
    ensures var pc := Step(s, a).consumer;
            !pc.Running? || pc == s.consumer || pc == Park.Running(Some(Park.ErrContext))
  {
  }

  lemma PopTakes(s: State)
    requires Inv(s) && s.consumer.TryPop?
    ensures TookIt(PopStep(s))
  {
    if !s.ring.poppers[1].PopIdle? {
      DepartureBy(s.ring, 1);
    }
  }

  lemma StepTakes(s: State, a: Action)
    requires Inv(s) && TookIt(s)
    ensures TookIt(Step(s, a))
  {
    if a.Consumer? && s.consumer.TryPop? {
      PopTakes(s);
    } else {
      NothingElseGiven(s, a);
      var r, p := StepRefines(s, a);
      if r.Some? {
        RingKeepsDepartures(s.ring, r.value);
      }
    }
  }

  lemma {:induction false} RunTakes(capacity: nat, poppers: nat, dropOldest: bool, wakers: nat, actions: seq<Action>)
    requires IsPow2(capacity) && poppers >= 2 && wakers >= 1
    ensures TookIt(Run(Init(capacity, poppers, dropOldest, wakers), actions))
  {
    if actions != [] {
      var before := actions[..|actions| - 1];
      RunTakes(capacity, poppers, dropOldest, wakers, before);
      var ring, park := RunRefines(capacity, poppers, dropOldest, wakers, before);
      StepTakes(Run(Init(capacity, poppers, dropOldest, wakers), before), actions[|actions| - 1]);
    }
  }

  /** In every interleaving a value that Wait returns is one that the consumer popped, and that a Push brought. */
  lemma ReturnsWhatItPopped(capacity: nat, poppers: nat, dropOldest: bool, wakers: nat, actions: seq<Action>, p: nat)
    requires IsPow2(capacity) && poppers >= 2 && wakers >= 1
    requires Run(Init(capacity, poppers, dropOldest, wakers), actions).consumer == Park.Running(Some(Park.Got(p)))
    ensures var r := Run(Init(capacity, poppers, dropOldest, wakers), actions).ring;
            && p < |r.departed| && p < |r.accepted|
            && r.departed[p] == Ring.Departure(1, r.accepted[p])
  {
    RunTakes(capacity, poppers, dropOldest, wakers, actions);
    var ring, park := RunRefines(capacity, poppers, dropOldest, wakers, actions);
    var r := Run(Init(capacity, poppers, dropOldest, wakers), actions).ring;
    Ring.LeavesInPushOrder(capacity, poppers, dropOldest, ring);
    assert Ring.Values(r.departed)[p] == r.accepted[p];
  }

  /** With the ring's own operations too, Wait returns only with a value that it took, or from a cancelled context. */
  lemma WaitReturns(s: State, a: Action)
    requires Inv(s) && !s.consumer.Running? && Step(s, a).consumer.Running?
    ensures var s' := Step(s, a);
            && s'.consumer.outcome.Some?
            && match s'.consumer.outcome.value
               case Got(position) => position == s.ring.tail < s.ring.head && s'.ring.tail == s.ring.tail + 1
               case ErrContext => s.cancelled && s'.ring.tail == s.ring.tail
  {
    var r, p := StepRefines(s, a);
    assert Parked(Step(s, a)).consumer.Running? && !Parked(s).consumer.Running?;
    Park.WaitReturns(Parked(s), p.value);
  }
}
