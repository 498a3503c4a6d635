/**
 The park/wake handshake of a broadcast subscriber (consumer.go), one transition per atomic
 operation: one consumer in Wait, any number of goroutines that push and then wake it, and
 any number of cancellation callbacks, early or late.

 Push and Pop are single steps here, and Drop is any Pop by another goroutine, that of a
 Push into a full ring included. BroadcastRing puts the ring's own steps in their place.
 */
module BroadcastConsumer {
  import opened Common
  import opened Repetition

  /** What Wait returned: the value at a position of the ring, or the context's error. */
  datatype Outcome = Got(position: nat) | ErrContext

  /** Program counter of the consumer; each state names the operation that comes next. */
  datatype ConsumerPc =
    | Running(outcome: Option<Outcome>)
    | TryPop
    | CheckContext
    | Arm
    | LoadTail
    | LoadHead(tail: nat)
    | CheckContextAgain
    | Disarm
    | Absorb
    | Watch
    | Blocked
    | StopWatch

  /** Program counter of a goroutine that sends, or that runs a cancellation callback. */
  datatype WakerPc = Resting | Push | LoadWant | CasWant | Release

  /** The cancellation callback of the current park. */
  datatype Callback = Unset | Registered | Started

  datatype State = State(
    wantWake: bool,
    sema: nat,
    head: nat,
    tail: nat,
    cancelled: bool,
    consumer: ConsumerPc,
    callback: Callback,
    wakers: seq<WakerPc>)

  datatype Action =
    | CallWait
    | Consumer(cancellable: bool)
    | Cancel
    | FireCallback(waker: nat)
    | CallSend(waker: nat)
    | CallWake(waker: nat)
    | Waker(waker: nat, accepted: bool)
    | Drop

  function ConsumerStep(s: State, cancellable: bool): State {
    match s.consumer
    case Running(_) => s
    case TryPop =>
      if s.tail < s.head then s.(tail := s.tail + 1, consumer := Running(Some(Got(s.tail))))
      else s.(consumer := CheckContext)
    case CheckContext => s.(consumer := if s.cancelled then Running(Some(ErrContext)) else Arm)
    case Arm => s.(wantWake := true, consumer := LoadTail, callback := Unset)
    case LoadTail => s.(consumer := LoadHead(s.tail))
    case LoadHead(tail) => s.(consumer := if tail >= s.head then CheckContextAgain else Disarm)
    case CheckContextAgain => s.(consumer := if s.cancelled then Disarm else Watch)
    case Disarm =>
      if s.wantWake then s.(wantWake := false, consumer := TryPop) else s.(consumer := Absorb)
    case Absorb =>
      if s.sema > 0 then s.(sema := s.sema - 1, consumer := TryPop) else s
    case Watch => s.(callback := if cancellable then Registered else Unset, consumer := Blocked)
    case Blocked =>
      if s.sema > 0 then s.(sema := s.sema - 1, consumer := StopWatch) else s
    case StopWatch => s.(callback := Unset, consumer := TryPop)
  }

  function WakerAt(s: State, u: nat, pc: WakerPc): State
    requires u < |s.wakers|
  {
    s.(wakers := s.wakers[u := pc])
  }

  /** A push may be rejected; the wake follows in any case. */
  function WakerStep(s: State, u: nat, accepted: bool): State
    requires u < |s.wakers|
  {
    match s.wakers[u]
    case Resting => s
    case Push =>
      WakerAt(s, u, LoadWant).(head := if accepted then s.head + 1 else s.head)
    case LoadWant => WakerAt(s, u, if s.wantWake then CasWant else Resting)
    case CasWant =>
      if s.wantWake then WakerAt(s, u, Release).(wantWake := false) else WakerAt(s, u, Resting)
    case Release => WakerAt(s, u, Resting).(sema := s.sema + 1)
  }

  /** One atomic operation of one goroutine; an action that is not enabled changes nothing. */
  function Step(s: State, a: Action): State {
    match a
    case CallWait => if s.consumer.Running? then s.(consumer := TryPop, cancelled := false) else s
    case Consumer(cancellable) => ConsumerStep(s, cancellable)
    case Cancel => s.(cancelled := true)
    case FireCallback(u) =>
      if s.callback.Registered? && s.cancelled && u < |s.wakers| && s.wakers[u].Resting? then
        WakerAt(s, u, LoadWant).(callback := Started)
      else
        s
    case CallSend(u) =>
      if u < |s.wakers| && s.wakers[u].Resting? then WakerAt(s, u, Push) else s
    case CallWake(u) =>
      if u < |s.wakers| && s.wakers[u].Resting? then WakerAt(s, u, LoadWant) else s
    case Waker(u, accepted) =>
      if u < |s.wakers| then WakerStep(s, u, accepted) else s
    case Drop => if s.tail < s.head then s.(tail := s.tail + 1) else s
  }

  function Run(s: State, actions: seq<Action>): State {
    if actions == [] then s
    else Step(Run(s, actions[..|actions| - 1]), actions[|actions| - 1])
  }

  function Init(wakers: nat): State {
    State(false, 0, 0, 0, false, Running(None), Unset, seq(wakers, _ => Resting))
  }

  // Invariant

  /** The consumer has armed wantWake and has neither reclaimed it nor acquired. */
  predicate Armed(pc: ConsumerPc) {
    || pc.LoadTail? || pc.LoadHead? || pc.CheckContextAgain? || pc.Disarm?
    || pc.Absorb? || pc.Watch? || pc.Blocked?
  }

  function InFlight(pc: WakerPc): nat {
    if pc.Release? then 1 else 0
  }

  function Credits(s: State): nat {
    (if s.wantWake then 1 else 0) + Sum(InFlight, s.wakers) + s.sema
  }

  /** Some goroutine has yet to look at wantWake, or has seen it set. */
  ghost predicate WakeComing(s: State) {
    Looking(s.wakers)
  }

  ghost predicate Looking(wakers: seq<WakerPc>) {
    exists u :: 0 <= u < |wakers| && (wakers[u].LoadWant? || wakers[u].CasWant?)
  }

  /** Past the re-check of the ring, so that only a wake can end the park. */
  predicate Committed(pc: ConsumerPc) {
    pc.CheckContextAgain? || pc.Watch? || pc.Blocked?
  }

  ghost predicate Inv(s: State) {
    && s.tail <= s.head
    && (s.consumer.LoadHead? ==> s.consumer.tail <= s.tail)
    && Credits(s) == (if Armed(s.consumer) then 1 else 0)
    && (s.consumer.Absorb? ==> !s.wantWake)
    && (Committed(s.consumer) && s.wantWake && s.tail < s.head ==> WakeComing(s))
    && (s.consumer.Blocked? && s.callback.Started? && s.wantWake ==> WakeComing(s))
  }

  /** A goroutine that will still look at wantWake stays so while wantWake stays set. */
  lemma WakeStaysComing(s: State, u: nat, accepted: bool)
    requires u < |s.wakers| && WakeComing(s) && WakerStep(s, u, accepted).wantWake
    ensures WakeComing(WakerStep(s, u, accepted))
  {
    var s' := WakerStep(s, u, accepted);
    var v :| 0 <= v < |s.wakers| && (s.wakers[v].LoadWant? || s.wakers[v].CasWant?);
    assert s'.wakers[v].LoadWant? || s'.wakers[v].CasWant?;
  }

  lemma WakerKeepsCredits(s: State, u: nat, accepted: bool)
    requires u < |s.wakers|
    ensures Credits(WakerStep(s, u, accepted)) == Credits(s)
  {
    SumUpdate(InFlight, s.wakers, u, WakerStep(s, u, accepted).wakers[u]);
  }

  lemma WakerKeepsInv(s: State, u: nat, accepted: bool)
    requires Inv(s) && u < |s.wakers|
    ensures Inv(WakerStep(s, u, accepted))
  {
    var s' := WakerStep(s, u, accepted);
    WakerKeepsCredits(s, u, accepted);
    if WakeComing(s) && s'.wantWake {
      WakeStaysComing(s, u, accepted);
    }
    if s.wakers[u].Push? {
      assert s'.wakers[u].LoadWant?;
      assert WakeComing(s');
    }
  }

  /** A resting goroutine that starts to send or to wake carries no credit. */
  lemma StartKeepsInv(s: State, s': State, u: nat, pc: WakerPc)
    requires Inv(s) && u < |s.wakers| && s.wakers[u].Resting? && (pc.Push? || pc.LoadWant?)
    requires s' == WakerAt(s, u, pc).(callback := s'.callback)
    requires s'.callback == s.callback || pc.LoadWant?
    ensures Inv(s')
  {
    SumUpdate(InFlight, s.wakers, u, pc);
    if WakeComing(s) {
      var v :| 0 <= v < |s.wakers| && (s.wakers[v].LoadWant? || s.wakers[v].CasWant?);
      assert s'.wakers[v] == s.wakers[v];
    }
    assert pc.LoadWant? ==> s'.wakers[u].LoadWant?;
  }

  lemma ConsumerKeepsInv(s: State, cancellable: bool)
    requires Inv(s)
    ensures Inv(ConsumerStep(s, cancellable))
  {
    match s.consumer
    case Disarm =>
    case Arm =>
    case Absorb =>
    case Blocked =>
    case LoadHead(_) =>
    case _ =>
  }

  lemma StepKeepsInv(s: State, a: Action)
    requires Inv(s)
    ensures Inv(Step(s, a))
  {
    var s' := Step(s, a);
    match a
    case Waker(u, accepted) =>
      if u < |s.wakers| {
        WakerKeepsInv(s, u, accepted);
      }
    case CallSend(u) =>
      if u < |s.wakers| && s.wakers[u].Resting? {
        StartKeepsInv(s, s', u, Push);
      }
    case CallWake(u) =>
      if u < |s.wakers| && s.wakers[u].Resting? {
        StartKeepsInv(s, s', u, LoadWant);
      }
    case FireCallback(u) =>
      if s.callback.Registered? && s.cancelled && u < |s.wakers| && s.wakers[u].Resting? {
        StartKeepsInv(s, s', u, LoadWant);
      }
    case Consumer(cancellable) => ConsumerKeepsInv(s, cancellable);
    case _ =>
      assert s'.wakers == s.wakers;
  }

  lemma {:induction false} RunKeepsInv(wakers: nat, actions: seq<Action>)
    ensures Inv(Run(Init(wakers), actions))
  {
    if actions == [] {
      SumZero(InFlight, Init(wakers).wakers);
    } else {
      RunKeepsInv(wakers, actions[..|actions| - 1]);
      StepKeepsInv(Run(Init(wakers), actions[..|actions| - 1]), actions[|actions| - 1]);
    }
  }

  // Main results

  /**
   One credit per arm. In every interleaving the armed flag, the releases in flight and the
   semaphore count add up to one while the consumer is armed and to zero otherwise: the
   semaphore never drifts.
   */
  lemma OneCreditPerArm(wakers: nat, actions: seq<Action>)
    ensures var s := Run(Init(wakers), actions);
            (if s.wantWake then 1 else 0) + Sum(InFlight, s.wakers) + s.sema
            == (if Armed(s.consumer) then 1 else 0)
  {
    RunKeepsInv(wakers, actions);
  }

  ghost predicate CreditComing(s: State) {
    s.sema > 0 || exists u :: 0 <= u < |s.wakers| && s.wakers[u].Release?
  }

  /** A consumer that gave up its arm to a waker always gets that waker's release. */
  lemma AbsorbNeverStarves(wakers: nat, actions: seq<Action>)
    requires Run(Init(wakers), actions).consumer.Absorb?
    ensures CreditComing(Run(Init(wakers), actions))
  {
    RunKeepsInv(wakers, actions);
    SumZero(InFlight, Run(Init(wakers), actions).wakers);
  }

  /**
   No lost wakeup. A consumer that is blocked although its ring holds a value, or although
   its context is cancelled, has a release available or in flight, or a goroutine that will
   still see wantWake set, or a cancellation callback that has yet to start.
   */
  lemma NoLostWakeup(wakers: nat, actions: seq<Action>)
    requires var s := Run(Init(wakers), actions);
             s.consumer.Blocked? && (s.tail < s.head || (!s.callback.Unset? && s.cancelled))
    ensures var s := Run(Init(wakers), actions);
            || CreditComing(s)
            || (s.wantWake && WakeComing(s))
            || (s.wantWake && s.callback.Registered? && s.cancelled)
  {
    RunKeepsInv(wakers, actions);
    SumZero(InFlight, Run(Init(wakers), actions).wakers);
  }

  // Calls

  /** Wait returns only with the oldest value, which it takes out, or with an error from a cancelled context. */
  lemma WaitReturns(s: State, a: Action)
    requires !s.consumer.Running? && Step(s, a).consumer.Running?
    ensures var s' := Step(s, a);
            && s'.consumer.outcome.Some?
            && match s'.consumer.outcome.value
               case Got(position) => position == s.tail < s.head && s'.tail == s.tail + 1
               case ErrContext => s.cancelled && s'.tail == s.tail
  {
  }

  /** One goroutine takes n steps while all others stand still. */
  function Alone(s: State, a: Action, n: nat): State {
    Iterate(By(a), s, n)
  }

  function By(a: Action): State -> State {
    (s: State) => Step(s, a)
  }

  lemma AloneTwice(s: State, a: Action, m: nat, n: nat, total: nat)
    requires total == m + n
    ensures Alone(s, a, total) == Alone(Alone(s, a, m), a, n)
  {
    IterateSum(By(a), s, m, n);
  }

  lemma FourSteps(s: State, a: Action, s1: State, s2: State, s3: State, s4: State)
    requires Step(s, a) == s1 && Step(s1, a) == s2 && Step(s2, a) == s3 && Step(s3, a) == s4
    ensures Alone(s, a, 1) == s1 && Alone(s, a, 2) == s2 && Alone(s, a, 3) == s3 && Alone(s, a, 4) == s4
  {
    IterateFour(By(a), s, s1, s2, s3, s4);
  }

  /** On a ring that holds a value Wait returns at once; on an empty one with a cancelled context it reports so. */
  lemma WaitAlone(s: State, cancellable: bool)
    requires s.consumer.Running?
    ensures var s0 := Step(s, CallWait);
            s.tail < s.head ==>
              Alone(s0, Consumer(cancellable), 1) == s0.(tail := s.tail + 1, consumer := Running(Some(Got(s.tail))))
    ensures var s0 := Step(Step(s, CallWait), Cancel);
            s.tail >= s.head ==>
              Alone(s0, Consumer(cancellable), 2) == s0.(consumer := Running(Some(ErrContext)))
  {
    var a := Consumer(cancellable);
    var s0 := Step(s, CallWait);
    var s2 := Step(Step(s0, a), a);
    FourSteps(s0, a, Step(s0, a), s2, Step(s2, a), Step(Step(s2, a), a));
    s0 := Step(s0, Cancel);
    s2 := Step(Step(s0, a), a);
    FourSteps(s0, a, Step(s0, a), s2, Step(s2, a), Step(Step(s2, a), a));
  }

  /** On an empty ring with a live context Wait arms and parks. */
  lemma WaitParks(s: State, cancellable: bool)
    requires s.consumer.Running? && s.tail == s.head
    ensures Alone(Step(s, CallWait), Consumer(cancellable), 7) ==
            s.(wantWake := true, cancelled := false, consumer := Blocked,
               callback := if cancellable then Registered else Unset)
  {
    var a, s0 := Consumer(cancellable), Step(s, CallWait);
    var armed := s0.(wantWake := true, callback := Unset);
    var s4 := armed.(consumer := LoadHead(s.tail));
    FourSteps(s0, a, s0.(consumer := CheckContext), s0.(consumer := Arm), armed.(consumer := LoadTail), s4);
    var s7 := Step(armed.(consumer := Watch), a);
    FourSteps(s4, a, armed.(consumer := CheckContextAgain), armed.(consumer := Watch), s7, Step(s7, a));
    AloneTwice(s0, a, 4, 3, 7);
  }

  /** A Send to a consumer that wants to be woken pushes and releases it once. */
  lemma SendWakes(s: State, u: nat)
    requires u < |s.wakers| && s.wakers[u].Resting? && s.wantWake
    ensures Alone(Step(s, CallSend(u)), Waker(u, true), 4) ==
            s.(head := s.head + 1, wantWake := false, sema := s.sema + 1)
  {
    var s0, a := WakerAt(s, u, Push), Waker(u, true);
    var s1 := WakerAt(s, u, LoadWant).(head := s.head + 1);
    var s2 := WakerAt(s, u, CasWant).(head := s.head + 1);
    var s3 := WakerAt(s, u, Release).(head := s.head + 1, wantWake := false);
    FourSteps(s0, a, s1, s2, s3, Step(s3, a));
  }

  /** A Send to a consumer that keeps up only pushes. */
  lemma SendOnlyPushes(s: State, u: nat)
    requires u < |s.wakers| && s.wakers[u].Resting? && !s.wantWake
    ensures Alone(Step(s, CallSend(u)), Waker(u, true), 2) == s.(head := s.head + 1)
  {
    var s0, a := WakerAt(s, u, Push), Waker(u, true);
    var s1 := WakerAt(s, u, LoadWant).(head := s.head + 1);
    var s2 := s.(head := s.head + 1);
    assert Step(s1, a) == s2;
    FourSteps(s0, a, s1, s2, Step(s2, a), Step(Step(s2, a), a));
  }

  /** A released consumer returns the oldest value. */
  lemma WokenReturns(s: State, cancellable: bool)
    requires s.consumer.Blocked? && s.sema > 0 && s.tail < s.head
    ensures Alone(s, Consumer(cancellable), 3) ==
            s.(sema := s.sema - 1, callback := Unset, tail := s.tail + 1, consumer := Running(Some(Got(s.tail))))
  {
    var a := Consumer(cancellable);
    var s1 := s.(sema := s.sema - 1, consumer := StopWatch);
    var s2 := s.(sema := s.sema - 1, callback := Unset, consumer := TryPop);
    var s3 := Step(s2, a);
    FourSteps(s, a, s1, s2, s3, Step(s3, a));
  }

  /** A consumer that finds its context cancelled while it parks takes its arm back and reports it. */
  lemma CancelledWhileParking(s: State, cancellable: bool)
    requires s.consumer.CheckContextAgain? && s.cancelled && s.wantWake && s.tail == s.head
    ensures Alone(s, Consumer(cancellable), 4) == s.(wantWake := false, consumer := Running(Some(ErrContext)))
  {
    var a, disarmed := Consumer(cancellable), s.(wantWake := false);
    var s3 := disarmed.(consumer := CheckContext);
    FourSteps(s, a, s.(consumer := Disarm), disarmed.(consumer := TryPop), s3, Step(s3, a));
  }

  /** One that finds a value while it parks takes its arm back, or absorbs the release, and returns the value. */
  lemma PushedWhileParking(s: State, cancellable: bool)
    requires s.consumer.LoadHead? && s.consumer.tail < s.head && s.tail < s.head
    ensures s.wantWake ==>
              Alone(s, Consumer(cancellable), 3) ==
              s.(wantWake := false, tail := s.tail + 1, consumer := Running(Some(Got(s.tail))))
    ensures !s.wantWake && s.sema > 0 ==>
              Alone(s, Consumer(cancellable), 4) ==
              s.(sema := s.sema - 1, tail := s.tail + 1, consumer := Running(Some(Got(s.tail))))
  {
    var a, s1 := Consumer(cancellable), s.(consumer := Disarm);
    if s.wantWake {
      var s2 := s.(wantWake := false, consumer := TryPop);
      FourSteps(s, a, s1, s2, Step(s2, a), Step(Step(s2, a), a));
    } else if s.sema > 0 {
      var s3 := s.(sema := s.sema - 1, consumer := TryPop);
      FourSteps(s, a, s1, s.(consumer := Absorb), s3, Step(s3, a));
    }
  }
}
