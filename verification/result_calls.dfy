/**
 What the calls of a completion slot (result_wait.go) mean to their callers: which values
 Wait returns, what has happened when Deliver or Close is over, and what a call does that
 runs on its own.
 */
module ResultCalls {
  import opened Common
  import opened Repetition
  import opened SlotPhases
  import opened ResultSlot

  // Values

  /** The argument of a Deliver that starts with this action. */
  ghost function Delivers(s: State, a: Action): set<nat> {
    if a.CallDeliver? && a.waker < |s.wakers| && s.wakers[a.waker].Resting? then {a.value} else {}
  }

  /** The arguments of every Deliver that was called in a run. */
  ghost function Delivered(s: State, actions: seq<Action>): set<nat> {
    if actions == [] then {}
    else
      var before := actions[..|actions| - 1];
      Delivered(s, before) + Delivers(Run(s, before), actions[|actions| - 1])
  }

  /** Every value in the slot, on its way there or returned is one of these. */
  ghost predicate Sourced(s: State, values: set<nat>) {
    && (s.value.Some? ==> s.value.value in values)
    && (forall u :: 0 <= u < |s.wakers| && s.wakers[u].StoreValue? ==> s.wakers[u].value in values)
    && (forall t :: 0 <= t < |s.waiters| ==> Returns(s.waiters[t]) <= values)
  }

  ghost function Returns(pc: WaitPc): set<nat> {
    if pc.Away? && pc.outcome.Some? && pc.outcome.value.Value? then {pc.outcome.value.value} else {}
  }

  lemma WaiterKeepsSourced(s: State, t: nat, context: Context, values: set<nat>)
    requires Sourced(s, values) && t < |s.waiters|
    ensures Sourced(WaiterStep(s, t, context), values)
  {
    var s' := WaiterStep(s, t, context);
    assert s'.value == s.value && s'.wakers == s.wakers && s'.waiters == s.waiters[t := s'.waiters[t]] by {
      OnlyItsPc(s, t, context);
    }
    assert Returns(s'.waiters[t]) <= values by {
      match s.waiters[t]
      case ReadReady =>
      case ReadReadyAgain =>
      case _ =>
    }
  }

  /** A waiter's step leaves the value, the wakers and the other waiters alone. */
  lemma OnlyItsPc(s: State, t: nat, context: Context)
    requires t < |s.waiters|
    ensures var s' := WaiterStep(s, t, context);
            s'.value == s.value && s'.wakers == s.wakers && s'.waiters == s.waiters[t := s'.waiters[t]]
  {
  }

  lemma StepKeepsSourced(s: State, a: Action, values: set<nat>)
    requires Sourced(s, values)
    ensures Sourced(Step(s, a), values + Delivers(s, a))
  {
    if a.Waiter? && a.waiter < |s.waiters| {
      WaiterKeepsSourced(s, a.waiter, a.context, values);
    }
  }

  lemma {:induction false} RunKeepsSourced(waiters: nat, wakers: nat, actions: seq<Action>)
    ensures Sourced(Run(Init(waiters, wakers), actions), Delivered(Init(waiters, wakers), actions))
  {
    if actions != [] {
      var s, before := Init(waiters, wakers), actions[..|actions| - 1];
      RunKeepsSourced(waiters, wakers, before);
      StepKeepsSourced(Run(s, before), actions[|actions| - 1], Delivered(s, before));
    }
  }

  /** In every interleaving a value that Wait returns is the argument of a Deliver that was called. */
  lemma ReturnsWhatWasDelivered(waiters: nat, wakers: nat, actions: seq<Action>, t: nat, v: nat)
    requires t < |Run(Init(waiters, wakers), actions).waiters|
    requires Run(Init(waiters, wakers), actions).waiters[t] == Away(Some(Value(v)))
    ensures v in Delivered(Init(waiters, wakers), actions)
  {
    RunKeepsSourced(waiters, wakers, actions);
    assert v in Returns(Run(Init(waiters, wakers), actions).waiters[t]);
  }

  /** With one argument delivered, every Wait that returns a value returns it. */
  lemma OneDeliverOneValue(waiters: nat, wakers: nat, actions: seq<Action>, t: nat, v: nat, w: nat)
    requires Delivered(Init(waiters, wakers), actions) == {v}
    requires t < |Run(Init(waiters, wakers), actions).waiters|
    requires Run(Init(waiters, wakers), actions).waiters[t] == Away(Some(Value(w)))
    ensures w == v
  {
    ReturnsWhatWasDelivered(waiters, wakers, actions, t, w);
  }

  // Calls that are over

  lemma OtherWakersRest(s: State, a: Action, u: nat)
    requires u < |s.wakers|
    ensures |Step(s, a).wakers| == |s.wakers|
    ensures !(a.Waker? && a.waker == u) && !s.wakers[u].Resting? ==> Step(s, a).wakers[u] == s.wakers[u]
  {
  }

  /** Once a Deliver that was called is over, the slot is no longer pending, whatever happened meanwhile. */
  lemma {:induction false} DeliverResolves(s: State, u: nat, v: nat, actions: seq<Action>)
    requires u < |s.wakers| && s.wakers[u].Resting?
    ensures var s' := Run(Step(s, CallDeliver(u, v)), actions);
            && u < |s'.wakers|
            && (!s'.phase.Pending? || s'.wakers[u] == StoreValue(v) || s'.wakers[u] == DeliverCas)
  {
    if actions != [] {
      var before, a := actions[..|actions| - 1], actions[|actions| - 1];
      DeliverResolves(s, u, v, before);
      var r := Run(Step(s, CallDeliver(u, v)), before);
      OtherWakersRest(r, a, u);
      PhaseStep(r, a);
    }
  }

  /** Once a Close that was called is over, the slot is closed, whatever happened meanwhile. */
  lemma {:induction false} CloseCloses(s: State, u: nat, actions: seq<Action>)
    requires u < |s.wakers| && s.wakers[u].Resting?
    ensures var s' := Run(Step(s, CallClose(u)), actions);
            && u < |s'.wakers|
            && (s'.phase.Closed? || s'.wakers[u].CloseLoad? || s'.wakers[u].CloseCas?)
  {
    if actions != [] {
      var before, a := actions[..|actions| - 1], actions[|actions| - 1];
      CloseCloses(s, u, before);
      var r := Run(Step(s, CallClose(u)), before);
      OtherWakersRest(r, a, u);
      PhaseStep(r, a);
    }
  }

  // Calls on their own

  /** One goroutine takes n steps while all others stand still. */
  function Alone(s: State, a: Action, n: nat): State {
    Iterate(By(a), s, n)
  }

  function By(a: Action): State -> State {
    (s: State) => Step(s, a)
  }

  lemma AloneTwice(s: State, a: Action, m: nat, n: nat, total: nat)
    requires total == m + n
    ensures Alone(s, a, total) == Alone(Alone(s, a, m), a, n)
  {
    IterateSum(By(a), s, m, n);
  }

  lemma ThreeSteps(s: State, a: Action, s1: State, s2: State, s3: State)
    requires Step(s, a) == s1 && Step(s1, a) == s2 && Step(s2, a) == s3
    ensures Alone(s, a, 1) == s1 && Alone(s, a, 2) == s2 && Alone(s, a, 3) == s3
  {
    IterateFour(By(a), s, s1, s2, s3, Step(s3, a));
  }

  /** On a ready slot Wait returns the value that is there, and on a closed one the error. */
  lemma WaitOnResolved(s: State, t: nat, context: Context)
    requires t < |s.waiters| && s.waiters[t].Away?
    ensures s.phase.Ready? && s.value.Some? ==>
              Alone(Step(s, CallWait(t)), Waiter(t, context), 2) == At(s, t, Away(Some(Value(s.value.value))))
    ensures s.phase.Closed? ==>
              Alone(Step(s, CallWait(t)), Waiter(t, context), 1) == At(s, t, Away(Some(ErrClosed)))
  {
    var s0, a := Step(s, CallWait(t)), Waiter(t, context);
    ThreeSteps(s0, a, Step(s0, a), Step(Step(s0, a), a), Step(Step(Step(s0, a), a), a));
    if s.phase.Ready? {
      assert Step(s0, a) == At(s, t, ReadReady);
    }
  }

  /** On a pending slot Wait reports a cancelled context. */
  lemma WaitCancelled(s: State, t: nat, context: Context)
    requires t < |s.waiters| && s.waiters[t].Away? && s.phase.Pending? && context.cancelled
    ensures Alone(Step(s, CallWait(t)), Waiter(t, context), 2) == At(s, t, Away(Some(ErrContext)))
  {
    var s0, a := Step(s, CallWait(t)), Waiter(t, context);
    ThreeSteps(s0, a, Step(s0, a), Step(Step(s0, a), a), Step(Step(Step(s0, a), a), a));
    assert Step(s0, a) == At(s, t, CheckContext);
  }

  /** On a pending slot Wait parks: it blocks on a node of its own, on top of those that wait already. */
  lemma WaitParks(s: State, t: nat, context: Context)
    requires t < |s.waiters| && s.waiters[t].Away? && s.phase.Pending? && !context.cancelled
    ensures var id := |s.nodes|;
            var callback := if context.cancellable then Armed else Unset;
            Alone(Step(s, CallWait(t)), Waiter(t, context), 8) ==
            s.(waiters := s.waiters[t := Blocked(id)], top := Some(id),
               nodes := s.nodes + [Node(t, 0, s.top, callback, |s.swapper|)])
  {
    var s0, a := Step(s, CallWait(t)), Waiter(t, context);
    WaitLooksTwice(s, t, context);
    WaitPushes(s, t, context);
    AloneTwice(s0, a, 3, 3, 6);
    AloneTwice(s0, a, 6, 2, 8);
  }

  lemma WaitLooksTwice(s: State, t: nat, context: Context)
    requires t < |s.waiters| && s.waiters[t].Away? && s.phase.Pending? && !context.cancelled
    ensures Alone(Step(s, CallWait(t)), Waiter(t, context), 3) == At(s, t, ParkLoadState)
  {
    var s0, a := Step(s, CallWait(t)), Waiter(t, context);
    assert s0 == At(s, t, LoadState);
    ThreeSteps(s0, a, At(s, t, CheckContext), At(s, t, LoadStateAgain), At(s, t, ParkLoadState));
  }

  lemma WaitPushes(s: State, t: nat, context: Context)
    requires t < |s.waiters| && s.phase.Pending?
    ensures var id := |s.nodes|;
            var callback := if context.cancellable then Armed else Unset;
            Alone(Alone(At(s, t, ParkLoadState), Waiter(t, context), 3), Waiter(t, context), 2) ==
            s.(waiters := s.waiters[t := Blocked(id)], top := Some(id),
               nodes := s.nodes + [Node(t, 0, s.top, callback, |s.swapper|)])
  {
    var a, id := Waiter(t, context), |s.nodes|;
    var pushed := s.(top := Some(id), nodes := s.nodes + [Node(t, 0, s.top, Unset, |s.swapper|)]);
    ThreeSteps(At(s, t, ParkLoadState), a, At(s, t, LoadTop), At(s, t, PushCas(s.top)), At(pushed, t, Recheck(id)));
    var s1 := At(pushed, t, Register(id));
    ThreeSteps(At(pushed, t, Recheck(id)), a, s1, Step(s1, a), Step(Step(s1, a), a));
  }

  /** On a pending slot Deliver makes its value ready, and takes the whole stack to wake it. */
  lemma DeliverAlone(s: State, u: nat, v: nat)
    requires u < |s.wakers| && s.wakers[u].Resting? && s.phase.Pending?
    ensures Alone(Step(s, CallDeliver(u, v)), Waker(u), 3) ==
            s.(phase := Ready, value := Some(v), opener := u, top := None, swapper := s.swapper + [u],
               wakers := s.wakers[u := Follow(|s.swapper|, s.top)])
  {
    var s0 := Step(s, CallDeliver(u, v));
    assert s0 == WakerAt(s, u, StoreValue(v));
    var s1 := WakerAt(s, u, DeliverCas).(value := Some(v));
    var s2 := WakerAt(s, u, SwapTop).(value := Some(v), phase := Ready, opener := u);
    ThreeSteps(s0, Waker(u), s1, s2, Step(s2, Waker(u)));
  }

  /** A slot that is ready or closed keeps its state when another value is delivered. */
  lemma SecondDeliver(s: State, u: nat, v: nat)
    requires u < |s.wakers| && s.wakers[u].Resting? && !s.phase.Pending?
    ensures Alone(Step(s, CallDeliver(u, v)), Waker(u), 2) == s.(value := Some(v))
  {
    var s0 := Step(s, CallDeliver(u, v));
    assert s0 == WakerAt(s, u, StoreValue(v));
    var s1 := WakerAt(s, u, DeliverCas).(value := Some(v));
    ThreeSteps(s0, Waker(u), s1, Step(s1, Waker(u)), Step(Step(s1, Waker(u)), Waker(u)));
  }

  /** A waiter that was released from a ready slot, whose stack was taken, returns the value. */
  lemma WokenReturns(s: State, t: nat, context: Context)
    requires t < |s.waiters| && s.waiters[t].Blocked? && s.phase.Ready? && s.value.Some? && s.top.None?
    requires s.waiters[t].node < |s.nodes| && s.nodes[s.waiters[t].node].sema > 0
    ensures Alone(s, Waiter(t, context), 5).waiters == s.waiters[t := Away(Some(Value(s.value.value)))]
  {
    var w, a := s.waiters[t].node, Waiter(t, context);
    var s1 := SetSema(At(s, t, RemoveLoadTop(w)), w, s.nodes[w].sema - 1);
    var s2 := At(s1, t, StopAfter(w));
    var s3 := Step(s2, a);
    ThreeSteps(s, a, s1, s2, s3);
    assert s3.waiters == s.waiters[t := LoadState] && s3.phase == s.phase && s3.value == s.value;
    var s4 := At(s3, t, ReadReady);
    ThreeSteps(s3, a, s4, Step(s4, a), Step(Step(s4, a), a));
    AloneTwice(s, a, 3, 2, 5);
  }

  /** A slot that is not closed is closed, and its whole stack taken to be woken. */
  lemma CloseAlone(s: State, u: nat)
    requires u < |s.wakers| && s.wakers[u].Resting? && !s.phase.Closed?
    ensures var s' := Alone(Step(s, CallClose(u)), Waker(u), 3);
            s' == s.(phase := Closed, opener := s'.opener, top := None, swapper := s.swapper + [u],
                     wakers := s.wakers[u := Follow(|s.swapper|, s.top)])
  {
    var s0 := Step(s, CallClose(u));
    assert s0 == WakerAt(s, u, CloseLoad);
    var s1 := WakerAt(s, u, CloseCas(s.phase));
    var s2 := Step(s1, Waker(u));
    assert s2 == WakerAt(s, u, SwapTop).(phase := Closed, opener := s2.opener);
    ThreeSteps(s0, Waker(u), s1, s2, Step(s2, Waker(u)));
  }

  // Unlinking

  /** The stack runs through exactly these nodes. */
  ghost predicate Stack(s: State, nodes: seq<nat>) {
    && s.top == Next(nodes, 0)
    && (forall i: nat :: i < |nodes| ==> LinkAt(s, nodes, i))
    && Distinct(nodes)
  }

  ghost predicate LinkAt(s: State, nodes: seq<nat>, i: nat) {
    i < |nodes| && nodes[i] < |s.nodes| && s.nodes[nodes[i]].next == Next(nodes, i + 1)
  }

  function Next(nodes: seq<nat>, i: nat): Option<nat> {
    if i < |nodes| then Some(nodes[i]) else None
  }

  /** Place k holds the only node of waiter t, which is about to remove it. */
  ghost predicate Removing(s: State, t: nat, nodes: seq<nat>, k: nat) {
    && Stack(s, nodes) && k < |nodes| && t < |s.waiters| && s.waiters[t] == RemoveLoadTop(nodes[k])
    && forall i: nat :: i < |nodes| ==> (s.OwnedBy(nodes[i], t) <==> i == k)
  }

  lemma AtAt(s: State, t: nat, pc: WaitPc, pc': WaitPc)
    requires t < |s.waiters|
    ensures At(At(s, t, pc), t, pc') == At(s, t, pc')
  {
  }

  /** The walk reads a link, and looks at the node there. */
  lemma WalkStep(s: State, t: nat, context: Context, w: nat, prev: nat, cur: nat)
    requires t < |s.waiters| && s.NextOf(prev) == Some(cur)
    ensures Step(At(s, t, WalkNext(w, prev)), Waiter(t, context)) == At(s, t, WalkMatch(w, prev, cur))
    ensures var next := if s.OwnedBy(cur, t) then RemoveCas(w, prev, cur, s.NextOf(cur)) else WalkNext(w, cur);
            Step(At(s, t, WalkMatch(w, prev, cur)), Waiter(t, context)) == At(s, t, next)
  {
    AtAt(s, t, WalkNext(w, prev), WalkMatch(w, prev, cur));
    AtAt(s, t, WalkMatch(w, prev, cur), RemoveCas(w, prev, cur, s.NextOf(cur)));
    AtAt(s, t, WalkMatch(w, prev, cur), WalkNext(w, cur));
  }

  lemma UnlinkStep(s: State, t: nat, context: Context, w: nat, prev: nat, next: Option<nat>)
    requires t < |s.waiters| && prev < |s.nodes| && s.nodes[prev].next == Some(w)
    ensures Step(At(s, t, RemoveCas(w, prev, w, next)), Waiter(t, context)) ==
            SetNext(At(s, t, StopAfter(w)), prev, next)
  {
    AtAt(s, t, RemoveCas(w, prev, w, next), StopAfter(w));
  }

  lemma WalkRound(s: State, t: nat, context: Context, w: nat, prev: nat, cur: nat)
    requires t < |s.waiters| && s.NextOf(prev) == Some(cur) && !s.OwnedBy(cur, t)
    ensures Alone(At(s, t, WalkNext(w, prev)), Waiter(t, context), 2) == At(s, t, WalkNext(w, cur))
  {
    var a, s2 := Waiter(t, context), At(s, t, WalkNext(w, cur));
    WalkStep(s, t, context, w, prev, cur);
    ThreeSteps(At(s, t, WalkNext(w, prev)), a, At(s, t, WalkMatch(w, prev, cur)), s2, Step(s2, a));
  }

  lemma UnlinkRound(s: State, t: nat, context: Context, w: nat, prev: nat)
    requires t < |s.waiters| && prev < |s.nodes| && s.nodes[prev].next == Some(w) && s.OwnedBy(w, t)
    ensures Alone(At(s, t, WalkNext(w, prev)), Waiter(t, context), 3) ==
            SetNext(At(s, t, StopAfter(w)), prev, s.NextOf(w))
  {
    WalkStep(s, t, context, w, prev, w);
    UnlinkStep(s, t, context, w, prev, s.NextOf(w));
    ThreeSteps(At(s, t, WalkNext(w, prev)), Waiter(t, context), At(s, t, WalkMatch(w, prev, w)),
               At(s, t, RemoveCas(w, prev, w, s.NextOf(w))), SetNext(At(s, t, StopAfter(w)), prev, s.NextOf(w)));
  }

  /** Before place k the stack holds no node of waiter t. */
  ghost predicate Foreign(s: State, t: nat, nodes: seq<nat>, k: nat) {
    forall i: nat :: i < k ==> ForeignAt(s, t, nodes, i)
  }

  ghost predicate ForeignAt(s: State, t: nat, nodes: seq<nat>, i: nat) {
    LinkAt(s, nodes, i) && !s.OwnedBy(nodes[i], t)
  }

  /** The states of the walk before each place up to k. */
  function WalkStates(s: State, t: nat, nodes: seq<nat>, k: nat): (states: seq<State>)
    requires t < |s.waiters| && k < |nodes|
    ensures |states| == k && forall j :: 0 <= j < k ==> states[j] == At(s, t, WalkNext(nodes[k], nodes[j]))
  {
    seq(k, j requires 0 <= j < k => At(s, t, WalkNext(nodes[k], nodes[j])))
  }

  lemma WalkRounds(s: State, t: nat, context: Context, nodes: seq<nat>, k: nat)
    requires t < |s.waiters| && k < |nodes| && Foreign(s, t, nodes, k)
    ensures Rounds(By(Waiter(t, context)), WalkStates(s, t, nodes, k), 2)
  {
    var states := WalkStates(s, t, nodes, k);
    forall j: nat | j + 1 < |states|
      ensures Round(By(Waiter(t, context)), states, 2, j)
    {
      assert ForeignAt(s, t, nodes, j) && ForeignAt(s, t, nodes, j + 1);
      WalkRound(s, t, context, nodes[k], nodes[j], nodes[j + 1]);
    }
  }

  /** From before the first place the walk comes to stand before place k. */
  lemma WalksTo(s: State, t: nat, context: Context, nodes: seq<nat>, k: nat)
    requires t < |s.waiters| && 1 <= k < |nodes| && Foreign(s, t, nodes, k)
    ensures Alone(At(s, t, WalkNext(nodes[k], nodes[0])), Waiter(t, context), 2 * (k - 1))
            == At(s, t, WalkNext(nodes[k], nodes[k - 1]))
  {
    WalkRounds(s, t, context, nodes, k);
    IterateRounds(By(Waiter(t, context)), WalkStates(s, t, nodes, k), 2, 0, k - 1);
  }

  /** The state after the node at place k is unlinked. */
  ghost function Unlinked(s: State, t: nat, nodes: seq<nat>, k: nat): State
    requires t < |s.waiters| && k < |nodes| && (k > 0 ==> LinkAt(s, nodes, k - 1))
  {
    var stopping := At(s, t, StopAfter(nodes[k]));
    if k == 0 then stopping.(top := Next(nodes, 1)) else SetNext(stopping, nodes[k - 1], Next(nodes, k + 1))
  }

  lemma UnlinkedStack(s: State, t: nat, nodes: seq<nat>, k: nat)
    requires Removing(s, t, nodes, k)
    ensures Stack(Unlinked(s, t, nodes, k), nodes[..k] + nodes[k + 1..])
  {
    var s', rest := Unlinked(s, t, nodes, k), nodes[..k] + nodes[k + 1..];
    forall i: nat | i < |rest|
      ensures LinkAt(s', rest, i)
    {
      var j := if i < k then i else i + 1;
      assert LinkAt(s, nodes, j) && rest[i] == nodes[j];
    }
  }

  lemma RemovesTop(s: State, t: nat, context: Context, nodes: seq<nat>)
    requires Removing(s, t, nodes, 0)
    ensures Alone(s, Waiter(t, context), 3) == Unlinked(s, t, nodes, 0)
  {
    var a, w := Waiter(t, context), nodes[0];
    assert s.OwnedBy(w, t) && LinkAt(s, nodes, 0);
    ThreeSteps(s, a, At(s, t, RemoveTopNext(w, w)), At(s, t, RemoveTopCas(w, w, Next(nodes, 1))),
               Unlinked(s, t, nodes, 0));
  }

  lemma RemovingForeign(s: State, t: nat, nodes: seq<nat>, k: nat)
    requires Removing(s, t, nodes, k)
    ensures Foreign(s, t, nodes, k) && s.OwnedBy(nodes[k], t) && LinkAt(s, nodes, k)
    ensures k >= 1 ==> s.top == Some(nodes[0]) && !s.OwnedBy(nodes[0], t) && LinkAt(s, nodes, k - 1)
  {
    forall i: nat | i < k
      ensures ForeignAt(s, t, nodes, i)
    {
      assert LinkAt(s, nodes, i) && !s.OwnedBy(nodes[i], t);
    }
    assert LinkAt(s, nodes, k) && s.OwnedBy(nodes[k], t);
    if k >= 1 {
      assert ForeignAt(s, t, nodes, 0) && ForeignAt(s, t, nodes, k - 1);
    }
  }

  lemma RemovesMiddle(s: State, t: nat, context: Context, nodes: seq<nat>, k: nat)
    requires Removing(s, t, nodes, k) && k >= 1 && LinkAt(s, nodes, k - 1)
    ensures Alone(s, Waiter(t, context), 2 * k + 2) == Unlinked(s, t, nodes, k)
  {
    RemovingForeign(s, t, nodes, k);
    FirstStep(s, t, context, nodes[k], nodes[0]);
    WalksTo(s, t, context, nodes, k);
    UnlinkRound(s, t, context, nodes[k], nodes[k - 1]);
    IterateThrice(By(Waiter(t, context)), s, 1, At(s, t, WalkNext(nodes[k], nodes[0])), 2 * (k - 1),
                  At(s, t, WalkNext(nodes[k], nodes[k - 1])), 3, Unlinked(s, t, nodes, k));
  }

  lemma FirstStep(s: State, t: nat, context: Context, w: nat, top: nat)
    requires t < |s.waiters| && s.waiters[t] == RemoveLoadTop(w) && s.top == Some(top) && !s.OwnedBy(top, t)
    ensures Alone(s, Waiter(t, context), 1) == At(s, t, WalkNext(w, top))
  {
    var a := Waiter(t, context);
    ThreeSteps(s, a, Step(s, a), Step(Step(s, a), a), Step(Step(Step(s, a), a), a));
  }

  /** A waiter that removes its node on its own takes exactly that node off the stack, wherever it is. */
  lemma RemoveAlone(s: State, t: nat, context: Context, nodes: seq<nat>, k: nat)
    requires Removing(s, t, nodes, k)
    ensures var s' := Alone(s, Waiter(t, context), if k == 0 then 3 else 2 * k + 2);
            && s'.waiters == s.waiters[t := StopAfter(nodes[k])]
            && Stack(s', nodes[..k] + nodes[k + 1..])
  {
    UnlinkedStack(s, t, nodes, k);
    if k == 0 {
      RemovesTop(s, t, context, nodes);
    } else {
      assert LinkAt(s, nodes, k - 1);
      RemovesMiddle(s, t, context, nodes, k);
    }
  }

  // Waking

  /** A waiter that finds the slot resolved before it parks returns what it finds. */
  lemma ResolvedWhileEntering(s: State, t: nat, context: Context)
    requires t < |s.waiters| && s.waiters[t].LoadStateAgain?
    ensures s.phase.Ready? && s.value.Some? ==>
              Alone(s, Waiter(t, context), 2) == At(s, t, Away(Some(Value(s.value.value))))
    ensures s.phase.Closed? ==> Alone(s, Waiter(t, context), 1) == At(s, t, Away(Some(ErrClosed)))
  {
    var a := Waiter(t, context);
    ThreeSteps(s, a, Step(s, a), Step(Step(s, a), a), Step(Step(Step(s, a), a), a));
    if s.phase.Ready? {
      assert Step(s, a) == At(s, t, ReadReadyAgain);
    }
  }

  /** The links of a stack that was taken. */
  ghost predicate Links(s: State, nodes: seq<nat>) {
    Distinct(nodes) && forall i: nat :: i < |nodes| ==> LinkAt(s, nodes, i)
  }

  /** The state after the waker's two steps at place j. */
  ghost function ReleasedAt(s: State, u: nat, g: nat, nodes: seq<nat>, j: nat): State
    requires u < |s.wakers| && LinkAt(s, nodes, j)
  {
    SetSema(WakerAt(s, u, Follow(g, Next(nodes, j + 1))), nodes[j], s.nodes[nodes[j]].sema + 1)
  }

  lemma ReleaseRound(s: State, u: nat, g: nat, nodes: seq<nat>, j: nat)
    requires u < |s.wakers| && LinkAt(s, nodes, j) && s.wakers[u] == Release(g, nodes[j])
    ensures Alone(s, Waker(u), 2) == ReleasedAt(s, u, g, nodes, j)
  {
    var w := nodes[j];
    var s1 := SetSema(WakerAt(s, u, Advance(g, w)), w, s.nodes[w].sema + 1);
    var s2 := ReleasedAt(s, u, g, nodes, j);
    assert s1.NextOf(w) == Next(nodes, j + 1);
    assert Step(s1, Waker(u)) == s2;
    ThreeSteps(s, Waker(u), s1, s2, Step(s2, Waker(u)));
  }

  lemma ReleaseKeepsLinks(s: State, u: nat, g: nat, nodes: seq<nat>, j: nat)
    requires u < |s.wakers| && Links(s, nodes) && LinkAt(s, nodes, j)
    ensures Links(ReleasedAt(s, u, g, nodes, j), nodes)
  {
    var s' := ReleasedAt(s, u, g, nodes, j);
    forall i: nat | i < |nodes|
      ensures LinkAt(s', nodes, i)
    {
      assert LinkAt(s, nodes, i);
    }
  }

  /** Node a has one more release if it is among these, and is otherwise as it was. */
  ghost predicate ReleasedIn(s: State, s': State, nodes: seq<nat>, a: nat) {
    && a < |s.nodes| == |s'.nodes|
    && s'.nodes[a] == s.nodes[a].(sema := s.nodes[a].sema + if a in nodes then 1 else 0)
  }

  lemma ReleasedTwice(s: State, u: nat, g: nat, nodes: seq<nat>, j: nat, s': State, a: nat)
    requires u < |s.wakers| && Links(s, nodes) && LinkAt(s, nodes, j) && a < |s.nodes|
    requires ReleasedIn(ReleasedAt(s, u, g, nodes, j), s', nodes[j + 1..], a)
    ensures ReleasedIn(s, s', nodes[j..], a)
  {
    assert nodes[j..] == [nodes[j]] + nodes[j + 1..];
    assert nodes[j] !in nodes[j + 1..];
  }

  /** A waker that walks on its own releases every node from its place on once, and rests. */
  lemma {:induction false} WakesOn(s: State, u: nat, g: nat, nodes: seq<nat>, j: nat)
    requires u < |s.wakers| && Links(s, nodes) && j < |nodes| && s.wakers[u] == Release(g, nodes[j])
    ensures var s' := Alone(s, Waker(u), 2 * (|nodes| - j));
            && s'.wakers == s.wakers[u := Resting]
            && |s'.nodes| == |s.nodes| && forall a: nat :: a < |s.nodes| ==> ReleasedIn(s, s', nodes[j..], a)
    decreases |nodes| - j
  {
    assert LinkAt(s, nodes, j);
    var s2 := ReleasedAt(s, u, g, nodes, j);
    ReleaseRound(s, u, g, nodes, j);
    var s' := s2;
    if j + 1 < |nodes| {
      ReleaseKeepsLinks(s, u, g, nodes, j);
      WakesOn(s2, u, g, nodes, j + 1);
      s' := Alone(s2, Waker(u), 2 * (|nodes| - j - 1));
      AloneTwice(s, Waker(u), 2, 2 * (|nodes| - j - 1), 2 * (|nodes| - j));
    }
    forall a: nat | a < |s.nodes|
      ensures ReleasedIn(s, s', nodes[j..], a)
    {
      assert ReleasedIn(s2, s', nodes[j + 1..], a);
      ReleasedTwice(s, u, g, nodes, j, s', a);
    }
  }

  /** On its own Deliver releases every waiter of the stack once, and is over. */
  lemma DeliverWakesAll(s: State, u: nat, v: nat, nodes: seq<nat>)
    requires u < |s.wakers| && s.wakers[u].Resting? && s.phase.Pending? && Stack(s, nodes) && nodes != []
    ensures var s' := Alone(Step(s, CallDeliver(u, v)), Waker(u), 3 + 2 * |nodes|);
            && s'.wakers == s.wakers
            && |s'.nodes| == |s.nodes| && forall a: nat :: a < |s.nodes| ==> ReleasedIn(s, s', nodes, a)
  {
    DeliverAlone(s, u, v);
    var s0 := Step(s, CallDeliver(u, v));
    var s3 := Alone(s0, Waker(u), 3);
    forall i: nat | i < |nodes|
      ensures LinkAt(s3, nodes, i)
    {
      assert LinkAt(s, nodes, i);
    }
    WakesOn(s3, u, |s.swapper|, nodes, 0);
    AloneTwice(s0, Waker(u), 3, 2 * |nodes|, 3 + 2 * |nodes|);
    assert nodes[0..] == nodes;
    var s' := Alone(s0, Waker(u), 3 + 2 * |nodes|);
    forall a: nat | a < |s.nodes|
      ensures ReleasedIn(s, s', nodes, a)
    {
      assert ReleasedIn(s3, s', nodes, a);
    }
  }

  /** A cancelled context releases the waiter that blocks with its callback armed, once. */
  lemma CancelReleases(s: State, t: nat, context: Context)
    requires t < |s.waiters| && s.waiters[t].Blocked? && s.waiters[t].node < |s.nodes|
    requires s.nodes[s.waiters[t].node].callback.Armed?
    ensures var w := s.waiters[t].node;
            var s' := Step(Step(s, Fire(w)), Waiter(t, context));
            && s'.waiters == s.waiters[t := RemoveLoadTop(w)]
            && s'.nodes == s.nodes[w := s.nodes[w].(callback := Fired)]
  {
    var w := s.waiters[t].node;
    var s1 := Step(s, Fire(w));
    assert s1.nodes == s.nodes[w := s.nodes[w].(sema := s.nodes[w].sema + 1, callback := Fired)];
  }
}
