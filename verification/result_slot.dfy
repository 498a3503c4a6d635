/**
 The completion slot behind every result handle (result_wait.go), one transition per atomic
 operation, for any number of waiting, delivering and closing goroutines.

 Waiters push themselves on a linked stack, re-check the state and block on a semaphore of
 their own. Whoever ends the pending state swaps the whole stack out and releases every
 node on it, while woken or cancelled waiters are unlinking their own nodes, from the top
 and from the middle, with compare-and-swap operations that may give up or that may write
 through a node which is itself already unlinked.

 A node is private until the CAS that pushes it, so nodes are numbered in push order. The
 generation of a node counts the swaps before its push. Both are bookkeeping.
 */
module ResultSlot {
  import opened Common
  import opened SlotPhases

  /** The cancellation callback of a park, which releases the node's semaphore when it runs. */
  datatype Callback = Unset | Armed | Fired | Stopped

  datatype Node = Node(gp: nat, sema: nat, next: Option<nat>, callback: Callback, gen: nat)

  datatype Outcome = Value(value: nat) | ErrClosed | ErrContext | ErrMissing

  /** Program counter of a goroutine in Wait; each state names the operation that comes next. */
  datatype WaitPc =
    | Away(outcome: Option<Outcome>)
    | LoadState
    | ReadReady
    | CheckContext
    | LoadStateAgain
    | ReadReadyAgain
    | ParkLoadState
    | LoadTop
    | PushCas(seen: Option<nat>)
    | Recheck(node: nat)
    | Register(node: nat)
    | Blocked(node: nat)
    | RemoveLoadTop(node: nat)
    | RemoveTopNext(node: nat, top: nat)
    | RemoveTopCas(node: nat, top: nat, next: Option<nat>)
    | WalkNext(node: nat, prev: nat)
    | WalkMatch(node: nat, prev: nat, cur: nat)
    | RemoveCas(node: nat, prev: nat, cur: nat, next: Option<nat>)
    | StopAfter(node: nat)

  /** Program counter of a goroutine in Deliver or Close. */
  datatype WakePc =
    | Resting
    | StoreValue(value: nat)
    | DeliverCas
    | CloseLoad
    | CloseCas(seen: Phase)
    | SwapTop
    | Release(gen: nat, cur: nat)
    | Advance(gen: nat, cur: nat)

  datatype State = State(
    phase: Phase,
    value: Option<nat>,
    top: Option<nat>,
    nodes: seq<Node>,
    waiters: seq<WaitPc>,
    wakers: seq<WakePc>,
    swapper: seq<nat>,
    opener: nat)
  {
    function NextOf(a: nat): Option<nat> {
      if a < |nodes| then nodes[a].next else None
    }

    predicate OwnedBy(a: nat, t: nat) {
      a < |nodes| && nodes[a].gp == t
    }
  }

  /**
   What a step sees of the waiter's context, an input: whether it is cancelled, whether it
   can be, and whether its callback has started by the time it is stopped.
   */
  datatype Context = Context(cancelled: bool, cancellable: bool, started: bool)

  datatype Action =
    | CallWait(waiter: nat)
    | Waiter(waiter: nat, context: Context)
    | Fire(node: nat)
    | CallDeliver(waker: nat, value: nat)
    | CallClose(waker: nat)
    | Waker(waker: nat)

  // Transitions of Wait, parkForWait, pushWaiter and removeWaiter

  function At(s: State, t: nat, pc: WaitPc): State
    requires t < |s.waiters|
  {
    s.(waiters := s.waiters[t := pc])
  }

  function SetNext(s: State, a: nat, next: Option<nat>): State
    requires a < |s.nodes|
  {
    s.(nodes := s.nodes[a := s.nodes[a].(next := next)])
  }

  function SetSema(s: State, a: nat, sema: nat): State
    requires a < |s.nodes|
  {
    s.(nodes := s.nodes[a := s.nodes[a].(sema := sema)])
  }

  function SetCallback(s: State, a: nat, callback: Callback): State
    requires a < |s.nodes|
  {
    s.(nodes := s.nodes[a := s.nodes[a].(callback := callback)])
  }

  /** The part of Wait before it parks. */
  function EnterStep(s: State, t: nat, cancelled: bool): WaitPc
    requires t < |s.waiters|
  {
    match s.waiters[t]
    case LoadState =>
      (match s.phase
       case Ready => ReadReady
       case Closed => Away(Some(ErrClosed))
       case Pending => CheckContext)
    case ReadReady =>
      Away(Some(if s.value.Some? then Value(s.value.value) else ErrMissing))
    case CheckContext =>
      if cancelled then Away(Some(ErrContext)) else LoadStateAgain
    case LoadStateAgain =>
      (match s.phase
       case Ready => ReadReadyAgain
       case Closed => Away(Some(ErrClosed))
       case Pending => ParkLoadState)
    case ReadReadyAgain =>
      if s.value.Some? then Away(Some(Value(s.value.value))) else ParkLoadState
    case ParkLoadState =>
      if s.phase.Pending? then LoadTop else LoadState
    case LoadTop => PushCas(s.top)
    case Recheck(node) =>
      if s.phase.Pending? then Register(node) else RemoveLoadTop(node)
    case pc => pc
  }

  /** The reading steps of removeWaiter. */
  function RemoveStep(s: State, t: nat): WaitPc
    requires t < |s.waiters|
  {
    match s.waiters[t]
    case RemoveLoadTop(node) =>
      if s.top.None? then StopAfter(node)
      else if s.OwnedBy(s.top.value, t) then RemoveTopNext(node, s.top.value)
      else WalkNext(node, s.top.value)
    case RemoveTopNext(node, top) => RemoveTopCas(node, top, s.NextOf(top))
    case WalkNext(node, prev) =>
      if s.NextOf(prev).None? then StopAfter(node) else WalkMatch(node, prev, s.NextOf(prev).value)
    case WalkMatch(node, prev, cur) =>
      if s.OwnedBy(cur, t) then RemoveCas(node, prev, cur, s.NextOf(cur)) else WalkNext(node, cur)
    case pc => pc
  }

  function WaiterStep(s: State, t: nat, context: Context): State
    requires t < |s.waiters|
  {
    match s.waiters[t]
    case PushCas(seen) =>
      if s.top == seen then
        var id := |s.nodes|;
        At(s, t, Recheck(id)).(
          nodes := s.nodes + [Node(t, 0, seen, Unset, |s.swapper|)],
          top := Some(id))
      else
        At(s, t, LoadTop)
    case Register(node) =>
      if context.cancellable && node < |s.nodes| then SetCallback(At(s, t, Blocked(node)), node, Armed)
      else At(s, t, Blocked(node))
    case Blocked(node) =>
      if node < |s.nodes| && s.nodes[node].sema > 0 then
        SetSema(At(s, t, RemoveLoadTop(node)), node, s.nodes[node].sema - 1)
      else
        s
    case RemoveTopCas(node, top, next) =>
      if s.top == Some(top) then At(s, t, StopAfter(node)).(top := next)
      else At(s, t, RemoveLoadTop(node))
    case RemoveCas(node, prev, cur, next) =>
      if prev < |s.nodes| && s.nodes[prev].next == Some(cur) then
        SetNext(At(s, t, StopAfter(node)), prev, next)
      else
        At(s, t, StopAfter(node))
    case StopAfter(node) =>
      if node < |s.nodes| && s.nodes[node].callback.Armed? && !context.started then
        SetCallback(At(s, t, LoadState), node, Stopped)
      else
        At(s, t, LoadState)
    case RemoveLoadTop(_) => At(s, t, RemoveStep(s, t))
    case RemoveTopNext(_, _) => At(s, t, RemoveStep(s, t))
    case WalkNext(_, _) => At(s, t, RemoveStep(s, t))
    case WalkMatch(_, _, _) => At(s, t, RemoveStep(s, t))
    case _ => At(s, t, EnterStep(s, t, context.cancelled))
  }

  // Transitions of Deliver, Close and wakeWaiters

  function WakerAt(s: State, u: nat, pc: WakePc): State
    requires u < |s.wakers|
  {
    s.(wakers := s.wakers[u := pc])
  }

  function Follow(g: nat, next: Option<nat>): WakePc {
    if next.Some? then Release(g, next.value) else Resting
  }

  function WakerStep(s: State, u: nat): State
    requires u < |s.wakers|
  {
    match s.wakers[u]
    case Resting => s
    case StoreValue(value) =>
      WakerAt(s, u, DeliverCas).(value := Some(value))
    case DeliverCas =>
      if s.phase.Pending? then WakerAt(s, u, SwapTop).(phase := Ready, opener := u)
      else WakerAt(s, u, Resting)
    case CloseLoad =>
      if s.phase.Closed? then WakerAt(s, u, Resting) else WakerAt(s, u, CloseCas(s.phase))
    case CloseCas(seen) =>
      if s.phase == seen then
        WakerAt(s, u, SwapTop).(phase := Closed, opener := if seen.Pending? then u else s.opener)
      else
        WakerAt(s, u, CloseLoad)
    case SwapTop =>
      WakerAt(s, u, Follow(|s.swapper|, s.top)).(top := None, swapper := s.swapper + [u])
    case Release(g, cur) =>
      if cur < |s.nodes| then SetSema(WakerAt(s, u, Advance(g, cur)), cur, s.nodes[cur].sema + 1)
      else s
    case Advance(g, cur) => WakerAt(s, u, Follow(g, s.NextOf(cur)))
  }

  /** One atomic operation of one goroutine; an action that is not enabled changes nothing. */
  function Step(s: State, a: Action): State {
    match a
    case CallWait(t) =>
      if t < |s.waiters| && s.waiters[t].Away? then At(s, t, LoadState) else s
    case Waiter(t, context) =>
      if t < |s.waiters| then WaiterStep(s, t, context) else s
    case Fire(node) =>
      if node < |s.nodes| && s.nodes[node].callback.Armed? then
        SetCallback(SetSema(s, node, s.nodes[node].sema + 1), node, Fired)
      else
        s
    case CallDeliver(u, value) =>
      if u < |s.wakers| && s.wakers[u].Resting? then WakerAt(s, u, StoreValue(value)) else s
    case CallClose(u) =>
      if u < |s.wakers| && s.wakers[u].Resting? then WakerAt(s, u, CloseLoad) else s
    case Waker(u) =>
      if u < |s.wakers| then WakerStep(s, u) else s
  }

  function Run(s: State, actions: seq<Action>): State {
    if actions == [] then s
    else Step(Run(s, actions[..|actions| - 1]), actions[|actions| - 1])
  }

  function Init(waiters: nat, wakers: nat): State {
    State(Pending, None, None, [], seq(waiters, _ => Away(None)), seq(wakers, _ => Resting), [], 0)
  }

  // Invariant

  predicate Parked(pc: WaitPc) {
    pc.Recheck? || pc.Register? || pc.Blocked?
  }

  /** Node w belongs to a goroutine that is about to block, or blocks, on it. */
  ghost predicate Live(s: State, w: nat) {
    && w < |s.nodes|
    && s.nodes[w].gp < |s.waiters|
    && Parked(s.waiters[s.nodes[w].gp])
    && s.waiters[s.nodes[w].gp].node == w
  }

  /** Going from node a straight to next jumps over no live node of a's generation. */
  ghost predicate NoSkip(s: State, a: nat, next: Option<nat>) {
    a < |s.nodes| &&
    forall w: nat :: w < a && Live(s, w) && s.nodes[w].gen == s.nodes[a].gen ==> next.Some? && w <= next.value
  }

  ghost predicate Older(s: State, next: Option<nat>, a: nat) {
    a < |s.nodes| && (next.Some? ==> next.value < a && s.nodes[next.value].gen == s.nodes[a].gen)
  }

  ghost predicate LinkOk(s: State, a: nat)
    requires a < |s.nodes|
  {
    && s.nodes[a].gen <= |s.swapper|
    && Older(s, s.nodes[a].next, a)
    && NoSkip(s, a, s.nodes[a].next)
  }

  ghost predicate LinksOk(s: State) {
    forall a: nat :: a < |s.nodes| ==> LinkOk(s, a)
  }

  ghost predicate TopOk(s: State) {
    && (s.top.Some? ==> s.top.value < |s.nodes| && s.nodes[s.top.value].gen == |s.swapper|)
    && (forall w: nat :: Live(s, w) && s.nodes[w].gen == |s.swapper| ==> s.top.Some? && w <= s.top.value)
  }

  ghost predicate WaiterOk(s: State, t: nat, pc: WaitPc) {
    match pc
    case Away(outcome) =>
      outcome != Some(ErrMissing)
    case ReadReady => s.value.Some?
    case ReadReadyAgain => s.value.Some?
    case Recheck(node) => s.OwnedBy(node, t)
    case Register(node) => s.OwnedBy(node, t) && s.nodes[node].gen == 0
    case Blocked(node) => s.OwnedBy(node, t) && s.nodes[node].gen == 0
    case RemoveTopNext(_, top) => s.OwnedBy(top, t)
    case RemoveTopCas(_, top, next) =>
      s.OwnedBy(top, t) && Older(s, next, top) && NoSkip(s, top, next)
    case WalkNext(_, prev) => prev < |s.nodes|
    case WalkMatch(_, prev, cur) => Older(s, Some(cur), prev)
    case RemoveCas(_, prev, cur, next) =>
      Older(s, Some(cur), prev) && s.OwnedBy(cur, t) && Older(s, next, cur) && NoSkip(s, cur, next)
    case _ => true
  }

  ghost predicate WakerOk(s: State, u: nat, pc: WakePc) {
    match pc
    case DeliverCas => s.value.Some?
    case CloseCas(seen) => !seen.Closed?
    case SwapTop => !s.phase.Pending?
    case Release(g, cur) => cur < |s.nodes| && s.nodes[cur].gen == g < |s.swapper| && s.swapper[g] == u
    case Advance(g, cur) => cur < |s.nodes| && s.nodes[cur].gen == g < |s.swapper| && s.swapper[g] == u
    case _ => true
  }

  ghost predicate PhaseOk(s: State) {
    && (s.phase.Pending? ==> |s.swapper| == 0)
    && (s.phase.Ready? ==> s.value.Some?)
    && (!s.phase.Pending? && |s.swapper| == 0 ==> s.opener < |s.wakers| && s.wakers[s.opener].SwapTop?)
  }

  /** The walk of the goroutine that swapped w's generation out still has to come to w. */
  ghost predicate ToBeReleased(s: State, w: nat)
    requires w < |s.nodes| && s.nodes[w].gen < |s.swapper|
  {
    var g := s.nodes[w].gen;
    s.swapper[g] < |s.wakers| &&
    var pc := s.wakers[s.swapper[g]];
    (pc.Release? && pc.gen == g && w <= pc.cur) || (pc.Advance? && pc.gen == g && w < pc.cur)
  }

  ghost predicate WalksOk(s: State) {
    forall w: nat :: Live(s, w) && s.nodes[w].gen < |s.swapper| && s.nodes[w].sema == 0 ==> ToBeReleased(s, w)
  }

  ghost predicate Inv(s: State) {
    && LinksOk(s)
    && TopOk(s)
    && (forall t: nat :: t < |s.waiters| ==> WaiterOk(s, t, s.waiters[t]))
    && (forall u: nat :: u < |s.wakers| ==> WakerOk(s, u, s.wakers[u]))
    && PhaseOk(s)
    && WalksOk(s)
  }

  // Proof

  /** s' has the nodes of s, perhaps more, and none of the old ones is newly live. */
  ghost predicate Frame(s: State, s': State) {
    && |s.nodes| <= |s'.nodes| && |s.swapper| <= |s'.swapper|
    && (s.value.Some? ==> s'.value.Some?)
    && (forall a: nat :: a < |s.nodes| ==> s'.nodes[a].gp == s.nodes[a].gp && s'.nodes[a].gen == s.nodes[a].gen)
    && (forall w: nat :: w < |s.nodes| && Live(s', w) ==> Live(s, w))
  }

  lemma FrameSkips(s: State, s': State, a: nat, next: Option<nat>)
    requires Frame(s, s') && a < |s.nodes|
    ensures NoSkip(s, a, next) ==> NoSkip(s', a, next)
    ensures Older(s, next, a) ==> Older(s', next, a)
  {
  }

  lemma FrameWaiter(s: State, s': State, t: nat, pc: WaitPc)
    requires Frame(s, s') && WaiterOk(s, t, pc)
    ensures WaiterOk(s', t, pc)
  {
    match pc
    case RemoveTopCas(_, top, next) => FrameSkips(s, s', top, next);
    case RemoveCas(_, prev, cur, next) => FrameSkips(s, s', cur, next);
    case _ =>
  }

  /** In a frame, the waiters that did not move keep their part of the invariant. */
  lemma FrameWaiters(s: State, s': State, t: nat)
    requires Inv(s) && Frame(s, s') && |s'.waiters| == |s.waiters|
    requires forall j: nat :: j < |s.waiters| && j != t ==> s'.waiters[j] == s.waiters[j]
    requires t < |s.waiters| ==> WaiterOk(s', t, s'.waiters[t])
    ensures forall j: nat :: j < |s'.waiters| ==> WaiterOk(s', j, s'.waiters[j])
  {
    forall j: nat | j < |s'.waiters|
      ensures WaiterOk(s', j, s'.waiters[j])
    {
      if j != t {
        FrameWaiter(s, s', j, s.waiters[j]);
      }
    }
  }

  /** In a frame, the links that did not change keep their part of the invariant. */
  lemma FrameLinks(s: State, s': State)
    requires Inv(s) && Frame(s, s')
    ensures forall a: nat :: a < |s.nodes| && s'.nodes[a].next == s.nodes[a].next ==> LinkOk(s', a)
  {
    forall a: nat | a < |s.nodes| && s'.nodes[a].next == s.nodes[a].next
      ensures LinkOk(s', a)
    {
      assert LinkOk(s, a);
      FrameSkips(s, s', a, s.nodes[a].next);
    }
  }

  /** Wakers that did not move keep their part of the invariant. */
  lemma FrameWakers(s: State, s': State, u: nat)
    requires Inv(s) && Frame(s, s') && s.swapper <= s'.swapper && |s'.wakers| == |s.wakers|
    requires forall j: nat :: j < |s.wakers| && j != u ==> s'.wakers[j] == s.wakers[j]
    requires u < |s.wakers| ==> WakerOk(s', u, s'.wakers[u])
    requires s'.phase.Pending? ==> s.phase.Pending?
    ensures forall j: nat :: j < |s'.wakers| ==> WakerOk(s', j, s'.wakers[j])
  {
    forall j: nat | j < |s'.wakers|
      ensures WakerOk(s', j, s'.wakers[j])
    {
      assert WakerOk(s, j, s.wakers[j]);
    }
  }

  /** Live nodes whose waker did not move are still to be released. */
  lemma FrameWalks(s: State, s': State)
    requires Inv(s) && Frame(s, s') && s'.wakers == s.wakers && s'.swapper == s.swapper
    requires forall w: nat :: w < |s.nodes| && Live(s', w) ==> s'.nodes[w].sema >= s.nodes[w].sema
    requires forall w: nat :: |s.nodes| <= w < |s'.nodes| ==> s'.nodes[w].gen == |s'.swapper|
    ensures WalksOk(s')
  {
    forall w: nat | Live(s', w) && s'.nodes[w].gen < |s'.swapper| && s'.nodes[w].sema == 0
      ensures ToBeReleased(s', w)
    {
      assert ToBeReleased(s, w);
    }
  }

  // Steps of waiters

  /** A step of waiter t, or of nobody, that changes no link keeps the invariant. */
  lemma LocalKeepsInv(s: State, s': State, t: nat, pc: WaitPc)
    requires Inv(s) && Frame(s, s') && |s'.nodes| == |s.nodes|
    requires t < |s.waiters| && s'.waiters == s.waiters[t := pc] && WaiterOk(s, t, pc)
    requires s'.wakers == s.wakers && s'.phase == s.phase && s'.opener == s.opener
    requires s'.swapper == s.swapper && s'.top == s.top && s'.value == s.value
    requires forall a: nat :: a < |s.nodes| ==> s'.nodes[a].next == s.nodes[a].next
    requires forall w: nat :: Live(s', w) ==> s'.nodes[w].sema >= s.nodes[w].sema
    ensures Inv(s')
  {
    FrameWaiter(s, s', t, pc);
    FrameWaiters(s, s', t);
    FrameLinks(s, s');
    FrameWakers(s, s', |s.wakers|);
    FrameWalks(s, s');
  }

  /** A pc that parks on no new node makes live nodes disappear at most. */
  lemma LocalStepKeepsInv(s: State, t: nat, pc: WaitPc)
    requires Inv(s) && t < |s.waiters| && WaiterOk(s, t, pc)
    requires Parked(pc) ==> Parked(s.waiters[t]) && pc.node == s.waiters[t].node
    ensures Inv(At(s, t, pc))
  {
    LocalKeepsInv(s, At(s, t, pc), t, pc);
  }

  lemma EnterKeepsInv(s: State, t: nat, cancelled: bool)
    requires Inv(s) && t < |s.waiters|
    ensures Inv(At(s, t, EnterStep(s, t, cancelled)))
  {
    assert WaiterOk(s, t, s.waiters[t]);
    if s.waiters[t].Recheck? {
      assert LinkOk(s, s.waiters[t].node);
    }
    LocalStepKeepsInv(s, t, EnterStep(s, t, cancelled));
  }

  lemma RemoveReadKeepsInv(s: State, t: nat)
    requires Inv(s) && t < |s.waiters|
    ensures Inv(At(s, t, RemoveStep(s, t)))
  {
    var pc := s.waiters[t];
    assert WaiterOk(s, t, pc);
    if pc.RemoveTopNext? {
      assert LinkOk(s, pc.top);
    } else if pc.WalkNext? {
      assert LinkOk(s, pc.prev);
    } else if pc.WalkMatch? {
      assert LinkOk(s, pc.cur);
    }
    LocalStepKeepsInv(s, t, RemoveStep(s, t));
  }

  lemma PushKeepsInv(s: State, t: nat, context: Context)
    requires Inv(s) && t < |s.waiters| && s.waiters[t].PushCas? && s.top == s.waiters[t].seen
    ensures Inv(WaiterStep(s, t, context))
  {
    var s' := WaiterStep(s, t, context);
    var id := |s.nodes|;
    assert Frame(s, s');
    FrameWaiters(s, s', t);
    FrameLinks(s, s');
    FrameWakers(s, s', |s.wakers|);
    FrameWalks(s, s');
    assert LinkOk(s', id);
    assert LinksOk(s');
  }

  lemma RemoveTopKeepsInv(s: State, t: nat, context: Context)
    requires Inv(s) && t < |s.waiters| && s.waiters[t].RemoveTopCas? && s.top == Some(s.waiters[t].top)
    ensures Inv(WaiterStep(s, t, context))
  {
    var s' := WaiterStep(s, t, context);
    var pc := s.waiters[t];
    assert WaiterOk(s, t, pc);
    assert Frame(s, s');
    FrameWaiters(s, s', t);
    FrameLinks(s, s');
    FrameWakers(s, s', |s.wakers|);
    FrameWalks(s, s');
    forall w: nat | Live(s', w) && s'.nodes[w].gen == |s'.swapper|
      ensures s'.top.Some? && w <= s'.top.value
    {
      assert Live(s, w) && w != pc.top;
    }
  }

  /** Unlinking a dead node from behind prev, which may itself be off the list, skips no live node. */
  lemma RelinkKeepsInv(s: State, prev: nat, cur: nat, next: Option<nat>)
    requires Inv(s) && prev < |s.nodes| && s.nodes[prev].next == Some(cur)
    requires Older(s, next, cur) && NoSkip(s, cur, next) && !Live(s, cur)
    ensures Inv(SetNext(s, prev, next))
  {
    var s' := SetNext(s, prev, next);
    assert Frame(s, s');
    FrameWaiters(s, s', |s.waiters|);
    FrameLinks(s, s');
    FrameWakers(s, s', |s.wakers|);
    FrameWalks(s, s');
    assert LinkOk(s, prev);
    forall w: nat | w < prev && Live(s', w) && s'.nodes[w].gen == s'.nodes[prev].gen
      ensures next.Some? && w <= next.value
    {
      assert Live(s, w) && w != cur;
    }
    assert LinkOk(s', prev);
    assert LinksOk(s');
  }

  lemma RemoveMiddleKeepsInv(s: State, t: nat, context: Context)
    requires Inv(s) && t < |s.waiters| && s.waiters[t].RemoveCas?
    requires s.waiters[t].prev < |s.nodes| && s.nodes[s.waiters[t].prev].next == Some(s.waiters[t].cur)
    ensures Inv(WaiterStep(s, t, context))
  {
    var pc := s.waiters[t];
    assert WaiterOk(s, t, pc);
    var middle := At(s, t, StopAfter(pc.node));
    LocalStepKeepsInv(s, t, StopAfter(pc.node));
    assert NoSkip(middle, pc.cur, pc.next);
    RelinkKeepsInv(middle, pc.prev, pc.cur, pc.next);
  }

  /** Registering the cancellation callback, acquiring the semaphore, and cancelling the callback. */
  lemma SemaphoreStepKeepsInv(s: State, t: nat, context: Context)
    requires Inv(s) && t < |s.waiters|
    requires s.waiters[t].Register? || s.waiters[t].Blocked? || s.waiters[t].StopAfter?
    ensures Inv(WaiterStep(s, t, context))
  {
    var pc := s.waiters[t];
    assert WaiterOk(s, t, pc);
    var s' := WaiterStep(s, t, context);
    if pc.Register? {
      LocalKeepsInv(s, s', t, Blocked(pc.node));
    } else if pc.StopAfter? {
      LocalKeepsInv(s, s', t, LoadState);
    } else if s.nodes[pc.node].sema > 0 {
      LocalKeepsInv(s, s', t, RemoveLoadTop(pc.node));
    }
  }

  lemma WaiterKeepsInv(s: State, t: nat, context: Context)
    requires Inv(s) && t < |s.waiters|
    ensures Inv(WaiterStep(s, t, context))
  {
    var pc := s.waiters[t];
    assert WaiterOk(s, t, pc);
    match pc
    case PushCas(seen) =>
      if s.top == seen {
        PushKeepsInv(s, t, context);
      } else {
        LocalStepKeepsInv(s, t, LoadTop);
      }
    case RemoveTopCas(node, top, _) =>
      if s.top == Some(top) {
        RemoveTopKeepsInv(s, t, context);
      } else {
        LocalStepKeepsInv(s, t, RemoveLoadTop(node));
      }
    case RemoveCas(node, prev, cur, _) =>
      if prev < |s.nodes| && s.nodes[prev].next == Some(cur) {
        RemoveMiddleKeepsInv(s, t, context);
      } else {
        LocalStepKeepsInv(s, t, StopAfter(node));
      }
    case Register(_) => SemaphoreStepKeepsInv(s, t, context);
    case Blocked(_) => SemaphoreStepKeepsInv(s, t, context);
    case StopAfter(_) => SemaphoreStepKeepsInv(s, t, context);
    case RemoveLoadTop(_) => RemoveReadKeepsInv(s, t);
    case RemoveTopNext(_, _) => RemoveReadKeepsInv(s, t);
    case WalkNext(_, _) => RemoveReadKeepsInv(s, t);
    case WalkMatch(_, _, _) => RemoveReadKeepsInv(s, t);
    case _ => EnterKeepsInv(s, t, context.cancelled);
  }

  // Steps of wakers

  predicate Walking(pc: WakePc) {
    pc.Release? || pc.Advance?
  }

  /** A waker that is not walking moves on, to a counter where it does not walk either. */
  lemma QuietWakerKeepsInv(s: State, s': State, u: nat, pc: WakePc)
    requires Inv(s) && u < |s.wakers|
    requires s'.nodes == s.nodes && s'.waiters == s.waiters && s'.swapper == s.swapper && s'.top == s.top
    requires (s.value.Some? ==> s'.value.Some?)
    requires s'.wakers == s.wakers[u := pc] && WakerOk(s', u, pc)
    requires !Walking(s.wakers[u]) && !Walking(pc)
    requires PhaseOk(s') && (s'.phase.Pending? ==> s.phase.Pending?)
    ensures Inv(s')
  {
    assert Frame(s, s');
    FrameWaiters(s, s', |s.waiters|);
    FrameLinks(s, s');
    FrameWakers(s, s', u);
    forall w: nat | Live(s', w) && s'.nodes[w].gen < |s'.swapper| && s'.nodes[w].sema == 0
      ensures ToBeReleased(s', w)
    {
      assert Live(s, w) && ToBeReleased(s, w);
    }
  }

  /** The swap hands every live node that it takes to the swapping goroutine. */
  lemma SwapKeepsInv(s: State, u: nat)
    requires Inv(s) && u < |s.wakers| && s.wakers[u].SwapTop?
    ensures Inv(WakerStep(s, u))
  {
    var s' := WakerStep(s, u);
    assert WakerOk(s, u, s.wakers[u]);
    assert Frame(s, s');
    FrameWaiters(s, s', |s.waiters|);
    FrameLinks(s, s');
    FrameWakers(s, s', u);
    forall w: nat | Live(s', w) && s'.nodes[w].gen <= |s.swapper| && s'.nodes[w].sema == 0
      ensures ToBeReleased(s', w)
    {
      assert Live(s, w);
      if s.nodes[w].gen < |s.swapper| {
        assert ToBeReleased(s, w);
      }
    }
    forall w: nat | Live(s', w)
      ensures s'.nodes[w].gen <= |s.swapper|
    {
      assert LinkOk(s, w);
    }
  }

  lemma ReleaseKeepsInv(s: State, u: nat)
    requires Inv(s) && u < |s.wakers| && s.wakers[u].Release?
    ensures Inv(WakerStep(s, u))
  {
    var s' := WakerStep(s, u);
    assert WakerOk(s, u, s.wakers[u]);
    assert Frame(s, s');
    FrameWaiters(s, s', |s.waiters|);
    FrameLinks(s, s');
    FrameWakers(s, s', u);
    forall w: nat | Live(s', w) && s'.nodes[w].gen < |s'.swapper| && s'.nodes[w].sema == 0
      ensures ToBeReleased(s', w)
    {
      assert Live(s, w) && ToBeReleased(s, w);
    }
  }

  lemma AdvanceKeepsInv(s: State, u: nat)
    requires Inv(s) && u < |s.wakers| && s.wakers[u].Advance?
    ensures Inv(WakerStep(s, u))
  {
    var s' := WakerStep(s, u);
    var pc := s.wakers[u];
    assert WakerOk(s, u, pc);
    assert LinkOk(s, pc.cur);
    assert Frame(s, s');
    FrameWaiters(s, s', |s.waiters|);
    FrameLinks(s, s');
    FrameWakers(s, s', u);
    forall w: nat | Live(s', w) && s'.nodes[w].gen < |s'.swapper| && s'.nodes[w].sema == 0
      ensures ToBeReleased(s', w)
    {
      assert Live(s, w) && ToBeReleased(s, w);
    }
  }

  lemma WakerKeepsInv(s: State, u: nat)
    requires Inv(s) && u < |s.wakers|
    ensures Inv(WakerStep(s, u))
  {
    var pc := s.wakers[u];
    assert WakerOk(s, u, pc);
    if pc.SwapTop? {
      SwapKeepsInv(s, u);
    } else if pc.Release? {
      ReleaseKeepsInv(s, u);
    } else if pc.Advance? {
      AdvanceKeepsInv(s, u);
    } else {
      var s' := WakerStep(s, u);
      QuietWakerKeepsInv(s, s', u, s'.wakers[u]);
    }
  }

  lemma FireKeepsInv(s: State, node: nat)
    requires Inv(s) && node < |s.nodes| && s.nodes[node].callback.Armed?
    ensures Inv(Step(s, Fire(node)))
  {
    var s' := Step(s, Fire(node));
    assert Frame(s, s');
    FrameWaiters(s, s', |s.waiters|);
    FrameLinks(s, s');
    FrameWakers(s, s', |s.wakers|);
    FrameWalks(s, s');
  }

  lemma StepKeepsInv(s: State, a: Action)
    requires Inv(s)
    ensures Inv(Step(s, a))
  {
    match a
    case CallWait(t) =>
      if t < |s.waiters| && s.waiters[t].Away? {
        LocalStepKeepsInv(s, t, LoadState);
      }
    case Waiter(t, context) =>
      if t < |s.waiters| {
        WaiterKeepsInv(s, t, context);
      }
    case Fire(node) =>
      if node < |s.nodes| && s.nodes[node].callback.Armed? {
        FireKeepsInv(s, node);
      }
    case CallDeliver(u, value) =>
      if u < |s.wakers| && s.wakers[u].Resting? {
        QuietWakerKeepsInv(s, Step(s, a), u, StoreValue(value));
      }
    case CallClose(u) =>
      if u < |s.wakers| && s.wakers[u].Resting? {
        QuietWakerKeepsInv(s, Step(s, a), u, CloseLoad);
      }
    case Waker(u) =>
      if u < |s.wakers| {
        WakerKeepsInv(s, u);
      }
  }

  lemma {:induction false} RunKeepsInv(waiters: nat, wakers: nat, actions: seq<Action>)
    ensures Inv(Run(Init(waiters, wakers), actions))
  {
    if actions != [] {
      RunKeepsInv(waiters, wakers, actions[..|actions| - 1]);
      StepKeepsInv(Run(Init(waiters, wakers), actions[..|actions| - 1]), actions[|actions| - 1]);
    }
  }

  // Main results

  /** A walk that starts at `from` and follows next pointers comes to node w. */
  ghost predicate Reaches(s: State, from: Option<nat>, w: nat)
    decreases if from.Some? then from.value + 1 else 0
  {
    from.Some? && from.value < |s.nodes| &&
    (from.value == w ||
     var next := s.nodes[from.value].next;
     next.Some? && next.value < from.value && Reaches(s, next, w))
  }

  /** Links that skip no live node lead to every older live node of the generation. */
  lemma {:induction false} WalkFindsLive(s: State, a: nat, w: nat)
    requires Inv(s) && Live(s, w) && w <= a < |s.nodes| && s.nodes[a].gen == s.nodes[w].gen
    ensures Reaches(s, Some(a), w)
    decreases a
  {
    if w < a {
      assert LinkOk(s, a);
      WalkFindsLive(s, s.nodes[a].next.value, w);
    }
  }

  /** What is left of a waker's walk comes to node w. */
  ghost predicate WalkComesTo(s: State, u: nat, w: nat) {
    u < |s.wakers| &&
    var pc := s.wakers[u];
    || (pc.Release? && Reaches(s, Some(pc.cur), w))
    || (pc.Advance? && Reaches(s, s.NextOf(pc.cur), w))
  }

  /** The stack that some waker is about to swap out leads to node w. */
  ghost predicate SwapComesTo(s: State, u: nat, w: nat) {
    u < |s.wakers| && s.wakers[u].SwapTop? && Reaches(s, s.top, w)
  }

  /**
   No lost wakeup. In every interleaving, a waiter blocked on an empty semaphore although
   the slot is no longer pending still has its wakeup coming: its node is on the stack that
   a goroutine is about to swap out, or on the rest of the walk of one that has swapped.
   */
  lemma NoLostWakeup(waiters: nat, wakers: nat, actions: seq<Action>, t: nat)
    requires var s := Run(Init(waiters, wakers), actions);
             t < |s.waiters| && s.waiters[t].Blocked? && !s.phase.Pending?
    ensures var s := Run(Init(waiters, wakers), actions);
            var w := s.waiters[t].node;
            && s.OwnedBy(w, t)
            && (s.nodes[w].sema > 0 || exists u :: SwapComesTo(s, u, w) || WalkComesTo(s, u, w))
  {
    var s := Run(Init(waiters, wakers), actions);
    RunKeepsInv(waiters, wakers, actions);
    assert WaiterOk(s, t, s.waiters[t]);
    var w := s.waiters[t].node;
    if s.nodes[w].sema == 0 {
      assert Live(s, w);
      var u := WakerOf(s, w);
    }
  }

  lemma WakerOf(s: State, w: nat) returns (u: nat)
    requires Inv(s) && Live(s, w) && s.nodes[w].gen == 0 && s.nodes[w].sema == 0 && !s.phase.Pending?
    ensures SwapComesTo(s, u, w) || WalkComesTo(s, u, w)
  {
    if |s.swapper| == 0 {
      u := s.opener;
      WalkFindsLive(s, s.top.value, w);
    } else {
      u := s.swapper[0];
      assert ToBeReleased(s, w);
      var pc := s.wakers[u];
      assert WakerOk(s, u, pc);
      if pc.Release? {
        WalkFindsLive(s, pc.cur, w);
      } else {
        assert LinkOk(s, pc.cur);
        WalkFindsLive(s, s.nodes[pc.cur].next.value, w);
      }
    }
  }

  /** When no waker is under way and the slot is not pending, nobody is left asleep. */
  lemma QuiescentSlotWokeEveryone(waiters: nat, wakers: nat, actions: seq<Action>, t: nat)
    requires var s := Run(Init(waiters, wakers), actions);
             && t < |s.waiters| && s.waiters[t].Blocked? && !s.phase.Pending?
             && forall u :: 0 <= u < |s.wakers| ==> s.wakers[u].Resting?
    ensures var s := Run(Init(waiters, wakers), actions);
            s.OwnedBy(s.waiters[t].node, t) && s.nodes[s.waiters[t].node].sema > 0
  {
    NoLostWakeup(waiters, wakers, actions, t);
  }

  /** The state only moves pending to ready to closed, or pending to closed. */
  lemma {:induction false} PhaseOnlyAdvances(s: State, actions: seq<Action>)
    ensures Rank(s.phase) <= Rank(Run(s, actions).phase)
  {
    if actions != [] {
      PhaseOnlyAdvances(s, actions[..|actions| - 1]);
      PhaseStep(Run(s, actions[..|actions| - 1]), actions[|actions| - 1]);
    }
  }

  lemma PhaseStep(s: State, a: Action)
    ensures Rank(s.phase) <= Rank(Step(s, a).phase)
  {
  }

  /** A ready slot has a value, and no Wait ever reports a ready slot without one. */
  lemma ReadyHasValue(waiters: nat, wakers: nat, actions: seq<Action>)
    ensures var s := Run(Init(waiters, wakers), actions);
            && (s.phase.Ready? ==> s.value.Some?)
            && forall t :: 0 <= t < |s.waiters| ==> s.waiters[t] != Away(Some(ErrMissing))
  {
    RunKeepsInv(waiters, wakers, actions);
    var s := Run(Init(waiters, wakers), actions);
    assert forall t: nat :: t < |s.waiters| ==> WaiterOk(s, t, s.waiters[t]);
  }

  /** What a waiter returned, or is about to return, was true of the slot and of its context. */
  ghost predicate Justified(phase: Phase, pc: WaitPc, everCancelled: bool) {
    match pc
    case ReadReady => !phase.Pending?
    case ReadReadyAgain => !phase.Pending?
    case Away(Some(Value(_))) => !phase.Pending?
    case Away(Some(ErrClosed)) => phase.Closed?
    case Away(Some(ErrContext)) => everCancelled
    case _ => true
  }

  /** With this action the waiter finds its context cancelled. */
  ghost predicate FindsCancelled(s: State, a: Action, t: nat) {
    && t < |s.waiters| && s.waiters[t].CheckContext?
    && a.Waiter? && a.waiter == t && a.context.cancelled
  }

  ghost predicate FoundCancelled(s: State, actions: seq<Action>, t: nat) {
    exists k :: 0 <= k < |actions| && FindsCancelled(Run(s, actions[..k]), actions[k], t)
  }

  /** A phase that only advances keeps every outcome justified. */
  lemma JustifiedLater(p: Phase, q: Phase, pc: WaitPc, before: bool, after: bool)
    requires Justified(p, pc, before) && Rank(p) <= Rank(q) && (before ==> after)
    ensures Justified(q, pc, after)
  {
  }

  lemma JustifiedEntry(s: State, t: nat, cancelled: bool, before: bool)
    requires t < |s.waiters| && Justified(s.phase, s.waiters[t], before)
    ensures Justified(s.phase, EnterStep(s, t, cancelled), before || (s.waiters[t].CheckContext? && cancelled))
  {
  }

  lemma JustifiedStep(s: State, a: Action, t: nat, before: bool)
    requires t < |s.waiters| && Justified(s.phase, s.waiters[t], before)
    ensures |Step(s, a).waiters| == |s.waiters|
    ensures Justified(Step(s, a).phase, Step(s, a).waiters[t], before || FindsCancelled(s, a, t))
  {
    OthersKeepPc(s, a, t);
    PhaseStep(s, a);
    JustifiedLater(s.phase, Step(s, a).phase, s.waiters[t], before, before || FindsCancelled(s, a, t));
    if a.Waiter? && a.waiter == t {
      JustifiedEntry(s, t, a.context.cancelled, before);
    }
  }

  /**
   Wait returns a value only from a slot that was resolved, reports closed only if the slot
   is closed, and reports a context error only if that waiter found its context cancelled.
   */
  lemma {:induction false} OutcomesJustified(waiters: nat, wakers: nat, actions: seq<Action>, t: nat)
    requires t < waiters
    ensures var s := Run(Init(waiters, wakers), actions);
            && |s.waiters| == waiters
            && Justified(s.phase, s.waiters[t], FoundCancelled(Init(waiters, wakers), actions, t))
  {
    if actions != [] {
      var s, n := Init(waiters, wakers), |actions| - 1;
      OutcomesJustified(waiters, wakers, actions[..n], t);
      JustifiedStep(Run(s, actions[..n]), actions[n], t, FoundCancelled(s, actions[..n], t));
      FoundEarlier(s, actions, t);
      JustifiedLater(Run(s, actions).phase, Run(s, actions).phase, Run(s, actions).waiters[t],
                     FoundCancelled(s, actions[..n], t) || FindsCancelled(Run(s, actions[..n]), actions[n], t),
                     FoundCancelled(s, actions, t));
    }
  }

  lemma FoundEarlier(s: State, actions: seq<Action>, t: nat)
    requires actions != []
    ensures var n := |actions| - 1;
            FoundCancelled(s, actions[..n], t) || FindsCancelled(Run(s, actions[..n]), actions[n], t)
            ==> FoundCancelled(s, actions, t)
  {
    var n := |actions| - 1;
    if FoundCancelled(s, actions[..n], t) {
      var k :| 0 <= k < n && FindsCancelled(Run(s, actions[..n][..k]), actions[..n][k], t);
      assert actions[..n][..k] == actions[..k];
    }
  }

  /**
   Once the state CAS of some Deliver is done, in any run, no Wait that is called from then
   on ever parks, whatever else happens.
   */
  lemma DeliveredNeverBlocks(waiters: nat, wakers: nat, before: seq<Action>, u: nat,
                             between: seq<Action>, t: nat, after: seq<Action>)
    requires var s := Run(Init(waiters, wakers), before);
             u < |s.wakers| && s.wakers[u].DeliverCas?
    requires var s := Run(Step(Run(Init(waiters, wakers), before), Waker(u)), between);
             t < |s.waiters| && s.waiters[t].Away?
    ensures var s := Run(Run(Step(Run(Init(waiters, wakers), before), Waker(u)), between), after);
            t < |s.waiters| && (s.waiters[t].Away? || s.waiters[t].LoadState? || s.waiters[t].ReadReady?)
  {
    var s := Step(Run(Init(waiters, wakers), before), Waker(u));
    PhaseOnlyAdvances(s, between);
    ResolvedSlotNeverBlocks(Run(s, between), after, t);
  }

  /** A goroutine that calls Wait on a resolved slot never parks, whatever else happens. */
  lemma {:induction false} ResolvedSlotNeverBlocks(s: State, actions: seq<Action>, t: nat)
    requires !s.phase.Pending? && t < |s.waiters|
    requires s.waiters[t].Away? || s.waiters[t].LoadState? || s.waiters[t].ReadReady?
    ensures var s' := Run(s, actions);
            t < |s'.waiters| && (s'.waiters[t].Away? || s'.waiters[t].LoadState? || s'.waiters[t].ReadReady?)
  {
    if actions != [] {
      ResolvedSlotNeverBlocks(s, actions[..|actions| - 1], t);
      PhaseOnlyAdvances(s, actions[..|actions| - 1]);
      OthersKeepPc(Run(s, actions[..|actions| - 1]), actions[|actions| - 1], t);
    }
  }

  lemma OthersKeepPc(s: State, a: Action, t: nat)
    requires t < |s.waiters|
    ensures |Step(s, a).waiters| == |s.waiters|
    ensures !(a.CallWait? || a.Waiter?) || a.waiter != t ==> Step(s, a).waiters[t] == s.waiters[t]
  {
  }

  // Cancellation

  /** The node that a waiter works on is its own; one that it blocks on has its callback armed, or its release. */
  ghost predicate WatchOk(s: State, t: nat, pc: WaitPc) {
    match pc
    case Recheck(node) => s.OwnedBy(node, t) && s.nodes[node].callback.Unset?
    case Register(node) => s.OwnedBy(node, t) && s.nodes[node].callback.Unset?
    case Blocked(node) =>
      s.OwnedBy(node, t) && (s.nodes[node].callback.Unset? || s.nodes[node].callback.Armed? || s.nodes[node].sema > 0)
    case RemoveLoadTop(node) => s.OwnedBy(node, t)
    case RemoveTopNext(node, _) => s.OwnedBy(node, t)
    case RemoveTopCas(node, _, _) => s.OwnedBy(node, t)
    case WalkNext(node, _) => s.OwnedBy(node, t)
    case WalkMatch(node, _, _) => s.OwnedBy(node, t)
    case RemoveCas(node, _, _, _) => s.OwnedBy(node, t)
    case StopAfter(node) => s.OwnedBy(node, t)
    case _ => true
  }

  ghost predicate Watched(s: State) {
    forall t: nat :: t < |s.waiters| ==> WatchOk(s, t, s.waiters[t])
  }

  /** Nobody but its owner takes from a node or stops its callback. */
  lemma OthersKeepWatch(s: State, a: Action, t: nat, w: nat)
    requires Watched(s) && s.OwnedBy(w, t) && !(a.Waiter? && a.waiter == t)
    ensures var s' := Step(s, a);
            && s'.OwnedBy(w, t) && s'.nodes[w].sema >= s.nodes[w].sema
            && (s'.nodes[w].callback == s.nodes[w].callback
                || (s.nodes[w].callback.Armed? && s'.nodes[w].sema > 0))
  {
    if a.Waiter? && a.waiter < |s.waiters| {
      assert WatchOk(s, a.waiter, s.waiters[a.waiter]);
    }
  }

  lemma OwnerKeepsWatch(s: State, t: nat, context: Context)
    requires Watched(s) && t < |s.waiters|
    ensures WatchOk(WaiterStep(s, t, context), t, WaiterStep(s, t, context).waiters[t])
  {
    var pc := s.waiters[t];
    assert WatchOk(s, t, pc);
    match pc
    case PushCas(_) =>
    case Register(_) =>
    case Blocked(_) =>
    case _ =>
  }

  lemma StepKeepsWatch(s: State, a: Action, t: nat)
    requires Watched(s) && t < |s.waiters|
    ensures |Step(s, a).waiters| == |s.waiters| && WatchOk(Step(s, a), t, Step(s, a).waiters[t])
  {
    OthersKeepPc(s, a, t);
    var pc := s.waiters[t];
    assert WatchOk(s, t, pc);
    if a.Waiter? && a.waiter == t {
      OwnerKeepsWatch(s, t, a.context);
    } else if Working(pc) {
      OthersKeepWatch(s, a, t, pc.node);
    }
  }

  /** The waiter has a node of its own. */
  predicate Working(pc: WaitPc) {
    || Parked(pc) || pc.RemoveLoadTop? || pc.RemoveTopNext? || pc.RemoveTopCas?
    || pc.WalkNext? || pc.WalkMatch? || pc.RemoveCas? || pc.StopAfter?
  }

  lemma {:induction false} RunKeepsWatch(waiters: nat, wakers: nat, actions: seq<Action>)
    ensures Watched(Run(Init(waiters, wakers), actions))
  {
    if actions != [] {
      var s := Run(Init(waiters, wakers), actions[..|actions| - 1]);
      RunKeepsWatch(waiters, wakers, actions[..|actions| - 1]);
      var s' := Step(s, actions[|actions| - 1]);
      forall t: nat | t < |s'.waiters|
        ensures WatchOk(s', t, s'.waiters[t])
      {
        StepKeepsShape(s, actions[|actions| - 1]);
        StepKeepsWatch(s, actions[|actions| - 1], t);
      }
    }
  }

  lemma StepKeepsShape(s: State, a: Action)
    ensures |Step(s, a).waiters| == |s.waiters|
  {
  }

  /**
   No lost cancellation. In every interleaving a blocked waiter that registered a callback
   still has it armed, so that it will release the waiter when the context is cancelled, or
   has a release available.
   */
  lemma NoLostCancellation(waiters: nat, wakers: nat, actions: seq<Action>, t: nat)
    requires var s := Run(Init(waiters, wakers), actions);
             t < |s.waiters| && s.waiters[t].Blocked?
    ensures var s := Run(Init(waiters, wakers), actions);
            var w := s.waiters[t].node;
            s.OwnedBy(w, t) && (s.nodes[w].callback.Unset? || s.nodes[w].callback.Armed? || s.nodes[w].sema > 0)
  {
    RunKeepsWatch(waiters, wakers, actions);
  }
}
