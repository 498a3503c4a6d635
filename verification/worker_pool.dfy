/**
 Worker tokens and the worker count (lifecycle.go, metrics.go, the stack of
 intrusive_list.go), one transition per atomic operation, for any number of goroutines that
 start workers, scale the pool down or deactivate it.

 A stack node is private until the CAS that pushes it and its link never changes after,
 so nodes are numbered in push order.
 */
module WorkerPool {
  import opened Common
  import opened Repetition

  datatype Node = Node(next: Option<nat>)

  /** Program counter of a goroutine; `publish` tells scaleDownWorkers from deactivateWorkers. */
  datatype Pc =
    | Resting
    | IncLoad
    | IncCas(cur: int)
    | PushLoad
    | PushCas(seen: Option<nat>)
    | LoadCount
    | StoreActive(workers: int)
    | PopLoad(publish: bool)
    | PopNext(publish: bool, top: nat)
    | PopCas(publish: bool, top: nat, next: Option<nat>)
    | DecCount(publish: bool)

  datatype State = State(
    count: int,
    active: int,
    top: Option<nat>,
    nodes: seq<Node>,
    popped: seq<nat>,
    threads: seq<Pc>)

  datatype Action =
    | CallStart(thread: nat)
    | CallPop(thread: nat, publish: bool)
    | Thread(thread: nat)

  function At(s: State, i: nat, pc: Pc): State
    requires i < |s.threads|
  {
    s.(threads := s.threads[i := pc])
  }

  function ThreadStep(maxWorkers: int, s: State, i: nat): State
    requires i < |s.threads|
  {
    match s.threads[i]
    case Resting => s
    case IncLoad => At(s, i, if s.count >= maxWorkers then Resting else IncCas(s.count))
    case IncCas(cur) =>
      if s.count == cur then At(s, i, PushLoad).(count := cur + 1) else At(s, i, IncLoad)
    case PushLoad => At(s, i, PushCas(s.top))
    case PushCas(seen) =>
      if s.top == seen then
        At(s, i, LoadCount).(top := Some(|s.nodes|), nodes := s.nodes + [Node(seen)])
      else
        At(s, i, PushLoad)
    case LoadCount => At(s, i, StoreActive(s.count))
    case StoreActive(workers) => At(s, i, Resting).(active := Max(workers, 1))
    case PopLoad(publish) =>
      At(s, i, if s.top.None? then Resting else PopNext(publish, s.top.value))
    case PopNext(publish, top) =>
      At(s, i, PopCas(publish, top, if top < |s.nodes| then s.nodes[top].next else None))
    case PopCas(publish, top, next) =>
      if s.top == Some(top) then
        At(s, i, DecCount(publish)).(top := next, popped := s.popped + [top])
      else
        At(s, i, PopLoad(publish))
    case DecCount(publish) =>
      At(s, i, if publish then LoadCount else PopLoad(false)).(count := s.count - 1)
  }

  /** One atomic operation of one goroutine; an action that is not enabled changes nothing. */
  function Step(maxWorkers: int, s: State, a: Action): State {
    match a
    case CallStart(i) =>
      if i < |s.threads| && s.threads[i].Resting? then At(s, i, IncLoad) else s
    case CallPop(i, publish) =>
      if i < |s.threads| && s.threads[i].Resting? then At(s, i, PopLoad(publish)) else s
    case Thread(i) =>
      if i < |s.threads| then ThreadStep(maxWorkers, s, i) else s
  }

  function Run(maxWorkers: int, s: State, actions: seq<Action>): State {
    if actions == [] then s
    else Step(maxWorkers, Run(maxWorkers, s, actions[..|actions| - 1]), actions[|actions| - 1])
  }

  function Init(threads: nat): State {
    State(0, 0, None, [], [], seq(threads, _ => Resting))
  }

  // Invariant

  /** The nodes on the stack, top first. */
  function Chain(nodes: seq<Node>, top: Option<nat>): seq<nat>
    decreases if top.Some? then top.value + 1 else 0
  {
    if top.None? || top.value >= |nodes| then []
    else
      var next := nodes[top.value].next;
      [top.value] + if next.Some? && next.value >= top.value then [] else Chain(nodes, next)
  }

  /** Counted but not on the stack: a starter before its push, or a remover before its decrement. */
  function Owed(pc: Pc): nat {
    if pc.PushLoad? || pc.PushCas? || pc.DecCount? then 1 else 0
  }

  ghost predicate Linked(nodes: seq<Node>) {
    forall a :: 0 <= a < |nodes| && nodes[a].next.Some? ==> nodes[a].next.value < a
  }

  ghost predicate ThreadOk(maxWorkers: int, s: State, pc: Pc) {
    match pc
    case IncCas(cur) => cur < maxWorkers
    case StoreActive(workers) => 0 <= workers <= maxWorkers
    case PopNext(_, top) => top < |s.nodes|
    case PopCas(_, top, next) => top < |s.nodes| && next == s.nodes[top].next
    case _ => true
  }

  /** Every node ever pushed is on the stack or popped, and popped at most once. */
  ghost predicate StackOk(s: State) {
    && Linked(s.nodes)
    && (s.top.Some? ==> s.top.value < |s.nodes|)
    && (forall a :: 0 <= a < |s.nodes| ==> (a in Chain(s.nodes, s.top) <==> a !in s.popped))
    && (forall k :: 0 <= k < |s.popped| ==> s.popped[k] < |s.nodes|)
    && (forall j, k :: 0 <= j < k < |s.popped| ==> s.popped[j] != s.popped[k])
  }

  ghost predicate Inv(maxWorkers: int, s: State) {
    && StackOk(s)
    && s.count == |Chain(s.nodes, s.top)| + Sum(Owed, s.threads)
    && s.count <= maxWorkers
    && 0 <= s.active <= maxWorkers
    && (forall i :: 0 <= i < |s.threads| ==> ThreadOk(maxWorkers, s, s.threads[i]))
  }

  lemma {:induction false} ChainBelow(nodes: seq<Node>, top: Option<nat>)
    ensures forall a :: a in Chain(nodes, top) ==> top.Some? && a <= top.value && a < |nodes|
    decreases if top.Some? then top.value + 1 else 0
  {
    if top.Some? && top.value < |nodes| {
      var next := nodes[top.value].next;
      if next.None? || next.value < top.value {
        ChainBelow(nodes, next);
      }
    }
  }

  lemma {:induction false} ChainAppend(nodes: seq<Node>, x: Node, top: Option<nat>)
    requires Linked(nodes) && (top.Some? ==> top.value < |nodes|)
    ensures Chain(nodes + [x], top) == Chain(nodes, top)
    decreases if top.Some? then top.value + 1 else 0
  {
    if top.Some? {
      assert (nodes + [x])[top.value] == nodes[top.value];
      ChainAppend(nodes, x, nodes[top.value].next);
    }
  }

  /** A pushed node comes on top of the others, and has not been popped. */
  lemma PushKeepsStack(s: State, s': State)
    requires StackOk(s) && s'.top == Some(|s.nodes|) && s'.nodes == s.nodes + [Node(s.top)] && s'.popped == s.popped
    ensures StackOk(s') && Chain(s'.nodes, s'.top) == [|s.nodes|] + Chain(s.nodes, s.top)
  {
    var id, chain := |s.nodes|, Chain(s.nodes, s.top);
    ChainAppend(s.nodes, Node(s.top), s.top);
    ChainBelow(s.nodes, s.top);
    assert Chain(s'.nodes, s'.top) == [id] + chain;
    forall a | 0 <= a < |s'.nodes|
      ensures a in [id] + chain <==> a !in s.popped
    {
      assert a in [id] + chain <==> a == id || a in chain;
    }
  }

  lemma PushKeepsInv(maxWorkers: int, s: State, i: nat)
    requires Inv(maxWorkers, s) && i < |s.threads| && s.threads[i].PushCas? && s.top == s.threads[i].seen
    ensures Inv(maxWorkers, ThreadStep(maxWorkers, s, i))
  {
    var s' := ThreadStep(maxWorkers, s, i);
    SumUpdate(Owed, s.threads, i, LoadCount);
    PushKeepsStack(s, s');
    forall j | 0 <= j < |s'.threads|
      ensures ThreadOk(maxWorkers, s', s'.threads[j])
    {
      assert ThreadOk(maxWorkers, s, s.threads[j]);
    }
  }

  lemma PopKeepsInv(maxWorkers: int, s: State, i: nat)
    requires Inv(maxWorkers, s) && i < |s.threads| && s.threads[i].PopCas? && s.top == Some(s.threads[i].top)
    ensures Inv(maxWorkers, ThreadStep(maxWorkers, s, i))
  {
    var s' := ThreadStep(maxWorkers, s, i);
    var pc := s.threads[i];
    assert ThreadOk(maxWorkers, s, pc);
    SumUpdate(Owed, s.threads, i, DecCount(pc.publish));
    ChainBelow(s.nodes, pc.next);
    var rest := Chain(s.nodes, pc.next);
    assert Chain(s.nodes, s.top) == [pc.top] + rest && pc.top !in rest;
    assert StackOk(s') by {
      assert pc.top in Chain(s.nodes, s.top);
      forall a | 0 <= a < |s.nodes|
        ensures a in rest <==> a !in s.popped + [pc.top]
      {
        assert a in [pc.top] + rest <==> a == pc.top || a in rest;
      }
    }
    forall j | 0 <= j < |s'.threads|
      ensures ThreadOk(maxWorkers, s', s'.threads[j])
    {
      assert ThreadOk(maxWorkers, s, s.threads[j]);
    }
  }

  /** A step that leaves the stack alone. */
  lemma CountKeepsInv(maxWorkers: int, s: State, s': State, i: nat, pc: Pc)
    requires Inv(maxWorkers, s) && i < |s.threads| && s'.threads == s.threads[i := pc]
    requires s'.nodes == s.nodes && s'.top == s.top && s'.popped == s.popped
    requires ThreadOk(maxWorkers, s, pc)
    requires s'.count - Owed(pc) == s.count - Owed(s.threads[i])
    requires s'.count <= maxWorkers && 0 <= s'.active <= maxWorkers
    ensures Inv(maxWorkers, s')
  {
    SumUpdate(Owed, s.threads, i, pc);
    forall j | 0 <= j < |s'.threads|
      ensures ThreadOk(maxWorkers, s', s'.threads[j])
    {
      assert ThreadOk(maxWorkers, s, s.threads[j]);
    }
  }

  lemma StepKeepsInv(maxWorkers: int, s: State, a: Action)
    requires maxWorkers >= 1 && Inv(maxWorkers, s)
    ensures Inv(maxWorkers, Step(maxWorkers, s, a))
  {
    var s' := Step(maxWorkers, s, a);
    var i := a.thread;
    if i < |s.threads| {
      var pc := s.threads[i];
      assert ThreadOk(maxWorkers, s, pc);
      if a.Thread? && pc.PushCas? && s.top == pc.seen {
        PushKeepsInv(maxWorkers, s, i);
      } else if a.Thread? && pc.PopCas? && s.top == Some(pc.top) {
        PopKeepsInv(maxWorkers, s, i);
      } else {
        assert s'.threads == s.threads[i := s'.threads[i]];
        CountKeepsInv(maxWorkers, s, s', i, s'.threads[i]);
      }
    }
  }

  lemma {:induction false} RunKeepsInv(maxWorkers: int, threads: nat, actions: seq<Action>)
    requires maxWorkers >= 1
    ensures Inv(maxWorkers, Run(maxWorkers, Init(threads), actions))
  {
    if actions == [] {
      SumZero(Owed, Init(threads).threads);
    } else {
      RunKeepsInv(maxWorkers, threads, actions[..|actions| - 1]);
      StepKeepsInv(maxWorkers, Run(maxWorkers, Init(threads), actions[..|actions| - 1]), actions[|actions| - 1]);
    }
  }

  // Main results

  /**
   Conservation of workers. In every interleaving the worker count is the number of tokens
   on the stack, plus starters between their increment and their push, plus removers
   between their pop and their decrement, and it stays between zero and the maximum.
   */
  lemma CountConserved(maxWorkers: int, threads: nat, actions: seq<Action>)
    requires maxWorkers >= 1
    ensures var s := Run(maxWorkers, Init(threads), actions);
            && s.count == |Chain(s.nodes, s.top)| + Sum(Owed, s.threads)
            && 0 <= s.count <= maxWorkers
  {
    RunKeepsInv(maxWorkers, threads, actions);
  }

  /** No token is popped twice, and a token that was pushed and not popped is on the stack. */
  lemma TokensPoppedOnce(maxWorkers: int, threads: nat, actions: seq<Action>)
    requires maxWorkers >= 1
    ensures var s := Run(maxWorkers, Init(threads), actions);
            && (forall j, k :: 0 <= j < k < |s.popped| ==> s.popped[j] != s.popped[k])
            && (forall a :: 0 <= a < |s.nodes| ==> (a in Chain(s.nodes, s.top) <==> a !in s.popped))
  {
    RunKeepsInv(maxWorkers, threads, actions);
  }

  /**
   The number of workers that jobs are spread over, which is the published count or one,
   always names between one and the maximum, and so does every value yet to be published.
   */
  lemma EffectiveWorkersInRange(maxWorkers: int, threads: nat, actions: seq<Action>)
    requires maxWorkers >= 1
    ensures var s := Run(maxWorkers, Init(threads), actions);
            && 1 <= Max(s.active, 1) <= maxWorkers
            && forall i :: 0 <= i < |s.threads| && s.threads[i].StoreActive? ==>
                 0 <= s.threads[i].workers <= maxWorkers
  {
    RunKeepsInv(maxWorkers, threads, actions);
    var s := Run(maxWorkers, Init(threads), actions);
    assert forall i :: 0 <= i < |s.threads| ==> ThreadOk(maxWorkers, s, s.threads[i]);
  }

  // The published count

  /** The worker counts that a run went through. */
  ghost function Counts(maxWorkers: int, s: State, actions: seq<Action>): set<int> {
    if actions == [] then {}
    else
      var before := actions[..|actions| - 1];
      Counts(maxWorkers, s, before) + {Run(maxWorkers, s, before).count}
  }

  /** Every count that is published, or about to be, is one of these. */
  ghost predicate Published(s: State, counts: set<int>) {
    && (s.active == 0 || exists count :: count in counts && s.active == Max(count, 1))
    && (forall i :: 0 <= i < |s.threads| && s.threads[i].StoreActive? ==> s.threads[i].workers in counts)
  }

  lemma StepPublishes(maxWorkers: int, s: State, a: Action, counts: set<int>)
    requires Published(s, counts)
    ensures Published(Step(maxWorkers, s, a), counts + {s.count})
  {
    var s' := Step(maxWorkers, s, a);
    if s'.active == s.active {
      if s.active != 0 {
        var count :| count in counts && s.active == Max(count, 1);
        assert count in counts + {s.count};
      }
    } else {
      assert s.threads[a.thread].workers in counts + {s.count};
    }
  }

  lemma {:induction false} RunPublishes(maxWorkers: int, threads: nat, actions: seq<Action>)
    ensures Published(Run(maxWorkers, Init(threads), actions), Counts(maxWorkers, Init(threads), actions))
  {
    if actions != [] {
      var before := actions[..|actions| - 1];
      RunPublishes(maxWorkers, threads, before);
      StepPublishes(maxWorkers, Run(maxWorkers, Init(threads), before), actions[|actions| - 1],
                    Counts(maxWorkers, Init(threads), before));
    }
  }

  /** In every interleaving the published count is one that the pool did have, or one in place of a smaller one. */
  lemma PublishesRealCounts(maxWorkers: int, threads: nat, actions: seq<Action>)
    requires Run(maxWorkers, Init(threads), actions).active != 0
    ensures exists count :: count in Counts(maxWorkers, Init(threads), actions)
                            && Run(maxWorkers, Init(threads), actions).active == Max(count, 1)
  {
    RunPublishes(maxWorkers, threads, actions);
  }

  // Calls on their own

  /** One goroutine takes n steps while all others stand still. */
  function Alone(maxWorkers: int, s: State, a: Action, n: nat): State {
    Iterate(By(maxWorkers, a), s, n)
  }

  function By(maxWorkers: int, a: Action): State -> State {
    (s: State) => Step(maxWorkers, s, a)
  }

  lemma ThreeSteps(maxWorkers: int, s: State, a: Action, s1: State, s2: State, s3: State)
    requires Step(maxWorkers, s, a) == s1 && Step(maxWorkers, s1, a) == s2 && Step(maxWorkers, s2, a) == s3
    ensures Alone(maxWorkers, s, a, 1) == s1 && Alone(maxWorkers, s, a, 2) == s2 && Alone(maxWorkers, s, a, 3) == s3
  {
    IterateFour(By(maxWorkers, a), s, s1, s2, s3, Step(maxWorkers, s3, a));
  }

  lemma AloneTwice(maxWorkers: int, s: State, a: Action, m: nat, n: nat, total: nat)
    requires total == m + n
    ensures Alone(maxWorkers, s, a, total) == Alone(maxWorkers, Alone(maxWorkers, s, a, m), a, n)
  {
    IterateSum(By(maxWorkers, a), s, m, n);
  }

  /** Starting a worker below the maximum counts it, puts its token on top and publishes the new count. */
  lemma StartAlone(maxWorkers: int, s: State, i: nat)
    requires i < |s.threads| && s.threads[i].Resting? && s.count < maxWorkers
    ensures Alone(maxWorkers, Step(maxWorkers, s, CallStart(i)), Thread(i), 6) ==
            s.(count := s.count + 1, active := Max(s.count + 1, 1),
               top := Some(|s.nodes|), nodes := s.nodes + [Node(s.top)])
  {
    var a, s0 := Thread(i), At(s, i, IncLoad);
    var counted := s.(count := s.count + 1);
    var pushed := counted.(top := Some(|s.nodes|), nodes := s.nodes + [Node(s.top)]);
    ThreeSteps(maxWorkers, s0, a, At(s, i, IncCas(s.count)), At(counted, i, PushLoad), At(counted, i, PushCas(s.top)));
    var s5 := At(pushed, i, StoreActive(s.count + 1));
    ThreeSteps(maxWorkers, At(counted, i, PushCas(s.top)), a, At(pushed, i, LoadCount), s5, Step(maxWorkers, s5, a));
    AloneTwice(maxWorkers, s0, a, 3, 3, 6);
  }

  /** At the maximum nothing is started. */
  lemma StartRefused(maxWorkers: int, s: State, i: nat)
    requires i < |s.threads| && s.threads[i].Resting? && s.count >= maxWorkers
    ensures Step(maxWorkers, Step(maxWorkers, s, CallStart(i)), Thread(i)) == s
  {
    assert Step(maxWorkers, s, CallStart(i)) == At(s, i, IncLoad);
  }

  /** Scaling down by one takes the top token, counts it off and publishes what is left. */
  lemma StopAlone(maxWorkers: int, s: State, i: nat)
    requires i < |s.threads| && s.threads[i].Resting? && s.top.Some? && s.top.value < |s.nodes|
    ensures Alone(maxWorkers, Step(maxWorkers, s, CallPop(i, true)), Thread(i), 6) ==
            s.(count := s.count - 1, active := Max(s.count - 1, 1),
               top := s.nodes[s.top.value].next, popped := s.popped + [s.top.value])
  {
    var a, s0, top := Thread(i), At(s, i, PopLoad(true)), s.top.value;
    var next := s.nodes[top].next;
    var popped := s.(top := next, popped := s.popped + [top]);
    ThreeSteps(maxWorkers, s0, a, At(s, i, PopNext(true, top)), At(s, i, PopCas(true, top, next)),
               At(popped, i, DecCount(true)));
    var left := popped.(count := s.count - 1);
    var s5 := At(left, i, StoreActive(s.count - 1));
    ThreeSteps(maxWorkers, At(popped, i, DecCount(true)), a, At(left, i, LoadCount), s5, Step(maxWorkers, s5, a));
    AloneTwice(maxWorkers, s0, a, 3, 3, 6);
  }

  /** Without a token nothing is stopped. */
  lemma StopRefused(maxWorkers: int, s: State, i: nat, publish: bool)
    requires i < |s.threads| && s.threads[i].Resting? && s.top.None?
    ensures Step(maxWorkers, Step(maxWorkers, s, CallPop(i, publish)), Thread(i)) == s
  {
    assert Step(maxWorkers, s, CallPop(i, publish)) == At(s, i, PopLoad(publish));
  }

  /** Deactivation goes on to the next token without publishing. */
  lemma DeactivateAlone(maxWorkers: int, s: State, i: nat)
    requires i < |s.threads| && s.threads[i] == PopLoad(false) && s.top.Some? && s.top.value < |s.nodes|
    ensures Alone(maxWorkers, s, Thread(i), 4) ==
            s.(count := s.count - 1, top := s.nodes[s.top.value].next, popped := s.popped + [s.top.value])
  {
    var a, top := Thread(i), s.top.value;
    var next := s.nodes[top].next;
    var popped := s.(top := next, popped := s.popped + [top]);
    var s3 := At(popped, i, DecCount(false));
    ThreeSteps(maxWorkers, s, a, At(s, i, PopNext(false, top)), At(s, i, PopCas(false, top, next)), s3);
    var s4 := Step(maxWorkers, s3, a);
    ThreeSteps(maxWorkers, s3, a, s4, Step(maxWorkers, s4, a), Step(maxWorkers, Step(maxWorkers, s4, a), a));
    AloneTwice(maxWorkers, s, a, 3, 1, 4);
  }
}
