/**
 The wait group (waitgroup.go), one transition per atomic operation: one waiter, as its one
 release per zero crossing demands, any number of goroutines that add any amounts, and any
 reuse, with semaphore counts left over from earlier rounds.
 */
module WaitGroup {
  /** Program counter of the waiter; `observed` is the count that ended its last Wait. */
  datatype WaitPc = Away(observed: int) | LoadCount | Acquire

  datatype AddPc = Resting | AddDelta(delta: int) | Release

  datatype State = State(count: int, sema: nat, waiter: WaitPc, adders: seq<AddPc>)

  datatype Action =
    | CallWait
    | Waiter
    | CallAdd(adder: nat, delta: int)
    | Adder(adder: nat)

  function WaiterStep(s: State): State {
    match s.waiter
    case Away(_) => s
    case LoadCount => s.(waiter := if s.count > 0 then Acquire else Away(s.count))
    case Acquire => if s.sema > 0 then s.(sema := s.sema - 1, waiter := LoadCount) else s
  }

  function AdderStep(s: State, i: nat): State
    requires i < |s.adders|
  {
    match s.adders[i]
    case Resting => s
    case AddDelta(delta) =>
      s.(count := s.count + delta, adders := s.adders[i := if s.count + delta == 0 then Release else Resting])
    case Release => s.(sema := s.sema + 1, adders := s.adders[i := Resting])
  }

  /** One atomic operation of one goroutine; an action that is not enabled changes nothing. */
  function Step(s: State, a: Action): State {
    match a
    case CallWait => if s.waiter.Away? then s.(waiter := LoadCount) else s
    case Waiter => WaiterStep(s)
    case CallAdd(i, delta) =>
      if i < |s.adders| && s.adders[i].Resting? then s.(adders := s.adders[i := AddDelta(delta)]) else s
    case Adder(i) => if i < |s.adders| then AdderStep(s, i) else s
  }

  function Run(s: State, actions: seq<Action>): State {
    if actions == [] then s
    else Step(Run(s, actions[..|actions| - 1]), actions[|actions| - 1])
  }

  function Init(adders: nat): State {
    State(0, 0, Away(0), seq(adders, _ => Resting))
  }

  ghost predicate ReleaseComing(s: State) {
    s.sema > 0 || exists i :: 0 <= i < |s.adders| && s.adders[i].Release?
  }

  /** The waiter would sleep on although the count is not positive. */
  ghost predicate Stranded(s: State) {
    s.waiter.Acquire? && s.count <= 0 && !ReleaseComing(s)
  }

  ghost predicate Inv(s: State) {
    && (s.waiter.Away? ==> s.waiter.observed <= 0)
    && (Stranded(s) ==> s.count < 0)
  }

  lemma StepKeepsInv(s: State, a: Action)
    requires Inv(s)
    ensures Inv(Step(s, a))
  {
    var s' := Step(s, a);
    if s'.waiter.Acquire? && s'.count == 0 {
      if a.Adder? && a.adder < |s.adders| && s.adders[a.adder].AddDelta? {
        assert s'.adders[a.adder].Release?;
      } else if s.sema == 0 {
        var i :| 0 <= i < |s.adders| && s.adders[i].Release?;
        assert s'.sema > 0 || s'.adders[i].Release?;
      }
    }
  }

  lemma {:induction false} RunKeepsInv(adders: nat, actions: seq<Action>)
    ensures Inv(Run(Init(adders), actions))
  {
    if actions != [] {
      RunKeepsInv(adders, actions[..|actions| - 1]);
      StepKeepsInv(Run(Init(adders), actions[..|actions| - 1]), actions[|actions| - 1]);
    }
  }

  // Main results

  /**
   Wait returns only after it observed a count that is not positive, and a waiter that
   blocks while the count is zero always has a release available or in flight, whatever
   counts earlier rounds left in the semaphore.
   */
  lemma NoLostWakeupAtZero(adders: nat, actions: seq<Action>)
    ensures var s := Run(Init(adders), actions);
            && (s.waiter.Away? ==> s.waiter.observed <= 0)
            && (s.waiter.Acquire? && s.count == 0 ==> ReleaseComing(s))
  {
    RunKeepsInv(adders, actions);
  }

  /** An addition strands the waiter exactly if it overshoots zero while the waiter blocks and no release is coming. */
  lemma StrandsIffOvershoots(adders: nat, actions: seq<Action>, i: nat)
    requires var s := Run(Init(adders), actions);
             i < |s.adders| && s.adders[i].AddDelta?
    ensures var s := Run(Init(adders), actions);
            Stranded(Step(s, Adder(i))) <==>
              s.waiter.Acquire? && s.count + s.adders[i].delta < 0 && !ReleaseComing(s)
  {
    RunKeepsInv(adders, actions);
    var s := Run(Init(adders), actions);
    var s' := Step(s, Adder(i));
    StepKeepsInv(s, Adder(i));
    if ReleaseComing(s) && s.sema == 0 {
      var j :| 0 <= j < |s.adders| && s.adders[j].Release?;
      assert s'.adders[j].Release?;
    }
  }

  /** No addition of the run takes the count below zero. */
  ghost predicate Guarded(s: State, actions: seq<Action>) {
    forall k :: 0 <= k < |actions| ==> GuardedStep(Run(s, actions[..k]), actions[k])
  }

  ghost predicate GuardedStep(s: State, a: Action) {
    a.Adder? && a.adder < |s.adders| && s.adders[a.adder].AddDelta? ==> s.adders[a.adder].delta >= -s.count
  }

  /** Callers that never add less than minus the count never strand the waiter. */
  lemma GuardedNeverStrands(adders: nat, actions: seq<Action>)
    requires Guarded(Init(adders), actions)
    ensures Run(Init(adders), actions).count >= 0 && !Stranded(Run(Init(adders), actions))
  {
    RunKeepsInv(adders, actions);
    GuardedCount(Init(adders), actions);
  }

  lemma GuardedPrefix(s: State, actions: seq<Action>, n: nat)
    requires Guarded(s, actions) && n <= |actions|
    ensures Guarded(s, actions[..n])
  {
    forall k | 0 <= k < n
      ensures GuardedStep(Run(s, actions[..n][..k]), actions[..n][k])
    {
      assert actions[..n][..k] == actions[..k];
      assert GuardedStep(Run(s, actions[..k]), actions[k]);
    }
  }

  lemma {:induction false} GuardedCount(s: State, actions: seq<Action>)
    requires s.count >= 0 && Guarded(s, actions)
    ensures Run(s, actions).count >= 0
  {
    if actions != [] {
      var n := |actions| - 1;
      assert GuardedStep(Run(s, actions[..n]), actions[n]);
      GuardedPrefix(s, actions, n);
      GuardedCount(s, actions[..n]);
    }
  }

  /** In some run, adding delta when the count is n strands a waiter that was not stranded before. */
  ghost predicate CanStrand(n: int, delta: int) {
    exists adders: nat, actions: seq<Action>, i: nat :: Strands(adders, actions, i, n, delta)
  }

  ghost predicate Strands(adders: nat, actions: seq<Action>, i: nat, n: int, delta: int) {
    var s := Run(Init(adders), actions);
    && i < |s.adders| && s.adders[i] == AddDelta(delta) && s.count == n
    && !Stranded(s) && Stranded(Step(s, Adder(i)))
  }

  /** The guard is exact: an addition can strand the waiter exactly if it takes a positive count below zero. */
  lemma CanStrandIff(n: int, delta: int)
    ensures CanStrand(n, delta) <==> n >= 1 && n + delta < 0
  {
    if CanStrand(n, delta) {
      var adders: nat, actions: seq<Action>, i: nat :| Strands(adders, actions, i, n, delta);
      StrandsIffOvershoots(adders, actions, i);
    }
    if n >= 1 && n + delta < 0 {
      var actions := OvershootStrands(n, delta);
      assert Strands(1, actions, 0, n, delta);
    }
  }

  /** One goroutine adds n, the waiter blocks, and the goroutine adds less than minus n. */
  lemma OvershootStrands(n: int, delta: int) returns (actions: seq<Action>)
    requires n >= 1 && n + delta < 0
    ensures Strands(1, actions, 0, n, delta)
  {
    var s := Init(1);
    actions := Extend(s, [], CallAdd(0, n));
    actions := Extend(s, actions, Adder(0));
    actions := Extend(s, actions, CallWait);
    actions := Extend(s, actions, Waiter);
    assert Run(s, actions) == State(n, 0, Acquire, [Resting]);
    actions := Extend(s, actions, CallAdd(0, delta));
    assert Run(s, actions) == State(n, 0, Acquire, [AddDelta(delta)]);
    assert Step(Run(s, actions), Adder(0)) == State(n + delta, 0, Acquire, [Resting]);
  }

  lemma Extend(s: State, actions: seq<Action>, a: Action) returns (longer: seq<Action>)
    ensures longer == actions + [a] && Run(s, longer) == Step(Run(s, actions), a)
  {
    longer := actions + [a];
    assert longer[..|longer| - 1] == actions;
  }

  // Calls

  /** Wait returns only with a count that is not positive, and it returns the count that it saw. */
  lemma WaitReturns(s: State, a: Action)
    requires !s.waiter.Away? && Step(s, a).waiter.Away?
    ensures s.count <= 0 && Step(s, a).waiter == Away(s.count)
  {
  }

  /** On a count that is not positive Wait returns at once; otherwise it blocks until it is released. */
  lemma WaitAlone(s: State)
    requires s.waiter.Away?
    ensures Step(Step(s, CallWait), Waiter) == s.(waiter := if s.count > 0 then Acquire else Away(s.count))
  {
  }

  /** A released waiter looks again, and returns if the count is not positive. */
  lemma ReleasedLooksAgain(s: State)
    requires s.waiter.Acquire? && s.sema > 0
    ensures Step(Step(s, Waiter), Waiter) ==
            s.(sema := s.sema - 1, waiter := if s.count > 0 then Acquire else Away(s.count))
  {
  }

  /** This action starts an Add. */
  predicate Calls(s: State, a: Action) {
    a.CallAdd? && a.adder < |s.adders| && s.adders[a.adder].Resting?
  }

  /** The argument of the latest Add by goroutine i. */
  function LatestAdd(s: State, actions: seq<Action>, i: nat): int {
    if actions == [] then 0
    else
      var before, a := actions[..|actions| - 1], actions[|actions| - 1];
      if Calls(Run(s, before), a) && a.adder == i then a.delta else LatestAdd(s, before, i)
  }

  /** With this action an Add takes effect. */
  predicate Adds(s: State, a: Action) {
    a.Adder? && a.adder < |s.adders| && s.adders[a.adder].AddDelta?
  }

  /** The arguments of every Add that took effect, together. */
  function Total(s: State, actions: seq<Action>): int {
    if actions == [] then 0
    else
      var before, a := actions[..|actions| - 1], actions[|actions| - 1];
      Total(s, before) + if Adds(Run(s, before), a) then LatestAdd(s, before, a.adder) else 0
  }

  lemma StepCarries(s: State, a: Action, i: nat)
    requires i < |s.adders|
    ensures var s' := Step(s, a);
            && |s'.adders| == |s.adders|
            && (Calls(s, a) && a.adder == i ==> s'.adders[i] == AddDelta(a.delta))
            && (!(Calls(s, a) && a.adder == i) && s'.adders[i].AddDelta? ==> s'.adders[i] == s.adders[i])
            && s'.count == s.count + if Adds(s, a) then s.adders[a.adder].delta else 0
  {
  }

  lemma {:induction false} RunCarries(adders: nat, actions: seq<Action>, i: nat)
    requires i < adders
    ensures var s := Run(Init(adders), actions);
            |s.adders| == adders && (s.adders[i].AddDelta? ==> s.adders[i].delta == LatestAdd(Init(adders), actions, i))
  {
    if actions != [] {
      var before := actions[..|actions| - 1];
      RunCarries(adders, before, i);
      StepCarries(Run(Init(adders), before), actions[|actions| - 1], i);
    }
  }

  lemma StepAdds(s: State, a: Action)
    ensures |Step(s, a).adders| == |s.adders|
    ensures Step(s, a).count == s.count + if Adds(s, a) then s.adders[a.adder].delta else 0
  {
  }

  /** In every interleaving the count is the sum of the arguments of every Add that took effect. */
  lemma {:induction false} CountIsTotal(adders: nat, actions: seq<Action>)
    ensures var s := Run(Init(adders), actions);
            |s.adders| == adders && s.count == Total(Init(adders), actions)
  {
    if actions != [] {
      var before, a := actions[..|actions| - 1], actions[|actions| - 1];
      CountIsTotal(adders, before);
      StepAdds(Run(Init(adders), before), a);
      if Adds(Run(Init(adders), before), a) {
        RunCarries(adders, before, a.adder);
      }
    }
  }

  /** An Add that hits zero releases once, and any other does not release. */
  lemma AddAlone(s: State, i: nat, delta: int)
    requires i < |s.adders| && s.adders[i].Resting?
    ensures s.count + delta != 0 ==> Step(Step(s, CallAdd(i, delta)), Adder(i)) == s.(count := s.count + delta)
    ensures s.count + delta == 0 ==>
              Step(Step(Step(s, CallAdd(i, delta)), Adder(i)), Adder(i)) == s.(count := 0, sema := s.sema + 1)
  {
    var s1 := Step(s, CallAdd(i, delta));
    assert s1 == s.(adders := s.adders[i := AddDelta(delta)]);
    var s2 := Step(s1, Adder(i));
    assert s2.adders == s.adders[i := if s.count + delta == 0 then Release else Resting];
  }
}
