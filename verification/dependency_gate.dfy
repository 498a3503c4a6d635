/**
 The gate in front of a job with dependencies (dependency.go), one transition per atomic
 operation: one goroutine per dependency, which retries, records the first error and signs
 off, and the resolver, which joins them and then enqueues the job or fails it.

 What a dependency yields on one attempt is an input.
 */
module DependencyGate {
  import opened Common

  /** What one attempt to await a dependency yields. */
  datatype Yield = Good | NilResult | ErrorResult | AwaitFailed(contextDone: bool)

  /** Program counter of one dependency's goroutine; `ok` is what waitOneDependency returned. */
  datatype DepPc =
    | Attempt(attempt: nat)
    | LoadFirst
    | CasFirst
    | SignOff(ok: bool)
    | Release(ok: bool)
    | Ended(ok: bool)

  datatype Failure = Dependency(index: nat) | ContextDone

  /** Program counter of resolveDependentJob. */
  datatype MainPc =
    | LoadCount
    | Acquire
    | LoadError
    | CheckContext
    | Enqueued
    | Failed(failure: Failure)

  datatype State = State(count: int, sema: nat, firstErr: Option<nat>, main: MainPc, deps: seq<DepPc>)

  datatype Action =
    | Dep(index: nat, yielded: Yield)
    | Resolver(contextDone: bool)

  function At(s: State, i: nat, pc: DepPc): State
    requires i < |s.deps|
  {
    s.(deps := s.deps[i := pc])
  }

  function DepStep(maxAttempts: int, s: State, i: nat, yielded: Yield): State
    requires i < |s.deps|
  {
    match s.deps[i]
    case Attempt(attempt) =>
      At(s, i, AfterAttempt(maxAttempts, attempt, yielded))
    case LoadFirst =>
      At(s, i, if s.firstErr.Some? then SignOff(false) else CasFirst)
    case CasFirst =>
      if s.firstErr.None? then At(s, i, SignOff(false)).(firstErr := Some(i)) else At(s, i, LoadFirst)
    case SignOff(ok) =>
      At(s, i, if s.count - 1 == 0 then Release(ok) else Ended(ok)).(count := s.count - 1)
    case Release(ok) => At(s, i, Ended(ok)).(sema := s.sema + 1)
    case Ended(_) => s
  }

  /** One round of waitOneDependency; running out of attempts is an error. */
  function AfterAttempt(maxAttempts: int, attempt: nat, yielded: Yield): DepPc {
    if attempt >= maxAttempts then LoadFirst else
    match yielded
    case Good => SignOff(true)
    case ErrorResult => LoadFirst
    case NilResult => Attempt(attempt + 1)
    case AwaitFailed(contextDone) => if contextDone then LoadFirst else Attempt(attempt + 1)
  }

  function ResolverStep(s: State, contextDone: bool): State {
    match s.main
    case LoadCount => s.(main := if s.count > 0 then Acquire else LoadError)
    case Acquire => if s.sema > 0 then s.(sema := s.sema - 1, main := LoadCount) else s
    case LoadError => s.(main := if s.firstErr.Some? then Failed(Dependency(s.firstErr.value)) else CheckContext)
    case CheckContext => s.(main := if contextDone then Failed(ContextDone) else Enqueued)
    case _ => s
  }

  /** One atomic operation of one goroutine; an action that is not enabled changes nothing. */
  function Step(maxAttempts: int, s: State, a: Action): State {
    match a
    case Dep(i, yielded) => if i < |s.deps| then DepStep(maxAttempts, s, i, yielded) else s
    case Resolver(contextDone) => ResolverStep(s, contextDone)
  }

  function Run(maxAttempts: int, s: State, actions: seq<Action>): State {
    if actions == [] then s
    else Step(maxAttempts, Run(maxAttempts, s, actions[..|actions| - 1]), actions[|actions| - 1])
  }

  /** The counter is raised before any goroutine is spawned; no dependency skips the gate. */
  function Init(dependencies: nat): State {
    State(dependencies, 0, None, if dependencies == 0 then Enqueued else LoadCount, seq(dependencies, _ => Attempt(0)))
  }

  // Invariant

  /** The goroutine has yet to sign off. */
  function Open(pc: DepPc): nat {
    if pc.Release? || pc.Ended? then 0 else 1
  }

  /** The goroutine's dependency failed, and it has recorded so. */
  predicate Bad(pc: DepPc) {
    (pc.SignOff? || pc.Release? || pc.Ended?) && !pc.ok
  }

  predicate Joined(pc: MainPc) {
    !pc.LoadCount? && !pc.Acquire?
  }

  ghost predicate ReleaseComing(s: State) {
    s.sema > 0 || exists i :: 0 <= i < |s.deps| && s.deps[i].Release?
  }

  ghost predicate Inv(s: State) {
    && s.count == Sum(Open, s.deps)
    && (s.firstErr.None? ==> forall i :: 0 <= i < |s.deps| ==> !Bad(s.deps[i]))
    && (s.firstErr.Some? ==> s.firstErr.value < |s.deps| && Bad(s.deps[s.firstErr.value]))
    && (Joined(s.main) ==> s.count == 0)
    && (s.main.CheckContext? || s.main.Enqueued? || s.main == Failed(ContextDone) ==> s.firstErr.None?)
    && (s.main.Failed? && s.main.failure.Dependency? ==> s.firstErr == Some(s.main.failure.index))
    && (s.main.Acquire? && s.count == 0 ==> ReleaseComing(s))
  }

  /** A release that is coming stays so until the resolver acquires it. */
  lemma ReleaseStaysComing(maxAttempts: int, s: State, i: nat, yielded: Yield)
    requires i < |s.deps|
    ensures ReleaseComing(s) ==> ReleaseComing(DepStep(maxAttempts, s, i, yielded))
  {
    var s' := DepStep(maxAttempts, s, i, yielded);
    if ReleaseComing(s) && s'.sema == 0 {
      var j :| 0 <= j < |s.deps| && s.deps[j].Release?;
      assert s'.deps[j].Release?;
    }
  }

  lemma DepKeepsErrors(maxAttempts: int, s: State, i: nat, yielded: Yield)
    requires Inv(s) && i < |s.deps|
    ensures var s' := DepStep(maxAttempts, s, i, yielded);
            && (s'.firstErr.None? ==> forall j :: 0 <= j < |s'.deps| ==> !Bad(s'.deps[j]))
            && (s'.firstErr.Some? ==> s'.firstErr.value < |s'.deps| && Bad(s'.deps[s'.firstErr.value]))
            && (s.firstErr.Some? ==> s'.firstErr == s.firstErr)
            && (s'.firstErr != s.firstErr ==> Open(s.deps[i]) == 1)
  {
    match s.deps[i]
    case Attempt(_) =>
    case _ =>
  }

  /** The counter is the number of goroutines that have yet to sign off. */
  lemma DepKeepsCount(maxAttempts: int, s: State, i: nat, yielded: Yield)
    requires i < |s.deps| && s.count == Sum(Open, s.deps)
    ensures var s' := DepStep(maxAttempts, s, i, yielded);
            && s'.count == Sum(Open, s'.deps)
            && (s'.count != s.count ==> s.deps[i].SignOff?)
            && (s.count == 0 ==> Open(s.deps[i]) == 0)
  {
    var s' := DepStep(maxAttempts, s, i, yielded);
    SumUpdate(Open, s.deps, i, s'.deps[i]);
    SumAtLeast(Open, s.deps, i);
  }

  lemma DepKeepsInv(maxAttempts: int, s: State, i: nat, yielded: Yield)
    requires Inv(s) && i < |s.deps|
    ensures Inv(DepStep(maxAttempts, s, i, yielded))
  {
    var s' := DepStep(maxAttempts, s, i, yielded);
    DepKeepsCount(maxAttempts, s, i, yielded);
    ReleaseStaysComing(maxAttempts, s, i, yielded);
    DepKeepsErrors(maxAttempts, s, i, yielded);
    if s.deps[i].SignOff? && s'.count == 0 {
      assert s'.deps[i].Release?;
      assert ReleaseComing(s');
    }
  }

  lemma ResolverKeepsInv(s: State, contextDone: bool)
    requires Inv(s)
    ensures Inv(ResolverStep(s, contextDone))
  {
    var s' := ResolverStep(s, contextDone);
    assert s'.deps == s.deps;
    assert s'.sema == s.sema ==> ReleaseComing(s') == ReleaseComing(s);
  }

  lemma StepKeepsInv(maxAttempts: int, s: State, a: Action)
    requires Inv(s)
    ensures Inv(Step(maxAttempts, s, a)) && |Step(maxAttempts, s, a).deps| == |s.deps|
  {
    match a
    case Dep(i, yielded) =>
      if i < |s.deps| {
        DepKeepsInv(maxAttempts, s, i, yielded);
      }
    case Resolver(contextDone) => ResolverKeepsInv(s, contextDone);
  }

  lemma {:induction false} RunKeepsInv(maxAttempts: int, dependencies: nat, actions: seq<Action>)
    ensures Inv(Run(maxAttempts, Init(dependencies), actions))
    ensures |Run(maxAttempts, Init(dependencies), actions).deps| == dependencies
  {
    if actions == [] {
      AllOpen(dependencies);
    } else {
      RunKeepsInv(maxAttempts, dependencies, actions[..|actions| - 1]);
      StepKeepsInv(maxAttempts, Run(maxAttempts, Init(dependencies), actions[..|actions| - 1]), actions[|actions| - 1]);
    }
  }

  lemma {:induction false} AllOpen(n: nat)
    ensures Sum(Open, seq(n, _ => Attempt(0))) == n
  {
    if n > 0 {
      assert seq(n, _ => Attempt(0))[..n - 1] == seq(n - 1, _ => Attempt(0));
      AllOpen(n - 1);
    }
  }

  // Main results

  predicate Succeeded(pc: DepPc) {
    (pc.SignOff? || pc.Release? || pc.Ended?) && pc.ok
  }

  /** With this action dependency i is attempted. */
  ghost predicate Attempts(maxAttempts: int, s: State, a: Action, i: nat) {
    && i < |s.deps| && s.deps[i].Attempt? && s.deps[i].attempt < maxAttempts
    && a.Dep? && a.index == i
  }

  /** Some attempt of the run at dependency i yielded a non-nil, non-error result. */
  ghost predicate HadGood(maxAttempts: int, s: State, actions: seq<Action>, i: nat) {
    exists k :: 0 <= k < |actions|
                && Attempts(maxAttempts, Run(maxAttempts, s, actions[..k]), actions[k], i) && actions[k].yielded.Good?
  }

  lemma GoodStays(maxAttempts: int, s: State, before: seq<Action>, a: Action, i: nat)
    requires
      || HadGood(maxAttempts, s, before, i)
      || (Attempts(maxAttempts, Run(maxAttempts, s, before), a, i) && a.yielded.Good?)
    ensures HadGood(maxAttempts, s, before + [a], i)
  {
    var actions := before + [a];
    if HadGood(maxAttempts, s, before, i) {
      var k :| 0 <= k < |before|
               && Attempts(maxAttempts, Run(maxAttempts, s, before[..k]), before[k], i) && before[k].yielded.Good?;
      assert actions[..k] == before[..k] && actions[k] == before[k];
    } else {
      assert actions[..|before|] == before && actions[|before|] == a;
    }
  }

  /** Only an attempt that yields a good result turns a goroutine to success. */
  lemma SuccessStep(maxAttempts: int, s: State, a: Action, i: nat)
    requires i < |s.deps| && !Succeeded(s.deps[i])
    ensures |Step(maxAttempts, s, a).deps| == |s.deps|
    ensures Succeeded(Step(maxAttempts, s, a).deps[i]) ==> Attempts(maxAttempts, s, a, i) && a.yielded.Good?
  {
    if a.Dep? && a.index == i {
      match s.deps[i]
      case Attempt(attempt) => assert AfterAttempt(maxAttempts, attempt, a.yielded).SignOff? ==> a.yielded.Good?;
      case _ =>
    }
  }

  lemma {:induction false} RunKeepsDeps(maxAttempts: int, s: State, actions: seq<Action>)
    ensures |Run(maxAttempts, s, actions).deps| == |s.deps|
  {
    if actions != [] {
      RunKeepsDeps(maxAttempts, s, actions[..|actions| - 1]);
    }
  }

  /** A goroutine succeeds only on an attempt that did yield a non-nil, non-error result. */
  lemma {:induction false} SuccessNeedsGoodResult(maxAttempts: int, dependencies: nat, actions: seq<Action>, i: nat)
    requires var s := Run(maxAttempts, Init(dependencies), actions);
             i < |s.deps| && Succeeded(s.deps[i])
    ensures HadGood(maxAttempts, Init(dependencies), actions, i)
  {
    if actions != [] {
      var before, a := actions[..|actions| - 1], actions[|actions| - 1];
      var s := Run(maxAttempts, Init(dependencies), before);
      RunKeepsDeps(maxAttempts, Init(dependencies), before);
      RunKeepsDeps(maxAttempts, Init(dependencies), actions);
      if Succeeded(s.deps[i]) {
        SuccessNeedsGoodResult(maxAttempts, dependencies, before, i);
      } else {
        SuccessStep(maxAttempts, s, a, i);
      }
      assert actions == before + [a];
      GoodStays(maxAttempts, Init(dependencies), before, a, i);
    }
  }

  /**
   The gate. In every interleaving the job is enqueued only after every dependency's
   goroutine has signed off, and each of them had a non-nil, non-error result.
   */
  lemma EnqueueOnlyIfAllGood(maxAttempts: int, dependencies: nat, actions: seq<Action>)
    requires Run(maxAttempts, Init(dependencies), actions).main.Enqueued?
    ensures var s := Run(maxAttempts, Init(dependencies), actions);
            && |s.deps| == dependencies
            && forall i: nat :: i < dependencies ==>
                 Open(s.deps[i]) == 0 && s.deps[i].ok && HadGood(maxAttempts, Init(dependencies), actions, i)
  {
    RunKeepsInv(maxAttempts, dependencies, actions);
    var s := Run(maxAttempts, Init(dependencies), actions);
    SumZero(Open, s.deps);
    forall i: nat | i < dependencies
      ensures Open(s.deps[i]) == 0 && s.deps[i].ok && HadGood(maxAttempts, Init(dependencies), actions, i)
    {
      assert Open(s.deps[i]) == 0 && !Bad(s.deps[i]);
      SuccessNeedsGoodResult(maxAttempts, dependencies, actions, i);
    }
  }

  /** At some point of the run the resolver checked the pool's context and found it done. */
  ghost predicate FoundDone(maxAttempts: int, s: State, actions: seq<Action>) {
    exists k :: 0 <= k < |actions|
                && Run(maxAttempts, s, actions[..k]).main.CheckContext? && actions[k] == Resolver(true)
  }

  lemma {:induction false} DoneWasFound(maxAttempts: int, s: State, actions: seq<Action>)
    requires s.main != Failed(ContextDone) && Run(maxAttempts, s, actions).main == Failed(ContextDone)
    ensures FoundDone(maxAttempts, s, actions)
  {
    var n := |actions| - 1;
    if Run(maxAttempts, s, actions[..n]).main == Failed(ContextDone) {
      DoneWasFound(maxAttempts, s, actions[..n]);
      var k :| 0 <= k < n
               && Run(maxAttempts, s, actions[..n][..k]).main.CheckContext? && actions[..n][k] == Resolver(true);
      assert actions[..n][..k] == actions[..k];
    } else {
      assert Run(maxAttempts, s, actions[..n]).main.CheckContext? && actions[n] == Resolver(true);
    }
  }

  /**
   No false alarm. A job that fails on a dependency fails on one whose goroutine did end
   badly, namely on the first recorded, and otherwise every dependency was good and the
   resolver found the pool's context done.
   */
  lemma FailureIsGenuine(maxAttempts: int, dependencies: nat, actions: seq<Action>)
    requires Run(maxAttempts, Init(dependencies), actions).main.Failed?
    ensures var s := Run(maxAttempts, Init(dependencies), actions);
            match s.main.failure
            case Dependency(i) => s.firstErr == Some(i) && i < |s.deps| && Bad(s.deps[i])
            case ContextDone =>
              && FoundDone(maxAttempts, Init(dependencies), actions)
              && forall i :: 0 <= i < |s.deps| ==> !Bad(s.deps[i]) && Open(s.deps[i]) == 0
  {
    RunKeepsInv(maxAttempts, dependencies, actions);
    var s := Run(maxAttempts, Init(dependencies), actions);
    SumZero(Open, s.deps);
    if s.main.failure.ContextDone? {
      DoneWasFound(maxAttempts, Init(dependencies), actions);
    }
  }

  /** An attempt that is to be repeated, and one that ends the wait at once. */
  predicate Retryable(y: Yield) {
    y.NilResult? || (y.AwaitFailed? && !y.contextDone)
  }

  predicate Final(y: Yield) {
    y.ErrorResult? || (y.AwaitFailed? && y.contextDone)
  }

  /** How often dependency i had an attempt that was to be repeated. */
  ghost function Retries(maxAttempts: int, s: State, actions: seq<Action>, i: nat): nat {
    if actions == [] then 0
    else
      var before, a := actions[..|actions| - 1], actions[|actions| - 1];
      Retries(maxAttempts, s, before, i)
      + if Attempts(maxAttempts, Run(maxAttempts, s, before), a, i) && Retryable(a.yielded) then 1 else 0
  }

  /** Some attempt of the run at dependency i yielded an error or was cancelled. */
  ghost predicate HadFinal(maxAttempts: int, s: State, actions: seq<Action>, i: nat) {
    exists k :: 0 <= k < |actions|
                && Attempts(maxAttempts, Run(maxAttempts, s, actions[..k]), actions[k], i) && Final(actions[k].yielded)
  }

  lemma FinalStays(maxAttempts: int, s: State, actions: seq<Action>, i: nat)
    requires actions != []
    ensures var before, a := actions[..|actions| - 1], actions[|actions| - 1];
            || HadFinal(maxAttempts, s, before, i)
            || (Attempts(maxAttempts, Run(maxAttempts, s, before), a, i) && Final(a.yielded))
            ==> HadFinal(maxAttempts, s, actions, i)
  {
    var n := |actions| - 1;
    if HadFinal(maxAttempts, s, actions[..n], i) {
      var k :| 0 <= k < n
               && Attempts(maxAttempts, Run(maxAttempts, s, actions[..n][..k]), actions[..n][k], i)
               && Final(actions[..n][k].yielded);
      assert actions[..n][..k] == actions[..k];
    }
  }

  /** An attempt under way is numbered by those repeated so far; a failure has had its cause. */
  ghost predicate CauseKnown(maxAttempts: int, pc: DepPc, retries: nat, final: bool) {
    && (pc.Attempt? ==> pc.attempt == retries)
    && (pc.LoadFirst? || pc.CasFirst? || Bad(pc) ==> final || retries >= maxAttempts)
  }

  lemma CauseLater(maxAttempts: int, pc: DepPc, retries: nat, final: bool, later: bool)
    requires CauseKnown(maxAttempts, pc, retries, final) && (final ==> later)
    ensures CauseKnown(maxAttempts, pc, retries, later)
  {
  }

  /**
   A dependency ends badly only after an attempt that yielded an error or was cancelled, or
   after as many repeated attempts as the retry policy allows.
   */
  lemma {:induction false} FailureNeedsCause(maxAttempts: int, dependencies: nat, actions: seq<Action>, i: nat)
    requires i < dependencies
    ensures var s := Run(maxAttempts, Init(dependencies), actions);
            && |s.deps| == dependencies
            && CauseKnown(maxAttempts, s.deps[i], Retries(maxAttempts, Init(dependencies), actions, i),
                          HadFinal(maxAttempts, Init(dependencies), actions, i))
  {
    if actions != [] {
      var init, before, a := Init(dependencies), actions[..|actions| - 1], actions[|actions| - 1];
      var s, retries := Run(maxAttempts, init, before), Retries(maxAttempts, init, before, i);
      FailureNeedsCause(maxAttempts, dependencies, before, i);
      CauseStep(maxAttempts, s, a, i, retries, HadFinal(maxAttempts, init, before, i));
      FinalStays(maxAttempts, init, actions, i);
      CauseLater(maxAttempts, Step(maxAttempts, s, a).deps[i], Retries(maxAttempts, init, actions, i),
                 HadFinal(maxAttempts, init, before, i) || (Attempts(maxAttempts, s, a, i) && Final(a.yielded)),
                 HadFinal(maxAttempts, init, actions, i));
    }
  }

  lemma CauseStep(maxAttempts: int, s: State, a: Action, i: nat, retries: nat, final: bool)
    requires i < |s.deps| && CauseKnown(maxAttempts, s.deps[i], retries, final)
    ensures |Step(maxAttempts, s, a).deps| == |s.deps|
    ensures var attempt := Attempts(maxAttempts, s, a, i);
            CauseKnown(maxAttempts, Step(maxAttempts, s, a).deps[i],
                       retries + (if attempt && Retryable(a.yielded) then 1 else 0),
                       final || (attempt && Final(a.yielded)))
  {
  }

  /** The first recorded error is never overwritten. */
  lemma {:induction false} FirstErrorSticks(maxAttempts: int, s: State, actions: seq<Action>)
    requires s.firstErr.Some?
    ensures Run(maxAttempts, s, actions).firstErr == s.firstErr
  {
    if actions != [] {
      FirstErrorSticks(maxAttempts, s, actions[..|actions| - 1]);
    }
  }

  /** A resolver that still blocks when every goroutine has signed off has a release coming. */
  lemma JoinNeverStrands(maxAttempts: int, dependencies: nat, actions: seq<Action>)
    requires var s := Run(maxAttempts, Init(dependencies), actions);
             s.main.Acquire? && forall i :: 0 <= i < |s.deps| ==> Open(s.deps[i]) == 0
    ensures ReleaseComing(Run(maxAttempts, Init(dependencies), actions))
  {
    RunKeepsInv(maxAttempts, dependencies, actions);
    SumZero(Open, Run(maxAttempts, Init(dependencies), actions).deps);
  }

  // Calls on their own

  /** When all dependencies were good and the context is live, the resolver's next steps enqueue the job. */
  lemma EnqueuesWhenAllGood(maxAttempts: int, dependencies: nat, actions: seq<Action>)
    requires var s := Run(maxAttempts, Init(dependencies), actions);
             s.main.LoadCount? && forall i :: 0 <= i < |s.deps| ==> s.deps[i] == Ended(true)
    ensures var s := Run(maxAttempts, Init(dependencies), actions);
            ResolverStep(ResolverStep(ResolverStep(s, false), false), false) == s.(main := Enqueued)
  {
    RunKeepsInv(maxAttempts, dependencies, actions);
    var s := Run(maxAttempts, Init(dependencies), actions);
    AllEnded(s.deps);
    assert s.firstErr.None?;
    assert ResolverStep(s, false) == s.(main := LoadError);
    assert ResolverStep(s.(main := LoadError), false) == s.(main := CheckContext);
  }

  lemma {:induction false} AllEnded(deps: seq<DepPc>)
    requires forall i :: 0 <= i < |deps| ==> deps[i].Ended?
    ensures Sum(Open, deps) == 0
  {
    if deps != [] {
      AllEnded(deps[..|deps| - 1]);
    }
  }

  /** A resolver that waits for its goroutines blocks until it is released, and then looks again. */
  lemma ResolverJoins(s: State, contextDone: bool)
    ensures s.main.LoadCount? && s.count > 0 ==> ResolverStep(s, contextDone) == s.(main := Acquire)
    ensures s.main.Acquire? && s.sema > 0 ==> ResolverStep(s, contextDone) == s.(main := LoadCount, sema := s.sema - 1)
    ensures s.main.CheckContext? && contextDone ==> ResolverStep(s, contextDone) == s.(main := Failed(ContextDone))
  {
  }

  /** When some dependency was bad, the job fails on the one that was recorded first. */
  lemma FailsWhenBad(maxAttempts: int, dependencies: nat, actions: seq<Action>, i: nat)
    requires var s := Run(maxAttempts, Init(dependencies), actions);
             && s.main.LoadCount? && (forall j :: 0 <= j < |s.deps| ==> s.deps[j].Ended?)
             && i < |s.deps| && s.deps[i] == Ended(false)
    ensures var s := Run(maxAttempts, Init(dependencies), actions);
            && s.firstErr.Some?
            && ResolverStep(ResolverStep(s, false), false) == s.(main := Failed(Dependency(s.firstErr.value)))
  {
    RunKeepsInv(maxAttempts, dependencies, actions);
    var s := Run(maxAttempts, Init(dependencies), actions);
    AllEnded(s.deps);
    assert Bad(s.deps[i]);
    assert ResolverStep(s, false) == s.(main := LoadError);
  }

  /** A good attempt signs its goroutine off; the last one to sign off releases the resolver. */
  lemma GoodAttemptSignsOff(maxAttempts: int, s: State, i: nat)
    requires i < |s.deps| && s.deps[i].Attempt? && s.deps[i].attempt < maxAttempts
    ensures var s1 := DepStep(maxAttempts, s, i, Good);
            var s2 := DepStep(maxAttempts, s1, i, Good);
            if s.count == 1
            then DepStep(maxAttempts, s2, i, Good) == At(s, i, Ended(true)).(count := 0, sema := s.sema + 1)
            else s2 == At(s, i, Ended(true)).(count := s.count - 1)
  {
    assert DepStep(maxAttempts, s, i, Good) == At(s, i, SignOff(true));
  }

  /** An error result is recorded, if it is the first. */
  lemma ErrorIsRecorded(maxAttempts: int, s: State, i: nat, yielded: Yield)
    requires i < |s.deps| && s.deps[i].Attempt? && s.deps[i].attempt < maxAttempts && Final(yielded)
    ensures var s1 := DepStep(maxAttempts, s, i, yielded);
            var s2 := DepStep(maxAttempts, s1, i, yielded);
            if s.firstErr.Some? then s2 == At(s, i, SignOff(false))
            else DepStep(maxAttempts, s2, i, yielded) == At(s, i, SignOff(false)).(firstErr := Some(i))
  {
    assert DepStep(maxAttempts, s, i, yielded) == At(s, i, LoadFirst);
  }
}
