/**
 The token bucket (ratelimiter.go), one transition per atomic operation, for any number of
 goroutines in Limit and Renormalize. Time is a clock that never runs backwards; each call
 reads it once, so its reading may be arbitrarily old when it is used.
 */
module RateLimiter {
  import opened Common
  import opened Repetition
  import opened Arithmetic

  const SECOND: nat := 1_000_000_000

  datatype Config = Config(maxTokens: nat, refill: nat, start: int)

  /** The constructor's clamps: no negative capacity, and one second for a missing rate. */
  function Configure(maxTokens: int, refillRate: int, start: int): (c: Config)
    ensures c.refill > 0
  {
    Config(Max(maxTokens, 0), if refillRate <= 0 then SECOND else refillRate, start)
  }

  /** Program counter of one call; `take` tells Limit from Renormalize. */
  datatype Pc =
    | Resting
    | LoadLast(now: int, take: bool)
    | CasLast(now: int, take: bool, last: int)
    | LoadTokens(take: bool, periods: nat)
    | CasTokens(take: bool, periods: nat, cur: nat)
    | TakeLoad
    | TakeCas(cur: nat)

  /** `granted`, `admitted` and `discarded` count refill periods claimed, tokens taken and tokens cut off by the cap. */
  datatype State = State(
    tokens: nat,
    last: int,
    clock: int,
    granted: nat,
    admitted: nat,
    discarded: nat,
    callers: seq<Pc>)

  datatype Action =
    | Tick(elapsed: nat)
    | Call(caller: nat, take: bool)
    | Caller(caller: nat)

  function At(s: State, i: nat, pc: Pc): State
    requires i < |s.callers|
  {
    s.(callers := s.callers[i := pc])
  }

  /** The refill is over; Limit goes on to take a token. */
  function Refilled(take: bool): Pc {
    if take then TakeLoad else Resting
  }

  /** Whole refill periods between two times. */
  function Periods(c: Config, now: int, last: int): nat
    requires c.refill > 0
  {
    if now < last then 0 else (now - last) / c.refill
  }

  function CallerStep(c: Config, s: State, i: nat): State
    requires i < |s.callers| && c.refill > 0
  {
    match s.callers[i]
    case Resting => s
    case LoadLast(now, take) =>
      if now - s.last < c.refill then At(s, i, Refilled(take)) else At(s, i, CasLast(now, take, s.last))
    case CasLast(now, take, last) =>
      if s.last == last then
        var periods := Periods(c, now, last);
        At(s, i, LoadTokens(take, periods)).(last := last + periods * c.refill, granted := s.granted + periods)
      else
        At(s, i, LoadLast(now, take))
    case LoadTokens(take, periods) => At(s, i, CasTokens(take, periods, s.tokens))
    case CasTokens(take, periods, cur) =>
      if s.tokens == cur then
        var capped := Min(cur + periods, c.maxTokens);
        At(s, i, Refilled(take)).(tokens := Max(capped, 0), discarded := s.discarded + Max(cur + periods - capped, 0))
      else
        At(s, i, LoadTokens(take, periods))
    case TakeLoad => At(s, i, if s.tokens == 0 then Resting else TakeCas(s.tokens))
    case TakeCas(cur) =>
      if s.tokens == cur && cur > 0 then At(s, i, Resting).(tokens := cur - 1, admitted := s.admitted + 1)
      else At(s, i, TakeLoad)
  }

  /** One atomic operation of one goroutine, or the passing of time. */
  function Step(c: Config, s: State, a: Action): State
    requires c.refill > 0
  {
    match a
    case Tick(elapsed) => s.(clock := s.clock + elapsed)
    case Call(i, take) =>
      if i < |s.callers| && s.callers[i].Resting? then At(s, i, LoadLast(s.clock, take)) else s
    case Caller(i) =>
      if i < |s.callers| then CallerStep(c, s, i) else s
  }

  function Run(c: Config, s: State, actions: seq<Action>): State
    requires c.refill > 0
  {
    if actions == [] then s
    else Step(c, Run(c, s, actions[..|actions| - 1]), actions[|actions| - 1])
  }

  function Init(c: Config, callers: nat): State {
    State(c.maxTokens, c.start, c.start, 0, 0, 0, seq(callers, _ => Resting))
  }

  // Invariant

  /** Periods that a call has claimed from the clock but not yet added to the bucket. */
  function Claimed(pc: Pc): nat {
    if pc.LoadTokens? || pc.CasTokens? then pc.periods else 0
  }

  ghost predicate CallerOk(s: State, pc: Pc) {
    && (pc.LoadLast? || pc.CasLast? ==> pc.now <= s.clock)
    && (pc.TakeCas? ==> pc.cur > 0)
  }

  ghost predicate Inv(c: Config, s: State) {
    && c.refill > 0
    && s.tokens <= c.maxTokens
    && s.last == c.start + s.granted * c.refill
    && s.last <= s.clock
    && s.admitted + s.tokens + Sum(Claimed, s.callers) + s.discarded == c.maxTokens + s.granted
    && (forall i :: 0 <= i < |s.callers| ==> CallerOk(s, s.callers[i]))
  }

  /** A claim of whole periods moves the refill time by as many, and not past the time it was claimed at. */
  lemma ClaimTime(c: Config, granted: nat, last: int, now: int)
    requires c.refill > 0 && last == c.start + granted * c.refill
    ensures var periods := Periods(c, now, last);
            && last + periods * c.refill == c.start + (granted + periods) * c.refill
            && last + periods * c.refill <= Max(now, last)
  {
    var periods := Periods(c, now, last);
    assert (granted + periods) * c.refill == granted * c.refill + periods * c.refill;
  }

  lemma ClaimKeepsInv(c: Config, s: State, i: nat)
    requires Inv(c, s) && i < |s.callers| && s.callers[i].CasLast? && s.last == s.callers[i].last
    ensures Inv(c, CallerStep(c, s, i))
  {
    var pc := s.callers[i];
    assert CallerOk(s, pc);
    var periods := Periods(c, pc.now, pc.last);
    SumUpdate(Claimed, s.callers, i, LoadTokens(pc.take, periods));
    ClaimTime(c, s.granted, s.last, pc.now);
    assert forall j :: 0 <= j < |s.callers| ==> CallerOk(s, s.callers[j]);
  }

  /** Adding the claimed tokens, or taking one, keeps the ledger. */
  lemma BucketKeepsInv(c: Config, s: State, i: nat)
    requires Inv(c, s) && i < |s.callers| && (s.callers[i].CasTokens? || s.callers[i].TakeCas?)
    ensures Inv(c, CallerStep(c, s, i))
  {
    var s' := CallerStep(c, s, i);
    assert CallerOk(s, s.callers[i]);
    SumUpdate(Claimed, s.callers, i, s'.callers[i]);
    SumAtLeast(Claimed, s.callers, i);
    assert forall j :: 0 <= j < |s.callers| ==> CallerOk(s, s.callers[j]);
  }

  lemma CallerKeepsInv(c: Config, s: State, i: nat)
    requires Inv(c, s) && i < |s.callers|
    ensures Inv(c, CallerStep(c, s, i))
  {
    var pc := s.callers[i];
    if pc.CasLast? && s.last == pc.last {
      ClaimKeepsInv(c, s, i);
    } else if pc.CasTokens? || pc.TakeCas? {
      BucketKeepsInv(c, s, i);
    } else {
      var pc' := CallerStep(c, s, i).callers[i];
      assert CallerStep(c, s, i) == At(s, i, pc');
      assert CallerOk(s, pc);
      SumUpdate(Claimed, s.callers, i, pc');
      assert forall j :: 0 <= j < |s.callers| ==> CallerOk(s, s.callers[j]);
    }
  }

  lemma StepKeepsInv(c: Config, s: State, a: Action)
    requires Inv(c, s)
    ensures Inv(c, Step(c, s, a))
  {
    var s' := Step(c, s, a);
    match a
    case Caller(i) =>
      if i < |s.callers| {
        CallerKeepsInv(c, s, i);
      }
    case Call(i, take) =>
      if i < |s.callers| && s.callers[i].Resting? {
        SumUpdate(Claimed, s.callers, i, LoadLast(s.clock, take));
        assert forall j :: 0 <= j < |s.callers| ==> CallerOk(s, s.callers[j]);
      }
    case Tick(_) =>
      assert forall j :: 0 <= j < |s.callers| ==> CallerOk(s, s.callers[j]);
  }

  lemma {:induction false} RunKeepsInv(c: Config, callers: nat, actions: seq<Action>)
    requires c.refill > 0
    ensures Inv(c, Run(c, Init(c, callers), actions))
  {
    if actions == [] {
      SumZero(Claimed, Init(c, callers).callers);
    } else {
      RunKeepsInv(c, callers, actions[..|actions| - 1]);
      StepKeepsInv(c, Run(c, Init(c, callers), actions[..|actions| - 1]), actions[|actions| - 1]);
    }
  }

  // Main results

  /** The most that can be admitted in a time: nothing without capacity, otherwise the capacity and one per period. */
  function Most(maxTokens: int, refillRate: int, elapsed: nat): nat {
    if maxTokens <= 0 then 0 else maxTokens + elapsed / (if refillRate > 0 then refillRate else 1_000_000_000)
  }

  /**
   Conservation and the admission bound, for all arguments of the constructor. In every
   interleaving the tokens admitted, held, claimed but not yet added, and cut off by the
   cap are exactly the initial tokens plus one per claimed refill period, the bucket never
   exceeds its capacity, and so admissions never exceed the initial tokens plus the whole
   periods since the start.
   */
  lemma AdmissionBound(maxTokens: int, refillRate: int, start: int, callers: nat, actions: seq<Action>)
    ensures var c := Configure(maxTokens, refillRate, start);
            var s := Run(c, Init(c, callers), actions);
            && s.tokens <= c.maxTokens
            && start <= s.last <= s.clock && s.last - start == s.granted * c.refill
            && s.admitted + s.tokens + Sum(Claimed, s.callers) + s.discarded == c.maxTokens + s.granted
            && s.admitted <= Most(maxTokens, refillRate, s.clock - start)
  {
    var c := Configure(maxTokens, refillRate, start);
    RunKeepsInv(c, callers, actions);
    var s := Run(c, Init(c, callers), actions);
    LedgerBound(c, s);
    if c.maxTokens == 0 {
      NoCapacityAdmitsNothing(c, callers, actions);
    }
  }

  lemma LedgerBound(c: Config, s: State)
    requires Inv(c, s)
    ensures c.start <= s.last && s.admitted <= c.maxTokens + (s.clock - c.start) / c.refill
  {
    assert s.granted * c.refill >= 0;
    QuotientAtLeast(s.clock - c.start, c.refill, s.granted);
  }

  lemma {:induction false} NoCapacityAdmitsNothing(c: Config, callers: nat, actions: seq<Action>)
    requires c.refill > 0 && c.maxTokens == 0
    ensures Run(c, Init(c, callers), actions).admitted == 0
  {
    if actions != [] {
      var before := actions[..|actions| - 1];
      NoCapacityAdmitsNothing(c, callers, before);
      RunKeepsInv(c, callers, before);
    }
  }

  /** After every step of the run the bucket has room. */
  ghost predicate NeverFull(c: Config, s: State, actions: seq<Action>)
    requires c.refill > 0
  {
    forall k :: 0 < k <= |actions| ==> Run(c, s, actions[..k]).tokens < c.maxTokens
  }

  /** While the bucket has room no token is cut off: each claimed period is admitted, held or about to be added. */
  lemma {:induction false} NothingLostBelowCapacity(c: Config, s: State, actions: seq<Action>)
    requires Inv(c, s) && NeverFull(c, s, actions)
    ensures var r := Run(c, s, actions);
            && Inv(c, r) && r.discarded == s.discarded
            && r.admitted + r.tokens + Sum(Claimed, r.callers) - r.granted
               == s.admitted + s.tokens + Sum(Claimed, s.callers) - s.granted
  {
    if actions != [] {
      var n := |actions| - 1;
      forall k | 0 < k <= n
        ensures Run(c, s, actions[..n][..k]).tokens < c.maxTokens
      {
        assert actions[..n][..k] == actions[..k];
      }
      NothingLostBelowCapacity(c, s, actions[..n]);
      StepKeepsInv(c, Run(c, s, actions[..n]), actions[n]);
      assert actions[..n + 1] == actions;
    }
  }

  // The bound is reached

  lemma Extend(c: Config, s: State, actions: seq<Action>, a: Action) returns (longer: seq<Action>)
    requires c.refill > 0
    ensures Run(c, s, longer) == Step(c, Run(c, s, actions), a)
  {
    longer := actions + [a];
    assert longer[..|longer| - 1] == actions;
  }

  /** A call of Limit that finds no period to claim and a token in the bucket takes it. */
  lemma TakeOne(c: Config, s: State, actions: seq<Action>) returns (longer: seq<Action>)
    requires c.refill > 0
    requires var r := Run(c, s, actions);
             r.callers == [Resting] && r.tokens > 0 && r.clock == r.last
    ensures var r := Run(c, s, actions);
            Run(c, s, longer) == r.(tokens := r.tokens - 1, admitted := r.admitted + 1)
  {
    var r := Run(c, s, actions);
    longer := Extend(c, s, actions, Call(0, true));
    assert Run(c, s, longer) == r.(callers := [LoadLast(r.clock, true)]);
    longer := Extend(c, s, longer, Caller(0));
    assert Run(c, s, longer) == r.(callers := [TakeLoad]);
    longer := Extend(c, s, longer, Caller(0));
    assert Run(c, s, longer) == r.(callers := [TakeCas(r.tokens)]);
    longer := Extend(c, s, longer, Caller(0));
    assert Run(c, s, longer).callers == [Resting];
  }

  lemma OnePeriod(c: Config, last: int)
    requires c.refill > 0
    ensures var periods := Periods(c, last + c.refill, last);
            periods == 1 && last + periods * c.refill == last + c.refill
  {
    DivModUnique(c.refill, c.refill, 1, 0);
  }

  lemma ClaimStep(c: Config, r: State)
    requires c.refill > 0 && r.callers == [CasLast(r.last + c.refill, false, r.last)]
    ensures Step(c, r, Caller(0)) ==
            r.(last := r.last + c.refill, granted := r.granted + 1, callers := [LoadTokens(false, 1)])
  {
    OnePeriod(c, r.last);
  }

  lemma LoadStep(c: Config, r: State)
    requires c.refill > 0 && r.callers == [LoadLast(r.last + c.refill, false)]
    ensures Step(c, r, Caller(0)) == r.(callers := [CasLast(r.last + c.refill, false, r.last)])
  {
  }

  lemma CallStep(c: Config, r: State, take: bool)
    requires c.refill > 0 && r.callers == [Resting]
    ensures Step(c, r, Call(0, take)) == r.(callers := [LoadLast(r.clock, take)])
  {
  }

  /** One period later, a call of Renormalize reads the clock and the time of the last refill. */
  lemma ReadTime(c: Config, s: State, actions: seq<Action>) returns (longer: seq<Action>)
    requires c.refill > 0
    requires var r := Run(c, s, actions);
             r.callers == [Resting] && r.clock == r.last
    ensures var r := Run(c, s, actions);
            Run(c, s, longer) == r.(clock := r.clock + c.refill, callers := [CasLast(r.last + c.refill, false, r.last)])
  {
    longer := Extend(c, s, actions, Tick(c.refill));
    CallStep(c, Run(c, s, longer), false);
    longer := Extend(c, s, longer, Call(0, false));
    LoadStep(c, Run(c, s, longer));
    longer := Extend(c, s, longer, Caller(0));
  }

  /** The call then claims the period. */
  lemma ClaimOne(c: Config, s: State, actions: seq<Action>) returns (longer: seq<Action>)
    requires c.refill > 0
    requires var r := Run(c, s, actions);
             r.callers == [Resting] && r.clock == r.last
    ensures var r := Run(c, s, actions);
            Run(c, s, longer) == r.(clock := r.clock + c.refill, last := r.last + c.refill,
                                    granted := r.granted + 1, callers := [LoadTokens(false, 1)])
  {
    longer := ReadTime(c, s, actions);
    ClaimStep(c, Run(c, s, longer));
    longer := Extend(c, s, longer, Caller(0));
  }

  /** One period later, a period is claimed and its token taken. */
  lemma OneMore(c: Config, s: State, actions: seq<Action>) returns (longer: seq<Action>)
    requires c.refill > 0 && c.maxTokens >= 1
    requires var r := Run(c, s, actions);
             r.callers == [Resting] && r.tokens == 0 && r.clock == r.last
    ensures var r := Run(c, s, actions);
            Run(c, s, longer) == r.(clock := r.clock + c.refill, last := r.last + c.refill,
                                    granted := r.granted + 1, admitted := r.admitted + 1)
  {
    longer := ClaimOne(c, s, actions);
    var r := Run(c, s, longer);
    longer := Extend(c, s, longer, Caller(0));
    assert Run(c, s, longer) == r.(callers := [CasTokens(false, 1, 0)]);
    longer := Extend(c, s, longer, Caller(0));
    assert Run(c, s, longer) == r.(callers := [Resting], tokens := 1);
    longer := TakeOne(c, s, longer);
  }

  lemma {:induction false} Drain(c: Config, n: nat) returns (actions: seq<Action>)
    requires c.refill > 0 && n <= c.maxTokens
    ensures Run(c, Init(c, 1), actions) == Init(c, 1).(tokens := c.maxTokens - n, admitted := n)
  {
    if n == 0 {
      actions := [];
    } else {
      actions := Drain(c, n - 1);
      assert Init(c, 1).callers == [Resting];
      actions := TakeOne(c, Init(c, 1), actions);
    }
  }

  lemma {:induction false} Spend(c: Config, periods: nat) returns (actions: seq<Action>)
    requires c.refill > 0 && c.maxTokens >= 1
    ensures var s := Run(c, Init(c, 1), actions);
            && s.clock == s.last == c.start + periods * c.refill
            && s.callers == [Resting] && s.tokens == 0 && s.admitted == c.maxTokens + periods
  {
    if periods == 0 {
      actions := Drain(c, c.maxTokens);
      assert Init(c, 1).callers == [Resting];
    } else {
      actions := Spend(c, periods - 1);
      actions := OneMore(c, Init(c, 1), actions);
      MulSucc(periods - 1, c.refill);
    }
  }

  /** For all arguments and every time some run admits exactly as much as the bound allows. */
  lemma BoundIsReached(maxTokens: int, refillRate: int, start: int, elapsed: nat) returns (actions: seq<Action>)
    ensures var c := Configure(maxTokens, refillRate, start);
            var s := Run(c, Init(c, 1), actions);
            s.clock == start + elapsed && s.admitted == Most(maxTokens, refillRate, elapsed)
  {
    var c := Configure(maxTokens, refillRate, start);
    if c.maxTokens == 0 {
      actions := Extend(c, Init(c, 1), [], Tick(elapsed));
    } else {
      DivModSum(elapsed, c.refill);
      actions := Spend(c, elapsed / c.refill);
      actions := Extend(c, Init(c, 1), actions, Tick(elapsed % c.refill));
    }
  }

  // Calls on their own

  /** One call takes n steps while all others stand still. */
  function Alone(c: Config, s: State, a: Action, n: nat): State
    requires c.refill > 0
  {
    Iterate(By(c, a), s, n)
  }

  function By(c: Config, a: Action): State -> State
    requires c.refill > 0
  {
    (s: State) => Step(c, s, a)
  }

  lemma FourSteps(c: Config, s: State, a: Action, s1: State, s2: State, s3: State, s4: State)
    requires c.refill > 0
    requires Step(c, s, a) == s1 && Step(c, s1, a) == s2 && Step(c, s2, a) == s3 && Step(c, s3, a) == s4
    ensures Alone(c, s, a, 2) == s2 && Alone(c, s, a, 3) == s3 && Alone(c, s, a, 4) == s4
  {
    IterateFour(By(c, a), s, s1, s2, s3, s4);
  }

  /** Within a period, Limit takes a token if there is one, and rejects without a change otherwise. */
  lemma LimitAlone(c: Config, s: State, i: nat)
    requires c.refill > 0 && i < |s.callers| && s.callers[i].Resting? && s.clock - s.last < c.refill
    ensures s.tokens > 0 ==>
              Alone(c, Step(c, s, Call(i, true)), Caller(i), 3) ==
              s.(tokens := s.tokens - 1, admitted := s.admitted + 1)
    ensures s.tokens == 0 ==> Alone(c, Step(c, s, Call(i, true)), Caller(i), 2) == s
  {
    var s0, a := At(s, i, LoadLast(s.clock, true)), Caller(i);
    assert Step(c, s, Call(i, true)) == s0;
    NoRefill(c, s, i, true);
    var s1 := At(s, i, TakeLoad);
    if s.tokens > 0 {
      var s2 := At(s, i, TakeCas(s.tokens));
      var s3 := Step(c, s2, a);
      FourSteps(c, s0, a, s1, s2, s3, Step(c, s3, a));
    } else {
      assert Step(c, s1, a) == s;
      FourSteps(c, s0, a, s1, s, Step(c, s, a), Step(c, Step(c, s, a), a));
    }
  }

  lemma NoRefill(c: Config, s: State, i: nat, take: bool)
    requires c.refill > 0 && i < |s.callers| && s.clock - s.last < c.refill
    ensures Step(c, At(s, i, LoadLast(s.clock, take)), Caller(i)) == At(s, i, Refilled(take))
  {
  }

  /** After whole periods a call claims them all, adds as many tokens up to the capacity, and keeps the rest. */
  lemma RefillAlone(c: Config, s: State, i: nat, take: bool)
    requires c.refill > 0 && i < |s.callers| && s.callers[i].Resting? && s.clock - s.last >= c.refill
    ensures var periods := (s.clock - s.last) / c.refill;
            var s' := Alone(c, Step(c, s, Call(i, take)), Caller(i), 4);
            && periods >= 1 && s'.tokens == Min(s.tokens + periods, c.maxTokens)
            && s'.last == s.last + periods * c.refill && s'.granted == s.granted + periods
            && s'.callers == s.callers[i := Refilled(take)] && s'.admitted == s.admitted && s'.clock == s.clock
  {
    var s0, a := At(s, i, LoadLast(s.clock, take)), Caller(i);
    var periods := (s.clock - s.last) / c.refill;
    QuotientAtLeast(s.clock - s.last, c.refill, 1);
    RefillReads(c, s, i, take);
    var claimed := s.(last := s.last + periods * c.refill, granted := s.granted + periods);
    RefillClaims(c, s, i, take, periods);
    var s3 := At(claimed, i, CasTokens(take, periods, s.tokens));
    RefillAdds(c, claimed, i, take, periods);
    FourSteps(c, s0, a, At(s, i, CasLast(s.clock, take, s.last)), At(claimed, i, LoadTokens(take, periods)), s3,
              Step(c, s3, a));
  }

  lemma RefillReads(c: Config, s: State, i: nat, take: bool)
    requires c.refill > 0 && i < |s.callers| && s.clock - s.last >= c.refill
    ensures Step(c, At(s, i, LoadLast(s.clock, take)), Caller(i)) == At(s, i, CasLast(s.clock, take, s.last))
  {
  }

  lemma RefillClaims(c: Config, s: State, i: nat, take: bool, periods: nat)
    requires c.refill > 0 && i < |s.callers| && periods == (s.clock - s.last) / c.refill && s.clock >= s.last
    ensures Step(c, At(s, i, CasLast(s.clock, take, s.last)), Caller(i)) ==
            At(s, i, LoadTokens(take, periods)).(last := s.last + periods * c.refill, granted := s.granted + periods)
  {
    assert Periods(c, s.clock, s.last) == periods;
  }

  lemma RefillAdds(c: Config, s: State, i: nat, take: bool, periods: nat)
    requires c.refill > 0 && i < |s.callers|
    ensures Step(c, At(s, i, LoadTokens(take, periods)), Caller(i)) == At(s, i, CasTokens(take, periods, s.tokens))
    ensures var s' := Step(c, At(s, i, CasTokens(take, periods, s.tokens)), Caller(i));
            s' == At(s, i, Refilled(take)).(tokens := Min(s.tokens + periods, c.maxTokens), discarded := s'.discarded)
  {
  }
}
