/**
 The circuit breaker (circuitbreaker.go): the object with its counters, and what every
 history of calls makes of it. Each method is one step. Times are inputs. The counters of
 failures, successes and calls in flight are the source's 32-bit counters, the last of them
 signed, wrap-around included.
 */
module CircuitBreaker {
  import opened Common

  const MINUTE: int := 60_000_000_000
  const WRAP: nat := 0x1_0000_0000
  const HALF: nat := 0x8000_0000

  datatype Mode = Closed | Open | HalfOpen

  datatype Config = Config(maxFailures: int, resetTimeout: int, halfOpenMax: int)
  {
    /** The reset timeout that applies; a missing one is a minute. */
    function Reset(): (ns: int)
      ensures ns > 0
    {
      if resetTimeout <= 0 then MINUTE else resetTimeout
    }

    /** The length of the run of failures that trips the breaker. */
    function Threshold(): int {
      Max(1, maxFailures)
    }
  }

  datatype Counters = Counters(mode: Mode, failures: nat, openSince: int, successes: nat, inflight: int)

  datatype Event = Allow(now: int) | Fail(now: int) | Success | Renormalize(now: int)

  function Initial(): Counters {
    Counters(Closed, 0, 0, 0, 0)
  }

  // Specification

  predicate Expired(c: Config, v: Counters, now: int) {
    v.mode.Open? && v.openSince != 0 && now - v.openSince > c.Reset()
  }

  /** An open breaker whose timeout has passed turns half-open with fresh counters. */
  function Probed(c: Config, v: Counters, now: int): Counters {
    if Expired(c, v, now) then v.(mode := HalfOpen, successes := 0, inflight := 0) else v
  }

  predicate Admits(c: Config, v: Counters, now: int) {
    var p := Probed(c, v, now);
    p.mode.Closed? || (p.mode.HalfOpen? && p.inflight < c.halfOpenMax)
  }

  function Opened(v: Counters, now: int): Counters {
    v.(mode := Open, openSince := Max(v.openSince, now), successes := 0, inflight := 0)
  }

  /** One more in an unsigned 32-bit counter. */
  function Counted(n: nat): nat {
    if n + 1 < WRAP then n + 1 else n + 1 - WRAP
  }

  /** One more in a signed 32-bit counter. */
  function Incremented(n: int): int {
    if n + 1 < HALF then n + 1 else n + 1 - WRAP
  }

  function Released(v: Counters): Counters {
    if v.inflight > 0 then v.(inflight := v.inflight - 1) else v
  }

  function Apply(c: Config, v: Counters, e: Event): Counters {
    match e
    case Allow(now) =>
      var p := Probed(c, v, now);
      if p.mode.HalfOpen? && Admits(c, v, now) then p.(inflight := Incremented(p.inflight)) else p
    case Renormalize(now) => Probed(c, v, now)
    case Fail(now) =>
      var f := v.(failures := (v.failures + 1) % WRAP);
      (match v.mode
       case HalfOpen => Opened(Released(f), now)
       case Closed => if f.failures >= c.maxFailures then Opened(f, now) else f
       case Open => f)
    case Success =>
      var f := v.(failures := 0);
      if v.mode.HalfOpen? then
        var r := Released(f).(successes := Counted(v.successes));
        if r.successes >= c.halfOpenMax then r.(successes := 0, mode := Closed) else r
      else
        f
  }

  function Exec(c: Config, v: Counters, history: seq<Event>): Counters {
    if history == [] then v
    else Apply(c, Exec(c, v, history[..|history| - 1]), history[|history| - 1])
  }

  function After(c: Config, history: seq<Event>): Counters {
    Exec(c, Initial(), history)
  }

  lemma AfterOneMore(c: Config, history: seq<Event>, e: Event)
    ensures After(c, history + [e]) == Apply(c, After(c, history), e)
  {
    assert (history + [e])[..|history|] == history;
  }

  // The object

  class Breaker {
    const config: Config
    var mode: Mode
    var failures: nat
    var openSince: int
    var successes: nat
    var inflight: int

    /** The calls so far. */
    ghost var history: seq<Event>

    /** The breaker is what its history makes of it. */
    ghost predicate Valid()
      reads this
    {
      config.halfOpenMax >= 1 && View() == After(config, history)
    }

    ghost function View(): Counters
      reads this
    {
      Counters(mode, failures, openSince, successes, inflight)
    }

    constructor (maxFailures: int, resetTimeout: int, halfOpenMax: int)
      ensures Valid() && history == [] && View() == Initial()
      ensures config == Config(maxFailures, resetTimeout, Max(1, halfOpenMax))
    {
      config := Config(maxFailures, resetTimeout, if halfOpenMax <= 0 then 1 else halfOpenMax);
      mode, failures, openSince, successes, inflight, history := Closed, 0, 0, 0, 0, [];
    }

    /** What the counters of a breaker say about its history. */
    lemma Facts()
      requires Valid()
      ensures failures == TrailingFailures(history) % WRAP
      ensures mode.Closed? && config.maxFailures < WRAP ==> TrailingFailures(history) < config.Threshold()
      ensures mode.Open? && Ordered(history) ==> openSince == LastOpening(config, history)
      ensures config.halfOpenMax < HALF ==>
                0 <= inflight <= config.halfOpenMax && EpisodeAdmissions(config, history) <= 2 * config.halfOpenMax - 1
    {
      FailuresAreTrailingRun(config, history);
      if mode.Closed? && config.maxFailures < WRAP {
        ClosedBelowThreshold(config, history);
      }
      if Ordered(history) {
        OpenSinceIsLastOpening(config, history);
      }
      if config.halfOpenMax < HALF {
        EpisodeBudget(config, history);
      }
    }

    /** A closed breaker opens exactly at the failure that completes its threshold, and a half-open one at any. */
    method RecordFailure(now: int)
      requires Valid()
      modifies this
      ensures Valid() && history == old(history) + [Fail(now)] && View() == Apply(config, old(View()), Fail(now))
      ensures old(mode).Closed? && config.maxFailures < WRAP ==>
                (mode.Open? <==> TrailingFailures(history) == config.Threshold())
      ensures old(mode).HalfOpen? ==> mode.Open? && openSince == Max(old(openSince), now)
    {
      AfterOneMore(config, history, Fail(now));
      if mode.Closed? && config.maxFailures < WRAP {
        OpensExactlyAtThreshold(config, history, Fail(now));
      }
      assert (history + [Fail(now)])[..|history|] == history;
      history := history + [Fail(now)];
      failures := (failures + 1) % WRAP;
      if mode == HalfOpen {
        DecInflight();
        TransitionToOpen(now);
      } else if mode == Closed {
        if failures >= config.maxFailures {
          TransitionToOpen(now);
        }
      }
    }

    /** A half-open breaker closes exactly at the success that completes its maximum. */
    lemma ClosesWhenComplete()
      requires Valid() && mode.HalfOpen?
      ensures Apply(config, View(), Success).mode.Closed? <==>
                config.halfOpenMax < WRAP && EpisodeSuccesses(config, history) + 1 == config.halfOpenMax
    {
      AfterOneMore(config, history, Success);
      HalfOpenLeaves(config, history, Success);
    }

    method RecordSuccess()
      requires Valid()
      modifies this
      ensures Valid() && history == old(history) + [Success] && View() == Apply(config, old(View()), Success)
    {
      AfterOneMore(config, history, Success);
      history := history + [Success];
      failures := 0;
      if mode == HalfOpen {
        DecInflight();
        successes := Counted(successes);
        if successes >= config.halfOpenMax {
          successes := 0;
          mode := Closed;
        }
      }
    }

    /** An open breaker admits exactly if more than the timeout has passed since it opened. */
    lemma AdmitsAfterTimeout(now: int)
      requires Valid() && mode.Open? && Ordered(history)
      ensures Admits(config, View(), now) <==> now - LastOpening(config, history) > config.Reset()
    {
      OpenAdmitsExactlyAfterTimeout(config, history, now);
    }

    method Allow(now: int) returns (admitted: bool)
      requires Valid()
      modifies this
      ensures Valid() && history == old(history) + [Event.Allow(now)]
      ensures View() == Apply(config, old(View()), Event.Allow(now))
      ensures admitted == Admits(config, old(View()), now)
    {
      AfterOneMore(config, history, Event.Allow(now));
      history := history + [Event.Allow(now)];
      admitted := Attempt(now);
    }

    /** The loop of Allow, which looks again after it has turned the breaker half-open. */
    method Attempt(now: int) returns (admitted: bool)
      modifies this`mode, this`successes, this`inflight
      ensures View() == Apply(config, old(View()), Event.Allow(now))
      ensures admitted == Admits(config, old(View()), now)
    {
      while true
        invariant View() == old(View()) || (View() == Probed(config, old(View()), now) && !mode.Open?)
        decreases mode == Open
      {
        match mode
        case Closed => return true;
        case HalfOpen =>
          admitted := AcquireHalfOpenSlot();
          return;
        case Open =>
          var moved := TryOpenToHalfOpen(now);
          if !moved {
            return false;
          }
      }
    }

    method Renormalize(now: int)
      requires Valid()
      modifies this
      ensures Valid() && history == old(history) + [Event.Renormalize(now)]
      ensures View() == Apply(config, old(View()), Event.Renormalize(now))
    {
      AfterOneMore(config, history, Event.Renormalize(now));
      history := history + [Event.Renormalize(now)];
      var _ := TryOpenToHalfOpen(now);
    }

    method TryOpenToHalfOpen(now: int) returns (moved: bool)
      modifies this`mode, this`successes, this`inflight
      ensures View() == Probed(config, old(View()), now)
      ensures moved == Expired(config, old(View()), now)
    {
      if mode != Open {
        return false;
      }
      var resetNs := config.resetTimeout;
      if resetNs <= 0 {
        resetNs := MINUTE;
      }
      if openSince == 0 || now - openSince <= resetNs {
        return false;
      }
      mode, successes, inflight := HalfOpen, 0, 0;
      return true;
    }

    method AcquireHalfOpenSlot() returns (acquired: bool)
      modifies this`inflight
      ensures acquired == (old(mode).HalfOpen? && old(inflight) < config.halfOpenMax)
      ensures View() == old(View()).(inflight := if acquired then Incremented(old(inflight)) else old(inflight))
    {
      if mode != HalfOpen || inflight >= config.halfOpenMax {
        return false;
      }
      inflight := Incremented(inflight);
      return true;
    }

    method TransitionToOpen(now: int)
      modifies this`mode, this`openSince, this`successes, this`inflight
      ensures View() == Opened(old(View()), now)
    {
      mode := Open;
      if now > openSince {
        openSince := now;
      }
      successes, inflight := 0, 0;
    }

    method DecInflight()
      modifies this`inflight
      ensures View() == Released(old(View()))
    {
      if inflight > 0 {
        inflight := inflight - 1;
      }
    }
  }

  // What the history says

  /** The failures since the last success. */
  function TrailingFailures(history: seq<Event>): nat {
    if history == [] then 0
    else
      var before := TrailingFailures(history[..|history| - 1]);
      match history[|history| - 1]
      case Fail(_) => before + 1
      case Success => 0
      case _ => before
  }

  lemma WrapSucc(n: nat)
    ensures (n % WRAP + 1) % WRAP == (n + 1) % WRAP
  {
  }

  /** The failure counter is the length of the trailing run of failures, modulo its width. */
  lemma {:induction false} FailuresAreTrailingRun(c: Config, history: seq<Event>)
    ensures After(c, history).failures == TrailingFailures(history) % WRAP
  {
    if history != [] {
      var before := history[..|history| - 1];
      FailuresAreTrailingRun(c, before);
      WrapSucc(TrailingFailures(before));
    }
  }

  /** While the breaker is closed the trailing run is short of the threshold. */
  lemma {:induction false} ClosedBelowThreshold(c: Config, history: seq<Event>)
    requires c.maxFailures < WRAP && After(c, history).mode.Closed?
    ensures TrailingFailures(history) < c.Threshold()
  {
    if history != [] {
      var before := history[..|history| - 1];
      FailuresAreTrailingRun(c, history);
      if After(c, before).mode.Closed? {
        ClosedBelowThreshold(c, before);
      }
    }
  }

  /**
   A closed breaker opens exactly at the failure that completes a run of
   max(1, maxFailures) failures, and no other event moves it.
   */
  lemma OpensExactlyAtThreshold(c: Config, history: seq<Event>, e: Event)
    requires c.maxFailures < WRAP && After(c, history).mode.Closed?
    ensures var next := After(c, history + [e]).mode;
            && (next.Open? <==> e.Fail? && TrailingFailures(history) + 1 == c.Threshold())
            && (!next.Open? ==> next.Closed?)
            && (next.Open? ==> After(c, history + [e]).openSince == Max(After(c, history).openSince, TimeOf(e)))
  {
    assert (history + [e])[..|history|] == history;
    ClosedBelowThreshold(c, history);
    FailuresAreTrailingRun(c, history);
    FailuresAreTrailingRun(c, history + [e]);
  }

  /** A threshold beyond the counter's width is never reached: such a breaker stays closed. */
  lemma {:induction false} WideThresholdNeverOpens(c: Config, history: seq<Event>)
    requires c.maxFailures >= WRAP
    ensures After(c, history).mode.Closed?
  {
    if history != [] {
      WideThresholdNeverOpens(c, history[..|history| - 1]);
    }
  }

  /** A history of failures at one time. */
  function Failures(n: nat, now: int): seq<Event> {
    seq(n, _ => Fail(now))
  }

  lemma {:induction false} FailingTrips(c: Config, n: nat, now: int)
    requires c.maxFailures < WRAP && now > 0 && n <= c.Threshold()
    ensures var v := After(c, Failures(n, now));
            if n < c.Threshold() then v == Initial().(failures := n)
            else v == Opened(Initial().(failures := n), now)
  {
    if n > 0 {
      FailingTrips(c, n - 1, now);
      assert Failures(n, now)[..n - 1] == Failures(n - 1, now);
    }
  }

  /** A breaker can open at all exactly if its threshold fits the failure counter. */
  lemma CanOpenIffThresholdFits(c: Config)
    ensures (exists history :: After(c, history).mode.Open?) <==> c.maxFailures < WRAP
  {
    if c.maxFailures < WRAP {
      FailingTrips(c, c.Threshold(), 1);
      assert After(c, Failures(c.Threshold(), 1)).mode.Open?;
    } else {
      forall history
        ensures !After(c, history).mode.Open?
      {
        WideThresholdNeverOpens(c, history);
      }
    }
  }

  // Open breakers

  function TimeOf(e: Event): int {
    if e.Success? then 0 else e.now
  }

  /** No event is later than the deadline. */
  predicate NotAfter(events: seq<Event>, deadline: int) {
    forall k :: 0 <= k < |events| ==> events[k].Success? || TimeOf(events[k]) <= deadline
  }

  /** An open breaker stays open, and admits nothing, until its timeout has passed. */
  lemma {:induction false} OpenAdmitsNothing(c: Config, v: Counters, events: seq<Event>)
    requires v.mode.Open? && NotAfter(events, v.openSince + c.Reset())
    ensures var w := Exec(c, v, events);
            w.mode.Open? && w.openSince == v.openSince
    ensures forall k :: 0 <= k < |events| && events[k].Allow? ==>
              !Admits(c, Exec(c, v, events[..k]), events[k].now)
  {
    if events != [] {
      var n := |events| - 1;
      OpenAdmitsNothing(c, v, events[..n]);
      forall k | 0 <= k < |events| && events[k].Allow?
        ensures !Admits(c, Exec(c, v, events[..k]), events[k].now)
      {
        if k < n {
          assert events[..n][..k] == events[..k] && events[..n][k] == events[k];
        }
      }
    }
  }

  /** Times are positive and never decrease. */
  predicate Ordered(history: seq<Event>) {
    && (forall k :: 0 <= k < |history| && !history[k].Success? ==> TimeOf(history[k]) > 0)
    && (forall j, k :: 0 <= j < k < |history| && !history[j].Success? && !history[k].Success? ==>
          TimeOf(history[j]) <= TimeOf(history[k]))
  }

  /** The time of the last event that opened the breaker. */
  function LastOpening(c: Config, history: seq<Event>): int {
    if history == [] then 0
    else
      var before := history[..|history| - 1];
      if !After(c, before).mode.Open? && After(c, history).mode.Open? then TimeOf(history[|history| - 1])
      else LastOpening(c, before)
  }

  lemma {:induction false} OpenSinceIsLastOpening(c: Config, history: seq<Event>)
    requires Ordered(history)
    ensures var v := After(c, history);
            && v.openSince == LastOpening(c, history)
            && (v.mode.Open? ==> v.openSince > 0)
            && (v.openSince == 0
                || exists k :: 0 <= k < |history| && !history[k].Success? && v.openSince == TimeOf(history[k]))
  {
    if history != [] {
      var n := |history| - 1;
      OpenSinceIsLastOpening(c, history[..n]);
      var v := After(c, history[..n]);
      if v.openSince != 0 {
        var k :| 0 <= k < n && !history[..n][k].Success? && v.openSince == TimeOf(history[..n][k]);
        assert history[k] == history[..n][k];
      }
      assert After(c, history).openSince == v.openSince || After(c, history).openSince == TimeOf(history[n]);
    }
  }

  /**
   In an orderly history an open breaker admits the next call exactly if strictly more than
   the reset timeout has passed since the failure that opened it.
   */
  lemma OpenAdmitsExactlyAfterTimeout(c: Config, history: seq<Event>, now: int)
    requires c.halfOpenMax >= 1 && Ordered(history) && After(c, history).mode.Open?
    ensures Admits(c, After(c, history), now) <==> now - LastOpening(c, history) > c.Reset()
  {
    OpenSinceIsLastOpening(c, history);
  }

  // The half-open budget

  function Admitted(c: Config, v: Counters, e: Event): nat {
    if e.Allow? && Admits(c, v, e.now) then 1 else 0
  }

  /** Calls admitted in the half-open episode that the history ends in. */
  function EpisodeAdmissions(c: Config, history: seq<Event>): nat {
    if history == [] || !After(c, history).mode.HalfOpen? then 0
    else
      var n := |history| - 1;
      EpisodeAdmissions(c, history[..n]) + Admitted(c, After(c, history[..n]), history[n])
  }

  lemma {:induction false} EpisodeCounters(c: Config, history: seq<Event>)
    requires 1 <= c.halfOpenMax < HALF
    ensures var v := After(c, history);
            && 0 <= v.inflight <= c.halfOpenMax
            && (v.mode.HalfOpen? ==>
                  v.successes < c.halfOpenMax && EpisodeAdmissions(c, history) <= v.inflight + v.successes)
  {
    if history != [] {
      var n := |history| - 1;
      EpisodeCounters(c, history[..n]);
      EpisodeStep(c, After(c, history[..n]), history[n]);
    }
  }

  /** An admission raises the calls in flight, a success turns one of them into a success, and no other event does. */
  lemma EpisodeStep(c: Config, v: Counters, e: Event)
    requires 1 <= c.halfOpenMax < HALF && 0 <= v.inflight <= c.halfOpenMax
    requires v.mode.HalfOpen? ==> v.successes < c.halfOpenMax
    ensures var w := Apply(c, v, e);
            && 0 <= w.inflight <= c.halfOpenMax
            && (w.mode.HalfOpen? ==> w.successes < c.halfOpenMax)
            && (w.mode.HalfOpen? && v.mode.HalfOpen? ==>
                  w.inflight + w.successes >= v.inflight + v.successes + Admitted(c, v, e))
            && (w.mode.HalfOpen? && !v.mode.HalfOpen? ==> w.inflight + w.successes >= Admitted(c, v, e))
  {
  }

  /**
   One half-open episode admits at most 2 * halfOpenMax - 1 calls, and never more than
   halfOpenMax at once, while the maximum fits the counter of calls in flight.
   */
  lemma EpisodeBudget(c: Config, history: seq<Event>)
    requires 1 <= c.halfOpenMax < HALF
    ensures EpisodeAdmissions(c, history) <= 2 * c.halfOpenMax - 1
    ensures 0 <= After(c, history).inflight <= c.halfOpenMax
  {
    EpisodeCounters(c, history);
  }

  // Leaving the modes

  /** Successes recorded in the half-open episode that the history ends in. */
  function EpisodeSuccesses(c: Config, history: seq<Event>): nat {
    if history == [] || !After(c, history).mode.HalfOpen? then 0
    else
      var n := |history| - 1;
      EpisodeSuccesses(c, history[..n]) + if history[n].Success? && After(c, history[..n]).mode.HalfOpen? then 1 else 0
  }

  /** While a half-open breaker stays so its success counter counts the episode's successes. */
  lemma {:induction false} SuccessesAreCounted(c: Config, history: seq<Event>)
    requires After(c, history).mode.HalfOpen?
    ensures After(c, history).successes < WRAP
    ensures c.halfOpenMax < WRAP ==>
              && EpisodeSuccesses(c, history) == After(c, history).successes
              && EpisodeSuccesses(c, history) < Max(1, c.halfOpenMax)
  {
    var n := |history| - 1;
    if After(c, history[..n]).mode.HalfOpen? {
      SuccessesAreCounted(c, history[..n]);
    } else {
      assert EpisodeSuccesses(c, history[..n]) == 0;
    }
  }

  /**
   A half-open breaker is closed exactly by the success that completes halfOpenMax of them,
   which a maximum beyond the counter's width never does; it is opened exactly by a failure,
   at the time of that failure; and it stays half-open otherwise.
   */
  lemma HalfOpenLeaves(c: Config, history: seq<Event>, e: Event)
    requires c.halfOpenMax >= 1 && After(c, history).mode.HalfOpen?
    ensures var v, w := After(c, history), After(c, history + [e]);
            && (w.mode.Closed? <==>
                  e.Success? && c.halfOpenMax < WRAP && EpisodeSuccesses(c, history) + 1 == c.halfOpenMax)
            && (w.mode.Open? <==> e.Fail?)
            && (e.Fail? ==> w.openSince == Max(v.openSince, e.now) && w.inflight == 0 && w.successes == 0)
  {
    AfterOneMore(c, history, e);
    SuccessesAreCounted(c, history);
  }

  /** An open breaker turns half-open exactly when it is asked after its timeout, and is closed by nothing. */
  lemma OpenLeaves(c: Config, history: seq<Event>, e: Event)
    requires c.halfOpenMax >= 1 && Ordered(history) && After(c, history).mode.Open?
    ensures var w := After(c, history + [e]);
            && (w.mode.HalfOpen? <==>
                  (e.Allow? || e.Renormalize?) && TimeOf(e) - LastOpening(c, history) > c.Reset())
            && !w.mode.Closed?
            && (w.mode.HalfOpen? ==> w.successes == 0 && w.inflight == Admitted(c, After(c, history), e))
  {
    AfterOneMore(c, history, e);
    OpenSinceIsLastOpening(c, history);
  }

  /** No success of the episode came before its call was admitted. */
  ghost predicate Paired(c: Config, history: seq<Event>) {
    forall k :: 0 <= k <= |history| ==> EpisodeSuccesses(c, history[..k]) <= EpisodeAdmissions(c, history[..k])
  }

  /** Then the calls in flight are those admitted in the episode whose success was not recorded. */
  lemma {:induction false} InflightIsOutstanding(c: Config, history: seq<Event>)
    requires 1 <= c.halfOpenMax < HALF && Paired(c, history) && After(c, history).mode.HalfOpen?
    ensures After(c, history).inflight == EpisodeAdmissions(c, history) - EpisodeSuccesses(c, history)
  {
    var n := |history| - 1;
    var before := After(c, history[..n]);
    assert Paired(c, history[..n]) by {
      forall k | 0 <= k <= n
        ensures EpisodeSuccesses(c, history[..n][..k]) <= EpisodeAdmissions(c, history[..n][..k])
      {
        assert history[..n][..k] == history[..k];
      }
    }
    assert history[..n + 1] == history;
    EpisodeCounters(c, history[..n]);
    if before.mode.HalfOpen? {
      InflightIsOutstanding(c, history[..n]);
      SuccessesAreCounted(c, history[..n]);
    } else {
      assert EpisodeSuccesses(c, history[..n]) == 0 && EpisodeAdmissions(c, history[..n]) == 0;
    }
  }

  /**
   Which calls are admitted: all while closed; while open, exactly those after the timeout;
   while half-open, exactly those that find fewer than halfOpenMax calls outstanding.
   */
  lemma AdmitsExactly(c: Config, history: seq<Event>, now: int)
    requires 1 <= c.halfOpenMax < HALF && Ordered(history) && Paired(c, history)
    ensures var v := After(c, history);
            Admits(c, v, now) <==>
              match v.mode
              case Closed => true
              case Open => now - LastOpening(c, history) > c.Reset()
              case HalfOpen => EpisodeAdmissions(c, history) - EpisodeSuccesses(c, history) < c.halfOpenMax
  {
    var v := After(c, history);
    if v.mode.Open? {
      OpenAdmitsExactlyAfterTimeout(c, history, now);
    } else if v.mode.HalfOpen? {
      InflightIsOutstanding(c, history);
    }
  }

  /** An event that keeps the breaker half-open, appended to a history. */
  lemma Extend(c: Config, history: seq<Event>, e: Event) returns (longer: seq<Event>)
    ensures longer == history + [e] && After(c, longer) == Apply(c, After(c, history), e)
    ensures After(c, longer).mode.HalfOpen? ==>
              EpisodeAdmissions(c, longer) == EpisodeAdmissions(c, history) + Admitted(c, After(c, history), e)
  {
    longer := history + [e];
    assert longer[..|history|] == history;
  }

  /** Calls that fill the in-flight budget of a half-open breaker. */
  lemma {:induction false} Fill(c: Config, history: seq<Event>, now: int, n: nat) returns (longer: seq<Event>)
    requires var v := After(c, history);
             v.mode.HalfOpen? && v.inflight + n <= c.halfOpenMax < HALF
    ensures After(c, longer) == After(c, history).(inflight := After(c, history).inflight + n)
    ensures EpisodeAdmissions(c, longer) == EpisodeAdmissions(c, history) + n
  {
    longer := history;
    if n > 0 {
      longer := Fill(c, history, now, n - 1);
      longer := Extend(c, longer, Allow(now));
    }
  }

  /** A maximum that does not fit the counter is never reached: it wraps around, and every call is admitted. */
  lemma {:induction false} Flood(c: Config, history: seq<Event>, now: int, n: nat) returns (longer: seq<Event>)
    requires After(c, history).mode.HalfOpen? && After(c, history).inflight < HALF <= c.halfOpenMax
    ensures After(c, longer).mode.HalfOpen? && After(c, longer).inflight < HALF
    ensures EpisodeAdmissions(c, longer) == EpisodeAdmissions(c, history) + n
  {
    longer := history;
    if n > 0 {
      longer := Flood(c, history, now, n - 1);
      longer := Extend(c, longer, Allow(now));
    }
  }

  /** Successes that stop short of closing the breaker. */
  lemma {:induction false} Succeed(c: Config, history: seq<Event>, n: nat) returns (longer: seq<Event>)
    requires var v := After(c, history);
             && v.mode.HalfOpen? && v.failures == 0
             && v.successes + n < c.halfOpenMax < HALF && n <= v.inflight
    ensures var v := After(c, history);
            After(c, longer) == v.(inflight := v.inflight - n, successes := v.successes + n)
    ensures EpisodeAdmissions(c, longer) == EpisodeAdmissions(c, history)
  {
    longer := history;
    if n > 0 {
      longer := Succeed(c, history, n - 1);
      longer := Extend(c, longer, Success);
    }
  }

  /** Failures up to the threshold, a late success, and the timeout: the breaker is half-open, with fresh counters. */
  lemma Probing(c: Config) returns (history: seq<Event>, now: int)
    requires c.maxFailures < WRAP
    ensures var v := After(c, history);
            v.mode.HalfOpen? && v.failures == 0 && v.successes == 0 && v.inflight == 0
    ensures EpisodeAdmissions(c, history) == 0
  {
    now := 2 + c.Reset();
    history := Failures(c.Threshold(), 1);
    FailingTrips(c, c.Threshold(), 1);
    history := Extend(c, history, Success);
    history := Extend(c, history, Renormalize(now));
  }

  /** Every breaker that can open has a history that uses the whole budget. */
  lemma EpisodeBudgetIsReached(c: Config) returns (history: seq<Event>)
    requires c.halfOpenMax >= 1 && c.maxFailures < WRAP
    ensures EpisodeAdmissions(c, history) == 2 * c.halfOpenMax - 1
  {
    var now;
    history, now := Probing(c);
    if c.halfOpenMax < HALF {
      history := Fill(c, history, now, c.halfOpenMax);
      history := Succeed(c, history, c.halfOpenMax - 1);
      history := Fill(c, history, now, c.halfOpenMax - 1);
    } else {
      history := Flood(c, history, now, 2 * c.halfOpenMax - 1);
    }
  }

  /** A breaker whose threshold is never reached admits nothing in a half-open episode, since it has none. */
  lemma NeverHalfOpen(c: Config, history: seq<Event>)
    requires c.maxFailures >= WRAP
    ensures EpisodeAdmissions(c, history) == 0
  {
    WideThresholdNeverOpens(c, history);
  }

  /** Exactly which breakers keep the budget: those whose maximum fits the counter, and those that never open. */
  lemma EpisodeBudgetIff(c: Config)
    requires c.halfOpenMax >= 1
    ensures (forall history :: EpisodeAdmissions(c, history) <= 2 * c.halfOpenMax - 1)
            <==> c.halfOpenMax < HALF || c.maxFailures >= WRAP
  {
    if c.halfOpenMax < HALF || c.maxFailures >= WRAP {
      forall history
        ensures EpisodeAdmissions(c, history) <= 2 * c.halfOpenMax - 1
      {
        if c.halfOpenMax < HALF {
          EpisodeBudget(c, history);
        } else {
          NeverHalfOpen(c, history);
        }
      }
    } else {
      var history, now := Probing(c);
      history := Flood(c, history, now, 2 * c.halfOpenMax);
    }
  }
}
