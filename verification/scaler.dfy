/**
 The periodic scaler (scaler.go) over the worker registry (lifecycle.go), one call at a
 time. Loads are reals; times are inputs.
 */
module Scaler {
  import opened Common
  import opened Masking

  datatype Config = Config(
    minWorkers: int, maxWorkers: int,
    targetLoad: real, scaleUp: real, scaleDown: real,
    cooldown: int)
  {
    /** What NewQ makes of its arguments. */
    predicate Sane() {
      1 <= minWorkers <= maxWorkers
    }

    function Target(): (t: real)
      ensures t >= 1.0
    {
      if targetLoad > 1.0 then targetLoad else 1.0
    }
  }

  datatype Reading = Reading(workers: int, queued: nat)

  // Specification

  function Ceil(x: real): (k: int)
    ensures k as real >= x > k as real - 1.0
  {
    -((-x).Floor)
  }

  function Load(r: Reading): real {
    r.queued as real / Max(1, r.workers) as real
  }

  /** Integer halving as in Go, towards zero. */
  function Half(x: int): int {
    if x >= 0 then x / 2 else -(-x / 2)
  }

  function Needed(c: Config, r: Reading): int {
    Ceil(r.queued as real / c.Target())
  }

  function ToAdd(c: Config, r: Reading): int {
    if Load(r) > c.scaleUp && r.workers < c.maxWorkers then
      Min(c.maxWorkers - r.workers, Max(0, Needed(c, r) - r.workers))
    else 0
  }

  function ToRemove(c: Config, r: Reading): int {
    if Load(r) < c.scaleDown && r.workers > c.minWorkers then
      Min(r.workers - c.minWorkers, Max(1, Half(r.workers - Max(Needed(c, r), c.minWorkers))))
    else 0
  }

  /** Workers after one evaluation of reading r by a pool that has `workers` workers. */
  function Evaluated(c: Config, workers: int, r: Reading, cooled: bool): int {
    var grown := workers + Max(0, Min(c.maxWorkers - workers, ToAdd(c, r)));
    if cooled then Max(0, grown - ToRemove(c, r)) else grown
  }

  /** The scaler's workers, the time of its last removal, and the reading that it keeps. */
  datatype Loop = Loop(workers: int, last: int, reading: Option<Reading>)

  /** A reading arrives, or the scaler looks again; `queued` is what a reading taken then would find. */
  datatype Call = Observe(reading: Reading, now: int) | Renormalize(queued: nat, now: int)

  predicate Cooled(c: Config, v: Loop, now: int) {
    now - v.last >= c.cooldown
  }

  /** The reading that an evaluation uses: the kept one, however old, or one that it takes. */
  function Latest(v: Loop, queued: nat): Reading {
    if v.reading.Some? then v.reading.value else Reading(v.workers, queued)
  }

  function Judged(c: Config, v: Loop, queued: nat, now: int): Loop {
    var r := Latest(v, queued);
    Loop(Evaluated(c, v.workers, r, Cooled(c, v, now)),
         if Cooled(c, v, now) && ToRemove(c, r) > 0 then now else v.last,
         Some(r))
  }

  function Apply(c: Config, v: Loop, call: Call): Loop {
    match call
    case Observe(r, now) => Judged(c, v.(reading := Some(r)), 0, now)
    case Renormalize(queued, now) => if Cooled(c, v, now) then Judged(c, v, queued, now) else v
  }

  function Exec(c: Config, v: Loop, calls: seq<Call>): Loop {
    if calls == [] then v
    else Apply(c, Exec(c, v, calls[..|calls| - 1]), calls[|calls| - 1])
  }

  // The objects

  class Pool {
    const maxWorkers: int
    var workerCount: int
    var nextWorker: nat
    var registry: seq<nat>
    var activeWorkers: int

    ghost predicate Valid()
      reads this
    {
      workerCount == |registry| <= maxWorkers
    }

    constructor (maxWorkers: int)
      requires maxWorkers >= 1
      ensures Valid() && this.maxWorkers == maxWorkers && workerCount == 0
    {
      this.maxWorkers := maxWorkers;
      workerCount, nextWorker, registry, activeWorkers := 0, 0, [], 0;
    }

    method StartWorker()
      requires Valid()
      modifies this
      ensures Valid() && workerCount == Min(maxWorkers, old(workerCount) + 1)
      ensures if old(workerCount) < maxWorkers
              then registry == [old(nextWorker) + 1] + old(registry) && activeWorkers == workerCount
              else registry == old(registry) && activeWorkers == old(activeWorkers)
    {
      if workerCount >= maxWorkers {
        return;
      }
      workerCount := workerCount + 1;
      nextWorker := nextWorker + 1;
      registry := [nextWorker] + registry;
      SetActiveWorkers(workerCount);
    }

    /** Stops the most recently started workers, as many as there are. */
    method ScaleDownWorkers(count: int)
      requires Valid()
      modifies this
      ensures Valid()
      ensures var stopped := Max(0, Min(count, old(workerCount)));
              && registry == old(registry)[stopped..] && workerCount == old(workerCount) - stopped
              && activeWorkers == if stopped > 0 then Max(1, workerCount) else old(activeWorkers)
    {
      var i := 0;
      while i < count
        invariant 0 <= i && i <= Max(0, count) && i <= old(workerCount)
        invariant Valid() && registry == old(registry)[i..]
        invariant activeWorkers == if i > 0 then Max(1, workerCount) else old(activeWorkers)
      {
        if registry == [] {
          return;
        }
        registry := registry[1..];
        workerCount := workerCount - 1;
        SetActiveWorkers(workerCount);
        i := i + 1;
      }
    }

    method SetActiveWorkers(workers: int)
      modifies this`activeWorkers
      ensures activeWorkers == Max(1, workers)
    {
      activeWorkers := if workers < 1 then 1 else workers;
    }
  }

  class ScalerLoop {
    const config: Config
    const pool: Pool
    var lastScaleDown: int
    var reading: Option<Reading>

    ghost predicate Valid()
      reads this, pool
    {
      pool.Valid() && config.maxWorkers == pool.maxWorkers
    }

    ghost function View(): Loop
      reads this, pool
    {
      Loop(pool.workerCount, lastScaleDown, reading)
    }

    constructor (config: Config, pool: Pool, now: int)
      requires pool.Valid() && config.maxWorkers == pool.maxWorkers
      ensures Valid() && this.config == config && this.pool == pool && View() == Loop(pool.workerCount, now, None)
    {
      this.config, this.pool, lastScaleDown, reading := config, pool, now, None;
    }

    method Observe(r: Reading, now: int)
      requires Valid()
      modifies this, pool
      ensures Valid() && View() == Apply(config, old(View()), Call.Observe(r, now))
    {
      reading := Some(r);
      Evaluate(0, now);
    }

    method Renormalize(queued: nat, now: int)
      requires Valid()
      modifies this, pool
      ensures Valid() && View() == Apply(config, old(View()), Call.Renormalize(queued, now))
    {
      if now - lastScaleDown >= config.cooldown {
        Evaluate(queued, now);
      }
    }

    /** Evaluates the kept reading, or takes one; `queued` is the length of the queue. */
    method Evaluate(queued: nat, now: int)
      requires Valid()
      modifies this, pool
      ensures Valid() && View() == Judged(config, old(View()), queued, now)
    {
      if reading == None {
        reading := Some(Reading(pool.workerCount, queued));
      }
      Scale(reading.value, now);
    }

    method ScaleUp(count: int)
      requires pool.Valid() && config.maxWorkers == pool.maxWorkers
      modifies pool
      ensures pool.Valid()
      ensures pool.workerCount == old(pool.workerCount) + Max(0, Min(config.maxWorkers - old(pool.workerCount), count))
    {
      var starts := Min(config.maxWorkers - pool.workerCount, count);
      var i := 0;
      while i < starts
        invariant 0 <= i <= Max(0, starts)
        invariant pool.Valid() && pool.workerCount == old(pool.workerCount) + i
      {
        pool.StartWorker();
        i := i + 1;
      }
    }

    /** The part of an evaluation that follows the choice of its reading. */
    method Scale(r: Reading, now: int)
      requires pool.Valid() && config.maxWorkers == pool.maxWorkers
      modifies this`lastScaleDown, pool
      ensures pool.Valid()
      ensures pool.workerCount ==
              Evaluated(config, old(pool.workerCount), r, now - old(lastScaleDown) >= config.cooldown)
      ensures lastScaleDown ==
              if now - old(lastScaleDown) >= config.cooldown && ToRemove(config, r) > 0 then now
              else old(lastScaleDown)
    {
      var currentLoad := Load(r);
      if currentLoad > config.scaleUp && r.workers < config.maxWorkers {
        var needed := Needed(config, r);
        var delta := Max(0, needed - r.workers);
        var toAdd := Min(config.maxWorkers - r.workers, delta);
        if toAdd > 0 {
          ScaleUp(toAdd);
        }
      }
      if now - lastScaleDown < config.cooldown {
        return;
      }
      if currentLoad < config.scaleDown && r.workers > config.minWorkers {
        var needed := Max(Needed(config, r), config.minWorkers);
        var toRemove := Min(r.workers - config.minWorkers, Max(1, Half(r.workers - needed)));
        if toRemove > 0 {
          pool.ScaleDownWorkers(toRemove);
          lastScaleDown := now;
        }
      }
    }
  }

  // Bounds

  /** A reading that counts no worker too many keeps the pool between its bounds, for any load and thresholds. */
  lemma KeepsBounds(c: Config, workers: int, r: Reading, cooled: bool)
    requires c.Sane() && c.minWorkers <= workers <= c.maxWorkers && r.workers <= workers
    ensures c.minWorkers <= Evaluated(c, workers, r, cooled) <= c.maxWorkers
  {
  }

  /** Whatever the configuration and the load, one evaluation of this reading stays within the bounds. */
  ghost predicate Safe(workers: int, reading: int) {
    forall c: Config, queued: nat, cooled: bool :: c.Sane() && c.minWorkers <= workers <= c.maxWorkers ==>
      c.minWorkers <= Evaluated(c, workers, Reading(reading, queued), cooled) <= c.maxWorkers
  }

  /** A reading is safe exactly if it counts no worker that is gone; a stale one can break the minimum. */
  lemma SafeIffNotStale(workers: int, reading: int)
    requires workers >= 1
    ensures Safe(workers, reading) <==> reading <= workers
  {
    if reading <= workers {
      forall c: Config, queued: nat, cooled: bool | c.Sane() && c.minWorkers <= workers <= c.maxWorkers
        ensures c.minWorkers <= Evaluated(c, workers, Reading(reading, queued), cooled) <= c.maxWorkers
      {
        KeepsBounds(c, workers, Reading(reading, queued), cooled);
      }
    } else {
      var c := Config(workers, workers, 1.0, 2.0, 1.0, 0);
      var r := Reading(reading, 0);
      assert Load(r) == 0.0;
      assert Needed(c, r) == 0;
      assert ToRemove(c, r) >= 1;
      assert Evaluated(c, workers, Reading(reading, 0), true) < workers;
    }
  }

  /** The reading that this call evaluates, if it does, counts no worker too many. */
  predicate FreshCall(c: Config, v: Loop, call: Call) {
    match call
    case Observe(r, _) => r.workers <= v.workers
    case Renormalize(queued, now) => Cooled(c, v, now) ==> Latest(v, queued).workers <= v.workers
  }

  ghost predicate FreshRun(c: Config, v: Loop, calls: seq<Call>) {
    forall k :: 0 <= k < |calls| ==> FreshCall(c, Exec(c, v, calls[..k]), calls[k])
  }

  ghost predicate InBounds(c: Config, v: Loop) {
    c.minWorkers <= v.workers <= c.maxWorkers
  }

  lemma FreshPrefix(c: Config, v: Loop, calls: seq<Call>, n: nat)
    requires FreshRun(c, v, calls) && n <= |calls|
    ensures FreshRun(c, v, calls[..n])
  {
    forall k | 0 <= k < n
      ensures FreshCall(c, Exec(c, v, calls[..n][..k]), calls[..n][k])
    {
      assert calls[..n][..k] == calls[..k] && FreshCall(c, Exec(c, v, calls[..k]), calls[k]);
    }
  }

  /** Over every run with fresh readings the pool stays between its bounds. */
  lemma {:induction false} FreshRunKeepsBounds(c: Config, v: Loop, calls: seq<Call>)
    requires c.Sane() && InBounds(c, v) && FreshRun(c, v, calls)
    ensures InBounds(c, Exec(c, v, calls))
  {
    if calls != [] {
      var n := |calls| - 1;
      assert FreshCall(c, Exec(c, v, calls[..n]), calls[n]);
      FreshPrefix(c, v, calls, n);
      FreshRunKeepsBounds(c, v, calls[..n]);
    }
  }

  /** The time of the last call that left fewer workers. */
  function LastDrop(c: Config, v: Loop, calls: seq<Call>): int {
    if calls == [] then v.last
    else
      var before := calls[..|calls| - 1];
      if Exec(c, v, calls).workers < Exec(c, v, before).workers then calls[|calls| - 1].now else LastDrop(c, v, before)
  }

  lemma DropStep(c: Config, v: Loop, call: Call)
    requires c.Sane() && c.scaleDown <= c.scaleUp && InBounds(c, v) && FreshCall(c, v, call)
    ensures var w := Apply(c, v, call);
            && w.last == (if w.workers < v.workers then call.now else v.last)
            && (w.workers < v.workers ==> call.now - v.last >= c.cooldown)
  {
  }

  /** Over every run with fresh readings, workers are removed no sooner than a cooldown after the last removal. */
  lemma {:induction false} RemovalsAreSpaced(c: Config, v: Loop, calls: seq<Call>)
    requires c.Sane() && c.scaleDown <= c.scaleUp && InBounds(c, v) && FreshRun(c, v, calls)
    ensures Exec(c, v, calls).last == LastDrop(c, v, calls)
    ensures calls != [] && Exec(c, v, calls).workers < Exec(c, v, calls[..|calls| - 1]).workers ==>
              calls[|calls| - 1].now - LastDrop(c, v, calls[..|calls| - 1]) >= c.cooldown
  {
    if calls != [] {
      var n := |calls| - 1;
      FreshPrefix(c, v, calls, n);
      FreshRunKeepsBounds(c, v, calls[..n]);
      RemovalsAreSpaced(c, v, calls[..n]);
      assert FreshCall(c, Exec(c, v, calls[..n]), calls[n]);
      DropStep(c, Exec(c, v, calls[..n]), calls[n]);
    }
  }

  /** Every reading that arrives counts the workers that there are. */
  ghost predicate Exact(c: Config, v: Loop, calls: seq<Call>) {
    forall k :: 0 <= k < |calls| && calls[k].Observe? ==> calls[k].reading.workers == Exec(c, v, calls[..k]).workers
  }

  lemma ExactPrefix(c: Config, v: Loop, calls: seq<Call>, n: nat)
    requires Exact(c, v, calls) && n <= |calls|
    ensures Exact(c, v, calls[..n])
  {
    forall k | 0 <= k < n && calls[..n][k].Observe?
      ensures calls[..n][k].reading.workers == Exec(c, v, calls[..n][..k]).workers
    {
      assert calls[..n][..k] == calls[..k];
    }
  }

  /** From every pool within its bounds that has kept no reading yet, exact readings keep it there. */
  ghost predicate ExactRunsSafe(c: Config) {
    forall workers: int, start: int, calls: seq<Call> ::
      InBounds(c, Loop(workers, start, None)) && Exact(c, Loop(workers, start, None), calls) ==>
      InBounds(c, Exec(c, Loop(workers, start, None), calls))
  }

  /** A pool that never removes, or whose size is fixed, keeps its bounds even with kept readings. */
  lemma {:induction false} NoRemovalKeepsBounds(c: Config, v: Loop, calls: seq<Call>)
    requires c.Sane() && (c.minWorkers == c.maxWorkers || c.scaleDown <= 0.0)
    requires InBounds(c, v) && v.reading == None && Exact(c, v, calls)
    ensures var w := Exec(c, v, calls);
            InBounds(c, w) && (w.reading.Some? ==> w.reading.value.workers <= c.maxWorkers)
  {
    if calls != [] {
      var n := |calls| - 1;
      ExactPrefix(c, v, calls, n);
      NoRemovalKeepsBounds(c, v, calls[..n]);
      NeverRemoves(c, Exec(c, v, calls[..n]), calls[n]);
    }
  }

  lemma NeverRemoves(c: Config, v: Loop, call: Call)
    requires c.Sane() && (c.minWorkers == c.maxWorkers || c.scaleDown <= 0.0)
    requires InBounds(c, v) && (v.reading.Some? ==> v.reading.value.workers <= c.maxWorkers)
    requires call.Observe? ==> call.reading.workers == v.workers
    ensures var w := Apply(c, v, call);
            InBounds(c, w) && (w.reading.Some? ==> w.reading.value.workers <= c.maxWorkers)
  {
    var r := if call.Observe? then call.reading else Latest(v, call.queued);
    assert Load(r) >= 0.0;
    assert ToRemove(c, r) == 0;
  }

  /** An exact reading of an idle pool one above its minimum, and a second look at it after the cooldown. */
  function ObserveTwice(c: Config, start: int, queued: nat): seq<Call> {
    var wait := Max(0, c.cooldown);
    [Observe(Reading(c.minWorkers + 1, 0), start + wait), Renormalize(queued, start + 2 * wait)]
  }

  lemma OneAboveMinimum(c: Config)
    requires c.Sane() && c.minWorkers < c.maxWorkers && c.scaleDown > 0.0
    ensures var r := Reading(c.minWorkers + 1, 0);
            ToRemove(c, r) == 1 && ToAdd(c, r) <= 0
  {
    var r := Reading(c.minWorkers + 1, 0);
    assert Load(r) == 0.0 && 0.0 / c.Target() == 0.0;
    assert Needed(c, r) == 0;
  }

  /** An evaluation of that reading removes one worker from a pool of any size within reach. */
  lemma RemovesOne(c: Config, v: Loop, queued: nat, now: int)
    requires c.Sane() && c.minWorkers < c.maxWorkers && c.scaleDown > 0.0 && Cooled(c, v, now)
    requires 1 <= v.workers <= c.maxWorkers && v.reading == Some(Reading(c.minWorkers + 1, 0))
    ensures Judged(c, v, queued, now) == v.(workers := v.workers - 1, last := now)
  {
    OneAboveMinimum(c);
  }

  /** A kept reading removes the same worker twice, and the second time below the minimum. */
  lemma KeptReadingRemovesTwice(c: Config, start: int, queued: nat)
    requires c.Sane() && c.minWorkers < c.maxWorkers && c.scaleDown > 0.0
    ensures var v := Loop(c.minWorkers + 1, start, None);
            Exact(c, v, ObserveTwice(c, start, queued))
            && Exec(c, v, ObserveTwice(c, start, queued)).workers == c.minWorkers - 1
  {
    var v, r := Loop(c.minWorkers + 1, start, None), Reading(c.minWorkers + 1, 0);
    var calls := ObserveTwice(c, start, queued);
    RemovesOne(c, v.(reading := Some(r)), 0, calls[0].now);
    var w := Apply(c, v, calls[0]);
    RemovesOne(c, w, queued, calls[1].now);
    assert calls[..0] == [] && calls[..1] == [calls[0]] && calls[..1][..0] == [];
    assert Exec(c, v, calls[..1]) == w;
  }

  /** Exact readings keep a pool in its bounds exactly if its size is fixed or its down-threshold is never met. */
  lemma ExactRunsSafeIff(c: Config)
    requires c.Sane()
    ensures ExactRunsSafe(c) <==> c.minWorkers == c.maxWorkers || c.scaleDown <= 0.0
  {
    if c.minWorkers == c.maxWorkers || c.scaleDown <= 0.0 {
      forall workers: int, start: int, calls: seq<Call>
        | InBounds(c, Loop(workers, start, None)) && Exact(c, Loop(workers, start, None), calls)
        ensures InBounds(c, Exec(c, Loop(workers, start, None), calls))
      {
        NoRemovalKeepsBounds(c, Loop(workers, start, None), calls);
      }
    } else {
      KeptReadingRemovesTwice(c, 0, 0);
      var v := Loop(c.minWorkers + 1, 0, None);
      var calls := ObserveTwice(c, 0, 0);
      assert InBounds(c, v) && Exact(c, v, calls) && !InBounds(c, Exec(c, v, calls));
    }
  }

  lemma QuotientBound(q: real, t: real, n: int)
    requires t > 0.0 && n >= 1 && n as real >= q / t
    ensures q / n as real <= t
  {
    assert q == q / t * t;
    assert (n as real - q / t) * t >= 0.0;
    assert q <= n as real * t;
    var x := q / n as real;
    assert x * n as real == q;
    if x > t {
      assert (x - t) * n as real > 0.0;
    }
  }

  /**
   With thresholds in order, an evaluation that adds workers ends at the maximum or with a
   load per worker of at most the target.
   */
  lemma ScaleUpReachesTarget(c: Config, r: Reading, cooled: bool)
    requires c.Sane() && c.scaleDown <= c.scaleUp && c.minWorkers <= r.workers <= c.maxWorkers
    requires ToAdd(c, r) > 0
    ensures var n := Evaluated(c, r.workers, r, cooled);
            n > r.workers && (n == c.maxWorkers || r.queued as real / n as real <= c.Target())
  {
    var n := Evaluated(c, r.workers, r, cooled);
    assert n == r.workers + ToAdd(c, r);
    if n != c.maxWorkers {
      assert n == Needed(c, r);
      QuotientBound(r.queued as real, c.Target(), n);
    }
  }

  lemma QuotientAbove(q: real, t: real, n: int)
    requires t > 0.0 && n >= 1 && n as real < q / t
    ensures q / n as real > t
  {
    assert q == q / t * t;
    assert (q / t - n as real) * t > 0.0;
    assert q > n as real * t;
    var x := q / n as real;
    assert x * n as real == q;
    assert x <= t ==> (t - x) * n as real >= 0.0;
  }

  /** A scale-up adds no worker that is not needed: any smaller pool would be above the target load. */
  lemma ScaleUpIsLeast(c: Config, r: Reading, cooled: bool, m: int)
    requires c.Sane() && c.scaleDown <= c.scaleUp && c.minWorkers <= r.workers <= c.maxWorkers
    ensures r.workers <= m < Evaluated(c, r.workers, r, cooled) ==> r.queued as real / m as real > c.Target()
  {
    if r.workers <= m < Evaluated(c, r.workers, r, cooled) {
      assert m < Needed(c, r);
      assert m as real <= Needed(c, r) as real - 1.0;
      QuotientAbove(r.queued as real, c.Target(), m);
    }
  }

  /** The pool grows only above the up-threshold, and shrinks only below the down-threshold after the cooldown. */
  lemma ChangesOnlyOutsideBand(c: Config, r: Reading, cooled: bool)
    requires c.Sane() && c.minWorkers <= r.workers <= c.maxWorkers
    ensures var n := Evaluated(c, r.workers, r, cooled);
            && (n > r.workers ==> Load(r) > c.scaleUp && r.workers < c.maxWorkers)
            && (n < r.workers ==> cooled && Load(r) < c.scaleDown && r.workers > c.minWorkers)
  {
  }

  /** Above the up-threshold the pool does grow, if the target asks for more than it has. */
  lemma GrowsWhenLoaded(c: Config, r: Reading, cooled: bool)
    requires c.Sane() && c.scaleDown <= c.scaleUp && c.minWorkers <= r.workers < c.maxWorkers && Load(r) > c.scaleUp
    ensures Evaluated(c, r.workers, r, cooled) > r.workers <==> r.queued as real / r.workers as real > c.Target()
  {
    var q, t, w := r.queued as real, c.Target(), r.workers;
    if Needed(c, r) > w {
      assert w as real <= Needed(c, r) as real - 1.0;
      QuotientAbove(q, t, w);
    } else {
      QuotientBound(q, t, w);
    }
  }

  /** What the queue asks for, and no less than the minimum. */
  function Floor(c: Config, r: Reading): int {
    Max(Needed(c, r), c.minWorkers)
  }

  /** Below the down-threshold an evaluation halves the gap to what is asked for, and removes one if there is no gap. */
  lemma ScaleDownHalves(c: Config, r: Reading)
    requires c.Sane() && c.scaleDown <= c.scaleUp && c.minWorkers < r.workers <= c.maxWorkers && Load(r) < c.scaleDown
    ensures Evaluated(c, r.workers, r, true) ==
            if r.workers > Floor(c, r) then Floor(c, r) + Shrink(r.workers - Floor(c, r)) else r.workers - 1
  {
  }

  // Shrinking when idle

  /** What an evaluation leaves of the gap above the minimum when the queue is empty. */
  function Shrink(gap: nat): nat {
    if gap == 0 then 0 else gap - Max(1, gap / 2)
  }

  lemma IdleShrinksGap(c: Config, gap: nat)
    requires c.Sane() && c.scaleDown > 0.0 && c.minWorkers + gap <= c.maxWorkers
    ensures Evaluated(c, c.minWorkers + gap, Reading(c.minWorkers + gap, 0), true) == c.minWorkers + Shrink(gap)
  {
    var r := Reading(c.minWorkers + gap, 0);
    assert Load(r) == 0.0;
    assert 0.0 / c.Target() == 0.0;
    assert Needed(c, r) == 0;
  }

  /** The least k with 2^k at least n. */
  function CeilLog2(n: nat): (k: nat)
    requires n >= 1
    ensures Pow2(k) >= n
    ensures k == 0 || Pow2(k - 1) < n
    decreases n
  {
    if n == 1 then 0 else CeilLog2((n + 1) / 2) + 1
  }

  /** Every call observes the pool as it is, with an empty queue and after its cooldown. */
  ghost predicate Idling(c: Config, v: Loop, calls: seq<Call>) {
    forall k :: 0 <= k < |calls| ==> IdleCall(c, Exec(c, v, calls[..k]), calls[k])
  }

  predicate IdleCall(c: Config, v: Loop, call: Call) {
    call.Observe? && call.reading == Reading(v.workers, 0) && Cooled(c, v, call.now)
  }

  lemma IdlePrefix(c: Config, v: Loop, calls: seq<Call>, n: nat)
    requires Idling(c, v, calls) && n <= |calls|
    ensures Idling(c, v, calls[..n])
  {
    forall k | 0 <= k < n
      ensures IdleCall(c, Exec(c, v, calls[..n][..k]), calls[..n][k])
    {
      assert calls[..n][..k] == calls[..k] && IdleCall(c, Exec(c, v, calls[..k]), calls[k]);
    }
  }

  lemma IdleCallShrinks(c: Config, v: Loop, gap: nat, call: Call)
    requires c.Sane() && c.scaleDown > 0.0 && v.workers == c.minWorkers + gap <= c.maxWorkers && IdleCall(c, v, call)
    ensures Apply(c, v, call).workers == c.minWorkers + Shrink(gap)
  {
    IdleShrinksGap(c, gap);
  }

  /** The gap after n evaluations. */
  function GapAfter(gap: nat, n: nat): nat {
    if n == 0 then gap else Shrink(GapAfter(gap, n - 1))
  }

  lemma {:induction false} IdleRunShrinks(c: Config, v: Loop, gap: nat, calls: seq<Call>)
    requires c.Sane() && c.scaleDown > 0.0 && v.workers == c.minWorkers + gap <= c.maxWorkers && Idling(c, v, calls)
    ensures Exec(c, v, calls).workers == c.minWorkers + GapAfter(gap, |calls|) && GapAfter(gap, |calls|) <= gap
  {
    if calls != [] {
      var n := |calls| - 1;
      IdlePrefix(c, v, calls, n);
      IdleRunShrinks(c, v, gap, calls[..n]);
      assert IdleCall(c, Exec(c, v, calls[..n]), calls[n]);
      IdleCallShrinks(c, Exec(c, v, calls[..n]), GapAfter(gap, n), calls[n]);
    }
  }

  lemma {:induction false} GapFirstStep(gap: nat, n: nat)
    ensures GapAfter(gap, n + 1) == GapAfter(Shrink(gap), n)
  {
    if n > 0 {
      GapFirstStep(gap, n - 1);
    }
  }

  /** A gap of at least one takes exactly CeilLog2(gap) + 1 evaluations to close. */
  lemma {:induction false} GapCloses(gap: nat, n: nat)
    requires gap >= 1
    ensures GapAfter(gap, n) == 0 <==> n >= CeilLog2(gap) + 1
    decreases n
  {
    if n > 0 {
      GapFirstStep(gap, n - 1);
      if gap == 1 {
        ClosedStaysClosed(n - 1);
      } else {
        ShrinkHalves(gap);
        GapCloses(Shrink(gap), n - 1);
      }
    }
  }

  lemma ShrinkHalves(gap: nat)
    requires gap >= 2
    ensures Shrink(gap) >= 1 && CeilLog2(gap) == CeilLog2(Shrink(gap)) + 1
  {
    assert Shrink(gap) == (gap + 1) / 2;
  }

  lemma {:induction false} ClosedStaysClosed(n: nat)
    ensures GapAfter(0, n) == 0
  {
    if n > 0 {
      ClosedStaysClosed(n - 1);
    }
  }

  /**
   With a positive down-threshold and an idle queue, observations after each cooldown bring
   the pool to its minimum after exactly CeilLog2(gap) + 1 of them.
   */
  lemma IdlePoolShrinksLogarithmically(c: Config, v: Loop, gap: nat, calls: seq<Call>)
    requires c.Sane() && c.scaleDown > 0.0 && gap >= 1 && v.workers == c.minWorkers + gap <= c.maxWorkers
    requires Idling(c, v, calls)
    ensures Exec(c, v, calls).workers == c.minWorkers <==> |calls| >= CeilLog2(gap) + 1
  {
    IdleRunShrinks(c, v, gap, calls);
    GapCloses(gap, |calls|);
  }
}
