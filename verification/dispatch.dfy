/**
 The job queue together with the pool that feeds its active-worker count (disruptor_queue.go,
 lifecycle.go, pool.go). The store by which a goroutine of the pool publishes a worker count
 is the one that the queue's handlers load, so both machines take that step at once. The
 queue has a handler for every worker that the pool may have.
 */
module Dispatch {
  import opened Common
  import opened Masking
  import DisruptorQueue
  import QueueCalls
  import WorkerPool

  datatype State = State(pool: WorkerPool.State, queue: DisruptorQueue.State)

  datatype Action = Pool(pool: WorkerPool.Action) | Queue(queue: DisruptorQueue.Action)

  /** With this action a goroutine of the pool publishes a worker count. */
  predicate Publishes(s: WorkerPool.State, a: WorkerPool.Action) {
    a.Thread? && a.thread < |s.threads| && s.threads[a.thread].StoreActive?
  }

  /** Only the pool publishes worker counts. */
  function Step(maxWorkers: nat, s: State, a: Action): State {
    match a
    case Pool(a) =>
      State(WorkerPool.Step(maxWorkers, s.pool, a),
            if Publishes(s.pool, a)
            then DisruptorQueue.Step(s.queue, DisruptorQueue.SetActive(s.pool.threads[a.thread].workers))
            else s.queue)
    case Queue(a) =>
      if a.SetActive? then s else s.(queue := DisruptorQueue.Step(s.queue, a))
  }

  function Run(maxWorkers: nat, s: State, actions: seq<Action>): State {
    if actions == [] then s
    else Step(maxWorkers, Run(maxWorkers, s, actions[..|actions| - 1]), actions[|actions| - 1])
  }

  function Init(maxWorkers: nat, threads: nat, capacity: nat, publishers: nat): State {
    State(WorkerPool.Init(threads), DisruptorQueue.Init(capacity, publishers, maxWorkers))
  }

  /** The worker limit that the constructor makes of its argument. */
  function Limit(maxWorkers: int): (n: nat)
    ensures n >= 1 && n >= maxWorkers
  {
    Max(1, maxWorkers)
  }

  /** Every run of the whole is one of its pool, and one of its queue that publishes only counts within the handlers. */
  lemma {:induction false} Projects(n: nat, threads: nat, capacity: nat, publishers: nat, actions: seq<Action>)
    returns (pool: seq<WorkerPool.Action>, queue: seq<DisruptorQueue.Action>)
    requires n >= 1
    ensures var s := Run(n, Init(n, threads, capacity, publishers), actions);
            && s.pool == WorkerPool.Run(n, WorkerPool.Init(threads), pool)
            && s.queue == DisruptorQueue.Run(DisruptorQueue.Init(capacity, publishers, n), queue)
    ensures DisruptorQueue.Bounded(queue, n)
  {
    if actions == [] {
      pool, queue := [], [];
    } else {
      var before, a := actions[..|actions| - 1], actions[|actions| - 1];
      pool, queue := Projects(n, threads, capacity, publishers, before);
      var s := Run(n, Init(n, threads, capacity, publishers), before);
      match a
      case Pool(a) =>
        if Publishes(s.pool, a) {
          WorkerPool.EffectiveWorkersInRange(n, threads, pool);
          queue := Publish(capacity, publishers, n, queue, DisruptorQueue.SetActive(s.pool.threads[a.thread].workers));
        }
        pool := pool + [a];
        assert pool[..|pool| - 1] + [a] == pool;
      case Queue(a) =>
        if !a.SetActive? {
          queue := Publish(capacity, publishers, n, queue, a);
        }
    }
  }

  lemma Publish(capacity: nat, publishers: nat, n: nat, queue: seq<DisruptorQueue.Action>, a: DisruptorQueue.Action)
    returns (longer: seq<DisruptorQueue.Action>)
    requires DisruptorQueue.Bounded(queue, n) && (a.SetActive? ==> a.workers <= n)
    ensures DisruptorQueue.Bounded(longer, n)
    ensures var s := DisruptorQueue.Init(capacity, publishers, n);
            DisruptorQueue.Run(s, longer) == DisruptorQueue.Step(DisruptorQueue.Run(s, queue), a)
  {
    longer := queue + [a];
    assert longer[..|longer| - 1] == queue;
  }

  // Main results

  /** Whatever the pool does, every assignment names an existing handler. */
  lemma ChosenWorkerExists(maxWorkers: int, threads: nat, capacity: nat, publishers: nat, actions: seq<Action>)
    ensures var n := Limit(maxWorkers);
            DisruptorQueue.OwnersExist(Run(n, Init(n, threads, capacity, publishers), actions).queue)
  {
    var n := Limit(maxWorkers);
    var pool, queue := Projects(n, threads, capacity, publishers, actions);
    DisruptorQueue.ChosenWorkerExists(capacity, publishers, n, queue);
  }

  /** In every interleaving of pool and queue, a job that all handlers have passed has run exactly once. */
  lemma ExactlyOnce(maxWorkers: int, threads: nat, capacity: nat, publishers: nat, actions: seq<Action>, x: nat)
    requires IsPow2(capacity)
    requires var n := Limit(maxWorkers);
             DisruptorQueue.PassedByAll(Run(n, Init(n, threads, capacity, publishers), actions).queue, x)
    ensures var n := Limit(maxWorkers);
            var s := Run(n, Init(n, threads, capacity, publishers), actions).queue;
            exists k :: 0 <= k < |s.runs| && s.runs[k].sequence == x && x < |s.jobs| && s.runs[k].job == s.jobs[x]
                        && forall j :: 0 <= j < |s.runs| && s.runs[j].sequence == x ==> j == k
  {
    var n := Limit(maxWorkers);
    var pool, queue := Projects(n, threads, capacity, publishers, actions);
    DisruptorQueue.ExactlyOnce(capacity, publishers, n, queue, x);
  }

  // The chosen worker

  /** What an assignment could choose at some point of a run. */
  ghost function Choosable(n: nat, s: State, actions: seq<Action>): set<(nat, nat)> {
    if actions == [] then {}
    else
      var before := actions[..|actions| - 1];
      Choosable(n, s, before) + QueueCalls.Choices(Run(n, s, before).queue)
  }

  lemma {:induction false} RunChooses(n: nat, threads: nat, capacity: nat, publishers: nat, actions: seq<Action>)
    requires n >= 1 && IsPow2(capacity)
    ensures var init := Init(n, threads, capacity, publishers);
            QueueCalls.Chosen(Run(n, init, actions).queue, Choosable(n, init, actions))
  {
    if actions != [] {
      var init, before, a := Init(n, threads, capacity, publishers), actions[..|actions| - 1], actions[|actions| - 1];
      RunChooses(n, threads, capacity, publishers, before);
      var pool, queue := Projects(n, threads, capacity, publishers, before);
      DisruptorQueue.RunKeepsInv(capacity, publishers, n, queue);
      StepChooses(n, Run(n, init, before), a, Choosable(n, init, before));
    }
  }

  lemma StepChooses(n: nat, s: State, a: Action, choices: set<(nat, nat)>)
    requires DisruptorQueue.HandlersOk(s.queue) && QueueCalls.Chosen(s.queue, choices)
    ensures QueueCalls.Chosen(Step(n, s, a).queue, choices + QueueCalls.Choices(s.queue))
  {
    match a
    case Pool(a) =>
      if Publishes(s.pool, a) {
        QueueCalls.StepChooses(s.queue, DisruptorQueue.SetActive(s.pool.threads[a.thread].workers), choices);
      }
    case Queue(a) =>
      if !a.SetActive? {
        QueueCalls.StepChooses(s.queue, a, choices);
      }
  }

  /** From the time that x is committed on, the active-worker count is w. */
  ghost predicate Steady(n: nat, s: State, actions: seq<Action>, x: nat, w: nat) {
    forall k :: 0 <= k <= |actions| ==> SteadyAt(Run(n, s, actions[..k]).queue, x, w)
  }

  ghost predicate SteadyAt(s: DisruptorQueue.State, x: nat, w: nat) {
    x in s.committed ==> s.active == w
  }

  lemma {:induction false} SteadyChoice(n: nat, s: State, actions: seq<Action>, x: nat, w: nat, chosen: nat)
    requires Steady(n, s, actions, x, w) && (x, chosen) in Choosable(n, s, actions)
    ensures chosen == x % Max(w, 1)
  {
    var m := |actions| - 1;
    assert SteadyAt(Run(n, s, actions[..m]).queue, x, w);
    if (x, chosen) in Choosable(n, s, actions[..m]) {
      forall k | 0 <= k <= m
        ensures SteadyAt(Run(n, s, actions[..m][..k]).queue, x, w)
      {
        assert actions[..m][..k] == actions[..k] && SteadyAt(Run(n, s, actions[..k]).queue, x, w);
      }
      SteadyChoice(n, s, actions[..m], x, w, chosen);
    }
  }

  /** While the pool's count stays w, a job that all handlers passed has run on worker x % w, and on no other. */
  lemma RunsOnItsWorker(maxWorkers: int, threads: nat, capacity: nat, publishers: nat, actions: seq<Action>,
                        x: nat, w: nat)
    requires IsPow2(capacity)
    requires var n := Limit(maxWorkers);
             var init := Init(n, threads, capacity, publishers);
             DisruptorQueue.PassedByAll(Run(n, init, actions).queue, x) && Steady(n, init, actions, x, w)
    ensures var n := Limit(maxWorkers);
            var s := Run(n, Init(n, threads, capacity, publishers), actions).queue;
            && DisruptorQueue.HasRun(s, x)
            && forall k :: 0 <= k < |s.runs| && s.runs[k].sequence == x ==> s.runs[k].handler == x % Max(w, 1)
  {
    var n := Limit(maxWorkers);
    var init := Init(n, threads, capacity, publishers);
    var s := Run(n, init, actions).queue;
    ExactlyOnce(maxWorkers, threads, capacity, publishers, actions, x);
    var pool, queue := Projects(n, threads, capacity, publishers, actions);
    DisruptorQueue.AtMostOnce(capacity, publishers, n, queue);
    RunChooses(n, threads, capacity, publishers, actions);
    forall k | 0 <= k < |s.runs| && s.runs[k].sequence == x
      ensures s.runs[k].handler == x % Max(w, 1)
    {
      assert (x, s.owner[x]) in Choosable(n, init, actions);
      SteadyChoice(n, init, actions, x, w, s.owner[x]);
    }
  }

  /** The count that the handlers see is the one that the pool published last. */
  lemma {:induction false} ActiveAgrees(n: nat, threads: nat, capacity: nat, publishers: nat, actions: seq<Action>)
    requires capacity >= 1
    ensures var s := Run(n, Init(n, threads, capacity, publishers), actions);
            |s.queue.slots| == capacity && s.queue.active as int == s.pool.active
  {
    if actions != [] {
      var before := actions[..|actions| - 1];
      ActiveAgrees(n, threads, capacity, publishers, before);
      StepAgrees(n, Run(n, Init(n, threads, capacity, publishers), before), actions[|actions| - 1]);
    }
  }

  lemma PoolPublishes(n: nat, s: WorkerPool.State, a: WorkerPool.Action)
    ensures WorkerPool.Step(n, s, a).active ==
            if Publishes(s, a) then Max(s.threads[a.thread].workers, 1) else s.active
  {
  }

  lemma StepAgrees(n: nat, s: State, a: Action)
    requires |s.queue.slots| >= 1 && s.queue.active as int == s.pool.active
    ensures var s' := Step(n, s, a);
            |s'.queue.slots| == |s.queue.slots| && s'.queue.active as int == s'.pool.active
  {
    match a
    case Pool(a) =>
      PoolPublishes(n, s.pool, a);
      if Publishes(s.pool, a) {
        QueueCalls.StepPublishes(s.queue, DisruptorQueue.SetActive(s.pool.threads[a.thread].workers));
      }
    case Queue(a) =>
      QueueCalls.StepPublishes(s.queue, a);
  }
}
