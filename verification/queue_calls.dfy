/**
 What the calls of the job queue (disruptor_queue.go) mean to their callers: which jobs are
 in the queue, which worker an assignment chooses, and what a publisher or a handler does
 that runs on its own.
 */
module QueueCalls {
  import opened Common
  import opened Repetition
  import opened Masking
  import opened DisruptorQueue

  // The chosen worker

  /** What an assignment that looks now would choose: for each committed sequence number, its remainder. */
  ghost function Choices(s: State): set<(nat, nat)> {
    set x | x in s.committed :: (x, x % Max(s.active, 1))
  }

  /** What an assignment could choose at some point of a run. */
  ghost function Choosable(s: State, actions: seq<Action>): set<(nat, nat)> {
    if actions == [] then {}
    else
      var before := actions[..|actions| - 1];
      Choosable(s, before) + Choices(Run(s, before))
  }

  /** Every assignment, made or about to be made, is one of these. */
  ghost predicate Chosen(s: State, choices: set<(nat, nat)>) {
    && (forall h :: 0 <= h < |s.handlers| && s.handlers[h].pc.CasWorker? ==>
          (s.handlers[h].cursor, s.handlers[h].pc.worker) in choices)
    && (forall x :: x in s.owner ==> (x, s.owner[x]) in choices)
  }

  lemma StepChooses(s: State, a: Action, choices: set<(nat, nat)>)
    requires HandlersOk(s) && Chosen(s, choices)
    ensures Chosen(Step(s, a), choices + Choices(s))
  {
    if a.Handle? && a.handler < |s.handlers| {
      assert HandlerOk(s, a.handler, s.handlers[a.handler]);
    }
  }

  lemma {:induction false} RunChooses(capacity: nat, publishers: nat, handlers: nat, actions: seq<Action>)
    requires IsPow2(capacity) && handlers >= 1
    ensures var init := Init(capacity, publishers, handlers);
            Chosen(Run(init, actions), Choosable(init, actions))
  {
    if actions != [] {
      var init, before := Init(capacity, publishers, handlers), actions[..|actions| - 1];
      RunChooses(capacity, publishers, handlers, before);
      RunKeepsInv(capacity, publishers, handlers, before);
      StepChooses(Run(init, before), actions[|actions| - 1], Choosable(init, before));
    }
  }

  /** At this point of the run x is committed, and w is its remainder by the active-worker count. */
  ghost predicate ChoiceAt(s: State, actions: seq<Action>, k: nat, x: nat, w: nat) {
    k <= |actions| && x in Run(s, actions[..k]).committed && w == x % Max(Run(s, actions[..k]).active, 1)
  }

  lemma {:induction false} ChoosableAt(s: State, actions: seq<Action>, x: nat, w: nat) returns (k: nat)
    requires (x, w) in Choosable(s, actions)
    ensures ChoiceAt(s, actions, k, x, w)
  {
    var n := |actions| - 1;
    if (x, w) in Choosable(s, actions[..n]) {
      k := ChoosableAt(s, actions[..n], x, w);
      assert actions[..n][..k] == actions[..k];
    } else {
      k := n;
    }
  }

  /**
   In every interleaving the worker that an assignment chose for a sequence number is its
   remainder by the active-worker count at some time after it was committed.
   */
  lemma AssignsByRemainder(capacity: nat, publishers: nat, handlers: nat, actions: seq<Action>, x: nat)
    requires IsPow2(capacity) && handlers >= 1 && x in Run(Init(capacity, publishers, handlers), actions).owner
    ensures var init := Init(capacity, publishers, handlers);
            exists k :: ChoiceAt(init, actions, k, x, Run(init, actions).owner[x])
  {
    var init := Init(capacity, publishers, handlers);
    RunChooses(capacity, publishers, handlers, actions);
    var k := ChoosableAt(init, actions, x, Run(init, actions).owner[x]);
  }

  /** The active-worker count is the one that was published last, and at least one. */
  function LastPublished(actions: seq<Action>): nat {
    if actions == [] then 0
    else
      var a := actions[|actions| - 1];
      if a.SetActive? then Max(a.workers, 1) else LastPublished(actions[..|actions| - 1])
  }

  lemma {:induction false} ActiveIsLastPublished(capacity: nat, publishers: nat, handlers: nat, actions: seq<Action>)
    requires capacity >= 1
    ensures var s := Run(Init(capacity, publishers, handlers), actions);
            |s.slots| == capacity && s.active == LastPublished(actions)
  {
    if actions != [] {
      var before := actions[..|actions| - 1];
      ActiveIsLastPublished(capacity, publishers, handlers, before);
      StepPublishes(Run(Init(capacity, publishers, handlers), before), actions[|actions| - 1]);
    }
  }

  lemma StepPublishes(s: State, a: Action)
    requires |s.slots| >= 1
    ensures |Step(s, a).slots| == |s.slots| && Step(s, a).active == if a.SetActive? then Max(a.workers, 1) else s.active
  {
    if a.Handle? && a.handler < |s.handlers| {
      HandlersLeaveActive(s, a.handler);
    }
  }

  lemma HandlersLeaveActive(s: State, h: nat)
    requires h < |s.handlers| && |s.slots| >= 1
    ensures |HandlerStep(s, h).slots| == |s.slots| && HandlerStep(s, h).active == s.active
  {
  }

  // The jobs

  /** The argument of the latest call of publish by publisher i. */
  function LatestCall(s: State, actions: seq<Action>, i: nat): Option<nat> {
    if actions == [] then None
    else
      var before, a := actions[..|actions| - 1], actions[|actions| - 1];
      if Calls(Run(s, before), a) && a.publisher == i then Some(a.job)
      else LatestCall(s, before, i)
  }

  /** This action starts a call of publish. */
  predicate Calls(s: State, a: Action) {
    a.CallPublish? && |s.slots| > 0 && a.publisher < |s.publishers| && s.publishers[a.publisher].Resting?
  }

  /** The arguments of the calls whose reservation succeeded, by sequence number. */
  function Reserved(s: State, actions: seq<Action>): seq<nat> {
    if actions == [] then []
    else
      var before, a := actions[..|actions| - 1], actions[|actions| - 1];
      Reserved(s, before)
      + if a.Publisher? && |Run(s, actions).jobs| > |Run(s, before).jobs| && LatestCall(s, before, a.publisher).Some?
        then [LatestCall(s, before, a.publisher).value] else []
  }

  /** A call under way carries its argument. */
  ghost predicate Carries(s: State, actions: seq<Action>, i: nat, pc: PubPc) {
    !pc.Resting? ==> LatestCall(s, actions, i) == Some(pc.job)
  }

  /** A step starts a call with its argument, or keeps the job of one under way; a reservation takes that job. */
  lemma StepCarries(s: State, a: Action, i: nat)
    requires i < |s.publishers|
    ensures var s' := Step(s, a);
            && |s'.publishers| == |s.publishers|
            && (Calls(s, a) && a.publisher == i ==> s'.publishers[i] == Reserve(a.job))
            && (!(Calls(s, a) && a.publisher == i) && !s'.publishers[i].Resting? ==>
                  !s.publishers[i].Resting? && s'.publishers[i].job == s.publishers[i].job)
            && (s'.jobs == s.jobs
                || (a.Publisher? && a.publisher < |s.publishers| && s.publishers[a.publisher].Reserve?
                    && s'.jobs == s.jobs + [s.publishers[a.publisher].job]))
  {
  }

  lemma {:induction false} RunCarries(capacity: nat, publishers: nat, handlers: nat, actions: seq<Action>, i: nat)
    requires i < publishers
    ensures var init := Init(capacity, publishers, handlers);
            var s := Run(init, actions);
            |s.publishers| == publishers && Carries(init, actions, i, s.publishers[i])
  {
    if actions != [] {
      var init, before := Init(capacity, publishers, handlers), actions[..|actions| - 1];
      RunCarries(capacity, publishers, handlers, before, i);
      StepCarries(Run(init, before), actions[|actions| - 1], i);
    }
  }

  lemma StepKeepsPublishers(s: State, a: Action)
    ensures |Step(s, a).publishers| == |s.publishers|
  {
  }

  lemma {:induction false} RunKeepsPublishers(s: State, actions: seq<Action>)
    ensures |Run(s, actions).publishers| == |s.publishers|
  {
    if actions != [] {
      RunKeepsPublishers(s, actions[..|actions| - 1]);
      StepKeepsPublishers(Run(s, actions[..|actions| - 1]), actions[|actions| - 1]);
    }
  }

  /** Only a publisher's step reserves, and it reserves the latest argument of that publisher. */
  lemma ReservesItsArgument(capacity: nat, publishers: nat, handlers: nat, before: seq<Action>, a: Action)
    ensures var init := Init(capacity, publishers, handlers);
            var s := Run(init, before);
            Step(s, a).jobs == s.jobs
            || (a.Publisher? && LatestCall(init, before, a.publisher).Some?
                && Step(s, a).jobs == s.jobs + [LatestCall(init, before, a.publisher).value])
  {
    var init := Init(capacity, publishers, handlers);
    RunKeepsPublishers(init, before);
    if a.Publisher? && a.publisher < publishers {
      RunCarries(capacity, publishers, handlers, before, a.publisher);
      StepCarries(Run(init, before), a, a.publisher);
    } else {
      NoReservation(Run(init, before), a);
    }
  }

  lemma NoReservation(s: State, a: Action)
    requires a.Publisher? ==> a.publisher >= |s.publishers|
    ensures Step(s, a).jobs == s.jobs
  {
  }

  /** In every interleaving the jobs in the queue are, by sequence number, the arguments of the publish calls. */
  lemma {:induction false} JobsAreArguments(capacity: nat, publishers: nat, handlers: nat, actions: seq<Action>)
    ensures var init := Init(capacity, publishers, handlers);
            Run(init, actions).jobs == Reserved(init, actions)
  {
    if actions != [] {
      var before := actions[..|actions| - 1];
      JobsAreArguments(capacity, publishers, handlers, before);
      ReservesItsArgument(capacity, publishers, handlers, before, actions[|actions| - 1]);
    }
  }

  // Calls on their own

  /** One goroutine takes n steps while all others stand still. */
  function Alone(s: State, a: Action, n: nat): State {
    Iterate(By(a), s, n)
  }

  function By(a: Action): State -> State {
    (s: State) => Step(s, a)
  }

  lemma AloneTwice(s: State, a: Action, m: nat, n: nat, total: nat)
    requires total == m + n
    ensures Alone(s, a, total) == Alone(Alone(s, a, m), a, n)
  {
    IterateSum(By(a), s, m, n);
  }

  lemma ThreeSteps(s: State, a: Action, s1: State, s2: State, s3: State)
    requires Step(s, a) == s1 && Step(s1, a) == s2 && Step(s2, a) == s3
    ensures Alone(s, a, 1) == s1 && Alone(s, a, 2) == s2 && Alone(s, a, 3) == s3
  {
    IterateFour(By(a), s, s1, s2, s3, Step(s3, a));
  }

  /** The slot of a sequence number, freshly published. */
  function Published(s: State, x: nat, job: nat): State
    requires |s.slots| >= 1 && s.At(x) < |s.slots|
  {
    Put(s, x, Entry(None, Some(job)))
  }

  /** A publisher that may reserve puts its job, unassigned, into the next slot, counts it and commits it. */
  lemma PublishAlone(s: State, i: nat, job: nat)
    requires i < |s.publishers| && s.publishers[i].Resting? && MayReserve(s)
    requires |s.slots| >= 1 && s.At(|s.jobs|) < |s.slots|
    ensures var x := |s.jobs|;
            Alone(Step(s, CallPublish(i, job)), Publisher(i), 5) ==
            Published(s, x, job).(jobs := s.jobs + [job], depth := s.depth + 1, counted := s.counted + 1,
                                  committed := s.committed + {x})
  {
    var x, a := |s.jobs|, Publisher(i);
    var s0 := PubAt(s, i, Reserve(job));
    var r := s.(jobs := s.jobs + [job]);
    var cleared := Put(r, x, s.slots[s.At(x)].(worker := None));
    var stored := Published(r, x, job);
    ThreeSteps(s0, a, PubAt(r, i, ResetWorker(x, job)), PubAt(cleared, i, StoreJob(x, job)),
               PubAt(stored, i, IncDepth(x, job)));
    var s4 := PubAt(stored, i, Commit(x, job)).(depth := s.depth + 1, counted := s.counted + 1);
    ThreeSteps(PubAt(stored, i, IncDepth(x, job)), a, s4, Step(s4, a), Step(Step(s4, a), a));
    AloneTwice(s0, a, 3, 2, 5);
  }

  /** The handler at an unassigned, committed sequence number assigns it, by the active-worker count that it sees. */
  lemma AssignAlone(s: State, h: nat, x: nat, job: nat)
    requires h < |s.handlers| && s.handlers[h] == Handler(x, LoadWorker)
    requires |s.slots| >= 1 && s.At(x) < |s.slots| && s.slots[s.At(x)] == Entry(None, Some(job))
    ensures var w := x % Max(s.active, 1);
            Alone(s, Handle(h), 3) ==
            Put(HandlerAt(s, h, Compare(w)), x, Entry(Some(w), Some(job))).(owner := s.owner[x := w])
  {
    var w, a := x % Max(s.active, 1), Handle(h);
    var s2 := HandlerAt(s, h, CasWorker(w));
    ThreeSteps(s, a, HandlerAt(s, h, LoadActive), s2, Step(s2, a));
  }

  /** The handler of the chosen worker counts its job off, runs it, empties the slot and goes on. */
  lemma RunAlone(s: State, h: nat, x: nat, job: nat)
    requires h < |s.handlers| && s.handlers[h] == Handler(x, Compare(h))
    requires |s.slots| >= 1 && s.At(x) < |s.slots| && s.slots[s.At(x)].job == Some(job)
    ensures Alone(s, Handle(h), 4) ==
            Put(Advance(s, h), x, s.slots[s.At(x)].(job := None)).(depth := s.depth - 1,
                                                                 runs := s.runs + [JobRun(x, h, job)])
  {
    var a := Handle(h);
    var s2 := HandlerAt(s, h, StartJob).(depth := s.depth - 1);
    var s3 := HandlerAt(s, h, Clear).(depth := s.depth - 1, runs := s.runs + [JobRun(x, h, job)]);
    ThreeSteps(s, a, HandlerAt(s, h, DecDepth), s2, s3);
    assert Alone(s3, a, 1) == Step(s3, a) by {
      assert Alone(Step(s3, a), a, 0) == Step(s3, a);
    }
    AloneTwice(s, a, 3, 1, 4);
  }

  /** The state after a handler has assigned x to itself, and the one after it has run its job as well. */
  function AssignedTo(s: State, h: nat, x: nat, job: nat): State
    requires h < |s.handlers| && |s.slots| >= 1 && s.At(x) < |s.slots|
  {
    Put(HandlerAt(s, h, Compare(h)), x, Entry(Some(h), Some(job))).(owner := s.owner[x := h])
  }

  lemma AssignedShape(s: State, h: nat, x: nat, job: nat)
    requires h < |s.handlers| && |s.slots| >= 1 && s.At(x) < |s.slots| && s.handlers[h].cursor == x
    ensures var r := AssignedTo(s, h, x, job);
            && |r.slots| == |s.slots| && r.At(x) == s.At(x) && r.slots == s.slots[s.At(x) := Entry(Some(h), Some(job))]
            && r.handlers == s.handlers[h := Handler(x, Compare(h))]
  {
  }

  lemma RanShape(s: State, h: nat, x: nat, job: nat)
    requires h < |s.handlers| && |s.slots| >= 1 && s.At(x) < |s.slots| && s.handlers[h].cursor == x
    ensures var r := AssignedTo(s, h, x, job);
            var q := Put(Advance(r, h), x, Entry(Some(h), None));
            && q.handlers == s.handlers[h := Handler(x + 1, Await)]
            && q.slots == s.slots[s.At(x) := Entry(Some(h), None)]
  {
    AssignedShape(s, h, x, job);
  }

  /** A handler that comes first to a sequence number of its own assigns it to itself, runs its job and goes on. */
  lemma HandlesItsOwn(s: State, h: nat, x: nat, job: nat)
    requires h < |s.handlers| && s.handlers[h] == Handler(x, Await) && x in s.committed && h == x % Max(s.active, 1)
    requires |s.slots| >= 1 && s.At(x) < |s.slots| && s.slots[s.At(x)] == Entry(None, Some(job))
    ensures var s' := Alone(s, Handle(h), 8);
            && s'.runs == s.runs + [JobRun(x, h, job)] && s'.owner == s.owner[x := h] && s'.depth == s.depth - 1
            && s'.handlers == s.handlers[h := Handler(x + 1, Await)]
            && s'.slots == s.slots[s.At(x) := Entry(Some(h), None)]
  {
    var a, s1 := Handle(h), HandlerAt(s, h, LoadWorker);
    assert Step(s, a) == s1;
    AssignAlone(s1, h, x, job);
    var s4 := AssignedTo(s1, h, x, job);
    AssignedShape(s1, h, x, job);
    RunAlone(s4, h, x, job);
    RanShape(s1, h, x, job);
    AloneTwice(s1, a, 3, 4, 7);
  }

  /** A handler that comes to a sequence number of another worker passes on without a run. */
  lemma PassesOthers(s: State, h: nat, x: nat, w: nat)
    requires h < |s.handlers| && s.handlers[h] == Handler(x, Await) && x in s.committed && w != h
    requires |s.slots| >= 1 && s.At(x) < |s.slots| && s.slots[s.At(x)].worker == Some(w)
    ensures Alone(s, Handle(h), 3) == Advance(s, h)
  {
    var a := Handle(h);
    var s1 := HandlerAt(s, h, LoadWorker);
    ThreeSteps(s, a, s1, HandlerAt(s, h, Compare(w)), Advance(s, h));
  }
}
