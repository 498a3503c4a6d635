/**
 Dispatch of jobs through the disruptor (disruptor_queue.go), one transition per atomic
 operation: any number of publishers, one handler per possible worker, and an active-worker
 count that changes at any time.

 The disruptor itself is the environment. It hands out sequence numbers in order, and one
 only when every handler has passed the sequence number a lap earlier; each handler is
 given every committed sequence number, in order.
 */
module DisruptorQueue {
  import opened Common
  import opened Masking

  /** A slot; no worker is the unassigned mark, and no job is an empty slot. */
  datatype Entry = Entry(worker: Option<nat>, job: Option<nat>)

  /** Program counter of a publisher. */
  datatype PubPc =
    | Resting
    | Reserve(job: nat)
    | ResetWorker(sequence: nat, job: nat)
    | StoreJob(sequence: nat, job: nat)
    | IncDepth(sequence: nat, job: nat)
    | Commit(sequence: nat, job: nat)

  /** Program counter of a handler, within one iteration of its Handle loop. */
  datatype HandlerPc =
    | Await
    | LoadWorker
    | LoadActive
    | CasWorker(worker: nat)
    | Compare(chosen: nat)
    | DecDepth
    | StartJob
    | Clear

  /** `cursor` is the sequence number that the handler has reached. */
  datatype Handler = Handler(cursor: nat, pc: HandlerPc)

  datatype JobRun = JobRun(sequence: nat, handler: nat, job: nat)

  /** `jobs` are the jobs by reserved sequence number, `owner` the workers that won an assignment. */
  datatype State = State(
    slots: seq<Entry>,
    active: nat,
    depth: int,
    counted: nat,
    jobs: seq<nat>,
    committed: set<nat>,
    owner: map<nat, nat>,
    runs: seq<JobRun>,
    publishers: seq<PubPc>,
    handlers: seq<Handler>)
  {
    function At(sequence: nat): nat
      requires |slots| >= 1
    {
      Slot(sequence, |slots|)
    }
  }

  datatype Action =
    | CallPublish(publisher: nat, job: nat)
    | GiveUp(publisher: nat)
    | Publisher(publisher: nat)
    | Handle(handler: nat)
    | SetActive(workers: int)

  // Transitions

  function PubAt(s: State, i: nat, pc: PubPc): State
    requires i < |s.publishers|
  {
    s.(publishers := s.publishers[i := pc])
  }

  function HandlerAt(s: State, h: nat, pc: HandlerPc): State
    requires h < |s.handlers|
  {
    s.(handlers := s.handlers[h := s.handlers[h].(pc := pc)])
  }

  /** The handler goes on to its next sequence number. */
  function Advance(s: State, h: nat): State
    requires h < |s.handlers|
  {
    s.(handlers := s.handlers[h := Handler(s.handlers[h].cursor + 1, Await)])
  }

  function Put(s: State, sequence: nat, entry: Entry): State
    requires |s.slots| >= 1 && s.At(sequence) < |s.slots|
  {
    s.(slots := s.slots[s.At(sequence) := entry])
  }

  /** Every handler has passed the sequence number that used the next slot before. */
  predicate MayReserve(s: State) {
    forall h :: 0 <= h < |s.handlers| ==> |s.jobs| < s.handlers[h].cursor + |s.slots|
  }

  function PublisherStep(s: State, i: nat): State
    requires i < |s.publishers| && |s.slots| >= 1
  {
    match s.publishers[i]
    case Resting => s
    case Reserve(job) =>
      if MayReserve(s) then PubAt(s, i, ResetWorker(|s.jobs|, job)).(jobs := s.jobs + [job]) else s
    case ResetWorker(x, job) =>
      if s.At(x) >= |s.slots| then s
      else Put(PubAt(s, i, StoreJob(x, job)), x, s.slots[s.At(x)].(worker := None))
    case StoreJob(x, job) =>
      if s.At(x) >= |s.slots| then s
      else Put(PubAt(s, i, IncDepth(x, job)), x, s.slots[s.At(x)].(job := Some(job)))
    case IncDepth(x, job) =>
      PubAt(s, i, Commit(x, job)).(depth := s.depth + 1, counted := s.counted + 1)
    case Commit(x, job) => PubAt(s, i, Resting).(committed := s.committed + {x})
  }

  function HandlerStep(s: State, h: nat): State
    requires h < |s.handlers| && |s.slots| >= 1
  {
    var x := s.handlers[h].cursor;
    if s.At(x) >= |s.slots| then s else
    var slot := s.slots[s.At(x)];
    match s.handlers[h].pc
    case Await => if x in s.committed then HandlerAt(s, h, LoadWorker) else s
    case LoadWorker =>
      HandlerAt(s, h, if slot.worker.Some? then Compare(slot.worker.value) else LoadActive)
    case LoadActive => HandlerAt(s, h, CasWorker(x % Max(s.active, 1)))
    case CasWorker(worker) =>
      if slot.worker.None? then
        Put(HandlerAt(s, h, Compare(worker)), x, slot.(worker := Some(worker))).(owner := s.owner[x := worker])
      else
        HandlerAt(s, h, LoadWorker)
    case Compare(chosen) =>
      if chosen != h then Advance(s, h)
      else HandlerAt(s, h, if slot.job.Some? then DecDepth else Clear)
    case DecDepth => HandlerAt(s, h, StartJob).(depth := s.depth - 1)
    case StartJob =>
      HandlerAt(s, h, Clear).(runs := s.runs + [JobRun(x, h, if slot.job.Some? then slot.job.value else 0)])
    case Clear => Put(Advance(s, h), x, slot.(job := None))
  }

  /** One atomic operation of one goroutine; an action that is not enabled changes nothing. */
  function Step(s: State, a: Action): State {
    if |s.slots| == 0 then s else
    match a
    case CallPublish(i, job) =>
      if i < |s.publishers| && s.publishers[i].Resting? then PubAt(s, i, Reserve(job)) else s
    case GiveUp(i) =>
      if i < |s.publishers| && s.publishers[i].Reserve? then PubAt(s, i, Resting) else s
    case Publisher(i) => if i < |s.publishers| then PublisherStep(s, i) else s
    case Handle(h) => if h < |s.handlers| then HandlerStep(s, h) else s
    case SetActive(workers) => s.(active := Max(workers, 1))
  }

  function Run(s: State, actions: seq<Action>): State {
    if actions == [] then s
    else Step(Run(s, actions[..|actions| - 1]), actions[|actions| - 1])
  }

  function Init(capacity: nat, publishers: nat, handlers: nat): State {
    State(seq(capacity, _ => Entry(None, None)), 0, 0, 0, [], {}, map[], [],
          seq(publishers, _ => Resting), seq(handlers, _ => Handler(0, Await)))
  }

  // Invariant

  /** Sequence number x is reserved and some handler has yet to pass it. */
  ghost predicate InPlay(s: State, x: nat) {
    x < |s.jobs| && exists h :: 0 <= h < |s.handlers| && s.handlers[h].cursor <= x
  }

  ghost predicate Shape(s: State) {
    && IsPow2(|s.slots|) && |s.slots| >= 1 && |s.handlers| >= 1
    && (forall h :: 0 <= h < |s.handlers| ==>
          s.handlers[h].cursor <= |s.jobs| <= s.handlers[h].cursor + |s.slots|)
    && (forall x :: x in s.committed ==> x < |s.jobs|)
    && (forall x :: x in s.owner ==> x in s.committed)
    && (forall h, x: nat :: 0 <= h < |s.handlers| && x < s.handlers[h].cursor ==> x in s.committed && x in s.owner)
  }

  /** The owner of x has finished its iteration for x. */
  ghost predicate Finished(s: State, x: nat) {
    x in s.owner && s.owner[x] < |s.handlers| && s.handlers[s.owner[x]].cursor > x
  }

  /** The owner of x has started the job of x. */
  ghost predicate Started(s: State, x: nat) {
    && x in s.owner && s.owner[x] < |s.handlers|
    && (|| s.handlers[s.owner[x]].cursor > x
        || (s.handlers[s.owner[x]].cursor == x && s.handlers[s.owner[x]].pc.Clear?))
  }

  ghost predicate EntryOk(s: State, x: nat, entry: Entry)
    requires x < |s.jobs|
  {
    && entry.worker == (if x in s.owner then Some(s.owner[x]) else None)
    && (!Finished(s, x) ==> entry.job == Some(s.jobs[x]))
  }

  ghost predicate SlotsOk(s: State)
    requires |s.slots| >= 1
  {
    forall x: nat :: x in s.committed && InPlay(s, x) ==> s.At(x) < |s.slots| && EntryOk(s, x, s.slots[s.At(x)])
  }

  ghost predicate PublisherOk(s: State, pc: PubPc)
    requires |s.slots| >= 1
  {
    pc.ResetWorker? || pc.StoreJob? || pc.IncDepth? || pc.Commit? ==>
      && pc.sequence < |s.jobs| && pc.sequence !in s.committed && pc.job == s.jobs[pc.sequence]
      && s.At(pc.sequence) < |s.slots|
      && (!pc.ResetWorker? ==> s.slots[s.At(pc.sequence)].worker.None?)
      && (pc.IncDepth? || pc.Commit? ==> s.slots[s.At(pc.sequence)].job == Some(pc.job))
  }

  predicate Working(pc: PubPc) {
    !pc.Resting? && !pc.Reserve?
  }

  ghost predicate PublishersOk(s: State)
    requires |s.slots| >= 1
  {
    && (forall i :: 0 <= i < |s.publishers| ==> PublisherOk(s, s.publishers[i]))
    && (forall i, j :: 0 <= i < j < |s.publishers| && Working(s.publishers[i]) && Working(s.publishers[j]) ==>
          s.publishers[i].sequence != s.publishers[j].sequence)
  }

  ghost predicate HandlerOk(s: State, h: nat, handler: Handler) {
    match handler.pc
    case Await => true
    case Compare(chosen) =>
      handler.cursor in s.committed && handler.cursor in s.owner && s.owner[handler.cursor] == chosen
    case DecDepth => handler.cursor in s.owner && s.owner[handler.cursor] == h
    case StartJob => handler.cursor in s.owner && s.owner[handler.cursor] == h
    case Clear => handler.cursor in s.owner && s.owner[handler.cursor] == h
    case _ => handler.cursor in s.committed
  }

  /** One run per started sequence number, by its owner, of the job that was published there. */
  ghost predicate RunsOk(s: State) {
    && (forall k :: 0 <= k < |s.runs| ==>
          var r := s.runs[k];
          Started(s, r.sequence) && r.handler == s.owner[r.sequence]
          && r.sequence < |s.jobs| && r.job == s.jobs[r.sequence])
    && (forall j, k :: 0 <= j < k < |s.runs| ==> s.runs[j].sequence != s.runs[k].sequence)
    && (forall x: nat :: Started(s, x) ==> exists k :: 0 <= k < |s.runs| && s.runs[k].sequence == x)
  }

  function Starting(handler: Handler): nat {
    if handler.pc.StartJob? then 1 else 0
  }

  ghost predicate Inv(s: State) {
    && Shape(s)
    && SlotsOk(s)
    && PublishersOk(s)
    && HandlersOk(s)
    && RunsOk(s)
    && s.depth + |s.runs| + Sum(Starting, s.handlers) == s.counted
  }

  // Proof

  /** Sequence numbers in play never share a slot. */
  lemma OwnSlots(s: State, x: nat, y: nat)
    requires Shape(s) && InPlay(s, x) && InPlay(s, y) && x != y
    ensures s.At(x) != s.At(y)
  {
    var lower, upper := Min(x, y), Max(x, y);
    var h :| 0 <= h < |s.handlers| && s.handlers[h].cursor <= lower;
    if s.At(x) == s.At(y) {
      SlotWindow(lower, upper, |s.slots|);
    }
  }

  /** A reserved sequence number that is not committed is in play. */
  lemma UncommittedInPlay(s: State, x: nat)
    requires Shape(s) && x < |s.jobs| && x !in s.committed
    ensures InPlay(s, x)
  {
    assert s.handlers[0].cursor <= x;
  }

  /** Writing the slot of x, which is in play, disturbs no other sequence number in play. */
  lemma PutKeepsOthers(s: State, x: nat, entry: Entry, y: nat)
    requires Shape(s) && InPlay(s, x) && InPlay(s, y) && x != y && s.At(x) < |s.slots|
    ensures s.At(y) < |s.slots| && Put(s, x, entry).slots[s.At(y)] == s.slots[s.At(y)]
  {
    OwnSlots(s, x, y);
    SlotBelow(y, |s.slots|);
  }

  /** Publishers whose slots are untouched keep their part of the invariant. */
  lemma PublishersFrame(s: State, s': State)
    requires Shape(s) && PublishersOk(s) && s'.publishers == s.publishers && |s'.slots| == |s.slots|
    requires s'.jobs == s.jobs && s'.committed == s.committed
    requires forall y: nat :: InPlay(s, y) && y !in s.committed && s.At(y) < |s.slots| ==>
               s'.slots[s.At(y)] == s.slots[s.At(y)]
    ensures PublishersOk(s')
  {
    forall j | 0 <= j < |s'.publishers|
      ensures PublisherOk(s', s'.publishers[j])
    {
      assert PublisherOk(s, s.publishers[j]);
      if Working(s.publishers[j]) {
        UncommittedInPlay(s, s.publishers[j].sequence);
      }
    }
  }

  ghost predicate HandlersOk(s: State) {
    forall h: nat :: h < |s.handlers| ==> HandlerOk(s, h, s.handlers[h])
  }

  /** Handlers that did not move keep their part of the invariant. */
  lemma HandlersFrame(s: State, s': State, h: nat)
    requires HandlersOk(s) && |s'.handlers| == |s.handlers| && s.committed <= s'.committed
    requires forall x :: x in s.owner ==> x in s'.owner && s'.owner[x] == s.owner[x]
    requires forall g: nat :: g < |s.handlers| && g != h ==> s'.handlers[g] == s.handlers[g]
    requires h < |s.handlers| ==> HandlerOk(s', h, s'.handlers[h])
    ensures HandlersOk(s')
  {
    forall g: nat | g < |s'.handlers|
      ensures HandlerOk(s', g, s'.handlers[g])
    {
      assert HandlerOk(s, g, s.handlers[g]);
    }
  }

  /** Slots that are untouched, or whose sequence number is done, keep their part of the invariant. */
  lemma SlotsFrame(s: State, s': State)
    requires |s.slots| >= 1 && SlotsOk(s) && |s'.slots| == |s.slots|
    requires s.jobs <= s'.jobs && s'.committed == s.committed
    requires forall y: nat :: y in s.committed && InPlay(s', y) ==>
               && InPlay(s, y)
               && (s.At(y) < |s.slots| && EntryOk(s, y, s.slots[s.At(y)]) ==> EntryOk(s', y, s'.slots[s.At(y)]))
    ensures SlotsOk(s')
  {
  }

  // Steps of publishers

  lemma ReserveKeepsInv(s: State, i: nat)
    requires Inv(s) && i < |s.publishers| && s.publishers[i].Reserve? && MayReserve(s)
    ensures Inv(PublisherStep(s, i))
  {
    var s' := PublisherStep(s, i);
    SlotBelow(|s.jobs|, |s.slots|);
    forall y: nat | y in s'.committed && InPlay(s', y)
      ensures s'.At(y) < |s'.slots| && EntryOk(s', y, s'.slots[s'.At(y)])
    {
      assert InPlay(s, y);
      assert Finished(s', y) == Finished(s, y);
    }
    forall j | 0 <= j < |s'.publishers|
      ensures PublisherOk(s', s'.publishers[j])
    {
      assert PublisherOk(s, s.publishers[j]);
    }
    HandlersFrame(s, s', |s.handlers|);
    SameStarts(s, s');
  }

  /** Runs stay right when no job is started. */
  lemma SameStarts(s: State, s': State)
    requires RunsOk(s) && s'.runs == s.runs && s.jobs <= s'.jobs
    requires forall x: nat :: Started(s', x) == Started(s, x)
    requires forall x: nat :: Started(s, x) ==> x in s'.owner && s'.owner[x] == s.owner[x]
    ensures RunsOk(s')
  {
  }

  /** A publisher that writes its slot, or none, keeps the invariant. */
  lemma WriteKeepsInv(s: State, i: nat, pc: PubPc, entry: Entry)
    requires Inv(s) && i < |s.publishers| && Working(s.publishers[i]) && Working(pc)
    requires pc.sequence == s.publishers[i].sequence && pc.job == s.publishers[i].job
    requires s.At(pc.sequence) < |s.slots|
    requires !pc.ResetWorker? ==> entry.worker.None?
    requires pc.IncDepth? || pc.Commit? ==> entry.job == Some(pc.job)
    ensures Inv(Put(PubAt(s, i, pc), pc.sequence, entry))
  {
    var s' := Put(PubAt(s, i, pc), pc.sequence, entry);
    var x := pc.sequence;
    assert PublisherOk(s, s.publishers[i]);
    UncommittedInPlay(s, x);
    forall y: nat | y in s'.committed && InPlay(s', y)
      ensures s'.At(y) < |s'.slots| && EntryOk(s', y, s'.slots[s'.At(y)])
    {
      assert InPlay(s, y);
      PutKeepsOthers(s, x, entry, y);
      assert Finished(s', y) == Finished(s, y);
    }
    forall j | 0 <= j < |s'.publishers|
      ensures PublisherOk(s', s'.publishers[j])
    {
      assert PublisherOk(s, s.publishers[j]);
      if j != i && Working(s.publishers[j]) {
        UncommittedInPlay(s, s.publishers[j].sequence);
        PutKeepsOthers(s, x, entry, s.publishers[j].sequence);
      }
    }
    HandlersFrame(s, s', |s.handlers|);
    SameStarts(s, s');
  }

  lemma CommitKeepsInv(s: State, i: nat)
    requires Inv(s) && i < |s.publishers| && s.publishers[i].Commit?
    ensures Inv(PublisherStep(s, i))
  {
    var s' := PublisherStep(s, i);
    var x := s.publishers[i].sequence;
    assert PublisherOk(s, s.publishers[i]);
    forall y: nat | y in s'.committed && InPlay(s', y)
      ensures s'.At(y) < |s'.slots| && EntryOk(s', y, s'.slots[s'.At(y)])
    {
      assert InPlay(s, y);
      assert Finished(s', y) == Finished(s, y);
    }
    forall j | 0 <= j < |s'.publishers|
      ensures PublisherOk(s', s'.publishers[j])
    {
      assert PublisherOk(s, s.publishers[j]);
    }
    HandlersFrame(s, s', |s.handlers|);
    SameStarts(s, s');
  }

  /** A step that changes none of slots, sequences, owners, runs and handlers. */
  lemma CallKeepsInv(s: State, s': State, i: nat, pc: PubPc)
    requires Inv(s) && i < |s.publishers| && PublisherOk(s, pc)
    requires s' == PubAt(s, i, pc).(depth := s'.depth, counted := s'.counted)
    requires s'.depth - s.depth == s'.counted - s.counted
    requires Working(pc) ==> Working(s.publishers[i]) && pc.sequence == s.publishers[i].sequence
    ensures Inv(s')
  {
    forall y: nat
      ensures InPlay(s', y) == InPlay(s, y) && Finished(s', y) == Finished(s, y) && Started(s', y) == Started(s, y)
    {
    }
    forall j | 0 <= j < |s'.publishers|
      ensures PublisherOk(s', s'.publishers[j])
    {
      assert PublisherOk(s, s.publishers[j]);
    }
    HandlersFrame(s, s', |s.handlers|);
    SameStarts(s, s');
  }

  lemma PublisherKeepsInv(s: State, i: nat)
    requires Inv(s) && i < |s.publishers|
    ensures Inv(PublisherStep(s, i))
  {
    var pc := s.publishers[i];
    assert PublisherOk(s, pc);
    match pc
    case Resting =>
    case Reserve(_) =>
      if MayReserve(s) {
        ReserveKeepsInv(s, i);
      }
    case ResetWorker(x, job) => WriteKeepsInv(s, i, StoreJob(x, job), s.slots[s.At(x)].(worker := None));
    case StoreJob(x, job) => WriteKeepsInv(s, i, IncDepth(x, job), s.slots[s.At(x)].(job := Some(job)));
    case IncDepth(x, job) => CallKeepsInv(s, PublisherStep(s, i), i, Commit(x, job));
    case Commit(_, _) => CommitKeepsInv(s, i);
  }

  // Steps of handlers

  /** What a change of one handler, and of the owner of x, does to the status of y. */
  lemma StatusFrame(s: State, s': State, h: nat, x: nat, y: nat)
    requires |s'.handlers| == |s.handlers| && h < |s.handlers| && s'.jobs == s.jobs
    requires s'.handlers == s.handlers[h := s'.handlers[h]]
    requires s.handlers[h].cursor <= s'.handlers[h].cursor
    requires y != x ==> (y in s'.owner <==> y in s.owner) && (y in s.owner ==> s'.owner[y] == s.owner[y])
    requires s.handlers[h].cursor == x
    requires s'.handlers[h].cursor == x || s'.handlers[h] == Handler(x + 1, Await)
    ensures InPlay(s', y) ==> InPlay(s, y)
    ensures y != x ==> Finished(s', y) == Finished(s, y) && Started(s', y) == Started(s, y)
  {
    if InPlay(s', y) {
      var g :| 0 <= g < |s'.handlers| && s'.handlers[g].cursor <= y;
      assert s.handlers[g].cursor <= y;
    }
  }

  /** A handler that stays at its sequence number, and writes no slot, disturbs neither slots nor publishers. */
  lemma StayKeepsPlaces(s: State, s': State, h: nat, pc: HandlerPc)
    requires Shape(s) && SlotsOk(s) && PublishersOk(s) && h < |s.handlers|
    requires s'.handlers == s.handlers[h := Handler(s.handlers[h].cursor, pc)]
    requires s'.slots == s.slots && s'.jobs == s.jobs && s'.committed == s.committed && s'.owner == s.owner
    requires s'.publishers == s.publishers
    ensures Shape(s') && SlotsOk(s') && PublishersOk(s')
  {
    forall y: nat
      ensures InPlay(s', y) ==> InPlay(s, y)
      ensures Finished(s', y) == Finished(s, y)
    {
      if InPlay(s', y) {
        var g :| 0 <= g < |s'.handlers| && s'.handlers[g].cursor <= y;
        assert s.handlers[g].cursor <= y;
      }
    }
    SlotsFrame(s, s');
    PublishersFrame(s, s');
  }

  /** A handler that moves within its iteration, without starting its job. */
  lemma MoveKeepsInv(s: State, s': State, h: nat, pc: HandlerPc)
    requires Inv(s) && h < |s.handlers| && s' == HandlerAt(s, h, pc).(depth := s'.depth)
    requires HandlerOk(s, h, Handler(s.handlers[h].cursor, pc))
    requires !pc.Clear? && !s.handlers[h].pc.Clear?
    requires s'.depth + (if pc.StartJob? then 1 else 0) == s.depth + Starting(s.handlers[h])
    ensures Inv(s')
  {
    SumUpdate(Starting, s.handlers, h, s'.handlers[h]);
    StayKeepsPlaces(s, s', h, pc);
    HandlersFrame(s, s', h);
    forall y: nat
      ensures Started(s', y) == Started(s, y)
    {
      StatusFrame(s, s', h, s.handlers[h].cursor, y);
    }
    SameStarts(s, s');
  }

  lemma AdvanceKeepsShape(s: State, h: nat)
    requires Shape(s) && h < |s.handlers| && s.handlers[h].cursor in s.committed && s.handlers[h].cursor in s.owner
    ensures Shape(Advance(s, h))
  {
  }

  /** A handler that is not the owner passes on. */
  lemma PassKeepsInv(s: State, h: nat)
    requires Inv(s) && h < |s.handlers| && s.handlers[h].pc.Compare? && s.handlers[h].pc.chosen != h
    ensures Inv(Advance(s, h))
  {
    var s' := Advance(s, h);
    assert HandlerOk(s, h, s.handlers[h]);
    SumUpdate(Starting, s.handlers, h, s'.handlers[h]);
    AdvanceKeepsShape(s, h);
    forall y: nat
      ensures InPlay(s', y) ==> InPlay(s, y)
      ensures Finished(s', y) == Finished(s, y) && Started(s', y) == Started(s, y)
    {
      StatusFrame(s, s', h, s.handlers[h].cursor, y);
    }
    SlotsFrame(s, s');
    PublishersFrame(s, s');
    HandlersFrame(s, s', h);
    SameStarts(s, s');
  }

  /** A sequence number that nobody owns was started by nobody. */
  lemma UnownedNotStarted(s: State, x: nat, w: nat)
    requires Shape(s) && HandlersOk(s) && x !in s.owner && w < |s.handlers|
    ensures s.handlers[w].cursor <= x && !(s.handlers[w].cursor == x && s.handlers[w].pc.Clear?)
  {
    assert HandlerOk(s, w, s.handlers[w]);
  }

  /** The state after handler h assigns its sequence number to worker w. */
  function Assigned(s: State, h: nat, w: nat): State
    requires h < |s.handlers| && |s.slots| >= 1 && s.At(s.handlers[h].cursor) < |s.slots|
  {
    var x := s.handlers[h].cursor;
    Put(HandlerAt(s, h, Compare(w)), x, s.slots[s.At(x)].(worker := Some(w))).(owner := s.owner[x := w])
  }

  /** Assigning an unowned sequence number starts and finishes nothing. */
  lemma AssignStartsNothing(s: State, h: nat, w: nat, y: nat)
    requires Shape(s) && HandlersOk(s) && h < |s.handlers| && s.handlers[h].cursor !in s.owner
    requires s.At(s.handlers[h].cursor) < |s.slots|
    ensures var s' := Assigned(s, h, w);
            && (InPlay(s', y) ==> InPlay(s, y))
            && Started(s', y) == Started(s, y) && Finished(s', y) == Finished(s, y)
  {
    var x := s.handlers[h].cursor;
    StatusFrame(s, Assigned(s, h, w), h, x, y);
    if w < |s.handlers| {
      UnownedNotStarted(s, x, w);
    }
  }

  lemma AssignKeepsSlots(s: State, h: nat, w: nat)
    requires Shape(s) && HandlersOk(s) && SlotsOk(s) && PublishersOk(s) && h < |s.handlers|
    requires s.handlers[h].cursor in s.committed && s.handlers[h].cursor !in s.owner
    requires s.At(s.handlers[h].cursor) < |s.slots|
    ensures SlotsOk(Assigned(s, h, w)) && PublishersOk(Assigned(s, h, w))
  {
    var s' := Assigned(s, h, w);
    var x := s.handlers[h].cursor;
    assert InPlay(s, x);
    forall y: nat | InPlay(s, y) && y != x
      ensures s.At(y) < |s.slots| && s'.slots[s.At(y)] == s.slots[s.At(y)]
    {
      PutKeepsOthers(s, x, s'.slots[s.At(x)], y);
    }
    forall y: nat
      ensures InPlay(s', y) ==> InPlay(s, y)
      ensures Finished(s', y) == Finished(s, y)
    {
      AssignStartsNothing(s, h, w, y);
    }
    SlotsFrame(s, s');
    PublishersFrame(s, s');
  }

  /** The first handler whose CAS succeeds decides who owns the sequence number. */
  lemma AssignKeepsInv(s: State, h: nat)
    requires Inv(s) && h < |s.handlers| && s.handlers[h].pc.CasWorker?
    requires s.At(s.handlers[h].cursor) < |s.slots| && s.slots[s.At(s.handlers[h].cursor)].worker.None?
    ensures Inv(HandlerStep(s, h))
  {
    var x := s.handlers[h].cursor;
    var w := s.handlers[h].pc.worker;
    var s' := Assigned(s, h, w);
    assert HandlerOk(s, h, s.handlers[h]);
    assert InPlay(s, x);
    assert EntryOk(s, x, s.slots[s.At(x)]);
    SumUpdate(Starting, s.handlers, h, s'.handlers[h]);
    forall y: nat
      ensures Started(s', y) == Started(s, y)
    {
      AssignStartsNothing(s, h, w, y);
    }
    AssignKeepsSlots(s, h, w);
    HandlersFrame(s, s', h);
    SameStarts(s, s');
  }

  /** A job that is started for the first time extends the runs. */
  lemma NewRun(s: State, s': State, r: JobRun)
    requires RunsOk(s) && s'.runs == s.runs + [r] && s'.jobs == s.jobs && s'.owner == s.owner
    requires !Started(s, r.sequence) && r.sequence in s.owner && r.handler == s.owner[r.sequence]
    requires r.sequence < |s.jobs| && r.job == s.jobs[r.sequence]
    requires forall y: nat :: Started(s', y) <==> Started(s, y) || y == r.sequence
    ensures RunsOk(s')
  {
    forall y: nat | Started(s', y)
      ensures exists k :: 0 <= k < |s'.runs| && s'.runs[k].sequence == y
    {
      if y == r.sequence {
        assert s'.runs[|s.runs|].sequence == y;
      } else {
        var k :| 0 <= k < |s.runs| && s.runs[k].sequence == y;
        assert s'.runs[k].sequence == y;
      }
    }
  }

  /** The owner starts the job that was published, for the first time. */
  lemma StartKeepsInv(s: State, h: nat)
    requires Inv(s) && h < |s.handlers| && s.handlers[h].pc.StartJob?
    ensures Inv(HandlerStep(s, h))
  {
    var s' := HandlerStep(s, h);
    var x := s.handlers[h].cursor;
    assert HandlerOk(s, h, s.handlers[h]);
    assert InPlay(s, x);
    assert EntryOk(s, x, s.slots[s.At(x)]);
    SumUpdate(Starting, s.handlers, h, s'.handlers[h]);
    StayKeepsPlaces(s, s', h, Clear);
    HandlersFrame(s, s', h);
    forall y: nat
      ensures Started(s', y) <==> Started(s, y) || y == x
    {
      StatusFrame(s, s', h, x, y);
    }
    NewRun(s, s', JobRun(x, h, s.jobs[x]));
  }

  /** The owner empties the slot and passes on. */
  lemma ClearKeepsInv(s: State, h: nat)
    requires Inv(s) && h < |s.handlers| && s.handlers[h].pc.Clear?
    ensures Inv(HandlerStep(s, h))
  {
    var s' := HandlerStep(s, h);
    var x := s.handlers[h].cursor;
    SlotBelow(x, |s.slots|);
    assert HandlerOk(s, h, s.handlers[h]);
    assert InPlay(s, x);
    SumUpdate(Starting, s.handlers, h, s'.handlers[h]);
    AdvanceKeepsShape(s, h);
    forall y: nat
      ensures InPlay(s', y) ==> InPlay(s, y)
      ensures Started(s', y) == Started(s, y)
      ensures Finished(s', y) <==> Finished(s, y) || y == x
    {
      StatusFrame(s, s', h, x, y);
    }
    forall y: nat | InPlay(s, y) && y != x
      ensures s.At(y) < |s.slots| && s'.slots[s.At(y)] == s.slots[s.At(y)]
    {
      PutKeepsOthers(s, x, s'.slots[s.At(x)], y);
    }
    SlotsFrame(s, s');
    PublishersFrame(s, s');
    HandlersFrame(s, s', h);
    SameStarts(s, s');
  }

  lemma HandlerKeepsInv(s: State, h: nat)
    requires Inv(s) && h < |s.handlers|
    ensures Inv(HandlerStep(s, h))
  {
    var s' := HandlerStep(s, h);
    var x := s.handlers[h].cursor;
    var pc := s.handlers[h].pc;
    SlotBelow(x, |s.slots|);
    assert HandlerOk(s, h, s.handlers[h]);
    if pc.Await? {
      if x in s.committed {
        MoveKeepsInv(s, s', h, LoadWorker);
      }
    } else {
      assert InPlay(s, x);
      assert EntryOk(s, x, s.slots[s.At(x)]);
      if pc.CasWorker? && s.slots[s.At(x)].worker.None? {
        AssignKeepsInv(s, h);
      } else if pc.Compare? && pc.chosen != h {
        PassKeepsInv(s, h);
      } else if pc.StartJob? {
        StartKeepsInv(s, h);
      } else if pc.Clear? {
        ClearKeepsInv(s, h);
      } else {
        MoveKeepsInv(s, s', h, s'.handlers[h].pc);
      }
    }
  }

  lemma StepKeepsInv(s: State, a: Action)
    requires Inv(s)
    ensures Inv(Step(s, a))
  {
    match a
    case CallPublish(i, job) =>
      if i < |s.publishers| && s.publishers[i].Resting? {
        CallKeepsInv(s, Step(s, a), i, Reserve(job));
      }
    case GiveUp(i) =>
      if i < |s.publishers| && s.publishers[i].Reserve? {
        CallKeepsInv(s, Step(s, a), i, Resting);
      }
    case Publisher(i) =>
      if i < |s.publishers| {
        PublisherKeepsInv(s, i);
      }
    case Handle(h) =>
      if h < |s.handlers| {
        HandlerKeepsInv(s, h);
      }
    case SetActive(_) => SetActiveKeepsInv(s, Step(s, a));
  }

  lemma SetActiveKeepsInv(s: State, s': State)
    requires Inv(s) && s' == s.(active := s'.active)
    ensures Inv(s')
  {
    forall y: nat
      ensures InPlay(s', y) == InPlay(s, y) && Finished(s', y) == Finished(s, y) && Started(s', y) == Started(s, y)
    {
    }
    forall j | 0 <= j < |s'.publishers|
      ensures PublisherOk(s', s'.publishers[j])
    {
      assert PublisherOk(s, s.publishers[j]);
    }
    HandlersFrame(s, s', |s.handlers|);
    SameStarts(s, s');
  }

  lemma {:induction false} RunKeepsInv(capacity: nat, publishers: nat, handlers: nat, actions: seq<Action>)
    requires IsPow2(capacity) && handlers >= 1
    ensures Inv(Run(Init(capacity, publishers, handlers), actions))
  {
    if actions == [] {
      SlotBelow(0, capacity);
      SumZero(Starting, Init(capacity, publishers, handlers).handlers);
    } else {
      RunKeepsInv(capacity, publishers, handlers, actions[..|actions| - 1]);
      StepKeepsInv(Run(Init(capacity, publishers, handlers), actions[..|actions| - 1]), actions[|actions| - 1]);
    }
  }

  lemma StepKeepsShape(s: State, a: Action)
    ensures |Step(s, a).handlers| == |s.handlers| && |Step(s, a).slots| == |s.slots|
  {
  }

  lemma {:induction false} RunKeepsShape(s: State, actions: seq<Action>)
    ensures |Run(s, actions).handlers| == |s.handlers| && |Run(s, actions).slots| == |s.slots|
  {
    if actions != [] {
      RunKeepsShape(s, actions[..|actions| - 1]);
      StepKeepsShape(Run(s, actions[..|actions| - 1]), actions[|actions| - 1]);
    }
  }

  // Main results

  ghost predicate PassedByAll(s: State, x: nat) {
    forall h :: 0 <= h < |s.handlers| ==> s.handlers[h].cursor > x
  }

  ghost predicate HasRun(s: State, x: nat) {
    exists k :: 0 <= k < |s.runs| && s.runs[k].sequence == x
  }

  /**
   At most once, and the right job. In every interleaving no sequence number is run twice;
   a run is by an existing handler, the one that the assignment chose, of the job that was
   published there; and the queue depth is the jobs counted at publish minus the jobs
   started.
   */
  lemma AtMostOnce(capacity: nat, publishers: nat, handlers: nat, actions: seq<Action>)
    requires IsPow2(capacity) && handlers >= 1
    ensures var s := Run(Init(capacity, publishers, handlers), actions);
            && (forall j, k :: 0 <= j < k < |s.runs| ==> s.runs[j].sequence != s.runs[k].sequence)
            && (forall k :: 0 <= k < |s.runs| ==>
                  var r := s.runs[k];
                  && r.handler < handlers && r.sequence in s.owner && s.owner[r.sequence] == r.handler
                  && r.sequence in s.committed && r.sequence < |s.jobs| && r.job == s.jobs[r.sequence])
            && s.depth == s.counted - |s.runs| - Sum(Starting, s.handlers)
  {
    RunKeepsInv(capacity, publishers, handlers, actions);
    RunKeepsShape(Init(capacity, publishers, handlers), actions);
  }

  /**
   A sequence number that every handler has passed was committed and assigned, and its job
   has run exactly if the assignment named an existing handler.
   */
  lemma RunIffOwnerExists(capacity: nat, publishers: nat, handlers: nat, actions: seq<Action>, x: nat)
    requires IsPow2(capacity) && handlers >= 1
    requires PassedByAll(Run(Init(capacity, publishers, handlers), actions), x)
    ensures var s := Run(Init(capacity, publishers, handlers), actions);
            x in s.committed && x in s.owner && (HasRun(s, x) <==> s.owner[x] < handlers)
  {
    RunKeepsInv(capacity, publishers, handlers, actions);
    RunKeepsShape(Init(capacity, publishers, handlers), actions);
    var s := Run(Init(capacity, publishers, handlers), actions);
    assert s.handlers[0].cursor > x;
    if s.owner[x] < handlers {
      assert Started(s, x);
    }
  }

  /** No action publishes an active-worker count above the number of handlers. */
  predicate Bounded(actions: seq<Action>, handlers: nat) {
    forall k :: 0 <= k < |actions| && actions[k].SetActive? ==> actions[k].workers <= handlers
  }

  ghost predicate OwnersExist(s: State) {
    && s.active <= |s.handlers|
    && (forall x :: x in s.owner ==> s.owner[x] < |s.handlers|)
    && (forall h :: 0 <= h < |s.handlers| && s.handlers[h].pc.CasWorker? ==> s.handlers[h].pc.worker < |s.handlers|)
  }

  lemma StepKeepsOwners(s: State, a: Action)
    requires OwnersExist(s) && |s.handlers| >= 1
    requires a.SetActive? ==> a.workers <= |s.handlers|
    ensures OwnersExist(Step(s, a))
  {
  }

  lemma {:induction false} ChosenWorkerExists(capacity: nat, publishers: nat, handlers: nat, actions: seq<Action>)
    requires handlers >= 1 && Bounded(actions, handlers)
    ensures OwnersExist(Run(Init(capacity, publishers, handlers), actions))
  {
    if actions != [] {
      var before := actions[..|actions| - 1];
      ChosenWorkerExists(capacity, publishers, handlers, before);
      RunKeepsShape(Init(capacity, publishers, handlers), before);
      StepKeepsOwners(Run(Init(capacity, publishers, handlers), before), actions[|actions| - 1]);
    }
  }

  /**
   Exactly once. While the published active-worker count stays within the number of
   handlers, every job that all handlers have passed has run, and by AtMostOnce it has run
   once. Dispatch shows that the pool never publishes more.
   */
  lemma ExactlyOnce(capacity: nat, publishers: nat, handlers: nat, actions: seq<Action>, x: nat)
    requires IsPow2(capacity) && handlers >= 1 && Bounded(actions, handlers)
    requires PassedByAll(Run(Init(capacity, publishers, handlers), actions), x)
    ensures var s := Run(Init(capacity, publishers, handlers), actions);
            exists k :: 0 <= k < |s.runs| && s.runs[k].sequence == x && x < |s.jobs| && s.runs[k].job == s.jobs[x]
                        && forall j :: 0 <= j < |s.runs| && s.runs[j].sequence == x ==> j == k
  {
    RunIffOwnerExists(capacity, publishers, handlers, actions, x);
    ChosenWorkerExists(capacity, publishers, handlers, actions);
    RunKeepsShape(Init(capacity, publishers, handlers), actions);
    AtMostOnce(capacity, publishers, handlers, actions);
    var s := Run(Init(capacity, publishers, handlers), actions);
    var k :| 0 <= k < |s.runs| && s.runs[k].sequence == x;
  }
}
