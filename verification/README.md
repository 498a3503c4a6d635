# A model of qpool's protocols and shared structures

qpool is a worker pool for Go built on atomic variables, compare-and-swap loops and raw
runtime semaphores. This project models its core and proves what it keeps.

Two forms are used, as the source has two kinds of code.

- **Step-level protocols** (`spsc_ring`, `result_slot`, `broadcast_consumer`,
  `disruptor_queue`, `rate_limiter`, `worker_pool`, `wait_group`, `dependency_gate`): a
  state, one action per atomic load, store, compare-and-swap or semaphore operation, a
  program counter per goroutine, and any number of goroutines. `Step` is total: an action
  that is not enabled changes nothing. `Run` folds a sequence of actions, so a statement
  about every sequence of actions is one about every interleaving. In each file `Inv` is
  the inductive invariant, `StepKeepsInv` and `RunKeepsInv` prove it, and the main results
  follow under the heading "Main results". `broadcast_ring` puts the handshake on the ring,
  and `dispatch` the job queue on the worker pool, so that their theorems hold of the whole.
  `ring_calls`, `result_calls` and `queue_calls`, and the last part of the other files, say
  what the calls mean: which arguments come out again as results over every interleaving,
  and what exactly a call does that runs on its own (`Alone`).
- **Sequential structures** (`breaker_cache`, `intrusive_list`, `sharded_lists`,
  `registry`, `qspace`, `circuit_breaker`, `scaler`, `masking`): classes and linked nodes on
  the heap, loops with invariants, and methods proved against functions of the old state.
  `recency`, `dependency_graph`, `dependency_links` and the specification part of
  `circuit_breaker` hold those functions and the theorems about every history.

Results worth knowing before the table:

- In the ring a popper with an old `tail` can lift a newer value out of a slot. It always
  puts it back into an empty slot, nothing is lost or overwritten, and values leave in the
  order in which they were pushed (`SpscRing`). Both compare-and-swaps of `Push` always
  succeed with one producer, so its undo store is never reached.
- Unlinking in the middle of a waiter stack may write through nodes that are already
  unlinked, and still no wakeup is lost: a link never skips a waiter that is about to block
  (`ResultSlot`).
- `wouldCreateCircle` decides reachability, and the graph of children stays acyclic over
  every run of the checked operations. `registerDependent` skips the check: the graph is
  acyclic all through a run exactly if no job is registered that leads to its dependency at
  that time (`DependencyLinks.AcyclicThroughoutIff`), and a job that names itself is a case
  where it is not (`UncheckedRelationCanCycle`).
- The sweep removes an entry before it prunes the entry's edges, so the pruning finds no
  entry. Both ends of every edge survive exactly if the expired id has no edge but to itself;
  in the other order they always would (`DependencyLinks.PruneThenExpireMirrored`,
  `SweepOrderLeavesDanglingEdge`).
- A threshold that does not fit the breaker's 32-bit failure counter is never reached
  (`CircuitBreaker.CanOpenIffThresholdFits`), and a half-open maximum that does not fit its
  counter of calls in flight limits nothing (`EpisodeBudgetIff`).
- The scaler keeps the pool in its bounds as long as the reading it evaluates counts no more
  workers than there are. It keeps readings, and an old one removes the same workers twice:
  with readings that were exact when they arrived, the bounds hold exactly if the pool's size
  is fixed or its down-threshold is not positive (`Scaler.ExactRunsSafeIff`).
- The wait group releases its waiter at zero only. An addition that takes a positive count
  below zero strands a waiter that blocks with no release coming; callers that never add less
  than minus the count never strand it (`WaitGroup.CanStrandIff`, `GuardedNeverStrands`).

Check the whole project with `dafny verify dfyconfig.toml`.

## Model

| member | source | states |
|---|---|---|
| `SpscRing.RunKeepsInv` | spsc_ring.go:40-99 | The ring invariant holds after every interleaving of one producer, which may pop as well, and any number of poppers, for power-of-two capacities. |
| `SpscRing.ExactlyOnePlace` | spsc_ring.go:40-99 | Each accepted value is in exactly one place (its slot, one popper's hand, or gone), and it is the accepted value there. |
| `SpscRing.LeavesInPushOrder` | spsc_ring.go:73-99 | Departed values are a prefix of the accepted ones, at most `capacity` are held, and a ring that does not drop loses none to its producer. |
| `SpscRing.CasTakesOldest` | spsc_ring.go:90-97 | A tail CAS that succeeds takes the oldest value, even if tail was read long before. |
| `SpscRing.PutBackKeepsInv` | spsc_ring.go:90-98 | A stale popper's put-back finds its slot empty and returns the value to the slot of its position. |
| `SpscRing.PushNeverRetries` | spsc_ring.go:40-70 | With one producer both CAS operations of Push succeed, and a rejected Push saw a full ring. |
| `SpscRing.PopOutcomes` | spsc_ring.go:73-99 | A Pop that returns nothing saw an empty ring; one that spins on an empty slot waits for a popper that holds the oldest value. |
| `SpscRing.SlotAtHeadEmpty` | spsc_ring.go:54-62 | A ring that is not full has an empty slot at head. |
| `RingCalls.AcceptsItsArguments` | spsc_ring.go:40-71 | The accepted values are, in order, the arguments of the Push calls that were accepted. |
| `RingCalls.DroppingRingAcceptsAll` | spsc_ring.go:49-57 | A ring that drops its oldest value has accepted all that was offered, in order, but for the Push under way. |
| `RingCalls.DropsOnlyWhenFull` | spsc_ring.go:49-59 | In every interleaving a Push goes on to place its value exactly if the ring has room; in a full ring it drops or rejects. |
| `RingCalls.NeverFullNeverDrops` | spsc_ring.go:49-53 | A ring that never held as many values as it has slots loses none to its producer. |
| `RingCalls.PushAlone` | spsc_ring.go:40-71 | On its own a Push into a ring with room is accepted, at the next position. |
| `RingCalls.PushRejected` | spsc_ring.go:49-57 | On its own a Push into a full ring that does not drop changes nothing. |
| `RingCalls.PushDrops` | spsc_ring.go:49-53 | On its own a Push into a full ring that drops starts a Pop. |
| `RingCalls.PopAlone` | spsc_ring.go:73-99 | On its own a Pop takes the oldest value, and the Push that it is part of goes on. |
| `RingCalls.PopEmpty` | spsc_ring.go:82-84 | On its own a Pop of an empty ring returns nothing. |
| `ResultSlot.RunKeepsInv` | result_wait.go:37-189 | No link, top pointer or waker's walk skips a waiter that is about to block, for any number of waiters, deliverers, closers and cancellation callbacks, those that release after they were stopped too late included. |
| `ResultSlot.NoLostWakeup` | result_wait.go:37-58 | A waiter blocked on a resolved slot has a positive semaphore, or its node is on the stack that a waker must yet swap or on the rest of a waker's walk. |
| `ResultSlot.QuiescentSlotWokeEveryone` | result_wait.go:52-58 | Once no waker is under way, every blocked waiter of a resolved slot has its semaphore positive. |
| `ResultSlot.NoLostCancellation` | result_wait.go:128-158 | A blocked waiter that registered a cancellation callback still has it armed, or has a release available; only its owner stops a callback or takes from a node. |
| `ResultSlot.WalkFindsLive` | result_wait.go:52-58 | Following next pointers from a newer node comes to every live older node of the same stack. |
| `ResultSlot.RelinkKeepsInv` | result_wait.go:90-126 | Unlinking a dead node in the middle, through any predecessor, skips no live waiter. |
| `ResultSlot.PhaseOnlyAdvances` | result_wait.go:160-189 | The state only moves pending to ready to closed, or pending to closed. |
| `ResultSlot.ReadyHasValue` | result_wait.go:60-88 | A ready slot has a value, and no Wait reports one without. |
| `ResultSlot.OutcomesJustified` | result_wait.go:60-88 | Wait returns a value only from a resolved slot, reports closed only if the slot is closed, and a context error only if that waiter found its context cancelled at its check. |
| `ResultSlot.DeliveredNeverBlocks` | qspace.go:84-88 | After the state CAS of any Deliver, in any run, no Wait called from then on ever parks, whatever else happens. |
| `ResultSlot.ResolvedSlotNeverBlocks` | result_wait.go:60-88 | A goroutine that calls Wait on a resolved slot never parks, whatever else happens. |
| `ResultCalls.ReturnsWhatWasDelivered` | result_wait.go:60-88 | In every interleaving a value that Wait returns is the argument of a Deliver that was called. |
| `ResultCalls.OneDeliverOneValue` | result_wait.go:160-166 | With one argument delivered, every Wait that returns a value returns it. |
| `ResultCalls.DeliverResolves` | result_wait.go:160-166 | Once a Deliver that was called is over, the slot is not pending, whatever happened meanwhile. |
| `ResultCalls.CloseCloses` | result_wait.go:168-189 | Once a Close that was called is over, the slot is closed, whatever happened meanwhile. |
| `ResultCalls.WaitOnResolved` | result_wait.go:62-72 | On its own Wait on a ready slot returns the value that is there, and on a closed one the error. |
| `ResultCalls.WaitCancelled` | result_wait.go:74-76 | On its own Wait on a pending slot reports a cancelled context. |
| `ResultCalls.ResolvedWhileEntering` | result_wait.go:78-85 | A Wait that finds the slot resolved at its second look returns what it finds. |
| `ResultCalls.WaitParks` | result_wait.go:128-154 | On its own Wait on a pending slot blocks on a node of its own, on top of those that wait already, with its callback registered. |
| `ResultCalls.DeliverAlone` | result_wait.go:160-166 | On its own Deliver to a pending slot makes its value ready and takes the whole stack. |
| `ResultCalls.SecondDeliver` | result_wait.go:160-166 | A slot that is not pending keeps its state when another value is delivered. |
| `ResultCalls.DeliverWakesAll` | result_wait.go:52-58 | On its own Deliver releases every waiter of the stack exactly once, and is over. |
| `ResultCalls.CloseAlone` | result_wait.go:168-189 | On its own Close closes the slot and takes the whole stack. |
| `ResultCalls.WokenReturns` | result_wait.go:60-88 | A released waiter of a ready slot returns its value. |
| `ResultCalls.CancelReleases` | result_wait.go:145-154 | A cancelled context releases the waiter that blocks with its callback armed, once. |
| `ResultCalls.RemoveAlone` | result_wait.go:90-126 | On its own a waiter takes exactly its node off the stack, wherever it is. |
| `BroadcastConsumer.RunKeepsInv` | consumer.go:45-130 | The credit and wakeup invariant holds after every interleaving of the consumer, wakers and late callbacks, with ring operations as single steps. |
| `BroadcastConsumer.OneCreditPerArm` | consumer.go:45-92 | `wantWake`, releases in flight and the semaphore count add up to one while the consumer is armed and to zero otherwise. |
| `BroadcastConsumer.AbsorbNeverStarves` | consumer.go:62-92 | A consumer that lost its arm to a waker has that waker's release available or in flight. |
| `BroadcastConsumer.NoLostWakeup` | consumer.go:62-130 | A consumer blocked on a non-empty ring or a cancelled context has a credit, a goroutine that will still see `wantWake` set, or a callback that has yet to start. |
| `BroadcastConsumer.WaitReturns` | consumer.go:108-130 | Wait returns only with the oldest value, which it takes, or with an error from a cancelled context. |
| `BroadcastConsumer.WaitAlone` | consumer.go:119-126 | On its own Wait returns a value that is there, and reports a cancelled context on an empty ring. |
| `BroadcastConsumer.WaitParks` | consumer.go:62-92 | On its own Wait on an empty ring with a live context arms and parks. |
| `BroadcastConsumer.CancelledWhileParking` | consumer.go:70-77 | A consumer that finds its context cancelled while it parks takes its arm back and reports it. |
| `BroadcastConsumer.PushedWhileParking` | consumer.go:70-77 | One that finds a value while it parks takes its arm back, or absorbs the release, and returns the value. |
| `BroadcastConsumer.SendWakes` | consumer.go:45-53 | A Send to a consumer that wants to be woken pushes and releases it once. |
| `BroadcastConsumer.SendOnlyPushes` | consumer.go:45-48 | A Send to a consumer that keeps up only pushes. |
| `BroadcastConsumer.WokenReturns` | consumer.go:87-121 | A released consumer returns the oldest value. |
| `BroadcastRing.RunRefines` | broadcastgroup.go:193-196 | With every Push and Pop taken apart into the ring's atomic operations, each run is a run of the ring and a run of the handshake with atomic ring operations. |
| `BroadcastRing.NoLostWakeup` | consumer.go:62-130 | In that system, a consumer blocked although an accepted value has not left the ring, or its context is cancelled, has a credit, a goroutine that will still see `wantWake` set, or a callback that has yet to start. |
| `BroadcastRing.SleepsOnlyWhenDrained` | consumer.go:108-130 | When nobody sends, wakes or cancels, a consumer sleeps only on a ring from which every accepted value has left, in order. |
| `BroadcastRing.ReturnsWhatItPopped` | consumer.go:108-130 | In every interleaving a value that Wait returns is one that the consumer popped itself, and that a Push was accepted with. |
| `BroadcastRing.WaitReturns` | consumer.go:108-130 | With the ring taken apart too, Wait returns only with a value that it took or from a cancelled context. |
| `BroadcastRing.OneCreditPerArm` | consumer.go:45-92 | The semaphore never drifts in that system either. |
| `BroadcastRing.PopEffect` | spsc_ring.go:73-99 | One operation of a Pop moves tail by one and ends the call with a value, or moves no counter, and ends the call empty-handed only on an empty ring. |
| `DisruptorQueue.RunKeepsInv` | disruptor_queue.go:94-222 | Slots, publishers, handlers and runs stay consistent in every interleaving, with the active-worker count changing at any time. |
| `DisruptorQueue.AtMostOnce` | disruptor_queue.go:176-222 | No sequence number runs twice; each run is by the chosen, existing handler, of the job published there; queue depth is jobs counted at publish minus jobs started. |
| `DisruptorQueue.RunIffOwnerExists` | disruptor_queue.go:204-222 | A sequence number that all handlers passed was assigned, and has run exactly if the assigned worker is an existing handler. |
| `DisruptorQueue.ChosenWorkerExists` | disruptor_queue.go:94-100 | While published counts stay within the handlers, every assignment names an existing handler; `Dispatch` discharges the condition. |
| `DisruptorQueue.ExactlyOnce` | disruptor_queue.go:106-222 | Under the same condition, every job that all handlers passed has run, exactly once. |
| `QueueCalls.AssignsByRemainder` | disruptor_queue.go:204-222 | In every interleaving the worker chosen for a sequence number is its remainder by the active-worker count at some time after it was committed. |
| `QueueCalls.ActiveIsLastPublished` | disruptor_queue.go:94-100 | The active-worker count is the one published last, and at least one. |
| `QueueCalls.JobsAreArguments` | disruptor_queue.go:106-151 | The jobs in the queue are, by sequence number, the arguments of the publish calls. |
| `QueueCalls.PublishAlone` | disruptor_queue.go:106-151 | On its own a publisher puts its job, unassigned, into the next slot, counts it and commits it. |
| `QueueCalls.HandlesItsOwn` | disruptor_queue.go:176-222 | On its own a handler that comes first to a sequence number of its own assigns it, runs its job once and empties the slot. |
| `QueueCalls.PassesOthers` | disruptor_queue.go:176-192 | On its own a handler passes a sequence number of another worker without a run. |
| `Dispatch.Projects` | lifecycle.go:65-105 | Every run of pool and queue together is one of the pool, and one of the queue that publishes only counts within its handlers. |
| `Dispatch.ChosenWorkerExists` | disruptor_queue.go:204-222 | For every pool, in every interleaving, every assignment names an existing handler. |
| `Dispatch.ExactlyOnce` | disruptor_queue.go:106-222 | For every pool, in every interleaving of starters, removers, publishers and handlers, a job that all handlers passed has run exactly once. |
| `Dispatch.RunsOnItsWorker` | disruptor_queue.go:204-222 | While the published count stays w from the commit of x on, x has run on worker x % w, and on no other. |
| `Dispatch.ActiveAgrees` | lifecycle.go:65-105 | The count that the handlers see is the one that the pool published last. |
| `RateLimiter.RunKeepsInv` | ratelimiter.go:52-104 | The token ledger balances after every interleaving. |
| `RateLimiter.AdmissionBound` | ratelimiter.go:21-104 | For all constructor arguments: admitted, held, claimed and cut-off tokens equal the initial ones plus one per claimed period, tokens never exceed the maximum, and admissions never exceed it plus the whole periods since the start, nor zero without capacity. |
| `RateLimiter.NothingLostBelowCapacity` | ratelimiter.go:94-100 | Over every run in which the bucket has room no token is cut off: each claimed period is admitted, held or about to be added. |
| `RateLimiter.BoundIsReached` | ratelimiter.go:21-104 | For all constructor arguments and every time some run admits exactly the bound. |
| `RateLimiter.LimitAlone` | ratelimiter.go:52-65 | Within a period Limit on its own takes a token if there is one, and rejects without a change otherwise. |
| `RateLimiter.RefillAlone` | ratelimiter.go:74-104 | After whole periods a call on its own claims them all, adds as many tokens up to the capacity, and keeps the rest of the time. |
| `WorkerPool.RunKeepsInv` | lifecycle.go:43-153 | The token stack and the counters stay consistent in every interleaving. |
| `WorkerPool.CountConserved` | metrics.go:112-139 | `workerCount` is tokens on the stack plus starters before their push plus removers before their decrement, and stays in [0, maxWorkers]. |
| `WorkerPool.TokensPoppedOnce` | intrusive_list.go:130-150 | No token is popped twice, and exactly the unpopped tokens are on the stack. |
| `WorkerPool.EffectiveWorkersInRange` | lifecycle.go:65-105 | The effective active-worker count, and every one yet to be published, is in range. |
| `WorkerPool.PublishesRealCounts` | lifecycle.go:65-105 | In every interleaving the published count is one that the pool did have, or one in place of a smaller one. |
| `WorkerPool.StartAlone` | lifecycle.go:65-83 | On its own a start below the maximum counts a worker, puts its token on top and publishes the new count. |
| `WorkerPool.StartRefused` | metrics.go:127-139 | At the maximum nothing is started. |
| `WorkerPool.StopAlone` | lifecycle.go:85-105 | On its own a removal takes the top token, counts it off and publishes what is left. |
| `WorkerPool.StopRefused` | lifecycle.go:86-91 | Without a token nothing is removed. |
| `WorkerPool.DeactivateAlone` | lifecycle.go:142-153 | Deactivation takes a token, counts it off and goes on, without publishing. |
| `WaitGroup.RunKeepsInv` | waitgroup.go:12-27 | The waiter's invariant holds over every reuse, with any leftover semaphore count. |
| `WaitGroup.NoLostWakeupAtZero` | waitgroup.go:12-27 | Wait returns only after a non-positive count, and a waiter blocked at zero has a release available or in flight. |
| `WaitGroup.StrandsIffOvershoots` | waitgroup.go:12-17 | In a given state an addition strands the waiter exactly if it takes the count below zero while the waiter blocks and no release is coming. |
| `WaitGroup.GuardedNeverStrands` | waitgroup.go:12-27 | Over every run in which no addition is less than minus the count, the waiter is never stranded. |
| `WaitGroup.CanStrandIff` | waitgroup.go:12-17 | That guard is exact: adding delta at count n strands a waiter in some run exactly if n >= 1 and n + delta < 0. |
| `WaitGroup.OvershootStrands` | waitgroup.go:12-17 | For every such n and delta, a run in which that happens. |
| `WaitGroup.CountIsTotal` | waitgroup.go:12-17 | In every interleaving the count is the sum of the arguments of every Add that took effect. |
| `WaitGroup.WaitReturns` | waitgroup.go:23-27 | Wait returns only when it sees a count that is not positive. |
| `WaitGroup.WaitAlone` | waitgroup.go:23-27 | On its own Wait returns at once on such a count, and blocks otherwise. |
| `WaitGroup.ReleasedLooksAgain` | waitgroup.go:23-27 | A released waiter looks again. |
| `WaitGroup.AddAlone` | waitgroup.go:12-17 | An Add that hits zero releases once, and no other does. |
| `DependencyGate.RunKeepsInv` | dependency.go:68-107 | Counter, first error and resolver stay consistent in every interleaving of the dependency goroutines. |
| `DependencyGate.SuccessNeedsGoodResult` | dependency.go:137-204 | A dependency counts as good only after an attempt at it, at some point of the run, that yielded a non-nil, non-error result. |
| `DependencyGate.EnqueueOnlyIfAllGood` | dependency.go:29-44 | The job is enqueued only if every goroutine has signed off after an attempt with a good result. |
| `DependencyGate.FailureIsGenuine` | dependency.go:29-44 | A failed job names the first recorded bad dependency, or all were good and the resolver found the context done at its check. |
| `DependencyGate.FailureNeedsCause` | dependency.go:137-204 | A dependency ends badly only after an attempt that yielded an error or was cancelled, or after as many repeated attempts as the policy allows; an attempt under way is numbered by those repeated so far. |
| `DependencyGate.FirstErrorSticks` | dependency.go:68-107 | The first recorded error is never overwritten. |
| `DependencyGate.JoinNeverStrands` | dependency.go:68-107 | A resolver that blocks after all have signed off has a release coming. |
| `DependencyGate.EnqueuesWhenAllGood` | dependency.go:29-44 | When all dependencies were good and the context is live, the resolver's next steps enqueue the job. |
| `DependencyGate.FailsWhenBad` | dependency.go:29-44 | When some dependency was bad, they fail it on the one recorded first. |
| `DependencyGate.ResolverJoins` | dependency.go:68-107 | The resolver blocks while goroutines are open, looks again when released, and fails on a context that is done. |
| `DependencyGate.GoodAttemptSignsOff` | dependency.go:68-107 | A good attempt signs its goroutine off, and the last to sign off releases the resolver. |
| `DependencyGate.ErrorIsRecorded` | dependency.go:68-107 | An error is recorded if it is the first. |
| `CircuitBreaker.Breaker.constructor` | circuitbreaker.go:43-57 | A new breaker has no history, is closed with zero counters, and its half-open maximum is at least one. |
| `CircuitBreaker.Breaker.Allow` | circuitbreaker.go:125-146 | The breaker stays what its history, with this call, makes of it, and admits exactly as the specification does. |
| `CircuitBreaker.Breaker.AdmitsAfterTimeout` | circuitbreaker.go:125-170 | An open breaker admits a call exactly if strictly more than the reset timeout has passed since the last opening in its history. |
| `CircuitBreaker.Breaker.Facts` | circuitbreaker.go:90-215 | The object's counters are facts about its history: failures are its trailing run, a closed breaker is short of its threshold, `openSinceNs` is its last opening, and, while halfOpenMax fits its counter, in-flight and the episode's admissions are within budget. |
| `CircuitBreaker.Breaker.RecordFailure` | circuitbreaker.go:90-102 | The breaker stays what its history, with this failure, makes of it; a closed one opens exactly if the trailing run is then as long as the threshold, and a half-open one at any failure, at its time. |
| `CircuitBreaker.Breaker.RecordSuccess` | circuitbreaker.go:107-120 | The breaker stays what its history, with this success, makes of it. |
| `CircuitBreaker.Breaker.ClosesWhenComplete` | circuitbreaker.go:107-120 | A half-open breaker closes exactly at the success that completes its maximum. |
| `CircuitBreaker.Breaker.Renormalize` | circuitbreaker.go:83-85 | The breaker stays what its history, with this call, makes of it: half-open exactly if its timeout has passed. |
| `CircuitBreaker.Breaker.TryOpenToHalfOpen` | circuitbreaker.go:148-170 | Turns half-open, with fresh counters, exactly if the timeout has passed. |
| `CircuitBreaker.Breaker.AcquireHalfOpenSlot` | circuitbreaker.go:172-187 | Takes an in-flight slot, in a signed 32-bit counter, exactly if the breaker is half-open and the counter is below the maximum. |
| `CircuitBreaker.Breaker.TransitionToOpen` | circuitbreaker.go:189-203 | Opens at the later of the old and the new time, with fresh counters. |
| `CircuitBreaker.Breaker.DecInflight` | circuitbreaker.go:205-215 | Gives a slot back, never below zero. |
| `CircuitBreaker.FailuresAreTrailingRun` | circuitbreaker.go:90-123 | After every history `failureCount` is the length of the trailing run of failures, modulo its width. |
| `CircuitBreaker.ClosedBelowThreshold` | circuitbreaker.go:90-105 | While closed, the trailing run is shorter than max(1, maxFailures). |
| `CircuitBreaker.OpensExactlyAtThreshold` | circuitbreaker.go:90-105 | Closed is left exactly at the failure that completes a run of max(1, maxFailures), for open, and at its time. |
| `CircuitBreaker.WideThresholdNeverOpens` | circuitbreaker.go:90-105 | A threshold beyond the counter's width is never reached. |
| `CircuitBreaker.CanOpenIffThresholdFits` | circuitbreaker.go:90-105 | A breaker can open at all exactly if its threshold fits the counter. |
| `CircuitBreaker.OpenAdmitsNothing` | circuitbreaker.go:125-170 | Until the timeout has passed an open breaker stays open and admits nothing, over any events. |
| `CircuitBreaker.OpenSinceIsLastOpening` | circuitbreaker.go:189-203 | With times in order, `openSinceNs` is the time of the last opening. |
| `CircuitBreaker.OpenAdmitsExactlyAfterTimeout` | circuitbreaker.go:125-170 | An open breaker admits a call exactly if strictly more than the reset timeout has passed since it opened. |
| `CircuitBreaker.OpenLeaves` | circuitbreaker.go:125-170 | An open breaker turns half-open, with fresh counters, exactly when it is asked after its timeout, and is closed by nothing. |
| `CircuitBreaker.HalfOpenLeaves` | circuitbreaker.go:90-120 | A half-open breaker is closed exactly by the success that completes halfOpenMax of them, opened exactly by a failure, at its time, and stays half-open otherwise. |
| `CircuitBreaker.InflightIsOutstanding` | circuitbreaker.go:107-215 | In-flight is the number of calls admitted in the episode whose success was not recorded. |
| `CircuitBreaker.AdmitsExactly` | circuitbreaker.go:125-187 | Admitted are all calls while closed, those after the timeout while open, and those that find fewer than halfOpenMax outstanding while half-open. |
| `CircuitBreaker.EpisodeCounters` | circuitbreaker.go:107-215 | While halfOpenMax fits the 32-bit counter, in-flight stays in [0, halfOpenMax], and an episode's admissions within in-flight plus successes. |
| `CircuitBreaker.EpisodeBudget` | circuitbreaker.go:107-215 | Under the same condition one half-open episode admits at most 2·halfOpenMax − 1 calls. |
| `CircuitBreaker.EpisodeBudgetIff` | circuitbreaker.go:107-215 | A breaker keeps that budget over all histories exactly if its maximum is below 2^31 or it can never open; a larger maximum wraps the counter and admits without limit. |
| `CircuitBreaker.EpisodeBudgetIsReached` | circuitbreaker.go:107-215 | Every breaker that can open has a history that uses the whole budget. |
| `BreakerCache.Cache.constructor` | circuitbreaker_cache.go:25-31 | An empty cache with the limit, or the default one. |
| `BreakerCache.Cache.FindNode` | circuitbreaker_cache.go:33-41 | Finds the node of an id exactly if the id is cached. |
| `BreakerCache.Cache.Find` | circuitbreaker_cache.go:43-53 | A cached id moves to the front and the others keep their order; a missing one changes nothing. |
| `BreakerCache.Cache.Promote` | circuitbreaker_cache.go:55-78 | The list is the node followed by the rest in order. |
| `BreakerCache.Cache.Detach` | circuitbreaker_cache.go:80-116 | Cuts exactly that node out of the list, and the node leads nowhere. |
| `BreakerCache.Cache.EvictTail` | circuitbreaker_cache.go:167-207 | Drops exactly the last node. |
| `BreakerCache.Cache.EvictOverflow` | circuitbreaker_cache.go:159-165 | Keeps the first `limit` nodes. |
| `BreakerCache.Cache.GetOrCreate` | circuitbreaker_cache.go:118-157 | Keeps the list equal to the `limit` most recently requested distinct ids; returns the same breaker exactly if fewer than `limit` other ids were requested since, and otherwise a new one with the requested configuration and no history. |
| `Recency.WindowStep` | circuitbreaker_cache.go:118-165 | Moving an id to the front and cutting at `limit` is what one more request does to the most recent distinct ids. |
| `Recency.RetainedIffRecent` | circuitbreaker_cache.go:118-165 | An id is retained exactly if it was requested and fewer than `limit` distinct ids since. |
| `Recency.RecentDistinct` | circuitbreaker_cache.go:33-41 | The most recent ids are the requested ones, each once. |
| `IntrusiveLists.IntrusiveList.Prepend` | intrusive_list.go:37-60 | The node comes in front of the list. |
| `IntrusiveLists.IntrusiveList.RemoveReturning` | intrusive_list.go:69-112 | Cuts out the first matching node; it and all behind it keep their next pointers. |
| `IntrusiveLists.IntrusiveList.Find` | intrusive_list.go:114-128 | The first matching node, or none. |
| `IntrusiveLists.IntrusiveList.PopHead` | intrusive_list.go:130-150 | Takes the first node. |
| `ShardedLists.PrependTo` | registry.go:161-161 | One shard grows in front, the others are untouched. |
| `ShardedLists.RemoveFrom` | registry.go:183-185 | One shard loses its first match, the others are untouched. |
| `Registries.ShardLookup` | registry.go:122-133 | A key is in the map exactly if the shard of its hash holds an entry for it, and that entry is the map's. |
| `Registries.FilesCut` | registry.go:175-186 | Cutting a node out of its shard is removing its key from the map, for all shards together. |
| `Registries.Registry.constructor` | registry.go:102-120 | Empty shards implement the empty map. |
| `Registries.Registry.Find` | registry.go:122-133 | A lookup in the shards is a lookup in the map. |
| `Registries.Registry.GetOrCreate` | registry.go:135-173 | Returns the map's entry, or adds a new, pending one without links; nothing else changes. |
| `Registries.Registry.RemoveExpired` | registry.go:175-186 | Removes the key from the map; no other entry changes, and the unlinked node still leads to its successor. |
| `Registries.Registry.RemoveThenPrune` | qspace.go:275-276 | Pruning after the removal changes nothing. |
| `Registries.Registry.CloseAll` | registry.go:188-200 | Every registered slot ends closed. |
| `Registries.Registry.WouldCreateCircle` | registry.go:254-284 | Ends on every graph, cyclic ones included, and is true exactly if the parent is reachable from the child. |
| `Registries.Registry.AddRelationship` | registry.go:202-218 | Refused exactly if the child leads to the parent, with nothing changed; otherwise both ends are recorded. What the registry gains is new. |
| `Registries.Registry.RegisterDependent` | registry.go:220-230 | Both ends are recorded, with no check. What the registry gains is new. |
| `Registries.Registry.PruneDependencyEdges` | registry.go:232-252 | Refines the pruning of links, also for edges of an id to itself. |
| `DependencyGraph.AddEdgeAcyclicIff` | registry.go:202-218 | One more edge keeps a graph acyclic exactly if its end does not lead to its start. |
| `DependencyGraph.SearchStep` | registry.go:258-281 | One turn of the search keeps its invariant. |
| `DependencyGraph.SearchDone` | registry.go:258-283 | A search that ran out of stack has visited exactly what can be reached. |
| `DependencyLinks.ApplyAcyclicIff` | registry.go:135-252 | Each operation keeps the graph of children acyclic, except an unchecked registration of a job that leads to its dependency, which does not. |
| `DependencyLinks.AcyclicThroughoutIff` | registry.go:135-252 | The graph is acyclic all through a run of all five operations exactly if no job is registered that leads to its dependency at that time, also when an expired id with incoming edges is created again. |
| `DependencyLinks.AlwaysAcyclic` | registry.go:135-252 | Without unchecked registrations it is acyclic after every sequence of operations. |
| `DependencyLinks.UncheckedRelationAcyclicIff` | registry.go:220-230 | Without the check it stays acyclic exactly if the job does not lead to its dependency. |
| `DependencyLinks.UncheckedRelationCanCycle` | registry.go:220-230 | A case where it does not. |
| `DependencyLinks.PrunedIsolates` | registry.go:232-252 | Pruning removes exactly the edges at the id, at both ends. |
| `DependencyLinks.MirroredUntilExpiry` | registry.go:202-252 | Over every run without expirations, unchecked registrations included, each edge is recorded at both ends. |
| `DependencyLinks.ExpireMirroredIff` | registry.go:175-186 | Expiring an id keeps that exactly if the id has no edge but to itself. |
| `DependencyLinks.PruneThenExpireMirrored` | qspace.go:275-276 | Pruning first always keeps it; the order of the sweep keeps it exactly under that condition. |
| `DependencyLinks.SweepOrderLeavesDanglingEdge` | qspace.go:275-276 | A run in which the sweep's order loses one end. |
| `ResultSpace.QSpace.constructor` | qspace.go:31-44 | An open, empty space with no handles, on new shards. |
| `ResultSpace.QSpace.Store` | qspace.go:67-89 | Records the result and resolves a pending slot; afterwards no handle ever given out for the id blocks. A stopped space or a failed artifact changes nothing. |
| `ResultSpace.QSpace.Await` | qspace.go:94-122 | A stored result at once, otherwise the slot of the registered entry, and a refusal exactly if stopped; no other id's result or link changes. |
| `ResultSpace.QSpace.PeekResult` | qspace.go:128-146 | The stored result, unless stopped. |
| `ResultSpace.QSpace.AddRelationship` | qspace.go:191-197 | Refused exactly if stopped or if the relation would close a cycle; otherwise recorded at both ends. No stored result changes and no handle loses its entry. |
| `ResultSpace.QSpace.RegisterDependent` | qspace.go:202-208 | Recorded at both ends unless stopped. No stored result changes and no handle loses its entry. |
| `ResultSpace.QSpace.Close` | qspace.go:235-250 | All registered slots are closed and no handle at all blocks. |
| `ResultSpace.QSpace.Visit` | qspace.go:254-277 | Discards the entry exactly if its positive TTL is exceeded, and its node still leads to the next. |
| `ResultSpace.QSpace.SweepShard` | intrusive_list.go:168-178 | The walk visits each node of a shard once, in order, although it unlinks some. |
| `ResultSpace.QSpace.Cleanup` | qspace.go:252-279 | Removes exactly the entries whose TTL is positive and exceeded, changes no other, visits every entry once, and leaves no pending handle without its registered entry. |
| `ResultSpace.AwaitThenStore` | qspace.go:67-122 | Calls in a row: a handle from Await does not block after Store. |
| `ResultSpace.AwaitStoreSweep` | qspace.go:67-279 | A sweep that removes the entry again, exactly if its TTL is exceeded, does not change that. |
| `ResultSpace.StoreThenLook` | qspace.go:67-146 | What was stored is what a later PeekResult finds and a later Await returns. |
| `ResultSpace.DeliveredAdvances` | qspace.go:84-88 | Storing a result moves no slot back and changes no other id. |
| `ResultSpace.Overdue` | qspace.go:257-273 | The visitor's branches decide that a positive TTL is exceeded. |
| `ResultSpace.AwaitThenClose` | qspace.go:94-250 | A handle from Await does not block after Close. |
| `ResultSpace.SweepStep` | intrusive_list.go:168-178 | One turn of the walk, with or without unlinking, keeps its place in the row as it was at the start. |
| `Scaler.Pool.StartWorker` | lifecycle.go:65-83 | One worker more, newest first, unless at the maximum. |
| `Scaler.Pool.ScaleDownWorkers` | lifecycle.go:85-105 | Stops the most recently started workers, as many as there are, and publishes the count that is left. |
| `Scaler.ScalerLoop.ScaleUp` | scaler.go:140-146 | Adds the count, cut at the maximum. |
| `Scaler.ScalerLoop.Evaluate` | scaler.go:88-138 | Evaluates the kept reading, however old, or takes one; the loops compute the worker count that the lemmas are about. |
| `Scaler.ScalerLoop.Observe` | scaler.go:57-64 | Refines the specification's step: keeps the reading and evaluates it. |
| `Scaler.ScalerLoop.Renormalize` | scaler.go:76-86 | Refines the specification's step: evaluates what is kept, once the cooldown has passed. |
| `Scaler.KeepsBounds` | scaler.go:101-137 | With a reading that counts no worker too many, the pool stays between its bounds, for any thresholds. |
| `Scaler.SafeIffNotStale` | scaler.go:93-99 | One evaluation does so for all configurations exactly if the reading counts no worker too many. |
| `Scaler.FreshRunKeepsBounds` | scaler.go:57-138 | Over every run of observations and renormalizations whose evaluated readings count no worker too many, the pool stays between its bounds. |
| `Scaler.KeptReadingRemovesTwice` | scaler.go:76-99 | An observation that was exact, kept and evaluated again after the cooldown, takes the pool below its minimum, in every configuration that can shrink. |
| `Scaler.ExactRunsSafeIff` | scaler.go:76-99 | Observations that are exact when they arrive keep every pool in its bounds exactly if its size is fixed or its down-threshold is not positive. |
| `Scaler.ScaleUpReachesTarget` | scaler.go:104-115 | With thresholds in order, a scale-up ends at the maximum or with a load per worker within max(1, target). |
| `Scaler.ScaleUpIsLeast` | scaler.go:104-115 | A scale-up adds no worker that is not needed: any smaller pool would be above the target load. |
| `Scaler.GrowsWhenLoaded` | scaler.go:104-115 | Above the up-threshold the pool grows exactly if its load per worker is above the target. |
| `Scaler.ChangesOnlyOutsideBand` | scaler.go:104-137 | The pool grows only above the up-threshold, and shrinks only below the down-threshold after the cooldown. |
| `Scaler.ScaleDownHalves` | scaler.go:123-137 | Below the down-threshold an evaluation halves the gap to what the queue asks for, and removes one if there is none. |
| `Scaler.RemovalsAreSpaced` | scaler.go:117-137 | Over every run with fresh readings, workers are removed no sooner than a cooldown after the last removal. |
| `Scaler.GapCloses` | scaler.go:123-137 | A gap g above the minimum is closed exactly after ⌈log2 g⌉ + 1 halvings. |
| `Scaler.IdlePoolShrinksLogarithmically` | scaler.go:117-137 | An idle pool, observed as it is after each cooldown, is at its minimum exactly after that many observations, for every configuration with a positive down-threshold. |
| `Masking.MaskIsRemainder` | ring_buffer.go:29-31 | Masking with 2^k − 1 is the remainder modulo 2^k. |
| `Masking.LapDistinctIffPow2` | spsc_ring.go:30-38 | Masked indexing keeps a lap of slots distinct exactly for power-of-two capacities. |
| `Masking.SlotWindow` | spsc_ring.go:40-99 | Positions less than a lap apart share a slot only if they are equal. |
| `Masking.Next` | ring_buffer.go:33-45 | The least power of two that covers the value. |
| `Masking.RingBuffer.constructor` | ring_buffer.go:15-23 | Allocates the least power of two that covers the capacity. |
| `Masking.RingBuffer.SlotOf` | ring_buffer.go:29-31 | Masked access stays inside the store and is the remainder of the sequence number. |

## Left out

- Protocols as values: the step-level protocols are state machines over values and not classes, because what is proved is about interleavings of single atomic operations; update in place and aliasing of their fields are not captured.
- Atomic methods: the breaker cache, registry, intrusive list, result space and circuit breaker are called from one goroutine at a time, so their CAS operations never fail and their retry loops run once. Under interleaving `getOrCreate` may leave two entries for one key (registry.go:161-170), adjacent removals may leave a removed node linked, and the breaker's counter resets follow its CAS as separate stores (circuitbreaker.go:163-165).
- Integer widths: ring positions, sequence numbers, token counts and times are unbounded; the breaker's 32-bit counters wrap around. The doubling loop of `RingBuffer.next` does not overflow here.
- Ring use: one producer, as the type says; `SpscRing` takes a power-of-two capacity, as nothing rounds it (spsc_ring.go:35).
- Disruptor library: its sequencing and gating are an assumption of the environment, stated in the header of `disruptor_queue.dfy`. Batches of `Handle` are taken one sequence number at a time.
- Edge lists: the children and parents of an entry are sequences of ids, with the list operations as functions; the list code itself is modelled in `IntrusiveLists`.
- Slots in the result space: `QSpace` models a slot by its phase; parking and waking are in `ResultSlot`.
- StoreError differs from Store only in its artifact, so one method stands for both; building, cloning and encoding artifacts is an input (`None` where it fails).
- Durations in `Cleanup` are unbounded integers; `time.Duration` saturates.
- Wait group: one waiter at a time, since each hit of zero releases once (waitgroup.go:14-16).
- Clocks, contexts, reservations, artifact contents, the FNV hash and what a dependency yields are inputs of the models; loads are reals and not floats.
- Liveness: CAS loops may spin under an unfair scheduler; what is proved is safety, and that a pending wakeup is available.
- fastpath.go, lib_runtime_linkage.go and the assembly: goroutine parking through runtime internals.
- artifact_frame.go, worker.go, job.go, config.go, retry.go, regulator.go, logging.go, erased.go: encoding, telemetry, options and single retry loops, which would add only easy members.
- backpressure.go, loadbalancer.go, resourcegovernor.go: single thresholds over statistics of the process.
- broadcastgroup.go: routing and subscription tables; only the order of push and wake in `Send` is used.
- metrics.go: latency and utilisation statistics; only the worker and queue counters are modelled.
