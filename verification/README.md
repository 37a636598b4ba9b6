# Runtime protocols of OmniMemory

A Dafny model of the in-process runtime layer of OmniMemory and proofs about it: the resource pool
and the circuit breakers, the priority lock, the fair semaphore and the simple connection pool, the
sliding-window rate limiter, the LRU-bounded metric counter, the overlap removal and masking of the
PII detector, the retry loop, the subscription handler's cache over its database, and the class-graph
algorithms of the Pydantic pattern validator.

`dafny verify dfyconfig.toml` checks the whole project.

## How the code is modelled

- One module per component. An object that updates its fields is a class with those fields; each
  method is proved against a function of the old state, and the theorems are about runs of these
  functions. Histories (issued handles, full admission logs, observed hold times) are ghost or
  belong to the step system only.
- For the asynchronous components a step is the code between two suspension points, and a run is any
  sequence of enabled steps of any number of tasks. The asyncio locks are never held across a
  suspension, so a locked section is one step. Of asyncio itself the model assumes: setting an event
  wakes every task parked on it, a wait on a set event does not park, and a semaphore's permit is taken
  only when its value is positive.
- Time, jitter, factory products, health answers, outcomes of operations and fresh ids are parameters of
  the steps. Time is non-decreasing only where a theorem says so. Floats are reals. Agents, topics, ids
  and resources are numbers; what matters is which are equal and how ids are ordered.
- Configuration values are bounded as their models bound them: thresholds and `max_attempts` at least 1,
  jitter in [0, 1], multiplier at least 1, batch size and `max_entries` at least 1.

## Where the code and its documentation differ

The model follows the code.

- `_deduplicate_matches` (adapter_pii_detector.py, line 318) is documented as keeping the matches of highest
  confidence. It keeps the earliest start, whatever the confidences. Every dropped match overlaps a kept one at least
  as confident whenever, of any two overlapping matches with different starts, the earlier is at least as confident;
  for two overlapping matches, for collections that overlap only in pairs, and over all collections drawn from given
  matches, that condition is exact (`PiiDetector.PairPrefersExactly`, `PrefersExactlyInPairs`, `PrefersExactly`).
- `_rebuild_cache_from_db` (handler_subscription.py, lines 1436-1443) is documented as rebuilding the entire
  cache after an inconsistency. It adds and overwrites but removes nothing, so it restores the agreement exactly
  when nothing stale is cached (`SubscriptionCache.RebuildCoherentExactly`).
- `subscribe` mints a new id when the pair's row is soft-deleted, while the upsert keeps the old row's id, so the
  cache then lists an id the table does not hold (`SubscriptionCache.SubscribeCoherentExactly`). Empty metadata is
  stored as NULL but cached as an empty dictionary.
- In the semaphore, a TimeoutError raised by the body is handled like a timeout of the wait, which decrements
  `waiting_count` a second time (`FairSemaphores.WaitingCountExactly`).
- In the simple connection pool, exhaustion raises TimeoutError, which is an OSError, so it is retried like a failed
  creation; the step system lets it.
- In the resource pool, a resource that is released unhealthy or expired leaves the pool but keeps counting in
  `current_size` (`retired` in `ResourcePools`), so a pool can lose all its capacity for ever
  (`ResourcePools.StarvedForEver`); and releasing a stale handle whose resource is lent again unlists
  the other holder (`ResourcePools.ListingKeptExactly`).

## Model

| member | source | states |
|---|---|---|
| CircuitBreakers.Bisimilar | src/omnimemory/adapters/adapter_concurrency.py:959-1062 | with zero jitter the two breakers agree after every event of any run on state, failure count, totals and both timestamps (and on the success count while HALF_OPEN), and give the same answer to the next admission check |
| CircuitBreakers.SuccessCountsDiffer | src/omnimemory/adapters/adapter_concurrency.py:968 | the two keep `success_count` differently: one success in CLOSED makes it 1 in one breaker and leaves it 0 in the other |
| CircuitBreakers.SyncSuccessCountExactly | src/omnimemory/adapters/adapter_concurrency.py:959-1038 | in any state of any run, `CircuitBreaker` counts the successes since it last entered CLOSED or HALF_OPEN (or the start), late ones in OPEN included |
| CircuitBreakers.SinceResetExists | src/omnimemory/adapters/adapter_concurrency.py:1025-1038 | every moment has such a last entry |
| CircuitBreakers.AsyncSuccessCountExactly | src/omnimemory/adapters/adapter_resource_manager.py:159-186 | `AsyncCircuitBreaker` keeps, outside HALF_OPEN, the number of successes of its last HALF_OPEN stay, a closing one included |
| CircuitBreakers.AsyncSuccessCountBeforeProbe | src/omnimemory/adapters/adapter_resource_manager.py:176-186 | and 0 before the first stay |
| CircuitBreakers.TotalsCountOutcomes | src/omnimemory/adapters/adapter_resource_manager.py:136-191 | over any run `total_calls` is the number of completed calls and `total_timeouts` the number that timed out |
| CircuitBreakers.TimestampsExact | src/omnimemory/adapters/adapter_resource_manager.py:176-225 | `last_failure_time` moves on every failure, late ones in OPEN included, and on nothing else; `state_changed_at` moves exactly when the state does |
| CircuitBreakers.AdmissionExactly | src/omnimemory/adapters/adapter_resource_manager.py:122-157 | an admission is refused if and only if the breaker is OPEN and less than the recovery time, moved by the draw, has passed since the latest failure of the run; admitted in OPEN it enters HALF_OPEN, else nothing changes |
| CircuitBreakers.SyncAdmissionExactly | src/omnimemory/adapters/adapter_concurrency.py:1040-1062 | the same of `CircuitBreaker`, without jitter |
| CircuitBreakers.ClosedBeforeFailure | src/omnimemory/adapters/adapter_resource_manager.py:122-157 | before any failure both breakers are CLOSED and admit everything |
| CircuitBreakers.TrailingRunExists | src/omnimemory/adapters/adapter_resource_manager.py:176-186 | every CLOSED moment is preceded by a run without success that starts at the beginning, at a close or at a success |
| CircuitBreakers.FailureCountIsTrailingRun | src/omnimemory/adapters/adapter_resource_manager.py:176-199 | in CLOSED, `failure_count` is the number of failures since the last success or close, and is below the threshold |
| CircuitBreakers.OpensExactlyAtThreshold | src/omnimemory/adapters/adapter_resource_manager.py:188-199 | from CLOSED the next event opens the breaker if and only if it is a failure that brings that run to the threshold |
| CircuitBreakers.StayExists | src/omnimemory/adapters/adapter_resource_manager.py:159-174 | every HALF_OPEN moment belongs to a stay that was entered from OPEN |
| CircuitBreakers.SuccessCountInStay | src/omnimemory/adapters/adapter_resource_manager.py:176-186 | within a HALF_OPEN stay `success_count` is the number of successes of the stay, below the threshold, and the stay has had no failure |
| CircuitBreakers.LeavesHalfOpenExactly | src/omnimemory/adapters/adapter_resource_manager.py:176-225 | from HALF_OPEN a failure opens, the success that reaches `success_threshold` within the stay closes, everything else stays |
| CircuitBreakers.ClosesOnlyAfterProbe | src/omnimemory/adapters/adapter_resource_manager.py:180-184 | the breaker becomes CLOSED only at the end of a HALF_OPEN stay with exactly `success_threshold` successes and no failure |
| CircuitBreakers.SyncOpensExactlyAtThreshold | src/omnimemory/adapters/adapter_concurrency.py:959-993 | for `CircuitBreaker`: in CLOSED, `failure_count` is the length of the trailing failure run, below the threshold, and the next event opens if and only if it is a failure that reaches it |
| CircuitBreakers.SyncTrailingRunExists | src/omnimemory/adapters/adapter_concurrency.py:959-975 | for `CircuitBreaker`: every CLOSED moment has its trailing run |
| CircuitBreakers.SyncLeavesHalfOpenExactly | src/omnimemory/adapters/adapter_concurrency.py:959-993 | for `CircuitBreaker`: a failure opens, the success that reaches the threshold within the stay closes, everything else stays |
| CircuitBreakers.SyncClosesOnlyAfterProbe | src/omnimemory/adapters/adapter_concurrency.py:966-968 | for `CircuitBreaker`: it becomes CLOSED only at the end of a HALF_OPEN stay with exactly `success_threshold` successes and no failure |
| CircuitBreakers.LastFailureAfterEntry | src/omnimemory/adapters/adapter_resource_manager.py:188-199 | from an entry into OPEN on, the last failure is never earlier than the entry |
| CircuitBreakers.RecoveryBefore | src/omnimemory/adapters/adapter_resource_manager.py:145-157 | leaving OPEN after an entry takes at least (1 - jitter) times `recovery_timeout` |
| CircuitBreakers.EntriesFarApart | src/omnimemory/adapters/adapter_resource_manager.py:122-225 | any two entries into OPEN are at least (1 - jitter) times `recovery_timeout` apart |
| CircuitBreakers.SyncEntriesFarApart | src/omnimemory/adapters/adapter_concurrency.py:1040-1062 | the same for `CircuitBreaker`, with the whole `recovery_timeout`, by way of the bisimulation |
| CircuitBreakers.OpeningsSpread | src/omnimemory/adapters/adapter_resource_manager.py:188-225 | the entries before the last one use up that many gaps of time |
| CircuitBreakers.FlappingBound | src/omnimemory/adapters/adapter_resource_manager.py:122-225 | a run of length L enters OPEN at most 1 + L / ((1 - jitter) * `recovery_timeout`) times |
| CircuitBreakers.CircuitBreaker.constructor | src/omnimemory/adapters/adapter_concurrency.py:929-957 | starts CLOSED with zero counters and no failure time |
| CircuitBreakers.CircuitBreaker.RecordSuccess | src/omnimemory/adapters/adapter_concurrency.py:959-975 | the whole new state is the specified success step |
| CircuitBreakers.CircuitBreaker.RecordFailure | src/omnimemory/adapters/adapter_concurrency.py:977-993 | the whole new state is the specified failure step |
| CircuitBreakers.CircuitBreaker.RecordTimeout | src/omnimemory/adapters/adapter_concurrency.py:995-1013 | a timeout counter step and then the failure step, although the code repeats the body instead of calling it |
| CircuitBreakers.CircuitBreaker.TransitionToOpen | src/omnimemory/adapters/adapter_concurrency.py:1015-1023 | only state and change time move |
| CircuitBreakers.CircuitBreaker.TransitionToClosed | src/omnimemory/adapters/adapter_concurrency.py:1025-1031 | clears both counts |
| CircuitBreakers.CircuitBreaker.TransitionToHalfOpen | src/omnimemory/adapters/adapter_concurrency.py:1033-1038 | clears the success count only |
| CircuitBreakers.CircuitBreaker.ShouldAllowRequest | src/omnimemory/adapters/adapter_concurrency.py:1040-1062 | answer and new state are those of the specified admission step |
| CircuitBreakers.AsyncCircuitBreaker.constructor | src/omnimemory/adapters/adapter_resource_manager.py:108-113 | starts CLOSED with zero counters and no failure time |
| CircuitBreakers.AsyncCircuitBreaker.Enter | src/omnimemory/adapters/adapter_resource_manager.py:122-127 | the admission section: refuse, or let through and move OPEN to HALF_OPEN once the jittered recovery time has passed |
| CircuitBreakers.AsyncCircuitBreaker.OnSuccess | src/omnimemory/adapters/adapter_resource_manager.py:176-186 | the whole new state is the specified success step |
| CircuitBreakers.AsyncCircuitBreaker.OnFailure | src/omnimemory/adapters/adapter_resource_manager.py:188-199 | the whole new state is the specified failure step |
| CircuitBreakers.AsyncCircuitBreaker.OnTimeout | src/omnimemory/adapters/adapter_resource_manager.py:137-140 | the timeout handler: the counter, then the failure path |
| ResourcePools.NoLostWakeUp | src/omnimemory/adapters/adapter_resource_manager.py:611-685 | in every reachable state of every interleaving, a task parked on the unset event implies nothing is available and the pool is at capacity; anything available implies the event is set |
| ResourcePools.ReleaseServesParked | src/omnimemory/adapters/adapter_resource_manager.py:651-685 | a release that returns its resource wakes every parked task, and the one that takes the lock next is lent that very resource |
| ResourcePools.AcquiresExactly | src/omnimemory/adapters/adapter_resource_manager.py:611-649 | when an acquisition succeeds and what it does: with something available the last entry leaves the list and is lent; else below capacity a product is counted and lent, or its absence reported; else the event is cleared and the task waits. Whatever is lent appears as exactly one new ACTIVE, listed handle; nothing else changes |
| ResourcePools.WaitsExactly | src/omnimemory/adapters/adapter_resource_manager.py:611-663 | after its locked section a task is still waiting if and only if nothing was available and the pool at capacity |
| ResourcePools.ReleasesExactly | src/omnimemory/adapters/adapter_resource_manager.py:665-685 | a release returns the resource, last, and sets the event and wakes the parked tasks, if and only if the handle was ACTIVE, the resource healthy and the lifetime not over; only this handle stops being ACTIVE and only its resource's entry goes |
| ResourcePools.SweepsExactly | src/omnimemory/adapters/adapter_resource_manager.py:904-927 | an expiry sweep keeps an available entry if and only if it is within the lifetime, lowers the size counter by the number dropped, and changes nothing else |
| ResourcePools.RegisteredExactly | src/omnimemory/adapters/adapter_resource_manager.py:555-576 | the pool as published holds exactly what the factory produced, counts it, and has its event set if and only if that is something |
| ResourcePools.LentToOne | src/omnimemory/adapters/adapter_resource_manager.py:453-467 | no resource is ever held by two ACTIVE handles or listed twice as available, however often clients release handles |
| ResourcePools.AlwaysInv | src/omnimemory/adapters/adapter_resource_manager.py:555-685 | wake-up, exclusivity, listing and conservation (ACTIVE handles + available + retired = `current_size`, at most the larger of `min_size` and `max_size`) hold in every reachable state |
| ResourcePools.StepKeeps | src/omnimemory/adapters/adapter_resource_manager.py:593-685 | each step of acquire, park, wake, give-up, release and expiry keeps all of these |
| ResourcePools.WaiterKeeps | src/omnimemory/adapters/adapter_resource_manager.py:611-663 | entering, parking, waking and giving up keep the wake-up invariant, touch nothing of the pool and no other task; only giving up ends the task |
| ResourcePools.RegisteredInv | src/omnimemory/adapters/adapter_resource_manager.py:555-576 | the pool as initialized satisfies them |
| ResourcePools.ListedAccounting | src/omnimemory/adapters/adapter_resource_manager.py:665-685 | `active_resources` never lists more than the ACTIVE handles, and when it lists them all, listed + available + retired = `current_size` |
| ResourcePools.ListingKeptExactly | src/omnimemory/adapters/adapter_resource_manager.py:672-674 | a step keeps the listing of the ACTIVE handles complete if and only if it is not the release of a stale handle whose resource is lent again |
| ResourcePools.ExactAccounting | src/omnimemory/adapters/adapter_resource_manager.py:555-685 | if every release is clean, that is, of an ACTIVE handle or of a resource nobody holds, active + available + retired = `current_size`, at most the larger of `min_size` and `max_size`, throughout |
| ResourcePools.ActiveUntilReleased | src/omnimemory/adapters/adapter_resource_manager.py:453-458 | a handle no earlier event released is still ACTIVE |
| ResourcePools.OnceIsClean | src/omnimemory/adapters/adapter_resource_manager.py:672-680 | if no handle is released twice, every release is clean |
| ResourcePools.AccountingIfReleasedOnce | src/omnimemory/adapters/adapter_resource_manager.py:555-685 | if each handle is released at most once, active + available + retired = `current_size`, at most the larger of `min_size` and `max_size`, throughout |
| ResourcePools.WakerExistsExactly | src/omnimemory/adapters/adapter_resource_manager.py:645-685 | while a task is parked, some handle is ACTIVE, so somebody can still wake it, if and only if fewer resources have been retired than the size counter counts |
| ResourcePools.StarvedStep | src/omnimemory/adapters/adapter_resource_manager.py:627-685 | once everything counted has been retired and leaves no room to create, no step lends anything |
| ResourcePools.StarvedForEver | src/omnimemory/adapters/adapter_resource_manager.py:627-685 | and it stays so in every continuation of the run |
| ResourcePools.StarvationHappens | src/omnimemory/adapters/adapter_resource_manager.py:678-685 | a run that gets there: the only resource of a pool is released unhealthy |
| ResourcePools.ListingBreaks | src/omnimemory/adapters/adapter_resource_manager.py:672-674 | a run in which releasing a stale handle leaves the new holder ACTIVE and unlisted |
| ResourcePools.UnexpiredExactly | src/omnimemory/adapters/adapter_resource_manager.py:911-917 | the sweep keeps an entry if and only if it is within its time |
| ResourcePools.UnexpiredDistinct | src/omnimemory/adapters/adapter_resource_manager.py:911-917 | and lists no resource twice if the list did not |
| ResourcePools.UnexpiredInOrder | src/omnimemory/adapters/adapter_resource_manager.py:909-927 | the entries kept keep their order |
| ResourcePools.OutdatedExactly | src/omnimemory/adapters/adapter_resource_manager.py:911-917 | the resources handed out for closing are exactly those past their time |
| ResourcePools.FilledFacts | src/omnimemory/adapters/adapter_resource_manager.py:568-572 | the initial fill holds at most `min_size` resources, all distinct |
| ResourcePools.FilledExactly | src/omnimemory/adapters/adapter_resource_manager.py:568-572 | the fill holds exactly the products made, each with its time, and all of them in order if all were made |
| ResourcePools.ResourceHandle.constructor | src/omnimemory/adapters/adapter_resource_manager.py:437-451 | a new handle is ACTIVE |
| ResourcePools.ResourcePool.constructor | src/omnimemory/adapters/adapter_resource_manager.py:516-541 | an uninitialized pool is empty with the event unset |
| ResourcePools.ResourcePool.FillAvailable | src/omnimemory/adapters/adapter_resource_manager.py:568-572 | every resource the factory produced is available and counted |
| ResourcePools.ResourcePool.Initialize | src/omnimemory/adapters/adapter_resource_manager.py:555-576 | the first call fills the pool and sets the event if anything was made; later calls change nothing |
| ResourcePools.ResourcePool.CreateHandle | src/omnimemory/adapters/adapter_resource_manager.py:615-622 | issues one new ACTIVE handle and lists it under its resource |
| ResourcePools.ResourcePool.AcquireSection | src/omnimemory/adapters/adapter_resource_manager.py:611-649 | the locked section: the last available resource, else a new one below capacity, else an allocation error, else the event is cleared |
| ResourcePools.ResourcePool.MarkReleased | src/omnimemory/adapters/adapter_resource_manager.py:680 | only that handle stops being ACTIVE |
| ResourcePools.ResourcePool.Unlist | src/omnimemory/adapters/adapter_resource_manager.py:673-674 | the entry of that resource, whoever holds it, is removed |
| ResourcePools.ResourcePool.ReleaseHandle | src/omnimemory/adapters/adapter_resource_manager.py:665-685 | health and expiry are judged before the status changes; the resource returns and the event is set only if both are good |
| ResourcePools.ResourcePool.SweepAvailable | src/omnimemory/adapters/adapter_resource_manager.py:908-927 | the loop keeps the entries within their time, collects the others in order and counts them off |
| ResourcePools.ResourcePool.CheckResourceExpiration | src/omnimemory/adapters/adapter_resource_manager.py:904-927 | without a lifetime nothing happens; else exactly the resources past their time are dropped and handed out for closing, and the size counter falls by their number |
| PriorityLocks.NoOvertaking | src/omnimemory/adapters/adapter_concurrency.py:244-268 | over any run, a later request whose level (Critical over High over Normal over Low) is not above the earlier one's is granted only after the earlier one was granted or timed out |
| PriorityLocks.AlwaysInv | src/omnimemory/adapters/adapter_concurrency.py:203-312 | in every reachable state the queue is the stable descending-priority sort of the waiting requests, the holder is the one task in the body, and counters and hold times are exact |
| PriorityLocks.MutualExclusion | src/omnimemory/adapters/adapter_concurrency.py:211-312 | at most one task is in the body and it is the recorded holder; acquisitions = releases + 1 if held; average hold time times releases = the sum of all hold times |
| PriorityLocks.GrantedExactly | src/omnimemory/adapters/adapter_concurrency.py:258-268 | a turn is granted if and only if the lock is free and the request leads: of the waiting ones none is of a higher level (Critical over High over Normal over Low), and none of its own level came earlier |
| PriorityLocks.NotGrantedExactly | src/omnimemory/adapters/adapter_concurrency.py:270-280 | a turn not granted times out if and only if the request has a timeout other than zero and has waited that long; then it leaves the queue and is counted, else the lock is as it was |
| PriorityLocks.ValueIsOrder | src/omnimemory/adapters/adapter_concurrency.py:79-86 | the numeric values order the levels Critical over High over Normal over Low, and no two alike |
| PriorityLocks.LeavesByTurn | src/omnimemory/adapters/adapter_concurrency.py:258-305 | a request stops waiting only by being granted or timing out |
| PriorityLocks.ArrivalOrderKept | src/omnimemory/adapters/adapter_concurrency.py:244-256 | two requests still waiting stand in their order of arrival |
| PriorityLocks.TimeoutsCounted | src/omnimemory/adapters/adapter_concurrency.py:231-232 | `total_timeouts` is the number of waits given up plus the number of bodies that raised a TimeoutError |
| PriorityLocks.InsertIsStable | src/omnimemory/adapters/adapter_concurrency.py:244-256 | inserting into the sorted queue gives the sort of the longer arrival list |
| PriorityLocks.InsertPlace | src/omnimemory/adapters/adapter_concurrency.py:244-256 | a new request goes behind every one it is not above, and before the first that it is above |
| PriorityLocks.StableSortLevels | src/omnimemory/adapters/adapter_concurrency.py:244-256 | the sorted queue is the Critical requests, then High, Normal and Low, each in order of arrival |
| PriorityLocks.WithoutIsStable | src/omnimemory/adapters/adapter_concurrency.py:305 | filtering a request out of the sorted queue gives the sort of the shorter arrival list |
| PriorityLocks.SortHeadLeads | src/omnimemory/adapters/adapter_concurrency.py:258-268 | the head of the sorted queue is the leading request |
| PriorityLocks.QueueStep | src/omnimemory/adapters/adapter_concurrency.py:244-305 | every step keeps the queue sorted and the waiting tasks distinct |
| PriorityLocks.HolderStep | src/omnimemory/adapters/adapter_concurrency.py:217-312 | every step keeps the holder and the acquisition counters exact |
| PriorityLocks.HoldTimeStep | src/omnimemory/adapters/adapter_concurrency.py:288-302 | every step keeps the running average and the maximum exact |
| PriorityLocks.StepKeeps | src/omnimemory/adapters/adapter_concurrency.py:203-312 | so every step keeps the whole invariant |
| PriorityLocks.PriorityLock.constructor | src/omnimemory/adapters/adapter_concurrency.py:155-167 | an empty lock |
| PriorityLocks.PriorityLock.EnqueueRequest | src/omnimemory/adapters/adapter_concurrency.py:244-256 | the request goes before the first one of strictly lower priority, else last |
| PriorityLocks.PriorityLock.WaitForTurn | src/omnimemory/adapters/adapter_concurrency.py:211-280 | one turn of the wait loop, with the pop and the holder assignment as one step: granted, timed out or asleep |
| PriorityLocks.PriorityLock.ExitBody | src/omnimemory/adapters/adapter_concurrency.py:211-242 | leaving the body by any outcome |
| PriorityLocks.PriorityLock.CleanupRequest | src/omnimemory/adapters/adapter_concurrency.py:282-312 | hold statistics if acquired, removal from the queue, and the holder cleared if it is this request |
| PriorityLocks.PriorityLock.RemoveFromQueue | src/omnimemory/adapters/adapter_concurrency.py:305 | the other requests, in order |
| FairSemaphores.PermitConservation | src/omnimemory/adapters/adapter_concurrency.py:355-427 | at every step, whatever the bodies do: inner value + tasks holding an inner permit = total; `available_permits` = total - recorded holders = total - (acquisitions - releases); inner value between 0 and `available_permits`, which is at most total |
| FairSemaphores.AverageWithinObserved | src/omnimemory/adapters/adapter_concurrency.py:410-426 | the smoothed average lies between the shortest and the longest observed hold, and the maximum is the longest (or 0) |
| FairSemaphores.HoldExactly | src/omnimemory/adapters/adapter_concurrency.py:368-403 | every observed hold time is the time from taking the permit to the end of the body |
| FairSemaphores.AverageExactly | src/omnimemory/adapters/adapter_concurrency.py:410-426 | the first hold is the average; each later one moves it by its weight towards that hold; the maximum is the larger of the two |
| FairSemaphores.SmoothingExactly | src/omnimemory/adapters/adapter_concurrency.py:417-419 | the weight at the n-th release is 0.1 up to the 19th and 2 / (n + 1) from then on |
| FairSemaphores.WaitingCountExactly | src/omnimemory/adapters/adapter_concurrency.py:386-389 | `waiting_count` is the number of tasks not yet recorded if and only if no body has raised a TimeoutError so far |
| FairSemaphores.WaitingCountGoesNegative | src/omnimemory/adapters/adapter_concurrency.py:386-389 | a run that ends with nobody waiting and `waiting_count` at -1 |
| FairSemaphores.TimeoutsCounted | src/omnimemory/adapters/adapter_concurrency.py:386-389 | `total_timeouts` is the number of waits given up plus the number of bodies that raised a TimeoutError |
| FairSemaphores.AlwaysInv | src/omnimemory/adapters/adapter_concurrency.py:355-427 | placement, conservation and hold statistics hold in every reachable state |
| FairSemaphores.PlacedStep | src/omnimemory/adapters/adapter_concurrency.py:355-427 | every step keeps each task in one place only |
| FairSemaphores.ConservedStep | src/omnimemory/adapters/adapter_concurrency.py:355-427 | every step keeps the permit and counter equations |
| FairSemaphores.BlendWithin | src/omnimemory/adapters/adapter_concurrency.py:412-422 | one smoothing step stays between the old extremes and the new sample |
| FairSemaphores.FairSemaphore.constructor | src/omnimemory/adapters/adapter_concurrency.py:323-333 | all permits free |
| FairSemaphores.FairSemaphore.StartWaiting | src/omnimemory/adapters/adapter_concurrency.py:358-359 | one more waiting |
| FairSemaphores.FairSemaphore.Acquired | src/omnimemory/adapters/adapter_concurrency.py:370-375 | the holder is recorded with its time and the four counters move together |
| FairSemaphores.FairSemaphore.TimedOut | src/omnimemory/adapters/adapter_concurrency.py:386-389 | one fewer waiting, one more timeout, also when the body raised it |
| FairSemaphores.FairSemaphore.Released | src/omnimemory/adapters/adapter_concurrency.py:398-427 | the holder is removed, the permit recorded as free, the average smoothed and the maximum updated |
| ConnectionPools.LifetimeBound | src/omnimemory/adapters/adapter_concurrency.py:1194-1324 | in every reachable state the number of connections ever created = active + idle, at most `max_size`, and no connection is idle twice, lent twice or both |
| ConnectionPools.NeverDiscards | src/omnimemory/adapters/adapter_concurrency.py:1296-1324 | a return always puts the connection back: the discard branch is unreachable |
| ConnectionPools.ExhaustedExactly | src/omnimemory/adapters/adapter_concurrency.py:1260-1270 | an attempt finds the pool exhausted if and only if all `max_size` connections are lent |
| ConnectionPools.AttemptExactly | src/omnimemory/adapters/adapter_concurrency.py:1258-1270 | an attempt takes the last idle connection; only when none is idle and fewer than `max_size` are lent does it create one; else it fails and changes nothing |
| ConnectionPools.ReturnExactly | src/omnimemory/adapters/adapter_concurrency.py:1302-1310 | a return to any pool ends the lending and makes the connection idle if and only if there is room beside the idle and the lent ones |
| ConnectionPools.AttemptsCounted | src/omnimemory/adapters/adapter_concurrency.py:1237-1292 | a call under way has made exactly as many failed attempts as it counts, fewer than `max_retries` |
| ConnectionPools.GivesUpExactly | src/omnimemory/adapters/adapter_concurrency.py:1277-1292 | a call gives up with its `max_retries`-th failed attempt and not before |
| ConnectionPools.AlwaysInv | src/omnimemory/adapters/adapter_concurrency.py:1235-1324 | counting, exclusivity and bounded attempts hold in every reachable state |
| ConnectionPools.StepKeeps | src/omnimemory/adapters/adapter_concurrency.py:1235-1324 | each attempt, timeout, retry and return keeps them |
| ConnectionPools.ReturnIsKept | src/omnimemory/adapters/adapter_concurrency.py:1302-1310 | the size check on return succeeds |
| ConnectionPools.ConnectionPool.constructor | src/omnimemory/adapters/adapter_concurrency.py:1149-1165 | an empty pool |
| ConnectionPools.ConnectionPool.CreateConnection | src/omnimemory/adapters/adapter_concurrency.py:1194-1211 | the base factory: one more created |
| ConnectionPools.ConnectionPool.Attempt | src/omnimemory/adapters/adapter_concurrency.py:1259-1272 | the locked section of one attempt: the last idle connection, else a new one below capacity, else exhaustion |
| ConnectionPools.ConnectionPool.Return | src/omnimemory/adapters/adapter_concurrency.py:1297-1310 | the connection leaves the active table and, if there is room, becomes idle |
| PydanticModels.ClassModelConfigCollector.ResolvePydanticModels | scripts/validation/validate_pydantic_patterns.py:214-258 | on any class graph, cyclic ones included, and in any iteration order, the result is the least set that contains the direct models and every class with a base in it, and the iteration guard never fires |
| PydanticModels.LeastIsDerives | scripts/validation/validate_pydantic_patterns.py:214-224 | that least set is exactly the names that reach a direct model through in-file inheritance |
| PydanticModels.LeastIsUnique | scripts/validation/validate_pydantic_patterns.py:214-258 | so the result does not depend on the order of iteration |
| PydanticModels.ClassModelConfigCollector.OnePass | scripts/validation/validate_pydantic_patterns.py:249-258 | one pass adds only classes every closed set must hold; it reports a change if and only if it added one, and no change means the set is closed |
| PydanticModels.ClassModelConfigCollector.AnyResolved | scripts/validation/validate_pydantic_patterns.py:254-258 | the inner loop asks whether some base is already in the set |
| PydanticModels.TraceExactly | scripts/validation/validate_pydantic_patterns.py:132-167 | tracing reports a cycle if and only if one is reachable through in-file bases, and its chain is then a genuine path from the class whose last node repeats an earlier one |
| PydanticModels.TraceSound | scripts/validation/validate_pydantic_patterns.py:148-167 | for any visited set, a reported chain is a genuine path whose last node is the only repetition; otherwise the chain is the class alone |
| PydanticModels.TraceComplete | scripts/validation/validate_pydantic_patterns.py:148-167 | if no cycle is reported, no in-file path from the class meets the visited set or itself |
| PydanticModels.ClassModelConfigCollector.TraceInheritanceChain | scripts/validation/validate_pydantic_patterns.py:132-167 | the recursive method with its loop over the bases computes that trace, and terminates on the classes not yet visited |
| RateLimiters.EveryWindow | src/omnimemory/adapters/adapter_health_manager.py:80-111 | in any run with non-decreasing time, whatever other identifiers do, any interval of `window_seconds`, open at its start, holds at most `max_requests` admissions of an identifier |
| RateLimiters.SameDecision | src/omnimemory/adapters/adapter_health_manager.py:90-111 | every decision is the one that counts over the full, never pruned admission log |
| RateLimiters.PrunedIsFull | src/omnimemory/adapters/adapter_health_manager.py:97-102 | the pruned list and the full log agree on everything later than any cutoff a coming call can use |
| RateLimiters.AdmittedIsFullLog | src/omnimemory/adapters/adapter_health_manager.py:107-111 | the limiter's own admissions are that full log |
| RateLimiters.RefusesExactly | src/omnimemory/adapters/adapter_health_manager.py:104-106 | a call is refused if and only if at least `max_requests` of the identifier's own admissions lie in the window that ends now |
| RateLimiters.AllowsExactly | src/omnimemory/adapters/adapter_health_manager.py:90-111 | one call cuts its identifier's list to the entries later than the window's start, adds the time on yes, and touches no other list |
| RateLimiters.AfterExactly | src/omnimemory/adapters/adapter_health_manager.py:97-102 | pruning keeps exactly the later entries |
| RateLimiters.SpacedWindow | src/omnimemory/adapters/adapter_health_manager.py:80-111 | a log where every admission found room has room in every window |
| RateLimiters.RateLimiter.constructor | src/omnimemory/adapters/adapter_health_manager.py:67-78 | no requests yet |
| RateLimiters.RateLimiter.IsAllowed | src/omnimemory/adapters/adapter_health_manager.py:90-111 | prunes the identifier's list whatever the answer, appends only on yes, leaves the other identifiers alone |
| MetricsCounters.LruExact | src/omnimemory/adapters/adapter_metrics_counter.py:285-322 | after any run the stored keys are exactly the `max_entries` most recently touched distinct keys since the last reset, in recency order |
| MetricsCounters.ReadExactly | src/omnimemory/adapters/adapter_metrics_counter.py:299-306 | a read answers 0 for a key not stored, else the sum of the increments since the key's latest insertion |
| MetricsCounters.ValueIsSumSinceInsertion | src/omnimemory/adapters/adapter_metrics_counter.py:285-297 | a stored value is the sum of the increments since the latest insertion |
| MetricsCounters.LatestInsertion | src/omnimemory/adapters/adapter_metrics_counter.py:289-292 | a stored key has a latest insertion, after which it was stored all along |
| MetricsCounters.TouchKeepsRecency | src/omnimemory/adapters/adapter_metrics_counter.py:289-294 | a touch keeps recency order, and what it evicts is the oldest entry of a full store |
| MetricsCounters.Counter.constructor | src/omnimemory/adapters/adapter_metrics_counter.py:251-264 | an empty store |
| MetricsCounters.Counter.Lookup | src/omnimemory/adapters/adapter_metrics_counter.py:289 | finds the key's only position, or none |
| MetricsCounters.Counter.MoveToEnd | src/omnimemory/adapters/adapter_metrics_counter.py:294 | the entry goes last, the others keep their order |
| MetricsCounters.Counter.Evict | src/omnimemory/adapters/adapter_metrics_counter.py:290-291 | the oldest entries go until there is room for one |
| MetricsCounters.Counter.IncBy | src/omnimemory/adapters/adapter_metrics_counter.py:285-297 | evict and insert, or renew, and then add the amount |
| MetricsCounters.Counter.Read | src/omnimemory/adapters/adapter_metrics_counter.py:299-306 | the value, with the key renewed, or 0 with nothing changed |
| MetricsCounters.Counter.Reset | src/omnimemory/adapters/adapter_metrics_counter.py:319-322 | the store is empty |
| SubscriptionCache.RebuildCoherentExactly | src/omnimemory/handlers/handler_subscription.py:1429-1556 | a rebuild leaves the cache exactly the topic, agent and id index of the ACTIVE rows if and only if nothing stale was in it; from an empty cache it always does |
| SubscriptionCache.RebuildAdds | src/omnimemory/handlers/handler_subscription.py:1519-1546 | a rebuild adds the index of the ACTIVE rows to what was cached and overwrites their copies; it removes nothing |
| SubscriptionCache.SubscribeCoherentExactly | src/omnimemory/handlers/handler_subscription.py:785-846 | a subscribe keeps the index exact if and only if the pair has no soft-deleted row, and the copies too if and only if, besides, the metadata is not the empty dictionary |
| SubscriptionCache.UnsubscribeKeepsCoherent | src/omnimemory/handlers/handler_subscription.py:888-915 | an unsubscribe always keeps the agreement |
| SubscriptionCache.ResubscribeBreaksIndex | src/omnimemory/handlers/handler_subscription.py:793-802 | unsubscribing a pair and subscribing to it again always leaves the index wrong |
| SubscriptionCache.SubscribeUncachedExactly | src/omnimemory/handlers/handler_subscription.py:827-852 | a subscribe whose cache write fails keeps the index exact if and only if the pair was ACTIVE already, and the copies too if and only if, besides, its time and metadata are unchanged |
| SubscriptionCache.UnsubscribeUncachedExactly | src/omnimemory/handlers/handler_subscription.py:905-922 | an unsubscribe whose evictions stop early keeps the agreement if and only if all three were done or the row was not ACTIVE |
| SubscriptionCache.EvictsInOrder | src/omnimemory/handlers/handler_subscription.py:905-908 | the evictions are made in the order topic set, agent set, copy, and each takes out this id only |
| SubscriptionCache.ExpiryThenSubscribe | src/omnimemory/handlers/handler_subscription.py:831-846 | when a topic's key has expired and an agent subscribes, the next read of the topic is right if and only if nobody else is subscribed to it |
| SubscriptionCache.SubscribeLeavesOneLive | src/omnimemory/handlers/handler_subscription.py:797-815 | after a subscribe, whatever was there before, the pair has exactly one live row, ACTIVE, with the given metadata as stored; it is the pair's old row with its creation time, if there was one |
| SubscriptionCache.SubscribeTouchesPair | src/omnimemory/handlers/handler_subscription.py:1139-1194 | rows of other pairs are untouched and the table's constraints kept |
| SubscriptionCache.SubscribedExactly | src/omnimemory/handlers/handler_subscription.py:792-817 | the subscription answered is ACTIVE, of the pair, with the given metadata and time; of the live row's id and creation time if there is one, else new |
| SubscriptionCache.UnsubscribeLeavesNone | src/omnimemory/handlers/handler_subscription.py:1196-1220 | after an unsubscribe the pair has no live row, so a second unsubscribe finds nothing; its row stays, marked deleted at that time, and other pairs are untouched |
| SubscriptionCache.CachedReadsAgree | src/omnimemory/handlers/handler_subscription.py:1112-1133 | at every moment of a careful run from a fresh rebuild, cached topic reads answer the database's set, and listings each of its rows exactly once |
| SubscriptionCache.TopicReadRight | src/omnimemory/handlers/handler_subscription.py:1558-1629 | a topic read answers the database's set whenever the topic's own key is exact or gone, and leaves that key exact |
| SubscriptionCache.TopicCached | src/omnimemory/handlers/handler_subscription.py:1576-1588 | a cached set is answered as it is |
| SubscriptionCache.ListReadRight | src/omnimemory/handlers/handler_subscription.py:1112-1133 | over an exact cache a listing answers each of the agent's ACTIVE rows exactly once, through the cache or not, in whatever order the set is iterated and the rows are answered, and changes nothing |
| SubscriptionCache.ListFallback | src/omnimemory/handlers/handler_subscription.py:1120-1133 | whatever else is cached, an agent without a cached set is answered from the database, each of its ACTIVE rows exactly once and in the order asked for, and the cache is left alone |
| SubscriptionCache.ListCached | src/omnimemory/handlers/handler_subscription.py:1112-1125 | whatever the cache holds, a listing through it answers each cached id once, by its cached copy or else its row, if that is ACTIVE, and caches the rows it fetched |
| SubscriptionCache.LoadExactly | src/omnimemory/handlers/handler_subscription.py:1690-1789 | loading answers each id by its cached copy or else its row, caches the rows so fetched and changes nothing else |
| SubscriptionCache.LoadOnce | src/omnimemory/handlers/handler_subscription.py:1690-1789 | and each of them once, in whatever order the ids come |
| SubscriptionCache.StepKeepsKeyed | src/omnimemory/handlers/handler_subscription.py:829-846 | every step caches copies under their own ids |
| SubscriptionCache.AlwaysKeyed | src/omnimemory/handlers/handler_subscription.py:829-846 | so copies are stored under their own ids throughout every run |
| SubscriptionCache.RowsOnce | src/omnimemory/handlers/handler_subscription.py:1278-1297 | however a set of rows is ordered, each is answered once |
| SubscriptionCache.StepKeepsTable | deployment/database/migrations/001_create_subscription_tables.sql:16-27 | every operation keeps the primary key and the unique pair |
| SubscriptionCache.AlwaysValidTable | deployment/database/migrations/001_create_subscription_tables.sql:16-27 | so they hold throughout every run, careful or not |
| SubscriptionCache.StepKeepsCoherent | src/omnimemory/handlers/handler_subscription.py:755-930 | every careful operation keeps the cache exact |
| SubscriptionCache.AlwaysCoherent | src/omnimemory/handlers/handler_subscription.py:755-930 | from a rebuild over an empty cache, every careful run (no failed cache write, no subscribe over a soft-deleted row, no empty metadata) keeps the cache exact |
| SubscriptionCache.InOrderFacts | src/omnimemory/handlers/handler_subscription.py:1493-1500 | the ordered query lists every id once, in increasing order |
| SubscriptionCache.SliceFacts | src/omnimemory/handlers/handler_subscription.py:1493-1513 | consecutive pages are consecutive stretches of that list, without gap or repetition |
| SubscriptionCache.LiveRow | src/omnimemory/handlers/handler_subscription.py:1222-1257 | the row of the pair that is not deleted, if there is one |
| SubscriptionCache.PairRow | src/omnimemory/handlers/handler_subscription.py:1162-1175 | the row, deleted or not, that an upsert of the pair meets |
| SubscriptionCache.HandlerSubscription.constructor | src/omnimemory/handlers/handler_subscription.py:521-547 | an empty cache over the given rows |
| SubscriptionCache.HandlerSubscription.PersistSubscription | src/omnimemory/handlers/handler_subscription.py:1139-1194 | an update rewrites the row; an insert that meets the pair's row rewrites that row and keeps its id |
| SubscriptionCache.HandlerSubscription.Subscribe | src/omnimemory/handlers/handler_subscription.py:783-861 | a malformed topic changes nothing; else the row is upserted and, unless the cache write fails, which is swallowed, the subscription is cached under topic, agent and id |
| SubscriptionCache.HandlerSubscription.Unsubscribe | src/omnimemory/handlers/handler_subscription.py:885-930 | answers whether the pair had a live row; if so it is soft-deleted and evicted from the three indexes one after the other, as far as the evictions succeed |
| SubscriptionCache.HandlerSubscription.CacheRow | src/omnimemory/handlers/handler_subscription.py:1521-1546 | one row is cached under its id, topic and agent |
| SubscriptionCache.HandlerSubscription.CachePage | src/omnimemory/handlers/handler_subscription.py:1519-1546 | one batch caches its rows in order |
| SubscriptionCache.HandlerSubscription.CachePages | src/omnimemory/handlers/handler_subscription.py:1484-1548 | the paging loop visits the whole ordered list, each row once, and terminates |
| SubscriptionCache.HandlerSubscription.RebuildCacheFromDb | src/omnimemory/handlers/handler_subscription.py:1429-1556 | the rebuilt cache, and as many rows processed as are ACTIVE |
| SubscriptionCache.HandlerSubscription.GetSubscribersForTopic | src/omnimemory/handlers/handler_subscription.py:1570-1629 | the cached set if there is one, else the database's, which is then cached |
| SubscriptionCache.HandlerSubscription.LoadSubscriptions | src/omnimemory/handlers/handler_subscription.py:1690-1789 | cached copies first, then the rows of the missing ids, which are then cached |
| SubscriptionCache.HandlerSubscription.ListSubscriptions | src/omnimemory/handlers/handler_subscription.py:1112-1133 | through a cached set, the ACTIVE ones among the loaded subscriptions in the set's iteration order; else the database's rows, newest first |
| PiiDetector.DedupExactly | src/omnimemory/adapters/adapter_pii_detector.py:317-340 | overlap removal returns a start-ordered, pairwise disjoint sub-collection in which every dropped match overlaps a kept one that starts earlier, or with it and is at least as confident |
| PiiDetector.DedupByPositions | src/omnimemory/adapters/adapter_pii_detector.py:317-340 | of non-empty matches, no character lies in two kept ones, and every dropped one shares a character with a kept one that starts earlier, or with it and is at least as confident |
| PiiDetector.OverlapIsSharing | src/omnimemory/adapters/adapter_pii_detector.py:330-333 | two non-empty spans overlap if and only if they share a character |
| PiiDetector.UndisputedIsKept | src/omnimemory/adapters/adapter_pii_detector.py:317-340 | a match that shares no character with any other is kept |
| PiiDetector.UndisputedIsMasked | src/omnimemory/adapters/adapter_pii_detector.py:298-355 | and in the result its own mask stands in its place |
| PiiDetector.EarlierBeatsMoreConfident | src/omnimemory/adapters/adapter_pii_detector.py:318 | of two overlapping matches with different starts the earlier one alone is kept, whatever the confidences, so the documented preference fails whenever the later one is more confident |
| PiiDetector.PairPrefersExactly | src/omnimemory/adapters/adapter_pii_detector.py:317-340 | for two overlapping matches with different starts the documented preference (every dropped match overlaps a kept one at least as confident) is met if and only if the earlier is at least as confident |
| PiiDetector.EarlierConfidentPrefers | src/omnimemory/adapters/adapter_pii_detector.py:317-340 | for any matches, it is met if of any two overlapping ones with different starts the earlier is at least as confident |
| PiiDetector.PrefersExactly | src/omnimemory/adapters/adapter_pii_detector.py:317-340 | that condition holds of given matches if and only if the preference is met on every collection drawn from them |
| PiiDetector.PrefersExactlyInPairs | src/omnimemory/adapters/adapter_pii_detector.py:317-340 | where no match overlaps two others, the preference is met if and only if that condition holds |
| PiiDetector.DeduplicateMatches | src/omnimemory/adapters/adapter_pii_detector.py:317-340 | the nested loops compute that collection |
| PiiDetector.SortFacts | src/omnimemory/adapters/adapter_pii_detector.py:323 | the sort is an ordered permutation |
| PiiDetector.SortStable | src/omnimemory/adapters/adapter_pii_detector.py:323 | the sort is stable: matches that may stand either way keep their order |
| PiiDetector.SortFixesSorted | src/omnimemory/adapters/adapter_pii_detector.py:300 | sorting again changes nothing |
| PiiDetector.SortReverses | src/omnimemory/adapters/adapter_pii_detector.py:345 | the reverse sort of matches with increasing starts is their reversal |
| PiiDetector.SpliceStep | src/omnimemory/adapters/adapter_pii_detector.py:347-353 | one splice from the right turns the text masked from a match on into the text masked from the match before |
| PiiDetector.SanitizeContent | src/omnimemory/adapters/adapter_pii_detector.py:342-355 | the right-to-left splice equals the left-to-right concatenation of untouched gaps and masks |
| PiiDetector.OutsideVerbatim | src/omnimemory/adapters/adapter_pii_detector.py:342-355 | every character outside the kept spans is in the result, moved by the growth of the masks before it |
| PiiDetector.MaskInPlace | src/omnimemory/adapters/adapter_pii_detector.py:342-355 | in place of every kept span stands its own mask, moved by the growth of the masks before it |
| PiiDetector.LengthExactly | src/omnimemory/adapters/adapter_pii_detector.py:342-355 | the length changes by the growth of the masks alone |
| PiiDetector.DedupTiles | src/omnimemory/adapters/adapter_pii_detector.py:298-304 | what overlap removal keeps is fit for splicing, and already in order |
| PiiDetector.DetectPii | src/omnimemory/adapters/adapter_pii_detector.py:298-304 | removal, second sort and masking together: the matches kept and the text with exactly those masked |
| RetryUtils.RetryWithBackoff | src/omnimemory/adapters/adapter_retry_utils.py:121-189 | the operation is invoked up to its first success or first failure that is not retryable, or `max_attempts` times; that last outcome is returned or raised; every attempt is recorded with its delay and error |
| RetryUtils.IsRetryableException | src/omnimemory/adapters/adapter_retry_utils.py:42-66 | true if and only if some listed name is part of the exception's name |
| RetryUtils.ContainsExactly | src/omnimemory/adapters/adapter_retry_utils.py:63 | one string is part of another if and only if the other is some text, it, and some text |
| RetryUtils.DelaysNonDecreasing | src/omnimemory/adapters/adapter_retry_utils.py:69-95 | without jitter, delays never decrease with the attempt number and stay between 0 and the maximum |
| RetryUtils.DelayExactly | src/omnimemory/adapters/adapter_retry_utils.py:80-95 | no delay before the first attempt; without jitter the second waits the smaller of base and maximum; later delays are the whole part of the step-by-step delay, moved by the draw if jitter is on, never below 0 |
| RetryUtils.RawDelayIsBackoff | src/omnimemory/adapters/adapter_retry_utils.py:83-87 | before whole milliseconds are taken, the delay is the base at the second attempt, then the multiplier times the one before, never more than the maximum |
| RetryUtils.DelayBounded | src/omnimemory/adapters/adapter_retry_utils.py:87-95 | with or without jitter, a delay is between 0 and 1.25 times the maximum |
| RetryUtils.RawDelayGrows | src/omnimemory/adapters/adapter_retry_utils.py:81-85 | the capped exponential grows with the attempt number up to the maximum |
| RetryUtils.TotalSleepBounded | src/omnimemory/adapters/adapter_retry_utils.py:121-189 | a recorded run of n invocations sleeps at most (n - 1) * 1.25 * `max_delay_ms` |

## Left out

- ResourcePools.LentToOne: assumes the factory never makes an object it has made before, as a living object's identity guarantees.
- ResourcePools.NoLostWakeUp: covers runs that start from an initialized pool and end before shutdown.
- PiiDetector.SanitizeContent: assumes matches inside the text, not empty and not overlapping, in order, as `detect_pii` passes them; every configured pattern matches at least one character.
- PiiDetector.DetectPii: takes the list of matches as given, non-empty spans of the text.
- SubscriptionCache.LiveRow: reads the database row as it is, without the conversions of row values.
- SubscriptionCache.HandlerSubscription.RebuildCacheFromDb: the database does not change during the rebuild, and cache writes succeed.
- ConnectionPools.LifetimeBound: for the base factory, which cannot fail; an overriding factory is not modelled.
- MetricsCounters.LruExact: calls run one after another; two threads between the two locks of `inc` are not modelled.
- RateLimiters.EveryWindow: for non-decreasing time; the code reads the wall clock, which may step back.
- Task cancellation, and the race of a timeout with a wake-up inside `wait_for`.
- Starvation: a low-priority request can be overtaken by later ones of higher priority without bound, so nothing is claimed about it.
- Waiters of the resource pool across shutdown, and closing of resources.
- `AsyncConnectionPool`: it waits for a connection while holding the lock that a return needs and does not count connections in flight, so the laws proved of the simple pool do not hold of it.
- `has_inherited_model_config`, which has no guard against cycles, and the AST walk that collects the class graph.
- SubscriptionCache.HandlerSubscription.Subscribe: the cache pipeline succeeds or fails as a whole, and key lifetimes are not tracked; what an expired topic key does to a later subscribe and read is stated apart, not as a step of a run.
- SubscriptionCache.HandlerSubscription.GetSubscribersForTopic: a failed cache read, which falls back to the database like a miss, has no case of its own.
- The order in which the database answers rows asked for by id, pagination of listings, `notify` and the handler's metrics.
- Transactions: each database operation of the handler is one step, and concurrent handlers are not modelled.
- Reordering of the caller's list by `_deduplicate_matches`, which sorts it in place.
- The scan itself: regular expressions, confidence thresholds and the limits on text length and matches per type.
- `calculate_delay` in floating point, and execution of the operation in another thread.
- Retry decorators, `RetryManager`, the breaker decorators and `call` wrappers around the modelled sections.
- Label validation and `get_all` of the counter; histograms, gauges and the registry, which would add easy members.
- Logging, tracing, correlation contexts, network clients, health probes, settings and protocols.
