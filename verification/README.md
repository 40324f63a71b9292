# Verification of the parallel execution engine's core

A Dafny model of the components that schedule, store and validate a block of transactions in this
repository, with proofs of what they guarantee. `dafny verify dfyconfig.toml` checks the project.

The model follows the repository's components:

- **Work-stealing deque** (`scheduler/queues.go`). `ChaseLevSteps.dfy` makes every atomic load, store,
  add and compare-and-swap a transition of its own, with one owner and any number of thieves;
  `ChaseLevRuns.dfy` proves every interleaving linearisable to the bounded deque of `Deque.dfy` and
  loss-free, and `ChaseLevProgress.dfy` that every call returns within a fixed number of its own steps
  and, left alone, does what it is for; `ChaseLevTwoCallers.dfy` shows what a second caller at the bottom does. `ChaseLevQueue.dfy`
  is the ring buffer as an object, `PowerOfTwo.dfy` its sizes and masks.
- **Scheduler** (`scheduler/workstealing.go`). `SchedulerState.dfy` says what each critical section
  does, `SchedulerInvariant.dfy` what every step keeps, `SchedulerRuns.dfy` what holds of whole runs
  (safety, deadlock freedom, a bound on calls), `SchedulerLimits.dfy` exactly when a caller's
  carelessness loses a task and `SchedulerOverflow.dfy` exactly when full queues do.
  `SchedulerDeques.dfy` says at which end of which queue tasks are put and taken, and in which order.
  `CycleDetection.dfy` is the depth-first search over `DependencyGraph.dfy`,
  and `WorkStealingScheduler.dfy` the object, proved against `SchedulerState.dfy`.
- **Planner** (`access/planner.go`). `ConflictPlanner.dfy` has its loops, `ConflictColouring.dfy` the
  properties of the colouring. `PlanAcceptance.dfy` says exactly which planned blocks the scheduler
  takes, `Coordinator.dfy` composes planner and scheduler and proves end to end that tasks sharing a
  key never run together, and `CoordinatorLimits.dfy` has the blocks for which planning fails.
- **Multi-version storage** (`storage/lockfree.go`). `VersionLog.dfy` is the meaning: a log of writes
  per key. `VersionChains.dfy` has the linked chains, changed in place, `LockFreeStorage.dfy` the hash
  buckets over them, `GarbageCollection.dfy` what collection keeps and which reads it changes.
- **Validator** (`validation/validator.go`). `ReadSets.dfy` is read validation and its soundness,
  `FastValidator.dfy` the fast, full and batch paths, `ConflictDetection.dfy` and
  `ConflictDetector.dfy` conflict detection through its lossy cache, and `ConflictCounts.dfy` how often
  each conflict is reported.
- **Priority queues** (`scheduler/queues.go`). `PriorityQueues.dfy`.

Several things one would expect of the code hold only under a condition. Each is stated with the
condition that decides it, in both directions where the table says "exactly":

- An abort naming a completed dependency strands its task (`AbortStrands`): no completion, abort or new
  task schedules it again (`StrandedForever`), only submitting its id once more with completed
  dependencies does (`ResubmissionRescues`). An abort is not checked for cycles either: waiting stays free of deadlock exactly when the dependency
  is known, incomplete and does not itself wait for the task (`AbortStaysLive`; `AbortDeadlocks` is an
  abort after which nothing can run).
- A rejected AddTasks keeps its tasks registered and Pending, and strands exactly those that were ready
  (`RejectedStrands`).
- Newly ready tasks are lost exactly when the ready queue lacks room for what it must take: all of them
  without load balancing (`OverflowLosesTasks`), those that overflow their worker's deque with it
  (`DistributeLosesTasks`, `ScheduleLosesTasks`; `AddTasksOverflows` is an accepted call that loses one).
- A dependency listed twice wakes its task twice (`WokenAsOftenAsListed`), and a completion leaves each
  task in one place exactly when the tasks it wakes list the completed one once
  (`CompletePlacesOnceExactly`). Registering a task keeps the reverse lists right exactly when nothing was
  held for its id and its list has no repetition (`RegisteredAgain`).
- Planning makes the scheduler reject a block it would accept exactly when a task depends on one of a
  later batch that leads back to it (`PlanRejectedExactly`, with `PlanCanCloseCycle` as an example). When
  tasks depend on later batches only where they conflict, the colours alone decide
  (`ConflictingClimbExactly`), and blocks without such dependencies are accepted or rejected as they are
  without planning (`NoClimbKeepsBlock`).
- Planning repeats a dependency that a task already had on an earlier neighbour (`WrappedDistinct`). The
  scheduler accepts such a plan; completing the dependency then queues the task twice exactly when it was
  the last one missing (`CompletePlacesOnceExactly`), and **tasks that share a key do run together**
  (`RepeatedDependencyRunsTogether`). `NeverRunTogether` is about plans without repetition, accepted or
  rejected. `PlanSubmittableExactly` says which blocks have such a plan and `PlanAddableExactly` which of
  them are also accepted; accepted with dependency analysis on, they come from blocks in which no task
  depends on one it conflicts with (`AcceptedHasNoOwnConflict`), and for all those blocks
  `BlockNeverRunsTogether` states the result.
- A collection keeps the reads of all readers at or above the cutoff exactly when
  `SafeToCollect` holds of the chain (`GcSafeForReaders`, with `GcLosesSnapshot` as an example).
- A read is accepted exactly when it would be answered by the same write or the current answer goes
  unnoticed (`ReadSound`): an estimate of another incarnation of the transaction that was read
  (`EstimateHidesRewrite`), another value under the recorded version (`ReusedVersionHidesWrite`), or a
  write under the version recorded for a missing key, which is (0,0) (`ZeroVersionExactly`,
  `ZeroVersionHidesWrite`). Where the transaction wrote the key once, validation is sound for every
  status (`SoundForOneIncarnation`).
- The deque returns one pushed task twice when two callers push to its bottom (`ReturnedTwice`), as the
  scheduler's distribution over other workers' deques does.
- The conflict cache reports a key's pairs correctly exactly under the conditions of
  `CachedReadWriteExactly` and `CachedWriteWriteExactly`; a task writing a key twice defeats it
  (`DoubleWriteHidesConflict`).

Two comments in the source differ from its code, and the model follows the code: a read that depends on
no transaction carries dependency 0, not -1 (`storage/lockfree.go:42`), and a deque steals from the next
worker in order, not from a random one (`scheduler/workstealing.go:467`).

## Model

| member | source | states |
|---|---|---|
| ChaseLevSteps.OwnerStepRefines | scheduler/queues.go:39-87 | Each atomic step of PushBottom and PopBottom keeps the invariant, and changes the deque only at the call's one effect, as a bounded deque would |
| ChaseLevSteps.ThiefStepRefines | scheduler/queues.go:90-110 | The same for each atomic step of a stealing PopTop, with stale tops and a bottom lowered below top |
| ChaseLevSteps.PushOverwritesNothing | scheduler/queues.go:44-53 | Filling a slot overwrites no element that is still unclaimed |
| ChaseLevSteps.GiveUpReasons | scheduler/queues.go:90-107 | PopTop gives up only on an empty deque, on a last element a PopBottom is deciding, or after another claim |
| ChaseLevProgress.StepNearer | scheduler/queues.go:39-110 | A step of one's own brings a call nearer to its return, which is the last of its steps; no action of anybody else sets it back |
| ChaseLevProgress.EveryCallReturns | scheduler/queues.go:39-110 | Every call returns within a bounded number of its own steps, however the others are interleaved |
| ChaseLevProgress.CallLengths | scheduler/queues.go:39-110 | The bound is five steps for PushBottom and PopTop and six for PopBottom |
| ChaseLevProgress.UndisturbedSteal | scheduler/queues.go:90-110 | From every reachable state with a non-empty deque whose owner is not deciding about a pop, a thief that is left alone returns the oldest element and leaves the rest |
| ChaseLevProgress.UndisturbedPush | scheduler/queues.go:39-58 | From every reachable state an owner that is left alone appends its task, or is refused when the ring is full |
| ChaseLevProgress.UndisturbedPop | scheduler/queues.go:61-87 | and takes the newest element, or finds the deque empty |
| ChaseLevRuns.Linearizable | scheduler/queues.go:39-110 | In every interleaving of one owner and any number of thieves the calls take effect one at a time as on a sequential bounded deque, each between its invocation and its return |
| ChaseLevRuns.StepTracks | scheduler/queues.go:39-110 | A step moves the call of the actor it belongs to and of no other |
| ChaseLevRuns.Conservation | scheduler/queues.go:39-110 | Pushed equals returned plus still queued plus claimed by a call in progress, as multisets, in every interleaving |
| ChaseLevRuns.AtMostOnce | scheduler/queues.go:61-110 | A task pushed once is returned at most once, and is then neither queued nor claimed |
| ChaseLevRuns.TopNeverDecreases | scheduler/queues.go:80-110 | Top never decreases along a run |
| ChaseLevTwoCallers.ReturnedTwice | scheduler/workstealing.go:519-521 | With a second caller pushing to the bottom, a task pushed once is returned by two pops |
| ChaseLevQueue.ChaseLevQueue.constructor | scheduler/queues.go:23-36 | A new queue is empty and its ring is the size rounded up to a power of two |
| ChaseLevQueue.ChaseLevQueue.Index | scheduler/queues.go:53 | The mask gives the index modulo the ring size |
| ChaseLevQueue.ChaseLevQueue.PushBottom | scheduler/queues.go:39-58 | Appends to the newest end, and is refused exactly when the ring is full |
| ChaseLevQueue.ChaseLevQueue.PopBottom | scheduler/queues.go:61-87 | Yields the newest element, and nothing exactly when empty |
| ChaseLevQueue.ChaseLevQueue.PopTop | scheduler/queues.go:90-110 | Yields the oldest element; run alone it gives up exactly when empty |
| ChaseLevQueue.ChaseLevQueue.Size | scheduler/queues.go:113-121 | The number of elements held |
| PowerOfTwo.LeastPowerOfTwo | scheduler/queues.go:382-395 | For 1 to 2^63 both nextPowerOfTwo functions give the least power of two at or above their argument |
| PowerOfTwo.WrapsToZero | storage/lockfree.go:506-516 | Above 2^63, and for 0 in the storage version, the result wraps to 0 |
| PowerOfTwo.SmearFills | scheduler/queues.go:386-392 | The shift-or cascade sets exactly the bits below the top one |
| PowerOfTwo.MaskIsRemainder | storage/lockfree.go:191 | Masking with a power of two less one is the remainder, for every index and every hash |
| PowerOfTwo.PowerTest | storage/lockfree.go:163 | The test n and (n-1) recognises powers of two |
| PowerOfTwo.RoundedIsPower | storage/lockfree.go:157-165 | The rounded size is a power of two and not smaller |
| PowerOfTwo.DistinctSlots | scheduler/queues.go:53 | Two live indices less than a ring apart never share a slot |
| DependencyGraph.MinimalExists | scheduler/workstealing.go:413-421 | Any nonempty set of tasks in an acyclic graph has one waiting for none of the others |
| DependencyGraph.AddEdgeKeepsAcyclic | scheduler/workstealing.go:342-345 | An added dependency keeps the graph acyclic exactly when it does not itself depend on the task |
| DependencyGraph.AcyclicEdgeBound | scheduler/workstealing.go:342-345 | An acyclic graph on n tasks has at most n(n-1)/2 dependencies |
| CycleDetection.CycleSearch.HasCycle | scheduler/workstealing.go:381-397 | Terminates; reports only real reachable cycles, and otherwise finishes the node although marks are shared between roots |
| CycleDetection.CycleSearch.NoCycleThrough | scheduler/workstealing.go:385-396 | A node all of whose dependencies are finished lies on no cycle |
| CycleDetection.DetectCycles | scheduler/workstealing.go:365-378 | Reports an error exactly when a cycle is reachable from the given tasks |
| CycleDetection.AcyclicAfterAdding | scheduler/workstealing.go:237-242 | Adding tasks to an acyclic graph leaves it acyclic exactly when no cycle is reachable from the new ones |
| SchedulerInvariant.EmptyKeeps | scheduler/workstealing.go:186-205 | A new scheduler satisfies the invariant |
| SchedulerInvariant.StepKeeps | scheduler/workstealing.go:217-360 | Every step keeps each task in exactly one place, dependents the reverse of dependencies, and nothing scheduled before its dependencies completed |
| SchedulerInvariant.AddKeeps | scheduler/workstealing.go:217-256 | The same for AddTasks, which queues exactly the new tasks that are ready, or only registers them when the call is rejected |
| SchedulerInvariant.FindReadyFinds | scheduler/workstealing.go:400-410 | Finds each of the given tasks whose dependencies have completed, once, and no other |
| SchedulerInvariant.CarriedIsReady | scheduler/workstealing.go:269-290 | A task popped by a worker and not yet started is Ready |
| SchedulerInvariant.EnqueueSchedules | scheduler/workstealing.go:535-544 | With room in the ready queue every task is marked Ready and placed once, and nothing else changes |
| SchedulerInvariant.DistributeSchedules | scheduler/workstealing.go:502-532 | The same for the distribution over deques, whatever deques are full |
| SchedulerInvariant.ReadyHasRoom | scheduler/workstealing.go:194 | Tasks still to be scheduled always fit next to those queued |
| SchedulerInvariant.WokenExactly | scheduler/workstealing.go:478-490 | A completion wakes exactly the Pending tasks whose dependencies have now all completed, each once |
| SchedulerInvariant.CompleteKeeps | scheduler/workstealing.go:296-322 | CompleteTask keeps the invariant |
| SchedulerInvariant.AbortKeepsCore | scheduler/workstealing.go:325-360 | AbortTask keeps the invariant whatever dependency it names |
| SchedulerInvariant.AbortWaits | scheduler/workstealing.go:325-360 | The aborted task waits for something exactly when the named dependency has not completed |
| SchedulerDeques.TakeOwnPops | scheduler/workstealing.go:269-271 | A worker pops its own deque's newest task into its hands and touches nothing else |
| SchedulerDeques.StealPops | scheduler/workstealing.go:466-475 | A thief gets the victim's oldest task and touches nothing else |
| SchedulerDeques.TakeReadyPops | scheduler/workstealing.go:275-280 | The task taken from the ready queue leaves it, the others stay in order |
| SchedulerDeques.PushPushes | scheduler/workstealing.go:519-530 | A task is pushed at the bottom of its worker's deque, or where that is full behind the ready queue, and is Ready |
| SchedulerDeques.EnqueueExactly | scheduler/workstealing.go:535-544 | The ready queue takes the tasks in order until it is full; all of them are Ready and nothing else changes |
| SchedulerDeques.DistributeDeals | scheduler/workstealing.go:516-530 | Behind its old content the deque of the k-th worker holds the tasks k, k+n, k+2n and so on, in that order |
| SchedulerOverflow.DequeSizes | scheduler/workstealing.go:516-530 | as many of them as fit |
| SchedulerDeques.DistributeSpills | scheduler/workstealing.go:522-529 | The tasks that find their deque full stand in the ready queue in order, as many as fit |
| SchedulerDeques.RegisterExactly | scheduler/workstealing.go:226-235 | A task is entered under its id and, once per mention, behind the dependents of each of its dependencies |
| SchedulerDeques.RegisterInOrder | scheduler/workstealing.go:226-235 | Tasks are registered one after the other in the order of the call |
| SchedulerDeques.FindReadyInOrder | scheduler/workstealing.go:400-410 | Ready tasks are found one by one and keep their order |
| SchedulerDeques.WokenInOrder | scheduler/workstealing.go:478-490 | So are the tasks a completion wakes |
| SchedulerDeques.ReleaseExactly | scheduler/workstealing.go:304-311 | The first worker that holds the task becomes idle, and no other worker's task changes |
| SchedulerDeques.CompleteExactly | scheduler/workstealing.go:296-322 | A completion marks its task and readies exactly its Pending dependents that wait for nothing more; no other status and no dependency changes |
| SchedulerRuns.RunsKeepCore | scheduler/workstealing.go:217-360 | Safety of whole runs, rejected calls included: in every reachable state each task is in exactly one place and no dependency is overtaken |
| SchedulerRuns.RunsExtend | scheduler/workstealing.go:217-360 | Along a run completed tasks stay completed and dependencies are never forgotten |
| SchedulerRuns.AcceptedKeepsAcyclic | scheduler/workstealing.go:237-242 | AddTasks of new tasks leaves the whole graph acyclic exactly when no cycle is reachable from them |
| SchedulerRuns.AbortStaysLive | scheduler/workstealing.go:325-360 | An abort keeps the graph acyclic, its dependencies known and its tasks waiting for something exactly when the named dependency is another task, known, incomplete, and does not depend on the aborted one |
| SchedulerRuns.StepStaysLive | scheduler/workstealing.go:217-360 | A step of any kind keeps the state live exactly when its caller is diligent: known dependencies and no cycle for AddTasks, the condition above for AbortTask, nothing for the others |
| SchedulerRuns.RunsStayLive | scheduler/workstealing.go:217-360 | So do whole runs |
| SchedulerRuns.DeadlockFree | scheduler/workstealing.go:259-360 | Every such state with an unfinished task has a Ready or Running one |
| SchedulerRuns.Progress | scheduler/workstealing.go:259-360 | and some worker has a step to take, so a run that cannot go on has completed every task |
| SchedulerRuns.RunCredit | scheduler/workstealing.go:259-360 | Each NextTask, CompleteTask and AbortTask call moves one measure up by exactly one, and AddTasks never lowers it |
| SchedulerRuns.CallBound | scheduler/workstealing.go:259-360 | A run that ends with n tasks has made at most n*n + n such calls, whenever the tasks were added |
| SchedulerLimits.AbortStrands | scheduler/workstealing.go:325-360 | In any safe state AbortTask strands its task exactly when the named dependency has already completed, and changes nothing about which other tasks are stranded |
| SchedulerLimits.StrandedForever | scheduler/workstealing.go:325-360 | A stranded task is never scheduled again in any run whose AddTasks calls bring new ids |
| SchedulerLimits.ResubmissionRescues | scheduler/workstealing.go:226-253 | Submitting a stranded id again makes the task Ready, in one place, exactly when the call is accepted and its new list names completed tasks only |
| SchedulerLimits.AbortStrandsExample | scheduler/workstealing.go:325-360 | A state in which an abort loses its task |
| SchedulerLimits.AbortDeadlocks | scheduler/workstealing.go:325-360 | An abort closing a cycle after which two tasks wait for each other and nothing is Ready or Running |
| SchedulerLimits.RejectedStrands | scheduler/workstealing.go:226-242 | The tasks of a rejected AddTasks stay Pending in no queue; those stranded are exactly the ones whose dependencies had all completed |
| SchedulerLimits.WokenAsOftenAsListed | scheduler/workstealing.go:478-490 | A task is woken as often as it lists the completed dependency |
| SchedulerLimits.CompletePlacesOnceExactly | scheduler/workstealing.go:296-322 | With room in the ready queue, a completion leaves each task in one place exactly when every task it wakes lists the completed one once, for any lists |
| SchedulerLimits.RegisteredAgain | scheduler/workstealing.go:226-235 | Registering a task, again or not, keeps dependents the reverse of dependencies exactly when none were held for its id and its list has no repetition |
| SchedulerOverflow.OverflowLosesTasks | scheduler/workstealing.go:535-544 | Without load balancing, newly ready tasks all end up in one place exactly when the ready queue has room for all of them |
| SchedulerOverflow.DistributeLosesTasks | scheduler/workstealing.go:502-532 | With load balancing, exactly when the ready queue has room for those that find their worker's deque filled by its old contents and the earlier rounds |
| SchedulerOverflow.ScheduleLosesTasks | scheduler/workstealing.go:493-545 | scheduleReadyTasks loses no task exactly when the ready queue has room for what that configuration sends to it |
| SchedulerOverflow.AddTasksOverflows | scheduler/workstealing.go:535-544 | An accepted AddTasks whose second task ends up Ready and in no queue |
| WorkStealingScheduler.VictimsCoverAll | scheduler/workstealing.go:468-469 | The modular victim order reaches every deque |
| WorkStealingScheduler.FirstIsNext | scheduler/workstealing.go:466-475 | The first victim with work is the next worker, going round, that has any |
| WorkStealingScheduler.WorkStealingScheduler.constructor | scheduler/workstealing.go:175-205 | Defaults, sizes and the empty state |
| WorkStealingScheduler.WorkStealingScheduler.IsTaskReady | scheduler/workstealing.go:413-421 | True exactly when all dependencies are known and completed |
| WorkStealingScheduler.WorkStealingScheduler.AddTasks | scheduler/workstealing.go:217-256 | Refused when shut down, an error exactly for a reachable cycle, and the specified state in every case, registrations left behind included |
| WorkStealingScheduler.WorkStealingScheduler.StealTask | scheduler/workstealing.go:466-475 | Takes the oldest task of the first victim with work, and fails only when all deques are empty |
| WorkStealingScheduler.WorkStealingScheduler.NextTask | scheduler/workstealing.go:259-293 | Returns a task exactly when one is queued where the worker may look: its own deque's newest, else one of the ready queue, else the oldest of the next worker with work. That one occurrence leaves its queue, the worker holds it, it is Running, and nothing else changes |
| WorkStealingScheduler.WorkStealingScheduler.AssignTaskToWorker | scheduler/workstealing.go:453-463 | The worker holds the task, which is Running |
| WorkStealingScheduler.WorkStealingScheduler.CompleteTask | scheduler/workstealing.go:296-322 | Completes, frees the first worker holding the task, and schedules the woken tasks |
| WorkStealingScheduler.WorkStealingScheduler.CheckDependentTasks | scheduler/workstealing.go:478-490 | The dependents woken by the completion, in order |
| WorkStealingScheduler.WorkStealingScheduler.DistributeTasksEvenly | scheduler/workstealing.go:502-532 | Deals the tasks round robin to the workers in order of load, to the ready queue where a deque is full |
| WorkStealingScheduler.WorkStealingScheduler.AbortTask | scheduler/workstealing.go:325-360 | Adds the dependency behind the others unless present, with the task behind its dependents, returns the task to Pending and frees its worker |
| ConflictColouring.Proper | access/planner.go:52-68 | Conflicting tasks get different colours |
| ConflictColouring.Tight | access/planner.go:62-67 | A task conflicts with some task of every earlier colour |
| ConflictColouring.ColourBound | access/planner.go:54-67 | The least colour that some tasks leave free is at most their number |
| ConflictColouring.GreedyBounded | access/planner.go:54-67 | Without repeated ids a colour is at most the number of the task's conflicts |
| ConflictColouring.BatchesPartition | access/planner.go:70-81 | Every task is in exactly one batch, once, and no batch is empty |
| ConflictColouring.BatchInOrder | access/planner.go:77-80 | A batch holds its tasks in block order, one by one |
| ConflictColouring.BatchDisjoint | access/planner.go:22-23 | Different tasks of one batch share no key hash, for any block |
| ConflictColouring.BatchCount | access/planner.go:70-81 | There are at most as many batches as the largest number of entries beside one task, plus one, for any block; without repeated ids, as the largest number of conflicts of one task, plus one |
| ConflictColouring.InjectedAre | access/planner.go:98-110 | The injected dependencies are exactly those on the conflicting tasks of earlier batches, each once |
| ConflictColouring.OneDependencyPerConflict | access/planner.go:98-110 | Of two conflicting tasks exactly one gets an injected dependency on the other |
| ConflictColouring.InjectedAcyclic | access/planner.go:98-110 | The injected dependencies alone form no cycle |
| ConflictColouring.LongestChain | access/planner.go:98-110 | Their longest chain has exactly as many tasks as there are batches |
| ConflictColouring.WrappedDistinct | access/planner.go:126-135 | A wrapped task lists a dependency twice exactly when the task did or already depended on an earlier neighbour |
| ConflictPlanner.KeyOwners | access/planner.go:25-32 | A task owns a hash exactly when one of its keys has it |
| ConflictPlanner.ConflictGraph | access/planner.go:34-49 | Two tasks are linked exactly when they differ and share a key hash |
| ConflictPlanner.FirstFree | access/planner.go:62-66 | Terminates with the least unused colour |
| ConflictPlanner.Colour | access/planner.go:51-68 | For any block, repeated ids included, neighbours get different colours and each colour is at most the number of entries beside the task; with distinct ids each task gets the least colour its earlier neighbours leave free |
| ConflictPlanner.BuildBatches | access/planner.go:70-81 | One batch per colour in use, its tasks in block order |
| ConflictPlanner.PartIndex | access/planner.go:85-90 | The index read back from the batches is the colour |
| ConflictPlanner.Wrap | access/planner.go:99-110 | Adds each conflicting task of an earlier batch once, after the task's own dependencies |
| ConflictPlanner.Plan | access/planner.go:24-113 | For any block, batches of tasks with disjoint access keys, and every task with its earlier conflicts as added dependencies |
| ConflictPlanner.SharedKeyConflicts | access/planner.go:25-49 | Tasks naming a common key conflict, whatever the hash function |
| Coordinator.Prepare | engine/coordinator.go:28-36 | Plans and submits; the errors are exactly a shutdown, which changes nothing, and a rejected plan, which leaves no partitions but exactly the registrations of its tasks |
| Coordinator.BatchOrder | engine/coordinator.go:28-36 | For a plan without a repeated dependency, accepted or rejected: in every reachable state, of two conflicting tasks the later one is not scheduled before the earlier one has completed |
| Coordinator.NeverRunTogether | engine/coordinator.go:28-36 | For a plan without a repeated dependency, accepted or rejected, two tasks that access a common key never run at the same time, for any hash function and any run; with a repeated one it fails, see RepeatedDependencyRunsTogether |
| CoordinatorLimits.RepeatedDependencyRunsTogether | access/planner.go:126-135 | A plan the scheduler accepts, with a dependency listed twice, and a run after which two conflicting tasks are both Running |
| PlanAcceptance.PlanRejectedExactly | access/planner.go:98-110 | For a block no registered task waits for, whatever cycles the scheduler holds elsewhere: the planned block is rejected exactly when the block would be, or dependency analysis finds a task depending on one of a later batch that leads back to it |
| PlanAcceptance.NoClimbKeepsBlock | access/planner.go:98-110 | Where no task depends on one of a later batch, planning changes nothing about whether the block is rejected |
| PlanAcceptance.ConflictingClimbExactly | access/planner.go:98-110 | Where tasks depend on later batches only if they conflict, the plan is rejected exactly when the block is or some task does so |
| PlanAcceptance.PlanSubmittableExactly | access/planner.go:126-135 | The plan meets the demands of AddTasks on ids, lists and room exactly when the block does and no task depends on an earlier neighbour |
| PlanAcceptance.PlanAddableExactly | engine/coordinator.go:28-36 | The plan can be added, without repeated dependencies and without being rejected, exactly when the block can, no task depends on an earlier neighbour and, with dependency analysis, no dependency on a later batch leads back; with it, this means no task depends on any it conflicts with |
| Coordinator.AcceptedHasNoOwnConflict | engine/coordinator.go:28-36 | With dependency analysis, an accepted plan without repetitions comes from a block in which no task depends on one it conflicts with |
| Coordinator.BlockAccepted | engine/coordinator.go:28-36 | A scheduler accepts the plan of any block it would accept, that nobody waits for and whose tasks depend neither on conflicting tasks nor on later batches |
| Coordinator.BlockNeverRunsTogether | engine/coordinator.go:28-36 | For every block of new tasks in which none depends on one it conflicts with, two tasks that access a common key never run at the same time |
| Coordinator.IndependentBlockAccepted | engine/coordinator.go:28-36 | In particular the plan of any block whose tasks have no dependencies of their own is accepted by a scheduler with room for it in which nobody waits for them |
| Coordinator.PlannedRunIsLive | engine/coordinator.go:28-36 | A plan submitted to a live scheduler, empty or not, leaves it live, so that its run cannot deadlock and ends within the bound, exactly when the tasks depend on known or planned tasks only and no cycle is reachable from them |
| CoordinatorLimits.PlanCanCloseCycle | access/planner.go:98-110 | A block the scheduler accepts, whose plan it rejects |
| VersionLog.FindVersion | storage/lockfree.go:208-239 | Never answers with a version at or above the reader, nor with status Dependency |
| VersionLog.MarkAt | storage/lockfree.go:355-368 | Committing changes the status of the first matching version only |
| VersionLog.ReadIsLastWrite | storage/lockfree.go:186-239 | After any run of writes and commits a read answers with the last logged write below its reader |
| VersionLog.CommitKeepsReads | storage/lockfree.go:334-352 | Commits never change a read's value or version, and keep found what was found |
| VersionLog.CommittedExactly | storage/lockfree.go:334-368 | A version written once is committed exactly when a later commit names it |
| VersionLog.ReadIsHighest | storage/lockfree.go:265-267 | With a key's writes in version order a read answers with the highest version below its reader |
| GarbageCollection.GcExactly | storage/lockfree.go:412-446 | Leaves, in order, exactly the versions at or above the cutoff and the first committed version if nothing is kept before it |
| GarbageCollection.GcIdempotent | storage/lockfree.go:412-446 | A second collection with the same cutoff frees nothing |
| GarbageCollection.GcStoreIdempotent | storage/lockfree.go:379-409 | The same for the whole store, deleted keys included |
| GarbageCollection.GcKeepsRecentReads | storage/lockfree.go:412-446 | A read answered at or above the cutoff is unchanged |
| GarbageCollection.GcReadExactly | storage/lockfree.go:421-425 | A read survives a collection exactly when its answer is kept, for every chain |
| GarbageCollection.GcSafeForReaders | storage/lockfree.go:421-425 | All readers at or above the cutoff keep their reads exactly when the chain is safe to collect, for every chain |
| GarbageCollection.GcLosesSnapshot | storage/lockfree.go:421-425 | A chain whose collection loses the newest committed version below the cutoff |
| GarbageCollection.GcKeepsRunReads | storage/lockfree.go:379-409 | After any run, collecting the whole store keeps every read answered at or above the cutoff |
| GarbageCollection.SweptKeepsReads | storage/lockfree.go:379-446 | In any run mixing writes, commits and collections with cutoffs up to a bound, every read that is answered at or above the bound without the collections is answered the same with them |
| VersionChains.VersionChain.Insert | storage/lockfree.go:262-268 | Puts the new version in front as an estimate |
| VersionChains.VersionChain.FindVersion | storage/lockfree.go:208-239 | Walks the nodes to the first visible version |
| VersionChains.VersionChain.MarkVersionAsCommitted | storage/lockfree.go:355-368 | Changes in place the status of the first matching node |
| VersionChains.VersionChain.Gc | storage/lockfree.go:412-446 | Unlinks in place exactly what the collection of the chain drops, with exact freed and chain counts |
| LockFreeStorage.LockFreeStorage.constructor | storage/lockfree.go:156-183 | An empty store over a power-of-two number of buckets |
| LockFreeStorage.LockFreeStorage.BucketIndex | storage/lockfree.go:190-192 | Every hash picks a bucket in range |
| LockFreeStorage.LockFreeStorage.Read | storage/lockfree.go:186-205 | Answers from the key's own chain, whatever the hash and the bucket count |
| LockFreeStorage.LockFreeStorage.Write | storage/lockfree.go:242-272 | Logs the write for its key, changes no other key, and keeps TotalKeys and TotalVersions exact |
| LockFreeStorage.LockFreeStorage.Commit | storage/lockfree.go:334-352 | Marks the named versions and changes nothing else |
| LockFreeStorage.LockFreeStorage.Validate | storage/lockfree.go:298-311 | Accepts exactly when every recorded read is still valid |
| LockFreeStorage.LockFreeStorage.CollectGarbage | storage/lockfree.go:379-409 | Collects every chain once, deletes exactly the emptied keys, and keeps the freed count, TotalKeys and TotalVersions exact |
| ReadSets.SameAnswerExactly | storage/lockfree.go:314-331 | A later read has the recorded answer exactly when it finds nothing, or something was read and its version and value are the current ones |
| ReadSets.ReadSound | storage/lockfree.go:314-331 | Every recorded read is accepted exactly when it would be answered by the same write, or the current answer is an estimate of another incarnation of the recorded transaction or another write under the recorded version |
| ReadSets.ValidationSound | storage/lockfree.go:298-331 | The same for whole read sets; then every recorded value is current, but for such answers |
| ReadSets.SoundForOneIncarnation | storage/lockfree.go:314-331 | Where all the recorded transaction wrote to the key is what was recorded, acceptance is sound and complete for every status |
| ReadSets.OnePerTransaction | storage/lockfree.go:314-331 | which holds of every read that found something when no transaction writes the key under two versions or with two values |
| ReadSets.EstimateExactly | storage/lockfree.go:326-327 | A current estimate is accepted exactly when the transaction ids agree, and rightly so exactly when version and value agree |
| ReadSets.EstimateHidesRewrite | storage/lockfree.go:326-327 | A rewritten value that passes validation |
| ReadSets.ReusedVersionHidesWrite | storage/lockfree.go:316-323 | A key written and committed twice under one version, whose first read still passes |
| ReadSets.ZeroVersionExactly | storage/lockfree.go:316-323 | When a read recorded as not found passes: still missing, or written by transaction 0 |
| ReadSets.ZeroVersionHidesWrite | storage/lockfree.go:316-323 | A key read as missing that transaction 0 writes and commits, and whose read still passes |
| FastValidator.SameDecision | validation/validator.go:396-407 | The validator and the storage decide alike about every read |
| FastValidator.VerdictExactly | validation/validator.go:256-280 | Valid exactly when the storage accepts the read set; otherwise the first failing read is the conflict |
| FastValidator.WritesPass | validation/validator.go:410-415 | On this storage no write check ever fails |
| FastValidator.DependenciesExactly | validation/validator.go:418-421 | The dependency check passes exactly when every dependency precedes the task; otherwise the first that does not is the conflict |
| FastValidator.FastIsFull | validation/validator.go:256-347 | Both paths agree exactly when the reads fail or every dependency precedes the task |
| FastValidator.FastIsFullWithoutDependencies | validation/validator.go:129-152 | Validate fills in no dependencies, so both paths agree on every execution result |
| FastValidator.FastValidator.ValidateFastPath | validation/validator.go:256-280 | The verdict on the reads |
| FastValidator.FastValidator.ValidateFull | validation/validator.go:283-347 | Reads, then writes, then dependencies; the first failure decides |
| FastValidator.FastValidator.Validate | validation/validator.go:129-152 | The same result on either path, valid exactly when the storage's Validate accepts |
| FastValidator.FastValidator.ValidateShare | validation/validator.go:371-377 | A worker writes exactly its own share of a batch |
| FastValidator.FastValidator.ValidateBatch | validation/validator.go:155-174 | Every result gets its own verdict in its own place, in a batch or one by one |
| ConflictDetection.ConflictCache.constructor | validation/validator.go:99-112 | Empty, with a positive size |
| ConflictDetection.ConflictCache.HasConflict | validation/validator.go:424-456 | The cached answer or else whether the tasks differ, which is then cached; a hit changes nothing, a miss in a full cache replaces exactly one other entry, and the size bound is kept |
| ConflictDetection.CachedReadWriteExactly | validation/validator.go:193-209 | The cache leaves a key's read-write pairs right exactly when it does not say no conflict or no task reads what another writes |
| ConflictDetection.CachedWriteWriteExactly | validation/validator.go:211-225 | When the cache leaves a key's write-write pairs right: for any entry and any list of writers |
| ConflictDetection.DoubleWriteHidesConflict | validation/validator.go:424-456 | A task writing a key twice hides a real conflict |
| ConflictDetection.WritersDistinct | validation/validator.go:184-191 | With distinct ids the writers of a key differ exactly when no task writes it twice |
| ConflictDetection.ReportedExactly | validation/validator.go:177-235 | The pairs reported are exactly a writer with another reader of the key, and two different writers of it |
| ConflictCounts.WritersCount | validation/validator.go:184-191 | A task is among the writers of a key once for each of its writes of it |
| ConflictCounts.ReadersCount | validation/validator.go:184-191 | and among its readers once for each of its reads |
| ConflictCounts.WritersInOrder | validation/validator.go:184-191 | in the order of the results |
| ConflictCounts.ReadWriteCounts | validation/validator.go:193-209 | A writer and another reader of a key are reported as often as the product of their entries |
| ConflictCounts.WriteWriteCounts | validation/validator.go:211-225 | Two different writers are reported once for each place of the second after one of the first |
| ConflictCounts.ReportCounts | validation/validator.go:177-235 | Over any orders of the keys the whole report holds each pair exactly as often as that |
| ConflictCounts.ReportSize | validation/validator.go:228-233 | The number of conflicts is the number of pairs of accesses of different tasks to one key, a write with a read or with a later write |
| ConflictCounts.ReadWriteInOrder | validation/validator.go:196-207 | The pairs of a key come by writer, in order |
| ConflictCounts.WriteWriteInOrder | validation/validator.go:212-224 | So do its write-write pairs, and for one writer by the other |
| ConflictDetector.ConflictDetector.BuildAccessMaps | validation/validator.go:180-191 | The maps list the readers and writers of every key in order |
| ConflictDetector.ConflictDetector.DetectReadWrite | validation/validator.go:193-209 | One key's read-write pairs through the cache, for any cache state |
| ConflictDetector.ConflictDetector.DetectWriteWrite | validation/validator.go:211-225 | One key's write-write pairs through the cache, for any cache state |
| ConflictDetector.ConflictDetector.DetectConflicts | validation/validator.go:177-235 | With distinct writers, over any sequence of calls and any evictions, the report is that of the uncached definition, holds each pair once for every pair of accesses it stands for, and is counted as such |
| PriorityQueues.AdaptivePriorityQueue.Push | scheduler/queues.go:188-206 | Refused exactly when full; otherwise adds the task once, under 1.5 times the given priority when it has been popped more than five times and under the given one if not |
| PriorityQueues.CountsPops | scheduler/queues.go:209-256 | After any calls from a new queue the count of a task is the number of pops that returned it |
| PriorityQueues.BoostedExactly | scheduler/queues.go:188-256 | so a push is boosted exactly when more than five pops have returned that task |
| PriorityQueues.GreaterFirst | scheduler/queues.go:209-223 | Of two items in the queue the one of greater priority is popped first |
| PriorityQueues.BoostedFirst | scheduler/queues.go:188-256 | A boosted task goes before an unboosted one of less than 1.5 times its priority |
| PriorityQueues.AdaptivePriorityQueue.Pop | scheduler/queues.go:209-223 | Takes out one item of greatest priority, leaves the others under their priorities, and counts the task as popped |
| PriorityQueues.DistributedQueue.Pop | scheduler/queues.go:296-330 | Succeeds exactly when some queue is non-empty and returns the head of greatest gas; the other heads are counted as popped and go back into their own queue under their gas, boosted like any push, and every other item stays as it is |

## Left out

- ChaseLevSteps: one owner only. The scheduler pushes onto other workers' bottoms (scheduler/workstealing.go:519-521), for which the guarantees fail (ChaseLevTwoCallers.ReturnedTwice); the scheduler model therefore takes deque operations as atomic.
- ChaseLevSteps: slot reads and writes are atomic here; the torn read of an interface value, a growing buffer (the source never grows it) and int64 overflow of top and bottom are not modelled.
- ChaseLevQueue.ChaseLevQueue.constructor: sizes from 0 to 2^62; a larger one overflows the source's int and a negative one makes its allocation panic.
- LockFreeStorage.LockFreeStorage.constructor: bucket counts from 0 to 2^62, for the same reasons.
- WorkStealingScheduler.WorkStealingScheduler.NextTask: the object runs the call without interruption; the step model of SchedulerState separates the pop, the worker update and the status update.
- SchedulerState: any order of the ready queue is allowed, so priorities, the adaptive multiplier and task gas play no part in it; the order of equally loaded workers is likewise any.
- SchedulerState.Submittable: the run theorems assume of AddTasks what the source leaves to its callers: fresh ids, no repeated dependency, and no more tasks than the ready queue holds. Rejected calls are part of runs. SchedulerLimits and SchedulerOverflow say what happens otherwise.
- Coordinator.NeverRunTogether: not stated of plans that list a dependency twice, because it is false of them (CoordinatorLimits.RepeatedDependencyRunsTogether); PlanAcceptance.PlanSubmittableExactly says which blocks have such plans.
- SchedulerState.Enabled: each dispatched task is reported once, by CompleteTask or AbortTask, as executor/parallel.go:311-330 does. AddTasks, CompleteTask and AbortTask are one step each, so a task pushed by a call that is still going on is not seen before the call ends.
- SchedulerState.Free: a worker asks for work only when it holds no task; the source's NextTask would overwrite the task it holds.
- SchedulerState.IDLE: the id -1, which the source uses for an idle worker, is no task's id.
- SchedulerLimits.StrandedForever: runs in which the stranded id is not submitted again; ResubmissionRescues says when that helps.
- ConflictPlanner.Plan: the oracle and the hash are arbitrary functions; the unused byID map is omitted. For a block that lists a task id twice it is stated that the colouring is proper and bounded, not which colours it has: such a task is entered beside itself and moves away from its own first colour. That each colour is the least one free, and the chains of LongestChain, are stated for blocks with distinct ids.
- LockFreeStorage: its operations run one at a time. Concurrent readers and committers of one chain, the memory pool, timestamps, read and write counters, snapshots (their clock-based id gives no snapshot) and FNV hashing are not modelled.
- VersionLog: a nil value is None; other values are compared by equality only.
- ReadSets.ValidationSound: runs without collection, in which not-found reads are recorded as nil.
- FastValidator.FastValidator.ValidateBatch: the workers run one after the other; their shares are proved disjoint. Channels, the context pool, timings and success counters are not modelled.
- ConflictDetector.ConflictDetector.DetectConflicts: the two phases iterate the keys in any order, given by the ghost results; the count per conflict type is not modelled.
- PriorityQueues: container/heap is represented by its promise, taking out an item of greatest priority; gas and priorities are reals, so float64 rounding of very large values is not modelled. Push's choice of a queue is left out as simple.
- Engine lifecycle, executor goroutines and timeouts, metrics, logging, the early validator and the access-list conversion are left out: they carry no invariant of their own.
