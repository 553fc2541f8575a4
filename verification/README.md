# Cloudpods core: worker pool, router, block cache, model sync, header and share logic

Cloudpods is a multi-cloud management platform. This project models the parts of it that carry the most state and
branching, and proves what they promise:

- **Worker pool** (`pkg/appsrv/workers.go`, `ring.go`). A ring buffer refined to a bounded FIFO queue; the worker manager
  as a class whose critical sections refine functions on a value; and a state machine of every interleaving of `Run`
  callers, worker goroutines and request waiters. A ring is read through `wm.queue` in a step of its own, so callers and
  workers may keep using a ring that `UpdateWorkerCount` has replaced. Over every run: list consistency, hook
  bracketing, exactly-once and FIFO, exactly which steps lose a wakeup or panic, exactly when the queue can still be
  emptied and a given task still executed, and a bound within which a pool left alone comes to rest.
- **Response rendezvous** (`pkg/appsrv/response.go`). The handler and the waiter as a state machine over unbuffered
  channels; over every run the backend log is a prefix of the handler's program, and the calls it stands for, the
  waiter's own flushes included, are read off the steps.
- **Router** (`pkg/appsrv/radix.go`, `appsrv.go`). The mutable trie refines a trie value, which refines a flat table of
  routes; soundness, completeness, choice order, captures and registration are proved on the table for every sequence
  of registrations. Regular expressions are an uninterpreted predicate.
- **Block cache** (`cmd/fetcherfs`). Block arithmetic, bitmap, retries and reads, against an abstract remote object and a
  network that may answer anything except wrong bytes in a full-length body.
- **Model-set synchronisation** (`pkg/apihelper`). Paging, loading with a version check, and the in-place merge.
- **CORS header lists** (`pkg/appsrv/cors.go`). The byte loop, on every input, and its round trip.
- **Share scopes** (`pkg/apis/share.go`). The order behind `IsViolate`, down to the chain of scope names, and
  `Intersect` as a bound in it.

Functions and datatypes give the meaning; classes and methods with loops follow the code that updates state in place.
`IsRun` in `Protocol` and `Rendezvous` quantifies over all finite runs, and results about runs hold of every state of
every run.

## What the code does that its names do not say

- `Ring.Range` starts at `header` and stops when the index equals `header`, so it visits nothing, and the cancelling of
  identical tasks in `SWorker.run` never cancels (`Rings.Ring.Range`, `Managers.WorkerManager.RunWorker`).
- Between an empty `Pop` and `removeWorker` a task can be accepted that nobody will run. A worker that pops a replaced
  ring, one detached before it has a task or while the list is over-full, and a failing init hook lose a wakeup too
  (`PoolProgress.StallBegins`; each has a run in `PoolWitnesses`).
- A pool that is not stalled may still be unable to empty its queue, when its last worker is about to find a replaced
  ring empty (`PoolDrain.RunDrain`, `PoolWitnesses.DoomedHappens`).
- A second `Detach` of one worker leaves an element in the detached list for ever; neither hook is called again
  (`PoolHooks.LeakSilencesHooks`, `PoolWitnesses.DoubleDetachHappens`).
- A push into a ring that `UpdateWorkerCount` has just replaced is accepted, but executed only if enough workers are
  still about to pop that ring (`PoolExecute.ReplacedExact`, `PoolWitnesses.StrandingHappens`,
  `PoolWitnesses.SecondIsLost`).
- `scheduleWithLock` reads `worker.task.start` of the front worker when more than 50 tasks are queued, and panics if that
  worker has never had a task; `Detach` panics there too, and on a worker that has been removed or has no task
  (`PoolPanics.SchedulePanicExact`, `PoolPanics.DetachPanicExact`, `PoolWitnesses.PanicHappens`,
  `PoolWitnesses.RemovedDetachHappens`). Where that unwinds `wait`, its caller never closes the channels and a handler
  that is sending is blocked (`Rendezvous.StuckForever`, `PoolWitnesses.StuckHandler`).
- The full flag of `match` does not mean a full match: a fitting pattern with one literal segment has it too
  (`RouterTheorems.FlagExact`, `RouterTheorems.FullOnPrefix`).
- A block body of the wrong length without a read error is reported as success without setting the ready bit
  (`BlockCache.ReadCorrect`, `BlockCache.SilentReadHappens`).
- A version regression ends the load of a listing without an error, and the merge then drops everything listed only
  after it (`ModelSets.RegressionDropsTail`, `ModelSets.RegressionHappens`).
- A byte that is neither header byte nor separator takes the upper case off the letter after it, and off the next
  header when its whole run holds no header byte (`Cors.RoundTrip`, `Cors.ForeignByte`).
- `Split` is a multiset difference, comparing shares sorts their lists, and `Intersect` is not the greatest lower bound of
  the share order in general (`Shares.Split`, `Shares.IsViolate`, `Shares.IntersectGreatest`).

## Model

| member | source | states |
|---|---|---|
| `Rings.Ring.constructor` | pkg/appsrv/ring.go:27-35 | a new ring is empty and holds `size` elements; -1 is the smallest size `make` accepts |
| `Rings.Ring.Push` | pkg/appsrv/ring.go:45-54 | fails exactly at capacity, otherwise appends to the FIFO contents; through wraparound, slots outside the live window stay nil |
| `Rings.Ring.Pop` | pkg/appsrv/ring.go:56-66 | returns and removes the oldest element, or nothing from an empty ring |
| `Rings.Ring.Capacity` | pkg/appsrv/ring.go:68-70 | the largest number of elements the ring can hold |
| `Rings.Ring.Size` | pkg/appsrv/ring.go:72-80 | the number of elements in both pointer orders |
| `Rings.Ring.Range` | pkg/appsrv/ring.go:82-92 | visits nothing, whatever is queued |
| `Managers.CountRemove` | pkg/appsrv/workers.go:156-168 | removing a worker's list element takes away one occurrence of that worker and no other |
| `Managers.RemoveLastMeaning` | pkg/appsrv/workers.go:156-168 | what is left is the list without the last occurrence of that worker, everything else in its order |
| `Managers.WorkerManager.constructor` | pkg/appsrv/workers.go:193-220 | one worker and a backlog of 128 for arguments that are not positive, empty lists, and a ring for workerCount times backlog tasks |
| `Managers.WorkerManager.ScheduleWithLock` | pkg/appsrv/workers.go:308-334 | the in-place section equals the transition the protocol uses: init hook on empty lists, at most one new worker when there is room and work, otherwise stuck, nil-task, busy or quiet |
| `Managers.WorkerManager.Run` | pkg/appsrv/workers.go:261-269 | accepted exactly below capacity; then its task is last in the queue and scheduling has run, otherwise nothing changes; panics exactly if that schedule finds a front worker without a task |
| `Managers.WorkerManager.DetachWorker` | pkg/appsrv/workers.go:117-128 | moves the worker between lists and schedules a replacement; fails exactly where the source panics: on a removed worker, on one without a task (after the moves), or inside the schedule |
| `Managers.WorkerManager.Remove` | pkg/appsrv/workers.go:271-286 | takes the worker out of the list its state names and calls the empty hook on empty lists |
| `Managers.WorkerManager.NextTask` | pkg/appsrv/workers.go:84-105 | pops the oldest task; the scan for identical tasks never finds one |
| `Managers.WorkerManager.Drain` | pkg/appsrv/workers.go:80-114 | the worker loop alone executes the whole queue in order, or nothing once detached, with or without cancelling |
| `Managers.WorkerManager.RunWorker` | pkg/appsrv/workers.go:78-115 | a whole worker run executes the queue in push order and ends in the removal transition |
| `Managers.WorkerManager.UpdateWorkerCount` | pkg/appsrv/workers.go:246-255 | succeeds exactly on an empty queue and a ring size `make` accepts; then a fresh ring and the new count |
| `PoolLists.StepShape` | pkg/appsrv/workers.go:78-334 | every step keeps the state well formed: phases belong to live workers and refer to existing rings |
| `PoolLists.StepBounded` | pkg/appsrv/workers.go:246-334 | every step keeps the active count at or below the largest worker count ever set |
| `PoolLists.StepLists` | pkg/appsrv/workers.go:117-168 | every step keeps the list invariant; only a detach of a detached worker adds a surplus element, and no step removes one |
| `PoolLists.RunLists` | pkg/appsrv/workers.go:117-334 | in every state of every run: the active list is exact, ids are in range, the active count is bounded by the peak, and both lists are exact if and only if no detached worker was detached again |
| `PoolHooks.ScheduleHooks` | pkg/appsrv/workers.go:308-320 | scheduling keeps hook bracketing |
| `PoolHooks.RemoveHooks` | pkg/appsrv/workers.go:271-286 | removal keeps hook bracketing: the empty hook is called only while the init hook's success stands |
| `PoolHooks.RunHooks` | pkg/appsrv/workers.go:271-320 | with an init hook set from the start: while a worker is alive the init hook has succeeded since the last empty-hook call, and between two empty-hook calls there is a success |
| `PoolHooks.LeakStays` | pkg/appsrv/workers.go:117-168 | the surplus element of a double detach survives every later step |
| `PoolHooks.LeakSilencesHooks` | pkg/appsrv/workers.go:117-128 | after a double detach neither hook is ever called again |
| `PoolHooks.RunDeserted` | pkg/appsrv/workers.go:271-320 | in every state of every run the lists are empty if and only if no worker is alive and no double detach has leaked an element |
| `PoolHooks.RunHookCalls` | pkg/appsrv/workers.go:271-320 | exactly which hook each step of any run calls: the init hook a schedule that finds no worker, the empty hook the removal that leaves none, neither after a double detach, and no other step any |
| `PoolHooks.ScheduleExact` | pkg/appsrv/workers.go:308-334 | a schedule step of any run creates a worker if and only if tasks are queued, the active list has room and the init hook did not just fail; the worker is new, active and last in its list |
| `PoolTasks.PushPlaces` | pkg/appsrv/workers.go:261-265 | a push puts its task in one place if accepted and in none if rejected; when it is which is `PoolRings.PushExact` |
| `PoolTasks.PopPlaces` | pkg/appsrv/workers.go:84-86 | a pop moves a task from the ring to the worker and loses none |
| `PoolTasks.StepPlaces` | pkg/appsrv/workers.go:78-128 | every step keeps each task in as many places as it was accepted |
| `PoolTasks.StepFifo` | pkg/appsrv/ring.go:45-66 | every step keeps pops followed by contents equal to pushes, ring by ring |
| `PoolTasks.RunTasks` | pkg/appsrv/workers.go:78-115 | in every state of every run each accepted task is queued, held by one worker or executed, in exactly one place once; no other task is anywhere; each ring is popped in push order |
| `PoolTasks.RejectedNeverRuns` | pkg/appsrv/workers.go:261-269 | a rejected task is never queued, held or executed afterwards; rejected is what `PoolRings.PushExact` says |
| `PoolRings.StepRings` | pkg/appsrv/ring.go:45-66 | every step keeps every ring within its capacity |
| `PoolRings.InitialRings` | pkg/appsrv/workers.go:193-220 | a fresh manager has one worker and a backlog of 128 for arguments that are not positive, and one empty ring for their product |
| `PoolRings.RunRings` | pkg/appsrv/ring.go:45-66 | in every state of every run no ring, current or replaced, holds more than its capacity |
| `PoolRings.PushExact` | pkg/appsrv/workers.go:261-269 | a push of any run is rejected if and only if the ring its caller read is full, and then changes nothing else; otherwise the task is last in that ring; no other ring changes |
| `PoolRings.UpdateExact` | pkg/appsrv/workers.go:246-255 | an update of any run adds an empty ring of count times backlog if and only if the current ring is empty and that size is at least -1; otherwise nothing changes |
| `PoolRings.RunCapacity` | pkg/appsrv/workers.go:246-255 | in every state of every run the current ring has room for worker count times backlog |
| `PoolRings.PushOn` | pkg/appsrv/ring.go:45-54 | Ring.Push on an object that shows the ring of the protocol makes it show the ring after the push step, and succeeds exactly if that step accepts |
| `PoolRings.PopOn` | pkg/appsrv/ring.go:56-66 | Ring.Pop does the same for the pop step: the task the worker gets, or none and it leaves |
| `PoolRings.UpdateOn` | pkg/appsrv/workers.go:246-255 | the ring the update step adds is the one its constructor makes |
| `PoolPanics.RunTasked` | pkg/appsrv/workers.go:62-115 | in every state of every run a live worker has a task exactly if one of the steps so far gave it one; worker ids are never used again |
| `PoolPanics.SchedulePanicExact` | pkg/appsrv/workers.go:308-334 | a schedule step of any run panics if and only if more than 50 tasks are queued, the active list is full, and its front worker has never been given a task |
| `PoolPanics.DetachPanicExact` | pkg/appsrv/workers.go:117-128 | a detach step of any run panics if and only if its worker is gone, has never been given a task, or the rest of the active list makes the schedule in it panic |
| `PoolPanics.DetachExact` | pkg/appsrv/workers.go:117-128 | a detach step of any run leaves everything as it was for a worker that is gone; any other moves to the end of the detached list and is replaced if and only if it had a task, tasks are queued and the rest of the active list has room |
| `PoolProgress.ScheduleStall` | pkg/appsrv/workers.go:308-334 | a schedule step leaves the pool stalled if and only if its guard for a lost wakeup holds |
| `PoolProgress.DetachStall` | pkg/appsrv/workers.go:117-128 | the same for detach |
| `PoolProgress.PopStall` | pkg/appsrv/workers.go:84-112 | the same for pop: only a replaced ring found empty by the last looping worker |
| `PoolProgress.StallBegins` | pkg/appsrv/workers.go:78-334 | from a state that is not stalled, a step stalls the pool if and only if its lost-wakeup guard holds before it |
| `PoolProgress.RunProgress` | pkg/appsrv/workers.go:78-334 | a run meets a stalled state up to n if and only if a lost-wakeup guard held at a step before n |
| `PoolProgress.QuiescentMeansDone` | pkg/appsrv/workers.go:78-334 | if no wakeup was lost and no worker and no caller is left, the current ring is empty and every accepted task was executed once or lies in a replaced ring, never both |
| `PoolProgress.FusedLossIs` | pkg/appsrv/workers.go:84-112 | with empty Pop and removal in one step the full-list guards never hold; what is left are a failing hook, a detach without a task, and a replaced ring found empty |
| `PoolProgress.FusedStallBegins` | pkg/appsrv/workers.go:84-112 | a step of that protocol stalls the pool if and only if one of the remaining guards holds before it |
| `PoolProgress.FusedProgress` | pkg/appsrv/workers.go:84-112 | a run of that protocol, with at least one worker allowed, meets a stalled state if and only if one of the remaining guards held |
| `PoolProgress.FusedNeverStalls` | pkg/appsrv/workers.go:84-112 | consequence: such a run never stalls while hooks succeed, workers have tasks when detached, and rings are current |
| `PoolDrain.LooperDrains` | pkg/appsrv/workers.go:78-115 | from any state, an active worker that goes on looping can empty the queue by its own steps |
| `PoolDrain.CallerDrains` | pkg/appsrv/workers.go:261-334 | a caller about to schedule can get the queue emptied, once leaving workers have made room |
| `PoolDrain.StraysDrain` | pkg/appsrv/workers.go:78-115 | detached workers past their check can empty a queue no longer than their number |
| `PoolDrain.NeverDrains` | pkg/appsrv/workers.go:78-115 | otherwise no steps of workers and accepted callers ever empty the queue |
| `PoolDrain.RunDrain` | pkg/appsrv/workers.go:78-334 | in every state of every run: the pool left to itself can empty its queue if and only if it is empty, a caller is about to schedule, an active worker goes on looping, or enough detached workers are past their check; so it can whenever it is not stalled and nobody is about to find a replaced ring empty |
| `PoolExecute.PollersExecute` | pkg/appsrv/workers.go:78-115 | the workers about to pop a ring can execute as many of its tasks as they are |
| `PoolExecute.StepLost` | pkg/appsrv/workers.go:78-334 | no step of any kind brings a task of a replaced ring closer to the workers about to pop it |
| `PoolExecute.StrandedForever` | pkg/appsrv/workers.go:246-265 | in every run, a task of a replaced ring with no more pollers than tasks before it stays there and is never held or executed |
| `PoolExecute.ReplacedExact` | pkg/appsrv/workers.go:246-265 | in every state of every run: the task at position i of a replaced ring can be executed, by steps of the pool or by any steps at all, if and only if more than i workers are about to pop that ring |
| `PoolExecute.CurrentExact` | pkg/appsrv/workers.go:78-115 | the task at position i of the current ring can be executed by the pool if and only if somebody goes on looping or is about to schedule, or more than i detached workers are past their check |
| `PoolExecute.ExecuteExact` | pkg/appsrv/workers.go:78-334 | for every accepted task in every state of every run: the pool left to itself can execute it if and only if it was executed, is held by a worker, or is queued where there are workers for it |
| `PoolRest.InternalCheaper` | pkg/appsrv/workers.go:78-334 | every step of workers and accepted callers makes a measure of the remaining work smaller |
| `PoolRest.RestExact` | pkg/appsrv/workers.go:78-334 | the pool is at rest if and only if no worker and no caller about to schedule is left |
| `PoolRest.RestBound` | pkg/appsrv/workers.go:78-334 | a pool left alone takes no more steps than its measure, in whatever order |
| `PoolRest.RestsDone` | pkg/appsrv/workers.go:78-334 | every maximal continuation of a pool left alone is bounded; unless it was stalled or loses a wakeup, its queue ends empty and every accepted task was executed once or lies in a replaced ring |
| `PoolRest.RestLeavesQueue` | pkg/appsrv/workers.go:78-334 | a pool at rest has a task queued if and only if it is stalled, and then a wakeup was lost on the way |
| `PoolWitnesses.LostWakeupHappens` | pkg/appsrv/workers.go:84-112 | a run in which a schedule meets a list full of workers past their empty Pop |
| `PoolWitnesses.NobodyLeft` | pkg/appsrv/workers.go:84-112 | that run goes on to a state with an accepted task queued, no worker and no caller |
| `PoolWitnesses.FailingHookHappens` | pkg/appsrv/workers.go:308-320 | a run in which a failing init hook loses a wakeup |
| `PoolWitnesses.EarlyDetachHappens` | pkg/appsrv/workers.go:117-128 | a run in which a waiter detaches its worker before the worker has its task, and the wakeup is lost |
| `PoolWitnesses.StalePopHappens` | pkg/appsrv/workers.go:246-255 | a run in which the last looping worker finds a replaced ring empty |
| `PoolWitnesses.OverfullHappens` | pkg/appsrv/workers.go:117-128 | a run in which a detach is not replaced because the count was lowered |
| `PoolWitnesses.DoomedHappens` | pkg/appsrv/workers.go:246-255 | a run to a state that is not stalled and whose queue no steps of its own can empty |
| `PoolWitnesses.PanicHappens` | pkg/appsrv/workers.go:308-334 | a run in which 52 queued tasks and a worker that has not run yet make a schedule panic |
| `PoolWitnesses.DoubleDetachHappens` | pkg/appsrv/response.go:137-143 | a run in which each waiter detaches once and the second detach meets a detached worker: a late waiter of a finished task, then the waiter of the next one |
| `PoolWitnesses.StrandingHappens` | pkg/appsrv/workers.go:246-265 | a run in which a push lands in a replaced ring that nobody polls |
| `PoolWitnesses.SecondIsLost` | pkg/appsrv/workers.go:246-265 | a run in which two pushes land in a replaced ring with one poller: the first task can be executed and the second never |
| `PoolWitnesses.PanicUnderHandler` | pkg/appsrv/workers.go:117-128 | a run in which the detach of a worker whose handler is running panics in the schedule |
| `PoolWitnesses.RemovedDetachHappens` | pkg/appsrv/workers.go:117-128 | a run in which a waiter, told of its worker before, detaches it after its removal |
| `PoolWitnesses.StuckHandler` | pkg/appsrv/response.go:137-143 | that panic unwinds the waiter of a handler that is sending any operation, and the handler is blocked for ever |
| `Rendezvous.StepAcks` | pkg/appsrv/response.go:68-93 | acknowledgements grow only by an answer of the waiter; no answer is awaited or sent on a closed channel |
| `Rendezvous.StepAnswered` | pkg/appsrv/response.go:68-93 | every step keeps acknowledged calls paired with the backend's answers to the same operations |
| `Rendezvous.StepOrdered` | pkg/appsrv/response.go:125-175 | every step keeps the log a prefix of the program, at most one operation ahead of the acknowledgements; what the backend saw for it is `RendezvousCalls.RunCalls` |
| `Rendezvous.StepPaired` | pkg/appsrv/response.go:125-189 | every step keeps the phases of handler, waiter and channels consistent |
| `Rendezvous.RunOrdered` | pkg/appsrv/response.go:68-189 | in every state of every run the log is a prefix of the handler's operations in program order and at most one ahead; a wait that returns without timeout has performed and acknowledged the whole program; the calls that the log stands for are `RendezvousCalls.RunCalls` |
| `Rendezvous.SilentAfterReturn` | pkg/appsrv/response.go:125-175 | after wait has returned or been unwound the backend sees nothing more |
| `Rendezvous.NoDeadlock` | pkg/appsrv/response.go:68-189 | a blocked handler can move on if and only if the waiter was not unwound by a panic in its detach; a finished handler is noticed |
| `Rendezvous.StuckForever` | pkg/appsrv/appsrv.go:438-448 | once a panic in the detach has unwound the waiter, a sending handler is blocked and no step is possible |
| `Rendezvous.StuckHappens` | pkg/appsrv/response.go:137-143 | for any operation, a run to a state in which it is being sent and the waiter has been unwound exactly if its detach panicked |
| `RendezvousCalls.ServeSeen` | pkg/appsrv/response.go:144-173 | serving an operation puts it after everything the backend has seen, with a flush right after it exactly for a write to an event stream that did not fail |
| `RendezvousCalls.RunCalls` | pkg/appsrv/response.go:95-173 | in every state of every run the backend has seen exactly the operations in order, each write to an event stream that did not fail followed by a flush of the waiter and nothing else by one; a backend that cannot flush has seen exactly the operations that are not flushes; its answers are those of the steps |
| `RendezvousCalls.Served` | pkg/appsrv/response.go:68-93 | from any state with a sending handler and a selecting waiter, three steps perform the operation and tell the handler the answer |
| `RendezvousCalls.Released` | pkg/appsrv/response.go:68-189 | in every state of every run a blocked handler whose waiter was not unwound gets on within three steps: with the backend's answer, or, after wait has returned, by a panic on the channel that its caller closes |
| `RendezvousCalls.RunWaiter` | pkg/appsrv/response.go:125-175 | in every run wait has returned without an error exactly if it saw a closed channel, with a timeout exactly if it picked one and its detach did not panic, and is unwound exactly if it did |
| `RendezvousCalls.ClosedCallsFail` | pkg/appsrv/response.go:68-93 | in every run every call made after the channels were closed returns at once with the stream-closed error, for good, and no operation from it on reaches the backend |
| `Tries.FindReg` | pkg/appsrv/radix.go:54-61 | the first regexp child with that regStr, or none |
| `RouterRefinement.ChildOf` | pkg/appsrv/radix.go:88-126 | the child of a node under a key is the trie of the routes that begin with that key |
| `RouterRefinement.GrowChild` | pkg/appsrv/radix.go:88-126 | appending a route to the table changes the trie under the route's first key only; a new regexp goes to the end |
| `RouterRefinement.AddRefines` | pkg/appsrv/radix.go:79-128 | add on the trie of a table fails exactly if the keys are taken; otherwise it gives the trie of the table with that route |
| `RouterChoice.MatchRefines` | pkg/appsrv/radix.go:141-176 | match on the trie of any table returns the route and flag of the flat choice rule: literal, then first full regexp, then first partial one, then the node itself |
| `RouterChoice.ScanRefines` | pkg/appsrv/radix.go:155-175 | the loop over regexp children, with its kept partial match, is the choice among regexps |
| `RouterTheorems.FlatSound` | pkg/appsrv/radix.go:141-176 | the chosen route is in the table and fits; a false flag means a proper prefix |
| `RouterTheorems.FlatComplete` | pkg/appsrv/radix.go:141-176 | whenever a route fits, something is chosen |
| `RouterTheorems.BuildRefines` | pkg/appsrv/radix.go:71-128 | every trie that registrations can build is the trie of its table of accepted routes |
| `RouterTheorems.AddFrame` | pkg/appsrv/radix.go:71-128 | Add fails exactly on keys already registered, names ignored, and then changes nothing; otherwise it adds just that route with its own segment names |
| `RouterTheorems.MatchCorrect` | pkg/appsrv/radix.go:71-176 | for every sequence of registrations and every request: data is found if and only if a registered pattern fits a prefix, and data, names and flag belong to such a pattern; what a pattern's text means is `RouterSegments.PatternFits` |
| `RouterTheorems.CaptureSafe` | pkg/appsrv/radix.go:106-109 | every stored index is below the pattern's length and the request's, and the captured segment satisfies the regexp at that place |
| `RouterTheorems.LongestLiteralPrefix` | pkg/appsrv/radix.go:141-176 | with literal patterns only, the longest registered prefix is found |
| `RouterTheorems.LiteralFirst` | pkg/appsrv/radix.go:148-152 | a fitting pattern that begins with the request's first segment shuts out every regexp pattern |
| `RouterTheorems.FullSound` | pkg/appsrv/radix.go:141-176 | a route flagged full fits and uses up the request or holds a literal |
| `RouterTheorems.FullComplete` | pkg/appsrv/radix.go:141-176 | whenever such a route is in the table, the choice is flagged full |
| `RouterTheorems.FlagExact` | pkg/appsrv/radix.go:141-176 | for every sequence of registrations and every request: data is found with the full flag if and only if some fitting pattern has the length of the request or at least one literal segment |
| `RouterTheorems.FullOnPrefix` | pkg/appsrv/radix.go:148-152 | `<id>/a` alone, requested as x/a/b, is a proper prefix flagged full |
| `RouterTheorems.YieldFirst` | pkg/appsrv/radix.go:155-175 | among regexp siblings the first in order that yields a route with the wanted flag wins; none wins exactly if none yields |
| `RouterTheorems.RegOrderFirst` | pkg/appsrv/radix.go:111-117 | every regexp sibling has a first route that begins with it |
| `RouterTheorems.RegOrderSorted` | pkg/appsrv/radix.go:111-117 | siblings are in the order of their first routes |
| `RouterSegments.NamedSegment` | pkg/appsrv/radix.go:90-109 | `<name:re>` matches by re, the text after the first colon, and is captured under `<name>` |
| `RouterSegments.BareSegment` | pkg/appsrv/radix.go:90-109 | `<name>` without a colon matches by `.*` and is captured under its own text |
| `RouterSegments.LiteralSegment` | pkg/appsrv/radix.go:63-69 | a segment is a literal, matched by its own text, if and only if it is not of at least three bytes in angle brackets |
| `RouterSegments.EveryForm` | pkg/appsrv/radix.go:63-109 | every other segment is written in one of the two regexp forms |
| `RouterSegments.SegmentFitsIs` | pkg/appsrv/radix.go:90-176 | a segment fits a request segment if and only if it is the same literal, or of a form whose regexp matches it |
| `RouterSegments.PatternFits` | pkg/appsrv/radix.go:141-176 | a pattern fits a request if and only if its segments, form by form, fit the first segments of the request |
| `RouterSegments.NamesIgnored` | pkg/appsrv/radix.go:90-109 | two names for one regexp are one key |
| `RouterSegments.VersionRoute` | pkg/hostman/metadata/metadatahandler.go:84-85 | the route `<version:re>` alone is found for a one-segment request if and only if re matches the segment, which is captured under `<version>` |
| `Radix.FindNode` | pkg/appsrv/radix.go:54-61 | the loop returns the position of the first child with that regStr |
| `Radix.RadixNode.constructor` | pkg/appsrv/radix.go:38-45 | a new node is the empty trie |
| `Radix.RadixNode.TextChild` | pkg/appsrv/radix.go:119-124 | the literal child under a text, created if missing, with its footprint |
| `Radix.RadixNode.RegexpChild` | pkg/appsrv/radix.go:111-117 | the regexp child for a regStr in its place, created at the end if missing |
| `Radix.RadixNode.AddHere` | pkg/appsrv/radix.go:80-87 | a node takes data and names once |
| `Radix.RadixNode.Add` | pkg/appsrv/radix.go:79-128 | the in-place add leaves a valid node whose trie and result are those of the trie function |
| `Radix.RadixNode.Search` | pkg/appsrv/radix.go:141-176 | the search returns a node of the tree whose trie, with the flag, is what the trie function finds |
| `Radix.RadixNode.SearchRegexps` | pkg/appsrv/radix.go:155-175 | the loop over regexp children with its temporary node computes the function's scan |
| `AppServer.Capture` | pkg/appsrv/radix.go:130-139 | in any visiting order exactly the stored names are added to the parameters, each with a segment stored under that name |
| `AppServer.Application.GetRoot` | pkg/appsrv/appsrv.go:164-177 | the router of the method, created empty on first use |
| `AppServer.Application.Register` | pkg/appsrv/appsrv.go:214-220 | registration into a router succeeds exactly on free keys and keeps every root the router of its accepted handlers |
| `AppServer.Application.AddHandler3` | pkg/appsrv/appsrv.go:214-220 | a handler is accepted exactly if no accepted handler of its method has the same keys; all else is unchanged |
| `AppServer.Application.Dispatch` | pkg/appsrv/appsrv.go:366-383 | the handler is the one the choice rule picks from the accepted paths, found exactly if one fits; the slice behind its path is in range; the parameters are exactly its captures, each satisfying its regexp |
| `AppServer.RouteIn` | pkg/appsrv/radix.go:130-139 | the same on one router |
| `AppServer.FoundSpec` | pkg/appsrv/appsrv.go:337-341 | match finds the choice rule's handler with that handler's own names; its path is no longer than the request, so slicing the segments behind it is in range |
| `AppServer.RegisterSpec` | pkg/appsrv/radix.go:71-77 | adding a handler under its own path gives the router of the longer list, or fails on equal keys |
| `Blocks.Partition` | cmd/fetcherfs/fs.go:116-120 | the inclusive byte ranges of blocks 0 to blockCount-1 (section 14.1.2 of RFC 9110) partition the object: each byte is in exactly one |
| `Blocks.ReadCovered` | cmd/fetcherfs/fs.go:255-257 | each byte of a clamped non-empty read lies in a block between first and last, and those blocks exist |
| `Blocks.EmptyRead` | cmd/fetcherfs/fs.go:255-257 | every block index an empty read computes, under truncating division, is that of an existing block |
| `Blocks.WholeObject` | cmd/fetcherfs/fs.go:202-206 | the lengths of all ranges add up to the size |
| `BitMaps.SetBitIs` | pkg/util/bitmap/bitmap.go:66-82 | setting one bit of a byte changes that bit only |
| `BitMaps.MaskSets` | pkg/util/bitmap/bitmap.go:66-73 | or-ing the shifted one sets the flag of that index; for -7 to -1 the shift leaves nothing |
| `BitMaps.BitMap.constructor` | pkg/util/bitmap/bitmap.go:93-96 | no flag is set |
| `BitMaps.BitMap.Has` | pkg/util/bitmap/bitmap.go:75-82 | the flag, and false beyond the size and for -7 to -1, below which the source panics |
| `BitMaps.BitMap.Set` | pkg/util/bitmap/bitmap.go:66-73 | sets that flag and no other |
| `BlockCache.FetchOnceInv` | cmd/fetcherfs/fs.go:196-252 | one request keeps the cache invariant, whatever is answered |
| `BlockCache.FetchInv` | cmd/fetcherfs/fs.go:178-187 | so do retries |
| `BlockCache.LoadKeeps` | cmd/fetcherfs/fs.go:159-164 | the block loop keeps whatever every fetch keeps |
| `BlockCache.LoadInv` | cmd/fetcherfs/fs.go:159-164 | so does a read, wherever it stops |
| `BlockCache.FetchExact` | cmd/fetcherfs/fs.go:178-187 | after a fetch without error the block is ready if and only if the answer that counted was not a silent wrong length |
| `BlockCache.LoadExact` | cmd/fetcherfs/fs.go:159-164 | the same for all blocks of a read |
| `BlockCache.ReadCorrect` | cmd/fetcherfs/fs.go:151-176 | from any state kept by the invariant: a read without error and without silent answer returns exactly the remote bytes; otherwise each byte is the remote one or a zero never fetched; when there is an error or a silent answer is `BlockAnswers.ReadExact` |
| `BlockCache.ReadBeginning` | cmd/fetcherfs/fs.go:166-175 | the same for every beginning, as a short read of the local file returns it |
| `BlockCache.ReachableInv` | cmd/fetcherfs/fs.go:151-252 | after any sequence of reads, errors and retries every ready block agrees with the remote object, and the counters equal number and total length of ready blocks |
| `BlockCache.Complete` | cmd/fetcherfs/fs.go:247-250 | all blocks ready gives receivedSize == size, fetchedCount == blockCount and the whole object |
| `BlockCache.SilentReadHappens` | cmd/fetcherfs/fs.go:234-237 | a body of the wrong length without error makes a read succeed with a byte the object does not have |
| `BlockAnswers.JudgeIs` | cmd/fetcherfs/fs.go:220-251 | one answer is an error exactly if the transport, the status, the options, the body or the disk failed, is ignored exactly if the body has the wrong length and ended well, and is stored otherwise |
| `BlockAnswers.FetchThree` | cmd/fetcherfs/fs.go:178-187 | a block that is not ready fails if and only if its next three requests all err; otherwise the first that does not err decides, and as many requests are sent |
| `BlockAnswers.LoadFailsExact` | cmd/fetcherfs/fs.go:159-164 | a load of blocks fails if and only if one of them, met with all before it served, gets three errors |
| `BlockAnswers.LoadShortExact` | cmd/fetcherfs/fs.go:159-164 | a load that does not fail leaves a block unready if and only if the answer that counted for one of them was short |
| `BlockAnswers.ReadExact` | cmd/fetcherfs/fs.go:151-176 | a read fails if and only if three requests in a row err for one of its blocks, and meets a silent answer if and only if a short body counts for one of them |
| `BlockAnswers.DeliversReads` | cmd/fetcherfs/fs.go:151-176 | on a network that delivers every block, every read succeeds and is never short |
| `BlockAnswers.ReadWorth` | cmd/fetcherfs/fs.go:151-176 | so the bytes of every beginning of a read that is not short are the remote ones, and every read succeeds on a network that delivers |
| `BlockAnswers.ReadTight` | cmd/fetcherfs/fs.go:255-257 | every block that a non-empty read loads holds one of its bytes |
| `Fetcher.FetcherFs.constructor` | cmd/fetcherfs/fs.go:97-125 | block count and bitmap for the object, nothing fetched |
| `Fetcher.FetcherFs.WriteAt` | cmd/fetcherfs/fs.go:239-242 | writes the bytes at their place and no other |
| `Fetcher.FetcherFs.Handle` | cmd/fetcherfs/fs.go:220-251 | bitmap, file and counters after one answer are those of the cache function; fails exactly on the errors of `BlockAnswers.JudgeIs` |
| `Fetcher.FetcherFs.DoFetchData` | cmd/fetcherfs/fs.go:196-252 | one request, or none for a ready block, as in the cache function |
| `Fetcher.FetcherFs.FetchData` | cmd/fetcherfs/fs.go:178-187 | at most three tries, stopping at the first without error; fails exactly as in `BlockAnswers.FetchThree` |
| `Fetcher.FetcherFs.LoadBlocks` | cmd/fetcherfs/fs.go:159-164 | the block loop stops at the first block that fails |
| `Fetcher.FetcherFs.DoRead` | cmd/fetcherfs/fs.go:151-176 | fetch error, file error, or the local bytes of the range as far as the file gave them |
| `Fetcher.FetcherFs.ReadInObject` | cmd/fetcherfs/fs.go:151-176 | a read inside the object fails exactly on three errors in a row for one of its blocks; without a short body its data is exactly the remote range |
| `Fetcher.FetcherFs.Read` | cmd/fetcherfs/dir.go:76-93 | offsets outside are refused, the end gives nothing, sizes are clamped; it fails if and only if three requests in a row err for a block of the range that is not ready; without a short body, and always on a network that delivers, its data is exactly the remote range, and the invariant is kept |
| `ModelSets.LatestUnique` | pkg/apihelper/reflect.go:165-177 | the latest update of a set is determined |
| `ModelSets.ModelSetMaxUpdatedAt` | pkg/apihelper/reflect.go:165-177 | the latest update time, or one nanosecond after the zero time, in any visiting order |
| `ModelSets.ApplyKey` | pkg/apihelper/reflect.go:204-237 | one key of b settles that key of a alone and reports a change exactly if there is one |
| `ModelSets.ApplyKeys` | pkg/apihelper/reflect.go:203-238 | the first pass, in any visiting order and even on one shared set, settles each key of b on its own and reports a change exactly if there is one |
| `ModelSets.DropMissing` | pkg/apihelper/reflect.go:239-245 | the second pass keeps exactly the keys that b has |
| `ModelSets.ModelSetApplyUpdates` | pkg/apihelper/reflect.go:188-247 | the result is the merge in any visiting order; Changed holds exactly if the set differs; MaxUpdatedAt is the latest of both inputs |
| `ModelSets.PassesMerge` | pkg/apihelper/reflect.go:188-247 | the two passes together are the merge, and neither undoes a change of the other |
| `ModelSets.MergeUnique` | pkg/apihelper/reflect.go:188-247 | the merge is the only map whose keys are b's keys that are neither deleted nor pending deletion and whose values come from a or b at no lower version than either, a's own on ties |
| `ModelSets.MergeIdempotent` | pkg/apihelper/reflect.go:188-247 | applying the same set again is a no-op |
| `ModelSets.LastByIdMeaning` | pkg/apihelper/reflect.go:130-163 | a loaded id is one of an entry, with the value of the last such entry |
| `ModelSets.StopsAtExact` | pkg/apihelper/reflect.go:146-157 | comparing with the loaded entry detects exactly a bad entry or a regression against any earlier one |
| `ModelSets.StopExact` | pkg/apihelper/reflect.go:130-163 | the load stops at the first bad entry or version regression and nowhere else |
| `ModelSets.InitializeModelSetFromJSON` | pkg/apihelper/reflect.go:130-163 | the set holds the last entry of each id in the prefix before the stop; an error only for a bad entry |
| `ModelSets.CleanLoad` | pkg/apihelper/reflect.go:130-163 | a listing whose versions never decrease is loaded whole |
| `ModelSets.CollectPages` | pkg/apihelper/reflect.go:103-119 | against a stable listing with a positive page size the loop ends, with the listing once and in order exactly if none of the requests it takes fails |
| `ModelSets.GetModels` | pkg/apihelper/reflect.go:48-128 | fills the set with the last entries before the stop, failing exactly on a failed request or a bad entry |
| `ModelSets.FetchAll` | pkg/apihelper/interface.go:93-120 | all new sets are filled, or the first failure ends it |
| `ModelSets.ApplyAll` | pkg/lbagent/models/modelsets.go:156-174 | every set is merged with its new one; changed exactly if some set is |
| `ModelSets.SyncModelSets` | pkg/apihelper/interface.go:73-91 | every set is merged with what was fetched for it, or, if any load fails, none is touched |
| `ModelSets.SyncKeys` | pkg/apihelper/interface.go:73-91 | after a sync from any listing an id is there if and only if its last entry before the stop exists and is neither deleted nor pending deletion |
| `ModelSets.CleanSync` | pkg/apihelper/interface.go:73-91 | from a clean listing, if and only if its last entry is neither deleted nor pending deletion |
| `ModelSets.RegressionDropsTail` | pkg/apihelper/reflect.go:146-157 | at a version regression the load stops without an error, and every id listed only from there on is dropped |
| `ModelSets.RegressionHappens` | pkg/apihelper/reflect.go:146-157 | x at version 2, x at version 1, y: the sync deletes y, which is listed, alive and known |
| `Cors.ParseHeaderList` | pkg/appsrv/cors.go:71-113 | on every input, the headers are the header bytes of the separator-free runs, cased by the byte before each, without empty ones |
| `Cors.ScanMeaning` | pkg/appsrv/cors.go:83-111 | the loop's state from inside a run yields what the runs mean |
| `Cors.HeaderBytes` | pkg/appsrv/cors.go:85-101 | header bytes are the 26 letters in both cases, the ten digits, hyphen and underscore; space and comma separate |
| `Cors.CasedLetter` | pkg/appsrv/cors.go:85-96 | casing takes each letter to the same letter of the wanted alphabet |
| `Cors.CasedOther` | pkg/appsrv/cors.go:85-99 | and leaves every other byte alone |
| `Cors.JoinAppend` | pkg/appsrv/cors.go:355-360 | the joined list is the headers with a comma and a space between each two |
| `Cors.KeptCanonical` | pkg/appsrv/cors.go:85-99 | what is kept of a run is in canonical case if and only if no letter follows a foreign byte at the start of its header or after a mark |
| `Cors.RunsJoin` | pkg/appsrv/cors.go:355-360 | splitting the ", " join of headers gives them back |
| `Cors.HeadersCanonical` | pkg/appsrv/cors.go:71-113 | all headers are canonical if and only if no letter slips in any run |
| `Cors.RoundTrip` | pkg/appsrv/cors.go:71-113 | parse, join, parse gives the same list if and only if no letter of the input slips |
| `Cors.CleanInput` | pkg/appsrv/cors.go:71-113 | for header bytes, spaces and commas the headers are the maximal runs in canonical case (section 6.2 of the W3C CORS Recommendation) and the round trip holds |
| `Cors.SettlesInOne` | pkg/appsrv/cors.go:355-360 | whatever the input, the round trip holds from the second parse on |
| `Cors.ForeignByte` | pkg/appsrv/cors.go:85-110 | ".a" is an input whose round trip fails |
| `Shares.NewSortedStrings` | pkg/util/stringutils2/sortedstrings.go:23-29 | the caller's own list is sorted in place and keeps its elements |
| `Shares.Split` | pkg/util/stringutils2/sortedstrings.go:128-157 | multiset differences and intersection of two sorted lists |
| `Shares.LessMeaning` | pkg/util/stringutils2/sortedstrings.go:128-157 | the order of strings: a proper prefix first, otherwise the first different byte decides |
| `Shares.ChainExact` | vendor/yunion.io/x/pkg/util/rbacscope/scope.go:23-48 | one scope is higher than another if and only if it comes later in none, user, project, domain, system, where any other string counts as none |
| `Shares.IsViolate` | pkg/apis/share.go:89-116 | true exactly if the share is not at most the other in the order that `Shares.ViolateExact` spells out; the lists it sorts, shared or not, still make the same shares |
| `Shares.ViolateExact` | pkg/apis/share.go:89-116 | a share violates another if and only if it alone is public; or visibility is equal and its scope is later in the chain; or no scope is narrower and it lists a domain more often; or the domains are equal too and it lists a project more often |
| `Shares.ViolateByScope` | pkg/apis/share.go:89-116 | between public shares with equal lists, one violates the other if and only if the other's scope comes strictly before its own in the chain |
| `Shares.SameByChain` | pkg/apis/share.go:146-152 | shares are equal if and only if visibility and lists agree and neither scope is narrower |
| `Shares.Equals` | pkg/apis/share.go:146-152 | same visibility, scope score, domain and project multisets, although the first comparison sorts what the second reads |
| `Shares.SameNoMore` | pkg/apis/share.go:89-116 | the order does not tell shares apart that differ in the order of their lists |
| `Shares.SameExact` | pkg/apis/share.go:146-152 | antisymmetry: mutual non-violation is exactly sameness |
| `Shares.NoMoreReflexive` | pkg/apis/share.go:89-116 | no share violates itself |
| `Shares.NoMoreTransitive` | pkg/apis/share.go:89-116 | non-violation is transitive |
| `Shares.Intersect` | pkg/apis/share.go:118-144 | the lower of two different shares, otherwise the common domains and projects, reset to private at project scope without projects; by the chain in `Shares.IntersectByScope` |
| `Shares.IntersectByScope` | pkg/apis/share.go:118-144 | of two shares with equal visibility the one with the scope earlier in the chain, unchanged; with neither earlier, the common domains and projects |
| `Shares.IntersectResets` | pkg/apis/share.go:137-142 | then the result is private with scope none if and only if the scope is project and no project is in both lists, and otherwise keeps visibility and scope |
| `Shares.IntersectBelow` | pkg/apis/share.go:118-144 | the intersection violates neither argument, the reset included |
| `Shares.IntersectCommutes` | pkg/apis/share.go:118-144 | both orders of arguments give equal shares |
| `Shares.IntersectSelf` | pkg/apis/share.go:137-142 | intersecting with itself gives an equal share if and only if the reset does not strike |
| `Shares.IntersectGreatest` | pkg/apis/share.go:118-144 | the intersection is the greatest lower bound if and only if visibility or score differ, or there is no reset and the domain lists do not compete with the project lists |

## Left out

- Regexp evaluation, and the panic of `regexp.MustCompile` on a bad pattern: matching is a parameter.
- URL unescaping, path splitting, CORS policy, tracing, logging and context values of the HTTP layer.
- `Header()` and `Hijack()` of the response writer, which bypass the rendezvous; data races on `isClosed` lie below the
  steps.
- The worker handed back over a channel of each request: results about all runs let anybody detach any worker at any
  time, which covers it; the runs in `PoolWitnesses` keep to one detach for each waiter, of a worker it was handed.
- Tasks with `cancelPrevIdent` in the concurrent protocol: its scan never finds a task, so the steps are the same.
- `hashedworkermanager.go`, whose hash ring is not part of this model.
- Setting hooks after workers have started: both hooks are fixed at creation.
- 64-bit wrap-around of worker ids, sizes and counters: integers are unbounded.
- HTTP, lz4, FUSE and file-system calls of fetcherfs: an abstract answer per request, a file array and a failure flag.
- Concurrent first use of `getRoot` and changes of a handler's path after its registration.
- `RadixNode.Walk`, `Clean` of the bitmap, and the getters: one-line members.
- `GetProjectShareInfo`, `GetDomainShareInfo`, `FixProjectShare`, `FixDomainShare`: single branches on values.
- Lists of a share that overlap in part: two lists are one array or have nothing in common.
- `APIHelper.doSync`, listings that change between pages, the database-backed model sets, and the joins after an update.
