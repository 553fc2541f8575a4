/**
 The worker pool as a concurrent protocol: every interleaving of Run callers, worker
 goroutines and request waiters, one atomic step at a time. A ring is read through
 `wm.queue` in its own step, so a caller or a worker may go on using a ring that
 UpdateWorkerCount has replaced in the meantime.
 */
module Protocol {
  import opened Managers

  /** Where a worker goroutine stands in SWorker.run. */
  datatype Phase =
    | Checking             // about to ask isDetached
    | Ready                // not detached, about to evaluate manager.queue
    | Polling(ring: nat)   // about to Pop that ring
    | Popped(task: TaskId) // holds that task, worker.task not set yet
    | Holding(task: TaskId)// worker.task set, callback running
    | Leaving              // out of the loop, about to call removeWorker

  /** One ring with the history of what was pushed to it and popped from it. */
  datatype RingView = RingView(contents: seq<TaskId>, capacity: int, pushed: seq<TaskId>, popped: seq<TaskId>)

  /**
   `rings` lists every ring ever installed, the current one last. `arriving` holds the
   Run callers that have read wm.queue, `pending` those whose push succeeded and whose
   schedule is still to come. `accepted`, `rejected`, `executed` and `peak` are history.
   */
  datatype State = State(
    m: Manager, rings: seq<RingView>, phase: map<WorkerId, Phase>,
    nextTask: TaskId, arriving: map<TaskId, nat>, pending: set<TaskId>,
    accepted: set<TaskId>, rejected: set<TaskId>, executed: seq<TaskId>, peak: int)

  datatype Step =
    | Arrive
    | Push(task: TaskId)
    | Schedule(task: TaskId, hookOk: bool)
    | Check(w: WorkerId)
    | Fetch(w: WorkerId)
    | Pop(w: WorkerId)
    | Start(w: WorkerId)
    | Finish(w: WorkerId)
    | Detach(w: WorkerId)
    | Remove(w: WorkerId)
    | Update(count: int)

  function EmptyRing(capacity: int): RingView
  {
    RingView([], capacity, [], [])
  }

  function Initial(workerCount: int, backlog: int, hasInitHook: bool, hasEmptyHook: bool): State
  {
    var m := InitialManager(workerCount, backlog, hasInitHook, hasEmptyHook);
    State(m, [EmptyRing(m.workerCount * m.backlog)], map[], 0, map[], {}, {}, {}, [], m.workerCount)
  }

  /** Index of the ring that wm.queue points to. */
  function Current(s: State): int
  {
    |s.rings| - 1
  }

  ghost predicate Shape(s: State)
  {
    && |s.rings| > 0
    && s.phase.Keys == s.m.mode.Keys
    && (forall t :: t in s.arriving ==> s.arriving[t] < |s.rings|)
    && (forall w :: w in s.phase && s.phase[w].Polling? ==> s.phase[w].ring < |s.rings|)
  }

  function Queue(s: State): seq<TaskId>
    requires |s.rings| > 0
  {
    s.rings[Current(s)].contents
  }

  ghost predicate InPhase(s: State, w: WorkerId, p: Phase)
  {
    w in s.phase && s.phase[w] == p
  }

  ghost predicate Enabled(s: State, step: Step)
  {
    match step
    case Arrive => true
    case Push(t) => t in s.arriving
    case Schedule(t, _) => t in s.pending
    case Check(w) => InPhase(s, w, Checking)
    case Fetch(w) => InPhase(s, w, Ready)
    case Pop(w) => w in s.phase && s.phase[w].Polling?
    case Start(w) => w in s.phase && s.phase[w].Popped?
    case Finish(w) => w in s.phase && s.phase[w].Holding?
    case Detach(w) => true
    case Remove(w) => InPhase(s, w, Leaving)
    case Update(_) => true
  }

  function PushTo(r: RingView, t: TaskId): RingView
  {
    r.(contents := r.contents + [t], pushed := r.pushed + [t])
  }

  function PopFrom(r: RingView): RingView
    requires r.contents != []
  {
    r.(contents := r.contents[1..], popped := r.popped + [r.contents[0]])
  }

  /** A worker that the manager has just created starts its loop. */
  function Launch(phase: map<WorkerId, Phase>, before: Manager, after: Manager): map<WorkerId, Phase>
  {
    if after.workerId > before.workerId then phase[after.workerId := Checking] else phase
  }

  function UpdateAllowed(s: State, count: int): bool
    requires |s.rings| > 0
  {
    Queue(s) == [] && count * s.m.backlog >= -1
  }

  /** Run, up to the evaluation of wm.queue. */
  function DoArrive(s: State): State
    requires |s.rings| > 0
  {
    s.(arriving := s.arriving[s.nextTask := Current(s)], nextTask := s.nextTask + 1)
  }

  /** Run: queue.Push on the ring that was read. */
  ghost function DoPush(s: State, t: TaskId): State
    requires Shape(s) && t in s.arriving
  {
    var k := s.arriving[t];
    var s1 := s.(arriving := s.arriving - {t});
    if |s.rings[k].contents| < s.rings[k].capacity then
      s1.(rings := s.rings[k := PushTo(s.rings[k], t)], pending := s.pending + {t}, accepted := s.accepted + {t})
    else
      s1.(rejected := s.rejected + {t})
  }

  /** Run: schedule. */
  function DoSchedule(s: State, t: TaskId, hookOk: bool): State
    requires |s.rings| > 0
  {
    var m := AfterSchedule(s.m, |Queue(s)|, hookOk);
    s.(m := m, phase := Launch(s.phase, s.m, m), pending := s.pending - {t})
  }

  ghost function DoPop(s: State, w: WorkerId): State
    requires Shape(s) && w in s.phase && s.phase[w].Polling?
  {
    var k := s.phase[w].ring;
    if s.rings[k].contents == [] then s.(phase := s.phase[w := Leaving])
    else s.(rings := s.rings[k := PopFrom(s.rings[k])], phase := s.phase[w := Popped(s.rings[k].contents[0])])
  }

  function DoDetach(s: State, w: WorkerId): State
    requires |s.rings| > 0
  {
    var m := AfterDetach(s.m, w, |Queue(s)|);
    s.(m := m, phase := Launch(s.phase, s.m, m))
  }

  function DoUpdate(s: State, count: int): State
    requires |s.rings| > 0
  {
    if UpdateAllowed(s, count) then
      s.(m := s.m.(workerCount := count), rings := s.rings + [EmptyRing(count * s.m.backlog)],
         peak := if count > s.peak then count else s.peak)
    else s
  }

  ghost function Apply(s: State, step: Step): State
    requires Shape(s) && Enabled(s, step)
  {
    match step
    case Arrive => DoArrive(s)
    case Push(t) => DoPush(s, t)
    case Schedule(t, hookOk) => DoSchedule(s, t, hookOk)
    case Check(w) => s.(phase := s.phase[w := if s.m.mode[w].Detached? then Leaving else Ready])
    case Fetch(w) => s.(phase := s.phase[w := Polling(Current(s))])
    case Pop(w) => DoPop(s, w)
    case Start(w) =>
      s.(phase := s.phase[w := Holding(s.phase[w].task)], m := s.m.(tasked := s.m.tasked + {w}))
    case Finish(w) =>
      s.(phase := s.phase[w := Checking], executed := s.executed + [s.phase[w].task])
    case Detach(w) => DoDetach(s, w)
    case Remove(w) => s.(m := AfterRemove(s.m, w), phase := s.phase - {w})
    case Update(count) => DoUpdate(s, count)
  }

  /** Shape is proved of every state of a run; it is no condition on the run. */
  ghost predicate Next(s: State, step: Step, s': State)
  {
    Enabled(s, step) && (Shape(s) ==> s' == Apply(s, step))
  }

  /** A run from a fresh manager: states and the steps between them. */
  ghost predicate IsRun(trace: seq<State>, steps: seq<Step>)
  {
    && |trace| == |steps| + 1
    && (exists wc, bl, ih, eh :: trace[0] == Initial(wc, bl, ih, eh))
    && (forall i :: 0 <= i < |steps| ==> Next(trace[i], steps[i], trace[i + 1]))
  }
}
