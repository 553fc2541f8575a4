/**
 The part of SWorkerManager that workerLock protects (pkg/appsrv/workers.go): the two
 worker lists, the worker counter and the calls made to the two queue hooks.
 Each critical section is a function on this value; the class refines it in place.
 */
module Managers {
  import opened Wrappers
  import opened Rings

  type TaskId = nat
  type WorkerId = nat

  const DEFAULT_BACKLOG := 128
  const STUCK_THRESHOLD := 50
  const BUSY_THRESHOLD := 10

  datatype Mode = Active | Detached

  datatype Hook = InitOk | InitFailed | Empty

  /** How scheduleWithLock ends; NilTask is the panic on `worker.task.start` of a worker without a task. */
  datatype Outcome = HookFailed | Spawned(id: WorkerId) | Stuck | NilTask | Busy | Quiet

  /** `mode` and `tasked` describe the workers whose run has not been removed yet. */
  datatype Manager = Manager(
    workerCount: int, backlog: int,
    active: seq<WorkerId>, detached: seq<WorkerId>, workerId: nat,
    mode: map<WorkerId, Mode>, tasked: set<WorkerId>,
    hasInitHook: bool, hasEmptyHook: bool, hooks: seq<Hook>)
  {
    function Total(): nat { |active| + |detached| }
  }

  /** list.Remove of a worker's own element, which is the one added last. */
  function RemoveLast(list: seq<WorkerId>, w: WorkerId): seq<WorkerId>
  {
    if list == [] then []
    else if list[|list| - 1] == w then list[..|list| - 1]
    else RemoveLast(list[..|list| - 1], w) + [list[|list| - 1]]
  }

  /** Occurrences of an id in a list. */
  function Count(list: seq<nat>, w: nat): nat
  {
    if list == [] then 0
    else Count(list[..|list| - 1], w) + if list[|list| - 1] == w then 1 else 0
  }

  lemma CountAppend(list: seq<nat>, x: nat)
    ensures forall w :: Count(list + [x], w) == Count(list, w) + if w == x then 1 else 0
  {
    assert (list + [x])[..|list|] == list;
  }

  lemma CountIn(list: seq<nat>, w: nat)
    ensures Count(list, w) > 0 <==> w in list
  {
    if list != [] {
      CountIn(list[..|list| - 1], w);
      assert list == list[..|list| - 1] + [list[|list| - 1]];
    }
  }

  lemma {:induction false} CountRemove(list: seq<WorkerId>, w: WorkerId)
    ensures forall x :: Count(RemoveLast(list, w), x) == Count(list, x) - if x == w && w in list then 1 else 0
    ensures |RemoveLast(list, w)| == |list| - if w in list then 1 else 0
  {
    if list != [] {
      var front, last := list[..|list| - 1], list[|list| - 1];
      CountRemove(front, w);
      assert list == front + [last];
      if last != w {
        CountAppend(RemoveLast(front, w), last);
      }
    }
  }

  /** The list without the last occurrence of w, everything else in place. */
  lemma {:induction false} RemoveLastMeaning(list: seq<WorkerId>, w: WorkerId) returns (i: nat)
    ensures w !in list ==> RemoveLast(list, w) == list
    ensures w in list ==> i < |list| && list[i] == w && w !in list[i + 1..]
    ensures w in list ==> RemoveLast(list, w) == list[..i] + list[i + 1..]
  {
    i := 0;
    if w in list {
      var last := |list| - 1;
      var front := list[..last];
      if list[last] == w {
        i := last;
        assert list[..i] + list[i + 1..] == front;
      } else {
        assert w in front;
        i := RemoveLastMeaning(front, w);
        assert list[i + 1..] == front[i + 1..] + [list[last]];
        assert list[..i] + list[i + 1..] == (front[..i] + front[i + 1..]) + [list[last]];
      }
    } else if list != [] {
      var last := |list| - 1;
      var none := RemoveLastMeaning(list[..last], w);
      assert list == list[..last] + [list[last]];
    }
  }

  predicate HooksBefore(m: Manager)
  {
    m.Total() == 0 && m.hasInitHook
  }

  /** The hook call at the head of scheduleWithLock. */
  function CallInitHook(m: Manager, hookOk: bool): Manager
  {
    if HooksBefore(m) then m.(hooks := m.hooks + [if hookOk then InitOk else InitFailed]) else m
  }

  function Spawn(m: Manager): Manager
  {
    m.(workerId := m.workerId + 1,
       active := m.active + [m.workerId + 1],
       mode := m.mode[m.workerId + 1 := Active])
  }

  function ScheduleOutcome(m: Manager, queueSize: int, hookOk: bool): Outcome
  {
    if HooksBefore(m) && !hookOk then HookFailed
    else if |m.active| < m.workerCount && queueSize > 0 then Spawned(m.workerId + 1)
    else if queueSize > STUCK_THRESHOLD then
      if m.active == [] then Quiet else if m.active[0] in m.tasked then Stuck else NilTask
    else if queueSize > BUSY_THRESHOLD then Busy
    else Quiet
  }

  /** scheduleWithLock: at most one new worker, and only when the active list has room. */
  function AfterSchedule(m: Manager, queueSize: int, hookOk: bool): Manager
  {
    var m1 := CallInitHook(m, hookOk);
    if ScheduleOutcome(m, queueSize, hookOk).Spawned? then Spawn(m1) else m1
  }

  /** The list moves of Detach. Removing an element that is not in the active list is a no-op there. */
  function MoveToDetached(m: Manager, w: WorkerId): Manager
    requires w in m.mode
  {
    m.(mode := m.mode[w := Detached],
       active := if m.mode[w].Active? then RemoveLast(m.active, w) else m.active,
       detached := m.detached + [w])
  }

  /**
   Detach of a worker that has already been removed panics before it touches a list; of one
   that has no task yet it panics after the list moves, so no replacement is scheduled.
   */
  function AfterDetach(m: Manager, w: WorkerId, queueSize: int): Manager
  {
    if w !in m.mode then m
    else if w !in m.tasked then MoveToDetached(m, w)
    else AfterSchedule(MoveToDetached(m, w), queueSize, true)
  }

  /** Where Detach panics: no list element, no task to log, or a front worker without a task in the schedule. */
  predicate DetachPanics(m: Manager, w: WorkerId, queueSize: int)
  {
    w !in m.mode || w !in m.tasked || ScheduleOutcome(MoveToDetached(m, w), queueSize, true).NilTask?
  }

  function DropWorker(m: Manager, w: WorkerId): Manager
    requires w in m.mode
  {
    m.(mode := m.mode - {w},
       tasked := m.tasked - {w},
       active := if m.mode[w].Active? then RemoveLast(m.active, w) else m.active,
       detached := if m.mode[w].Active? then m.detached else RemoveLast(m.detached, w))
  }

  function AfterRemove(m: Manager, w: WorkerId): Manager
    requires w in m.mode
  {
    var m1 := DropWorker(m, w);
    if m1.Total() == 0 && m1.hasEmptyHook then m1.(hooks := m1.hooks + [Empty]) else m1
  }

  /** SWorkerManager itself: the functions above, run in place on its fields. */
  class WorkerManager {
    var queue: Ring<TaskId>
    var workerCount: int
    var backlog: int
    var active: seq<WorkerId>
    var detached: seq<WorkerId>
    var workerId: nat
    var mode: map<WorkerId, Mode>
    var tasked: set<WorkerId>
    const hasInitHook: bool
    const hasEmptyHook: bool
    var hooks: seq<Hook>

    ghost predicate Valid()
      reads this, queue, queue.buffer
    {
      queue.Valid() && backlog >= 1
    }

    ghost function View(): Manager
      reads this
    {
      Manager(workerCount, backlog, active, detached, workerId, mode, tasked, hasInitHook, hasEmptyHook, hooks)
    }

    constructor (workerCount: int, backlog: int, hasInitHook: bool, hasEmptyHook: bool)
      ensures Valid() && fresh(queue) && fresh(queue.buffer)
      ensures View() == InitialManager(workerCount, backlog, hasInitHook, hasEmptyHook)
      ensures this.workerCount == (if workerCount > 0 then workerCount else 1)
      ensures this.backlog == (if backlog > 0 then backlog else 128)
      ensures queue.Contents() == [] && queue.CapacitySpec() == this.workerCount * this.backlog
    {
      var count := if workerCount <= 0 then 1 else workerCount;
      var depth := if backlog <= 0 then DEFAULT_BACKLOG else backlog;
      assert count * depth >= 0;
      queue := new Ring<TaskId>(count * depth);
      this.workerCount := count;
      this.backlog := depth;
      active, detached, workerId := [], [], 0;
      mode, tasked, hooks := map[], {}, [];
      this.hasInitHook := hasInitHook;
      this.hasEmptyHook := hasEmptyHook;
    }

    method IsDetached(w: WorkerId) returns (r: bool)
      requires w in mode
      ensures r <==> mode[w] == Detached
    {
      r := mode[w] == Detached;
    }

    method ScheduleWithLock(hookOk: bool) returns (outcome: Outcome)
      requires Valid()
      modifies this
      ensures Valid() && queue == old(queue)
      ensures outcome == ScheduleOutcome(old(View()), |queue.Contents()|, hookOk)
      ensures outcome.Stuck? || outcome.NilTask? ==> |queue.Contents()| > 50
      ensures outcome.Busy? ==> 10 < |queue.Contents()| <= 50
      ensures outcome.Quiet? ==> |queue.Contents()| <= 10 || (|queue.Contents()| > 50 && active == [])
      ensures View() == AfterSchedule(old(View()), |queue.Contents()|, hookOk)
    {
      if |active| + |detached| == 0 && hasInitHook {
        if hookOk {
          hooks := hooks + [InitOk];
        } else {
          hooks := hooks + [InitFailed];
          return HookFailed;
        }
      }
      var queueSize := queue.Size();
      if |active| < workerCount && queueSize > 0 {
        workerId := workerId + 1;
        active := active + [workerId];
        mode := mode[workerId := Active];
        return Spawned(workerId);
      } else if queueSize > STUCK_THRESHOLD {
        if active == [] {
          return Quiet;
        }
        return if active[0] in tasked then Stuck else NilTask;
      } else if queueSize > BUSY_THRESHOLD {
        return Busy;
      }
      return Quiet;
    }

    /** Run by one caller with nothing else interleaved: rejected exactly at capacity; the schedule may panic. */
    method Run(task: TaskId, hookOk: bool) returns (ok: bool, panicked: bool)
      requires Valid()
      modifies this, queue, queue.buffer
      ensures Valid() && queue == old(queue) && queue.buffer == old(queue.buffer)
      ensures ok <==> |old(queue.Contents())| < queue.CapacitySpec()
      ensures panicked <==> ok && ScheduleOutcome(old(View()), |queue.Contents()|, hookOk).NilTask?
      ensures queue.Contents() == if ok then old(queue.Contents()) + [task] else old(queue.Contents())
      ensures View() == if ok then AfterSchedule(old(View()), |queue.Contents()|, hookOk) else old(View())
    {
      panicked := false;
      ok := queue.Push(task);
      if ok {
        var outcome := ScheduleWithLock(hookOk);
        panicked := outcome.NilTask?;
      }
    }

    /** Returns false where the source panics: on a nil list element, on a nil task, or inside the schedule. */
    method DetachWorker(w: WorkerId) returns (ok: bool)
      requires Valid()
      modifies this
      ensures Valid() && queue == old(queue)
      ensures ok <==> !DetachPanics(old(View()), w, |queue.Contents()|)
      ensures View() == AfterDetach(old(View()), w, |queue.Contents()|)
    {
      if w !in mode {
        return false;
      }
      if mode[w] == Active {
        active := RemoveLast(active, w);
      }
      mode := mode[w := Detached];
      detached := detached + [w];
      if w !in tasked {
        return false;
      }
      var outcome := ScheduleWithLock(true);
      return !outcome.NilTask?;
    }

    method Remove(w: WorkerId)
      requires Valid() && w in mode
      modifies this
      ensures Valid() && queue == old(queue)
      ensures View() == AfterRemove(old(View()), w)
    {
      if mode[w] == Active {
        active := RemoveLast(active, w);
      } else {
        detached := RemoveLast(detached, w);
      }
      mode := mode - {w};
      tasked := tasked - {w};
      if |active| + |detached| == 0 && hasEmptyHook {
        hooks := hooks + [Empty];
      }
    }

    /** The next task of a worker, and whether a task like it is still queued, as far as Range can tell. */
    method NextTask(cancelPrevIdent: bool, dump: TaskId -> string) returns (req: Option<TaskId>, findIdent: bool)
      requires Valid()
      modifies queue, queue.buffer
      ensures queue.Valid() && queue.buffer == old(queue.buffer) && !findIdent
      ensures req == if old(queue.Contents()) == [] then None else Some(old(queue.Contents())[0])
      ensures queue.Contents() == if old(queue.Contents()) == [] then [] else old(queue.Contents())[1..]
    {
      findIdent := false;
      req := queue.Pop();
      if req.Some? && cancelPrevIdent {
        var differs := (other: Option<TaskId>) => !(other.Some? && dump(other.value) == dump(req.value));
        var seen := queue.Range(differs);
        findIdent := exists other :: other in seen && !differs(other);
      }
    }

    /** The loop of SWorker.run with nothing interleaved. */
    method Drain(w: WorkerId, cancelPrevIdent: bool, dump: TaskId -> string) returns (executed: seq<TaskId>)
      requires Valid() && w in mode
      modifies `tasked, queue, queue.buffer
      ensures Valid() && tasked - {w} == old(tasked) - {w}
      ensures executed == if mode[w].Detached? then [] else old(queue.Contents())
      ensures queue.Contents() == if mode[w].Detached? then old(queue.Contents()) else []
    {
      executed := [];
      ghost var queued, n := queue.Contents(), 0;
      while true
        invariant Valid() && queue.buffer == old(queue.buffer) && n <= |queued|
        invariant executed == queued[..n] && queue.Contents() == queued[n..]
        invariant (mode[w].Detached? ==> n == 0) && tasked - {w} == old(tasked) - {w}
        decreases |queued| - n
      {
        var stop := IsDetached(w);
        if stop {
          break;
        }
        var req, findIdent := NextTask(cancelPrevIdent, dump);
        if req == None {
          break;
        }
        if !findIdent {
          tasked := tasked + {w};
          executed := executed + [req.value];
        }
        n := n + 1;
      }
    }

    /**
     SWorker.run alone: the worker executes the queue in order and removes itself. Cancelling identical tasks
     changes nothing, since Range shows the worker no other task.
     */
    method RunWorker(w: WorkerId, cancelPrevIdent: bool, dump: TaskId -> string) returns (executed: seq<TaskId>)
      requires Valid() && w in mode
      modifies this, queue, queue.buffer
      ensures Valid() && queue == old(queue)
      ensures executed == if old(mode)[w].Detached? then [] else old(queue.Contents())
      ensures queue.Contents() == if old(mode)[w].Detached? then old(queue.Contents()) else []
      ensures View() == AfterRemove(old(View()), w)
    {
      executed := Drain(w, cancelPrevIdent, dump);
      Remove(w);
    }

    /** Fails on a queue that is not empty, and panics in `make` on a length below -1. */
    method UpdateWorkerCount(count: int) returns (ok: bool)
      requires Valid()
      modifies this
      ensures Valid()
      ensures ok <==> old(queue.Contents()) == [] && count * backlog >= -1
      ensures ok ==> fresh(queue) && queue.Contents() == [] && queue.CapacitySpec() == count * backlog
      ensures !ok ==> queue == old(queue)
      ensures View() == if ok then old(View()).(workerCount := count) else old(View())
    {
      var n := queue.Size();
      if n > 0 || count * backlog < -1 {
        return false;
      }
      queue := new Ring<TaskId>(count * backlog);
      workerCount := count;
      return true;
    }
  }

  /** NewWorkerManager: non-positive arguments are replaced by 1 and by the default backlog. */
  function InitialManager(workerCount: int, backlog: int, hasInitHook: bool, hasEmptyHook: bool): Manager
  {
    Manager(if workerCount <= 0 then 1 else workerCount, if backlog <= 0 then DEFAULT_BACKLOG else backlog,
            [], [], 0, map[], {}, hasInitHook, hasEmptyHook, [])
  }
}
