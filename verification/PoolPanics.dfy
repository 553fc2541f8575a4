/** Where scheduling and detaching panic, in terms of what a run has done so far. */
module PoolPanics {
  import opened Managers
  import opened Protocol
  import opened PoolLists

  /** The schedule reads the start time of the front worker's task, and there is none. */
  ghost predicate SchedulePanics(s: State, step: Step)
    requires |s.rings| > 0
  {
    step.Schedule? && ScheduleOutcome(s.m, |Queue(s)|, step.hookOk).NilTask?
  }

  /** Worker w has been given a task among the first n steps. */
  ghost predicate Started(steps: seq<Step>, n: nat, w: WorkerId)
  {
    exists i :: 0 <= i < n && i < |steps| && steps[i] == Start(w)
  }

  /** The workers with a task are the live ones that were started; ids are never used again. */
  ghost predicate TaskedInv(m: Manager, steps: seq<Step>, n: nat)
  {
    && m.tasked <= m.mode.Keys
    && (forall w :: w in m.mode ==> (w in m.tasked <==> Started(steps, n, w)))
    && (forall w: WorkerId :: Started(steps, n, w) ==> w <= m.workerId)
  }

  lemma StartedNext(steps: seq<Step>, n: nat, w: WorkerId)
    requires n < |steps|
    ensures Started(steps, n + 1, w) <==> Started(steps, n, w) || steps[n] == Start(w)
  {
  }

  lemma DetachKeys(m: Manager, w: WorkerId, queueSize: int)
    ensures var m' := AfterDetach(m, w, queueSize);
            && m'.tasked == m.tasked && m'.workerId >= m.workerId
            && m'.mode.Keys == m.mode.Keys + if m'.workerId > m.workerId then {m'.workerId} else {}
  {
    if w in m.mode {
      assert MoveToDetached(m, w).mode.Keys == m.mode.Keys;
      ScheduleKeys(MoveToDetached(m, w), queueSize, true);
    }
  }

  /** What one step does to tasked, mode and workerId. */
  lemma StepTasked(s: State, step: Step)
    requires Shape(s) && Enabled(s, step)
    ensures var m, m' := s.m, Apply(s, step).m;
            && m'.tasked == (if step.Start? then m.tasked + {step.w} else if step.Remove? then m.tasked - {step.w}
                else m.tasked)
            && m'.workerId >= m.workerId && (step.Remove? ==> m'.mode.Keys == m.mode.Keys - {step.w})
            && (!step.Remove? ==> m'.mode.Keys == m.mode.Keys + if m'.workerId > m.workerId then {m'.workerId} else {})
  {
    if step.Schedule? {
      ScheduleKeys(s.m, |Queue(s)|, step.hookOk);
    } else if step.Detach? {
      DetachKeys(s.m, step.w, |Queue(s)|);
    } else if !step.Remove? {
      assert Apply(s, step).m.mode == s.m.mode && Apply(s, step).m.workerId == s.m.workerId;
    }
  }

  lemma {:induction false} RunTasked(trace: seq<State>, steps: seq<Step>, n: nat)
    requires IsRun(trace, steps) && n <= |steps|
    ensures TaskedInv(trace[n].m, steps, n)
  {
    if n > 0 {
      var s, step := trace[n - 1], steps[n - 1];
      RunTasked(trace, steps, n - 1);
      RunLists(trace, steps, n - 1);
      assert Next(s, step, trace[n]);
      TaskedNext(s, trace[n].m, step, steps, n);
    }
  }

  lemma TaskedNext(s: State, m': Manager, step: Step, steps: seq<Step>, n: nat)
    requires Shape(s) && ListInv(s.m) && Enabled(s, step) && m' == Apply(s, step).m
    requires 0 < n <= |steps| && steps[n - 1] == step && TaskedInv(s.m, steps, n - 1)
    ensures TaskedInv(m', steps, n)
  {
    StepTasked(s, step);
    forall w: WorkerId
      ensures Started(steps, n, w) <==> Started(steps, n - 1, w) || step == Start(w)
    {
      StartedNext(steps, n - 1, w);
    }
  }

  /**
   A schedule step panics if and only if more than 50 tasks are queued, the active list is full, and its front worker
   has never been given a task.
   */
  lemma SchedulePanicExact(trace: seq<State>, steps: seq<Step>, n: nat)
    requires IsRun(trace, steps) && n < |steps| && steps[n].Schedule?
    ensures Shape(trace[n])
    ensures var s := trace[n];
            SchedulePanics(s, steps[n]) <==>
            |Queue(s)| > 50 && s.m.active != [] && |s.m.active| >= s.m.workerCount
            && !Started(steps, n, s.m.active[0])
  {
    RunTasked(trace, steps, n);
    RunLists(trace, steps, n);
    if trace[n].m.active != [] {
      CountIn(trace[n].m.active, trace[n].m.active[0]);
    }
  }

  /** The active list without w. */
  function Others(m: Manager, w: WorkerId): seq<WorkerId>
  {
    RemoveLast(m.active, w)
  }

  /**
   A detach step panics if and only if its worker is gone or has never been given a task, or if the schedule in it does:
   the rest of the active list is full and its front worker has never been given a task.
   */
  lemma DetachPanicExact(trace: seq<State>, steps: seq<Step>, n: nat, w: WorkerId)
    requires IsRun(trace, steps) && n < |steps| && steps[n] == Detach(w)
    ensures Shape(trace[n])
    ensures var s := trace[n]; var rest := Others(s.m, w);
            DetachPanics(s.m, w, |Queue(s)|) <==>
            w !in s.m.mode || !Started(steps, n, w)
            || (|Queue(s)| > 50 && rest != [] && |rest| >= s.m.workerCount && !Started(steps, n, rest[0]))
  {
    var s := trace[n];
    var rest := Others(s.m, w);
    RunTasked(trace, steps, n);
    RunLists(trace, steps, n);
    CountRemove(s.m.active, w);
    CountIn(s.m.active, w);
    if w in s.m.mode && s.m.mode[w].Detached? {
      NotThere(s.m.active, w);
    }
    if rest != [] {
      CountIn(rest, rest[0]);
      CountIn(s.m.active, rest[0]);
    }
  }

  /**
   What a detach does, in every run: nothing to a worker that is gone; any other one moves from the active list to the
   end of the detached one, and a new worker takes its place exactly if it had been given a task, tasks are queued and
   the rest of the active list has room.
   */
  lemma DetachExact(trace: seq<State>, steps: seq<Step>, n: nat, w: WorkerId)
    requires IsRun(trace, steps) && n < |steps| && steps[n] == Detach(w)
    ensures Shape(trace[n])
    ensures w !in trace[n].m.mode ==> trace[n + 1] == trace[n]
    ensures w in trace[n].m.mode ==>
              Detaches(trace[n], trace[n + 1], w, Started(steps, n, w))
  {
    var s := trace[n];
    RunTasked(trace, steps, n);
    RunLists(trace, steps, n);
    assert Next(s, steps[n], trace[n + 1]);
    if w in s.m.mode {
      CountIn(s.m.active, w);
      if s.m.mode[w].Detached? {
        NotThere(s.m.active, w);
      }
      DetachCase(s, w, Started(steps, n, w));
    }
  }

  ghost predicate Detaches(s: State, s': State, w: WorkerId, started: bool)
    requires |s.rings| > 0
  {
    var rest, next := Others(s.m, w), s.m.workerId + 1;
    && s'.m.detached == s.m.detached + [w]
    && (if started && Queue(s) != [] && |rest| < s.m.workerCount
        then s'.m.active == rest + [next] && s'.m.mode == s.m.mode[w := Detached][next := Active]
          && s'.phase == s.phase[next := Checking]
        else s'.m.active == rest && s'.m.mode == s.m.mode[w := Detached] && s'.phase == s.phase)
  }

  lemma DetachCase(s: State, w: WorkerId, started: bool)
    requires |s.rings| > 0 && w in s.m.mode && (started <==> w in s.m.tasked)
    requires s.m.mode[w].Detached? ==> Others(s.m, w) == s.m.active
    ensures Detaches(s, DoDetach(s, w), w, started)
  {
    assert MoveToDetached(s.m, w).active == Others(s.m, w);
  }

  lemma {:induction false} NotThere(list: seq<WorkerId>, w: WorkerId)
    requires w !in list
    ensures RemoveLast(list, w) == list
  {
    if list != [] {
      NotThere(list[..|list| - 1], w);
    }
  }
}
