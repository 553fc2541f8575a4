/** Worker lists over whole runs: what always holds, and exactly when the lists stay exact. */
module PoolLists {
  import opened Managers
  import opened Protocol

  /** Elements that the list of the given state should hold for w. */
  function Share(m: Manager, w: WorkerId, mode: Mode): nat
  {
    if w in m.mode && m.mode[w] == mode then 1 else 0
  }

  /** Detached elements of w beyond its share. */
  function Excess(m: Manager, w: WorkerId): int
  {
    Count(m.detached, w) - Share(m, w, Detached)
  }

  /** Kept by every step, whatever is detached when: a worker may have too many detached elements, never too few. */
  ghost predicate ListInv(m: Manager)
  {
    && (forall w: WorkerId :: Count(m.active, w) == Share(m, w, Active))
    && (forall w: WorkerId :: Excess(m, w) >= 0)
    && (forall w: WorkerId :: w in m.mode ==> 1 <= w <= m.workerId)
  }

  /** Every live worker has one element, in the list its state names; nobody else has any. */
  ghost predicate ListsExact(m: Manager)
  {
    && ListInv(m)
    && (forall w: WorkerId :: Excess(m, w) == 0)
  }

  /** The active count is bounded by the largest worker count ever set. */
  ghost predicate Bounded(s: State)
  {
    |s.m.active| <= s.peak && s.m.workerCount <= s.peak
  }

  /** Detach of a live worker that is already detached: the guard that Detach does not test. */
  ghost predicate DoubleDetach(s: State, step: Step)
  {
    step.Detach? && step.w in s.m.mode && s.m.mode[step.w].Detached?
  }

  /** The invariant reads only the lists, the modes and the counter. */
  lemma SameLists(m: Manager, m1: Manager)
    requires ListInv(m)
    requires m1.active == m.active && m1.detached == m.detached && m1.mode == m.mode && m1.workerId == m.workerId
    ensures ListInv(m1)
    ensures forall w: WorkerId :: Excess(m1, w) == Excess(m, w)
  {
    forall w: WorkerId
      ensures Excess(m1, w) == Excess(m, w) && Share(m1, w, Active) == Share(m, w, Active)
    {
    }
  }

  lemma SpawnAt(m: Manager, w: WorkerId)
    requires ListInv(m)
    ensures Count(Spawn(m).active, w) == Share(Spawn(m), w, Active) && Excess(Spawn(m), w) == Excess(m, w)
  {
    CountAppend(m.active, m.workerId + 1);
  }

  lemma SpawnLists(m: Manager)
    requires ListInv(m)
    ensures ListInv(Spawn(m))
    ensures forall w: WorkerId :: Excess(Spawn(m), w) == Excess(m, w)
  {
    forall w: WorkerId
      ensures Count(Spawn(m).active, w) == Share(Spawn(m), w, Active) && Excess(Spawn(m), w) == Excess(m, w)
    {
      SpawnAt(m, w);
    }
  }

  lemma ScheduleLists(m: Manager, queueSize: int, hookOk: bool)
    requires ListInv(m)
    ensures ListInv(AfterSchedule(m, queueSize, hookOk))
    ensures forall w: WorkerId :: Excess(AfterSchedule(m, queueSize, hookOk), w) == Excess(m, w)
  {
    var m1 := CallInitHook(m, hookOk);
    SameLists(m, m1);
    SpawnLists(m1);
  }

  lemma MoveAt(m: Manager, w: WorkerId, x: WorkerId)
    requires ListInv(m) && w in m.mode
    ensures var m' := MoveToDetached(m, w);
            && Count(m'.active, x) == Share(m', x, Active)
            && Excess(m', x) == Excess(m, x) + if x == w && m.mode[w].Detached? then 1 else 0
  {
    CountRemove(m.active, w);
    CountIn(m.active, w);
    CountAppend(m.detached, w);
  }

  lemma MoveLists(m: Manager, w: WorkerId)
    requires ListInv(m) && w in m.mode
    ensures ListInv(MoveToDetached(m, w))
    ensures forall x: WorkerId :: Excess(MoveToDetached(m, w), x)
                               == Excess(m, x) + if x == w && m.mode[w].Detached? then 1 else 0
  {
    var m' := MoveToDetached(m, w);
    forall x: WorkerId
      ensures Count(m'.active, x) == Share(m', x, Active)
      ensures Excess(m', x) == Excess(m, x) + if x == w && m.mode[w].Detached? then 1 else 0
    {
      MoveAt(m, w, x);
    }
  }

  lemma RemoveAt(m: Manager, w: WorkerId, x: WorkerId)
    requires ListInv(m) && w in m.mode
    ensures var m' := AfterRemove(m, w);
            Count(m'.active, x) == Share(m', x, Active) && Excess(m', x) == Excess(m, x)
  {
    CountRemove(m.active, w);
    CountIn(m.active, w);
    CountRemove(m.detached, w);
    CountIn(m.detached, w);
    assert Excess(m, w) >= 0;
  }

  lemma RemoveLists(m: Manager, w: WorkerId)
    requires ListInv(m) && w in m.mode
    ensures ListInv(AfterRemove(m, w))
    ensures forall x: WorkerId :: Excess(AfterRemove(m, w), x) == Excess(m, x)
  {
    var m' := AfterRemove(m, w);
    forall x: WorkerId
      ensures Count(m'.active, x) == Share(m', x, Active) && Excess(m', x) == Excess(m, x)
    {
      RemoveAt(m, w, x);
    }
  }

  /** A worker moves on to a phase whose ring, if any, exists. */
  lemma MoveShape(s: State, s': State, w: WorkerId, p: Phase)
    requires Shape(s) && w in s.phase && (p.Polling? ==> p.ring < |s.rings|)
    requires s'.phase == s.phase[w := p] && s'.m.mode == s.m.mode && |s'.rings| == |s.rings|
        && s'.arriving == s.arriving
    ensures Shape(s')
  {
    assert s'.phase.Keys == s.phase.Keys;
  }

  /** A manager step that creates at most the worker it counts. */
  lemma LaunchShape(s: State, s': State)
    requires Shape(s) && s'.rings == s.rings && s'.arriving == s.arriving && s'.phase == Launch(s.phase, s.m, s'.m)
    requires s'.m.mode.Keys == s.m.mode.Keys + if s'.m.workerId > s.m.workerId then {s'.m.workerId} else {}
    ensures Shape(s')
  {
  }

  lemma ScheduleKeys(m: Manager, queueSize: int, hookOk: bool)
    ensures var m' := AfterSchedule(m, queueSize, hookOk);
            m'.mode.Keys == m.mode.Keys + if m'.workerId > m.workerId then {m'.workerId} else {}
  {
  }

  lemma PushShape(s: State, t: TaskId)
    requires Shape(s) && t in s.arriving
    ensures Shape(DoPush(s, t))
  {
  }

  lemma ScheduleShape(s: State, t: TaskId, hookOk: bool)
    requires Shape(s)
    ensures Shape(DoSchedule(s, t, hookOk))
  {
    ScheduleKeys(s.m, |Queue(s)|, hookOk);
    LaunchShape(s, DoSchedule(s, t, hookOk));
  }

  lemma PopShape(s: State, w: WorkerId)
    requires Shape(s) && w in s.phase && s.phase[w].Polling?
    ensures Shape(DoPop(s, w))
  {
    MoveShape(s, DoPop(s, w), w, DoPop(s, w).phase[w]);
  }

  lemma DetachShape(s: State, w: WorkerId)
    requires Shape(s)
    ensures Shape(DoDetach(s, w))
  {
    if w in s.m.mode {
      assert MoveToDetached(s.m, w).mode.Keys == s.m.mode.Keys;
      ScheduleKeys(MoveToDetached(s.m, w), |Queue(s)|, true);
    }
    LaunchShape(s, DoDetach(s, w));
  }

  lemma UpdateShape(s: State, count: int)
    requires Shape(s)
    ensures Shape(DoUpdate(s, count))
  {
  }

  lemma RemoveShape(s: State, w: WorkerId)
    requires Shape(s) && InPhase(s, w, Leaving)
    ensures Shape(Apply(s, Remove(w)))
  {
  }

  lemma StepShape(s: State, step: Step)
    requires Shape(s) && Enabled(s, step)
    ensures Shape(Apply(s, step))
  {
    match step
    case Arrive =>
    case Push(t) => PushShape(s, t);
    case Schedule(t, hookOk) => ScheduleShape(s, t, hookOk);
    case Pop(w) => PopShape(s, w);
    case Detach(w) => DetachShape(s, w);
    case Remove(w) => RemoveShape(s, w);
    case Update(count) => UpdateShape(s, count);
    case Check(w) => MoveShape(s, Apply(s, step), w, Apply(s, step).phase[w]);
    case Fetch(w) => MoveShape(s, Apply(s, step), w, Polling(Current(s)));
    case Start(w) => MoveShape(s, Apply(s, step), w, Apply(s, step).phase[w]);
    case Finish(w) => MoveShape(s, Apply(s, step), w, Checking);
  }

  lemma StepBounded(s: State, step: Step)
    requires Shape(s) && Enabled(s, step) && Bounded(s)
    ensures Bounded(Apply(s, step))
  {
    if step.Detach? || step.Remove? {
      CountRemove(s.m.active, step.w);
    }
  }

  /** Only a double detach adds an excess element, and no step takes one away. */
  lemma StepLists(s: State, step: Step)
    requires Shape(s) && Enabled(s, step) && ListInv(s.m)
    ensures ListInv(Apply(s, step).m)
    ensures forall x: WorkerId :: Excess(Apply(s, step).m, x)
                               == Excess(s.m, x) + if DoubleDetach(s, step) && x == step.w then 1 else 0
  {
    if step.Schedule? {
      ScheduleLists(s.m, |Queue(s)|, step.hookOk);
    } else if step.Detach? {
      if step.w in s.m.mode {
        MoveLists(s.m, step.w);
        ScheduleLists(MoveToDetached(s.m, step.w), |Queue(s)|, true);
      }
    } else if step.Remove? {
      RemoveLists(s.m, step.w);
    } else {
      SameLists(s.m, Apply(s, step).m);
    }
  }

  /** Main result for lists, over every run and every state of it. */
  lemma {:induction false} RunLists(trace: seq<State>, steps: seq<Step>, n: nat)
    requires IsRun(trace, steps) && n <= |steps|
    ensures Shape(trace[n]) && ListInv(trace[n].m) && Bounded(trace[n])
    ensures ListsExact(trace[n].m) <==> forall i :: 0 <= i < n ==> !DoubleDetach(trace[i], steps[i])
  {
    if n > 0 {
      RunLists(trace, steps, n - 1);
      var s, step := trace[n - 1], steps[n - 1];
      assert Next(s, step, trace[n]);
      StepShape(s, step);
      StepBounded(s, step);
      StepLists(s, step);
      if DoubleDetach(s, step) {
        assert Excess(trace[n].m, step.w) == Excess(s.m, step.w) + 1;
        assert Excess(s.m, step.w) >= 0;
      } else {
        assert forall x: WorkerId :: Excess(trace[n].m, x) == Excess(s.m, x);
      }
    }
  }
}
