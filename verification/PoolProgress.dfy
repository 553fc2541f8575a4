/** Progress of the worker pool: exactly which steps lose a wakeup, and what holds without them. */
module PoolProgress {
  import opened Managers
  import opened Protocol
  import opened PoolLists
  import opened PoolTasks

  /** An active worker that has not left its loop. */
  ghost predicate Looping(s: State, w: WorkerId)
  {
    w in s.phase && w in s.m.mode && s.m.mode[w].Active? && !s.phase[w].Leaving?
  }

  ghost predicate SomeLooping(s: State)
  {
    exists w :: Looping(s, w)
  }

  /** Nobody is going to look at a queue that is not empty. */
  ghost predicate Stalled(s: State)
    requires |s.rings| > 0
  {
    Queue(s) != [] && s.pending == {} && !SomeLooping(s)
  }

  /** w is the one active worker still in its loop, and no Run caller is about to schedule. */
  ghost predicate LastHope(s: State, w: WorkerId)
  {
    s.pending == {} && Looping(s, w) && forall x :: Looping(s, x) ==> x == w
  }

  /**
   The guards that lose a wakeup, all checkable before the step:
   - the last Run caller finds the active list full of workers past their empty Pop, or its init hook fails;
   - the last looping worker is detached while the list is still full without it, or before it has a task;
   - the last looping worker finds a replaced ring empty.
   */
  ghost predicate LostWakeup(s: State, step: Step)
    requires Shape(s)
  {
    Queue(s) != [] &&
    match step
    case Schedule(t, hookOk) =>
      s.pending == {t} && !SomeLooping(s) && (|s.m.active| >= s.m.workerCount || (HooksBefore(s.m) && !hookOk))
    case Detach(w) => LastHope(s, w) && (|s.m.active| > s.m.workerCount || w !in s.m.tasked)
    case Pop(w) =>
      LastHope(s, w) && s.phase[w].Polling? && s.phase[w].ring != Current(s) && s.rings[s.phase[w].ring].contents == []
    case _ => false
  }

  lemma ScheduleStall(s: State, t: TaskId, hookOk: bool)
    requires Shape(s) && ListInv(s.m) && t in s.pending
    ensures Stalled(DoSchedule(s, t, hookOk)) <==> LostWakeup(s, Schedule(t, hookOk))
  {
    var s' := DoSchedule(s, t, hookOk);
    assert s'.pending == {} <==> s.pending == {t};
    if s'.m.workerId > s.m.workerId {
      assert Looping(s', s'.m.workerId);
    } else {
      assert forall w :: Looping(s', w) <==> Looping(s, w);
    }
  }

  lemma DetachStall(s: State, w: WorkerId)
    requires Shape(s) && ListInv(s.m) && !Stalled(s)
    ensures Stalled(DoDetach(s, w)) <==> LostWakeup(s, Detach(w))
  {
    if w in s.m.mode {
      var s' := DoDetach(s, w);
      CountRemove(s.m.active, w);
      CountIn(s.m.active, w);
      var m1 := MoveToDetached(s.m, w);
      assert m1.Total() > 0;
      if s'.m.workerId > s.m.workerId {
        assert Looping(s', s'.m.workerId);
      } else {
        assert forall x :: Looping(s', x) <==> Looping(s, x) && x != w;
      }
    }
  }

  lemma PopStall(s: State, w: WorkerId)
    requires Shape(s) && w in s.phase && s.phase[w].Polling? && !Stalled(s)
    ensures Stalled(DoPop(s, w)) <==> LostWakeup(s, Pop(w))
  {
    var s', k := DoPop(s, w), s.phase[w].ring;
    assert forall x :: Looping(s', x) <==> Looping(s, x) && (x != w || s.rings[k].contents != []);
  }

  lemma WorkerStall(s: State, step: Step)
    requires Shape(s) && Enabled(s, step) && (step.Check? || step.Fetch? || step.Start? || step.Finish? || step.Remove?)
    ensures Stalled(Apply(s, step)) <==> Stalled(s)
  {
    var s' := Apply(s, step);
    assert forall x :: Looping(s', x) <==> Looping(s, x);
  }

  /** A stall begins exactly at a step that loses a wakeup. */
  lemma StallBegins(s: State, step: Step)
    requires Shape(s) && Enabled(s, step) && ListInv(s.m)
    ensures !Stalled(s) && Stalled(Apply(s, step)) <==> LostWakeup(s, step)
  {
    match step
    case Schedule(t, hookOk) => ScheduleStall(s, t, hookOk);
    case Detach(w) => if !Stalled(s) { DetachStall(s, w); }
    case Pop(w) => if !Stalled(s) { PopStall(s, w); }
    case Arrive => assert forall x :: Looping(Apply(s, step), x) <==> Looping(s, x);
    case Push(t) => assert forall x :: Looping(Apply(s, step), x) <==> Looping(s, x);
    case Update(_) => assert forall x :: Looping(Apply(s, step), x) <==> Looping(s, x);
    case _ => WorkerStall(s, step);
  }

  ghost predicate StalledAt(trace: seq<State>, i: nat)
  {
    i < |trace| && Shape(trace[i]) && Stalled(trace[i])
  }

  ghost predicate LossAt(trace: seq<State>, steps: seq<Step>, i: nat)
  {
    i < |trace| && i < |steps| && Shape(trace[i]) && LostWakeup(trace[i], steps[i])
  }

  /** A fact that is false at first and begins exactly where a cause holds is met if and only if a cause is. */
  lemma {:induction false} Begins(fact: nat -> bool, cause: nat -> bool, n: nat)
    requires !fact(0) && forall i: nat :: i < n ==> (!fact(i) && fact(i + 1) <==> cause(i))
    ensures (exists i: nat :: i <= n && fact(i)) <==> (exists i: nat :: i < n && cause(i))
  {
    if n > 0 {
      Begins(fact, cause, n - 1);
      assert !fact(n - 1) && fact(n - 1 + 1) <==> cause(n - 1);
    }
  }

  lemma StepStall(trace: seq<State>, steps: seq<Step>, i: nat)
    requires IsRun(trace, steps) && i < |steps|
    ensures !StalledAt(trace, i) && StalledAt(trace, i + 1) <==> LossAt(trace, steps, i)
  {
    RunLists(trace, steps, i);
    RunLists(trace, steps, i + 1);
    assert Next(trace[i], steps[i], trace[i + 1]);
    StallBegins(trace[i], steps[i]);
  }

  /** Main result for progress: a run reaches a stalled state if and only if one of its steps loses a wakeup. */
  lemma RunProgress(trace: seq<State>, steps: seq<Step>, n: nat)
    requires IsRun(trace, steps) && n <= |steps|
    ensures (exists i: nat :: i <= n && StalledAt(trace, i)) <==> (exists i: nat :: i < n && LossAt(trace, steps, i))
  {
    forall i: nat | i < n
      ensures !StalledAt(trace, i) && StalledAt(trace, i + 1) <==> LossAt(trace, steps, i)
    {
      StepStall(trace, steps, i);
    }
    assert !StalledAt(trace, 0);
    var fact, cause := (i: nat) => StalledAt(trace, i), (i: nat) => LossAt(trace, steps, i);
    assert forall i: nat :: (fact(i) <==> StalledAt(trace, i)) && (cause(i) <==> LossAt(trace, steps, i));
    Begins(fact, cause, n);
  }

  /**
   Once no worker and no caller is left and no wakeup has been lost, an accepted task has been executed, once,
   exactly if it does not lie in a ring that was replaced; nothing else is left anywhere.
   */
  lemma QuiescentMeansDone(trace: seq<State>, steps: seq<Step>, n: nat, t: TaskId)
    requires IsRun(trace, steps) && n <= |steps|
    requires forall i: nat :: i < n ==> !LossAt(trace, steps, i)
    requires trace[n].phase == map[] && trace[n].pending == {}
    ensures Shape(trace[n]) && Queue(trace[n]) == []
    ensures t in trace[n].accepted ==> Count(trace[n].executed, t) + Queued(trace[n].rings[..Current(trace[n])], t) == 1
    ensures t !in trace[n].accepted ==> Count(trace[n].executed, t) == 0
  {
    var s := trace[n];
    RunProgress(trace, steps, n);
    RunLists(trace, steps, n);
    RunTasks(trace, steps, n);
    assert !StalledAt(trace, n);
    assert Queued(s.rings, t) == Queued(s.rings[..Current(s)], t);
    assert Holders(s.phase, t) == {};
    assert Places(s, t) == if t in s.accepted then 1 else 0;
  }

  // ------------------------------------------------ empty Pop and removal as one step

  ghost predicate EmptyPop(s: State, step: Step)
    requires Shape(s)
  {
    step.Pop? && Enabled(s, step) && s.rings[s.phase[step.w].ring].contents == []
  }

  /** The protocol with the gap closed: a worker that finds its ring empty is removed in the same step. */
  ghost function FusedApply(s: State, step: Step): State
    requires Shape(s) && Enabled(s, step)
  {
    StepShape(s, step);
    if EmptyPop(s, step) then Apply(Apply(s, step), Remove(step.w)) else Apply(s, step)
  }

  /** Runs of that protocol in which at least one worker is always allowed. */
  ghost predicate IsFusedRun(trace: seq<State>, steps: seq<Step>)
  {
    && |trace| == |steps| + 1
    && (exists wc, bl, ih, eh :: trace[0] == Initial(wc, bl, ih, eh))
    && (forall i :: 0 <= i < |steps| ==>
          Enabled(trace[i], steps[i]) && (steps[i].Update? ==> steps[i].count >= 1)
          && (Shape(trace[i]) ==> trace[i + 1] == FusedApply(trace[i], steps[i])))
  }

  /** Every active worker is looping, so a full active list is never without hope. */
  ghost predicate FusedInv(s: State)
  {
    && Shape(s) && ListInv(s.m) && s.m.workerCount >= 1
    && (forall w :: InPhase(s, w, Leaving) ==> s.m.mode[w].Detached?)
    && (forall w :: w in s.m.active ==> Looping(s, w))
  }

  /** What is left of the guards that lose a wakeup: a full active list is not among them. */
  ghost predicate FusedLoss(s: State, step: Step)
    requires Shape(s)
  {
    Queue(s) != [] &&
    match step
    case Schedule(t, hookOk) => s.pending == {t} && !SomeLooping(s) && HooksBefore(s.m) && !hookOk
    case Detach(w) => LastHope(s, w) && w !in s.m.tasked
    case Pop(w) =>
      LastHope(s, w) && s.phase[w].Polling? && s.phase[w].ring != Current(s) && s.rings[s.phase[w].ring].contents == []
    case _ => false
  }

  lemma ActiveLoops(s: State)
    requires Shape(s) && ListInv(s.m)
    requires forall w :: InPhase(s, w, Leaving) ==> s.m.mode[w].Detached?
    ensures forall w :: w in s.m.active ==> Looping(s, w)
  {
    forall w | w in s.m.active
      ensures Looping(s, w)
    {
      CountIn(s.m.active, w);
      assert !InPhase(s, w, Leaving);
    }
  }

  /** The full-list guards never hold. */
  lemma FusedLossIs(s: State, step: Step)
    requires FusedInv(s) && Enabled(s, step)
    ensures LostWakeup(s, step) <==> FusedLoss(s, step)
  {
    if step.Schedule? && |s.m.active| > 0 {
      assert Looping(s, s.m.active[0]);
    }
    if step.Detach? && |s.m.active| > 1 && LastHope(s, step.w) {
      var a, b := s.m.active[0], s.m.active[1];
      assert Looping(s, a) && Looping(s, b);
      assert s.m.active[..2] == [a, b];
      CountAtLeast(s.m.active, a, 2);
    }
  }

  /** Two equal elements at the head of a list count twice. */
  lemma {:induction false} CountAtLeast(list: seq<nat>, x: nat, k: nat)
    requires k <= |list| && forall i :: 0 <= i < k ==> list[i] == x
    ensures Count(list, x) >= k
  {
    if |list| > 0 {
      var front := list[..|list| - 1];
      CountAtLeast(front, x, if k == |list| then k - 1 else k);
    }
  }

  /** Scheduling and detaching make nobody leave, and a detached worker stays detached. */
  lemma LaunchLeaving(s: State, step: Step, w: WorkerId)
    requires Shape(s) && ListInv(s.m) && (step.Schedule? || step.Detach?) && Enabled(s, step)
    requires InPhase(Apply(s, step), w, Leaving)
    ensures InPhase(s, w, Leaving) && w in Apply(s, step).m.mode
    ensures s.m.mode[w].Detached? ==> Apply(s, step).m.mode[w].Detached?
  {
  }

  /** A worker leaves because it was leaving, because its check found it detached, or because its ring was empty. */
  lemma WhyLeaving(s: State, step: Step, w: WorkerId)
    requires Shape(s) && ListInv(s.m) && Enabled(s, step) && InPhase(Apply(s, step), w, Leaving)
    ensures w in Apply(s, step).m.mode
    ensures || (InPhase(s, w, Leaving) && (s.m.mode[w].Detached? ==> Apply(s, step).m.mode[w].Detached?))
            || (step == Check(w) && Apply(s, step).m.mode[w].Detached?)
            || (EmptyPop(s, step) && step.w == w)
  {
    if step.Schedule? || step.Detach? {
      LaunchLeaving(s, step, w);
    }
  }

  lemma FusedLeaving(s: State, step: Step)
    requires FusedInv(s) && Enabled(s, step)
    ensures var s' := FusedApply(s, step);
            forall w :: InPhase(s', w, Leaving) ==> w in s'.m.mode && s'.m.mode[w].Detached?
  {
    var s1, s' := Apply(s, step), FusedApply(s, step);
    FusedLists(s, step);
    forall w | InPhase(s', w, Leaving)
      ensures s'.m.mode[w].Detached?
    {
      assert InPhase(s1, w, Leaving);
      WhyLeaving(s, step, w);
    }
  }

  lemma FusedCount(s: State, step: Step)
    requires FusedInv(s) && Enabled(s, step) && (step.Update? ==> step.count >= 1)
    ensures FusedApply(s, step).m.workerCount >= 1
  {
  }

  lemma FusedLists(s: State, step: Step)
    requires FusedInv(s) && Enabled(s, step)
    ensures Shape(FusedApply(s, step)) && ListInv(FusedApply(s, step).m)
  {
    StepShape(s, step);
    StepLists(s, step);
    if EmptyPop(s, step) {
      StepShape(Apply(s, step), Remove(step.w));
      StepLists(Apply(s, step), Remove(step.w));
    }
  }

  lemma FusedStepInv(s: State, step: Step)
    requires FusedInv(s) && Enabled(s, step) && (step.Update? ==> step.count >= 1)
    ensures FusedInv(FusedApply(s, step))
  {
    FusedLists(s, step);
    FusedLeaving(s, step);
    FusedCount(s, step);
    ActiveLoops(FusedApply(s, step));
  }

  lemma FusedStallBegins(s: State, step: Step)
    requires FusedInv(s) && Enabled(s, step) && (step.Update? ==> step.count >= 1)
    ensures Shape(FusedApply(s, step))
    ensures !Stalled(s) && Stalled(FusedApply(s, step)) <==> FusedLoss(s, step)
  {
    FusedStepInv(s, step);
    StallBegins(s, step);
    FusedLossIs(s, step);
    StepShape(s, step);
    if EmptyPop(s, step) {
      WorkerStall(Apply(s, step), Remove(step.w));
    }
  }

  ghost predicate FusedLossAt(trace: seq<State>, steps: seq<Step>, i: nat)
  {
    i < |trace| && i < |steps| && Shape(trace[i]) && FusedLoss(trace[i], steps[i])
  }

  lemma {:induction false} FusedRunInv(trace: seq<State>, steps: seq<Step>, n: nat)
    requires IsFusedRun(trace, steps) && n <= |steps|
    ensures FusedInv(trace[n])
  {
    if n > 0 {
      FusedRunInv(trace, steps, n - 1);
      FusedStepInv(trace[n - 1], steps[n - 1]);
    } else {
      assert forall w :: !(w in trace[0].m.mode);
    }
  }

  /**
   With empty Pop and removal in one step, a run stalls if and only if an init hook fails, a worker is detached before
   it has a task, or a replaced ring is found empty, each at the last hope of a queue that is not empty.
   */
  lemma FusedProgress(trace: seq<State>, steps: seq<Step>, n: nat)
    requires IsFusedRun(trace, steps) && n <= |steps|
    ensures (exists i: nat :: i <= n && StalledAt(trace, i)) <==>
        (exists i: nat :: i < n && FusedLossAt(trace, steps, i))
  {
    forall i: nat | i < n
      ensures !StalledAt(trace, i) && StalledAt(trace, i + 1) <==> FusedLossAt(trace, steps, i)
    {
      FusedRunInv(trace, steps, i);
      FusedStallBegins(trace[i], steps[i]);
    }
    assert !StalledAt(trace, 0);
    var fact, cause := (i: nat) => StalledAt(trace, i), (i: nat) => FusedLossAt(trace, steps, i);
    assert forall i: nat :: (fact(i) <==> StalledAt(trace, i)) && (cause(i) <==> FusedLossAt(trace, steps, i));
    Begins(fact, cause, n);
  }

  /** So such a run never stalls as long as hooks succeed, workers have tasks when detached and rings are current. */
  lemma FusedNeverStalls(trace: seq<State>, steps: seq<Step>, n: nat)
    requires IsFusedRun(trace, steps) && n <= |steps|
    requires forall i :: 0 <= i < n && steps[i].Schedule? ==> steps[i].hookOk || !HooksBefore(trace[i].m)
    requires forall i :: 0 <= i < n && steps[i].Detach? ==> steps[i].w in trace[i].m.tasked
    requires forall i, w, k :: 0 <= i < n && steps[i] == Pop(w) && InPhase(trace[i], w, Polling(k)) ==>
        k == Current(trace[i])
    ensures !StalledAt(trace, n)
  {
    forall i: nat | i < n
      ensures !FusedLossAt(trace, steps, i)
    {
      FusedRunInv(trace, steps, i);
    }
    FusedProgress(trace, steps, n);
  }
}
