/** A pool left to itself comes to rest: every sequence of its own steps is bounded, and rest means the work is done. */
module PoolRest {
  import opened Managers
  import opened Protocol
  import opened PoolLists
  import opened PoolTasks
  import opened PoolProgress
  import opened PoolDrain

  // ------------------------------------------------------------------- measure

  /** Steps a worker has left if its ring is empty, at most. */
  function Cost(p: Phase): nat
  {
    match p
    case Leaving => 1
    case Polling(_) => 2
    case Ready => 3
    case Checking => 4
    case Holding(_) => 5
    case Popped(_) => 6
  }

  function CostAt(phase: map<WorkerId, Phase>, w: WorkerId): nat
  {
    if w in phase then Cost(phase[w]) else 0
  }

  /** The costs of workers 1 to n. */
  function Costs(phase: map<WorkerId, Phase>, n: nat): nat
  {
    if n == 0 then 0 else Costs(phase, n - 1) + CostAt(phase, n)
  }

  function AllQueued(rings: seq<RingView>): nat
  {
    if rings == [] then 0 else AllQueued(rings[..|rings| - 1]) + |rings[|rings| - 1].contents|
  }

  /** What queued tasks, callers about to schedule and workers can still do. */
  function Measure(s: State): nat
  {
    5 * AllQueued(s.rings) + 5 * |s.pending| + Costs(s.phase, s.m.workerId)
  }

  lemma {:induction false} CostsChange(phase: map<WorkerId, Phase>, phase': map<WorkerId, Phase>, w: WorkerId, n: nat)
    requires forall x :: x != w ==> CostAt(phase', x) == CostAt(phase, x)
    ensures Costs(phase', n) == Costs(phase, n) + if 1 <= w <= n then CostAt(phase', w) - CostAt(phase, w) else 0
  {
    if n > 0 {
      CostsChange(phase, phase', w, n - 1);
    }
  }

  lemma {:induction false} AllQueuedPop(rings: seq<RingView>, k: nat)
    requires k < |rings| && rings[k].contents != []
    ensures AllQueued(rings[k := PopFrom(rings[k])]) == AllQueued(rings) - 1
  {
    var last, r := |rings| - 1, PopFrom(rings[k]);
    if k < last {
      AllQueuedPop(rings[..last], k);
      assert rings[k := r][..last] == rings[..last][k := r];
    } else {
      assert rings[k := r][..last] == rings[..last];
    }
  }

  /** A worker that moves on to a cheaper phase, or is gone. */
  lemma MoveCheaper(s: State, step: Step)
    requires Shape(s) && ListInv(s.m) && Enabled(s, step)
    requires step.Check? || step.Fetch? || step.Start? || step.Finish? || step.Remove?
    ensures Measure(Apply(s, step)) < Measure(s)
  {
    CostsChange(s.phase, Apply(s, step).phase, step.w, s.m.workerId);
  }

  lemma PopCheaper(s: State, w: WorkerId)
    requires Shape(s) && ListInv(s.m) && w in s.phase && s.phase[w].Polling?
    ensures Measure(DoPop(s, w)) < Measure(s)
  {
    var k := s.phase[w].ring;
    CostsChange(s.phase, DoPop(s, w).phase, w, s.m.workerId);
    if s.rings[k].contents != [] {
      AllQueuedPop(s.rings, k);
    }
  }

  lemma ScheduleCheaper(s: State, t: TaskId, hookOk: bool)
    requires Shape(s) && ListInv(s.m) && t in s.pending
    ensures Measure(DoSchedule(s, t, hookOk)) < Measure(s)
  {
    var s' := DoSchedule(s, t, hookOk);
    assert |s'.pending| == |s.pending| - 1;
    if s'.m.workerId > s.m.workerId {
      CostsChange(s.phase, s'.phase, s.m.workerId + 1, s.m.workerId);
    }
  }

  /** Every step of the pool's own makes the measure smaller. */
  lemma InternalCheaper(s: State, step: Step)
    requires Shape(s) && ListInv(s.m) && Internal(step) && Enabled(s, step)
    ensures Measure(Apply(s, step)) < Measure(s)
  {
    match step
    case Schedule(t, hookOk) => ScheduleCheaper(s, t, hookOk);
    case Pop(w) => PopCheaper(s, w);
    case _ => MoveCheaper(s, step);
  }

  // ---------------------------------------------------------------------- rest

  ghost predicate AtRest(s: State)
  {
    forall step :: Internal(step) ==> !Enabled(s, step)
  }

  /** Rest means that no worker and no caller about to schedule is left. */
  lemma RestExact(s: State)
    requires Shape(s)
    ensures AtRest(s) <==> s.phase == map[] && s.pending == {}
  {
    if w :| w in s.phase {
      assert Enabled(s, NextStep(s, w)) && Internal(NextStep(s, w));
    }
    if t :| t in s.pending {
      assert Enabled(s, Schedule(t, true)) && Internal(Schedule(t, true));
    }
  }

  /** From state n on only the pool's own steps are taken. */
  ghost predicate LeftAlone(steps: seq<Step>, n: nat)
  {
    forall i :: n <= i < |steps| ==> Internal(steps[i])
  }

  /** A pool left alone takes no more steps than its measure. */
  lemma {:induction false} RestBound(trace: seq<State>, steps: seq<Step>, n: nat, m: nat)
    requires IsRun(trace, steps) && n <= m <= |steps| && LeftAlone(steps, n)
    ensures m - n + Measure(trace[m]) <= Measure(trace[n])
    decreases m
  {
    if m > n {
      RestBound(trace, steps, n, m - 1);
      RunLists(trace, steps, m - 1);
      assert Next(trace[m - 1], steps[m - 1], trace[m]);
      InternalCheaper(trace[m - 1], steps[m - 1]);
    }
  }

  lemma {:induction false} NoNewStall(trace: seq<State>, steps: seq<Step>, n: nat, m: nat)
    requires IsRun(trace, steps) && n <= m <= |steps| && !StalledAt(trace, n)
    requires forall i: nat :: n <= i < m ==> !LossAt(trace, steps, i)
    ensures !StalledAt(trace, m)
    decreases m
  {
    if m > n {
      NoNewStall(trace, steps, n, m - 1);
      StepStall(trace, steps, m - 1);
    }
  }

  /**
   Main result: whatever order its own steps are taken in, a pool left alone comes to rest within its measure. If it was
   not stalled and loses no wakeup on the way, its queue is then empty and every accepted task has been executed, once,
   or lies in a replaced ring.
   */
  lemma RestsDone(trace: seq<State>, steps: seq<Step>, n: nat, t: TaskId)
    requires IsRun(trace, steps) && n <= |steps| && LeftAlone(steps, n) && AtRest(trace[|steps|])
    requires !StalledAt(trace, n) && forall i: nat :: n <= i < |steps| ==> !LossAt(trace, steps, i)
    ensures |steps| - n <= Measure(trace[n])
    ensures var s := trace[|steps|];
            && Shape(s) && Queue(s) == []
            && (t in s.accepted ==> Count(s.executed, t) + Queued(s.rings[..Current(s)], t) == 1)
  {
    var m := |steps|;
    var s := trace[m];
    RestBound(trace, steps, n, m);
    NoNewStall(trace, steps, n, m);
    RunLists(trace, steps, m);
    RestExact(s);
    RunTasks(trace, steps, m);
    assert Queued(s.rings, t) == Queued(s.rings[..Current(s)], t) + Count(Queue(s), t);
    assert Holders(s.phase, t) == {};
    assert Places(s, t) == if t in s.accepted then 1 else 0;
  }

  /** A pool at rest with a task in its queue is stalled, so a wakeup was lost on the way. */
  lemma RestLeavesQueue(trace: seq<State>, steps: seq<Step>)
    requires IsRun(trace, steps) && AtRest(trace[|steps|])
    ensures Shape(trace[|steps|]) && (Queue(trace[|steps|]) != [] <==> StalledAt(trace, |steps|))
    ensures Queue(trace[|steps|]) != [] ==> exists i: nat :: i < |steps| && LossAt(trace, steps, i)
  {
    RunLists(trace, steps, |steps|);
    RestExact(trace[|steps|]);
    RunProgress(trace, steps, |steps|);
  }
}
