/** Whether a pool left to itself can still empty its queue: an exact answer for every state of every run. */
module PoolDrain {
  import opened Managers
  import opened Protocol
  import opened PoolLists
  import opened PoolProgress

  /** A step of a worker, or the schedule of a caller whose push was accepted. */
  predicate Internal(step: Step)
  {
    step.Schedule? || step.Check? || step.Fetch? || step.Pop? || step.Start? || step.Finish? || step.Remove?
  }

  /** The steps, all internal, lead from s to an empty queue. */
  ghost predicate Drains(s: State, steps: seq<Step>)
    decreases |steps|
  {
    Shape(s) &&
    if steps == [] then Queue(s) == []
    else Internal(steps[0]) && Enabled(s, steps[0]) && Drains(Apply(s, steps[0]), steps[1..])
  }

  ghost predicate CanDrain(s: State)
  {
    exists steps :: Drains(s, steps)
  }

  lemma Prepend(s: State, step: Step)
    requires Shape(s) && Internal(step) && Enabled(s, step) && CanDrain(Apply(s, step))
    ensures CanDrain(s)
  {
    var rest :| Drains(Apply(s, step), rest);
    assert ([step] + rest)[1..] == rest;
    assert Drains(s, [step] + rest);
  }

  /** w is about to find a replaced ring empty and to leave. */
  ghost predicate Doomed(s: State, w: WorkerId)
  {
    && w in s.phase && s.phase[w].Polling? && s.phase[w].ring != Current(s)
    && s.phase[w].ring < |s.rings| && s.rings[s.phase[w].ring].contents == []
  }

  /** Detached workers that will take one more task from the current ring: they have passed their check. */
  ghost function Strays(s: State): set<WorkerId>
  {
    set w | w in s.phase && w in s.m.mode && s.m.mode[w].Detached?
            && (s.phase[w].Ready? || (s.phase[w].Polling? && s.phase[w].ring == Current(s)))
  }

  /** The queue is empty, somebody is about to schedule, or an active worker goes on looping. */
  ghost predicate Hopeful(s: State)
    requires |s.rings| > 0
  {
    Queue(s) == [] || s.pending != {} || exists w :: Looping(s, w) && !Doomed(s, w)
  }

  // ------------------------------------------------------------------ invariant

  /** A queue that is not empty is one that some worker is allowed to serve. */
  ghost predicate Served(s: State)
    requires |s.rings| > 0
  {
    && s.m.backlog >= 1 && s.rings[Current(s)].capacity == s.m.workerCount * s.m.backlog
    && (Queue(s) != [] ==> s.m.workerCount >= 1)
  }

  ghost predicate DrainInv(s: State)
  {
    Shape(s) && ListInv(s.m) && Served(s)
  }

  lemma PushServed(s: State, t: TaskId)
    requires Shape(s) && t in s.arriving && Served(s)
    ensures Served(DoPush(s, t))
  {
    var k := s.arriving[t];
    if k == Current(s) && |s.rings[k].contents| < s.rings[k].capacity {
      assert s.m.workerCount * s.m.backlog > 0;
    }
  }

  lemma StepServed(s: State, step: Step)
    requires Shape(s) && Enabled(s, step) && Served(s)
    ensures Shape(Apply(s, step)) && Served(Apply(s, step))
  {
    StepShape(s, step);
    if step.Push? {
      PushServed(s, step.task);
    }
  }

  lemma StepDrainInv(s: State, step: Step)
    requires DrainInv(s) && Enabled(s, step)
    ensures DrainInv(Apply(s, step))
  {
    StepServed(s, step);
    StepLists(s, step);
  }

  // ---------------------------------------------------------------- what drains

  /** Steps until the worker pops the current ring, in the order of its loop. */
  ghost function Rank(s: State, w: WorkerId): nat
    requires w in s.phase
  {
    match s.phase[w]
    case Polling(k) => if k == Current(s) then 1 else 6
    case Popped(_) => 5
    case Holding(_) => 4
    case Checking => 3
    case Ready => 2
    case Leaving => 0
  }

  ghost function NextStep(s: State, w: WorkerId): Step
    requires w in s.phase
  {
    match s.phase[w]
    case Checking => Check(w)
    case Ready => Fetch(w)
    case Polling(_) => Pop(w)
    case Popped(_) => Start(w)
    case Holding(_) => Finish(w)
    case Leaving => Remove(w)
  }

  /** A looping worker that is not doomed keeps looping, and comes closer to the next task of the queue. */
  lemma LoopsOn(s: State, w: WorkerId)
    requires Shape(s) && Looping(s, w) && !Doomed(s, w) && Queue(s) != []
    ensures var s' := Apply(s, NextStep(s, w));
            && |s'.rings| == |s.rings| && Looping(s', w) && !Doomed(s', w)
            && (|Queue(s')| < |Queue(s)| || (Queue(s') == Queue(s) && Rank(s', w) < Rank(s, w)))
  {
  }

  lemma {:induction false} LooperDrains(s: State, w: WorkerId)
    requires DrainInv(s) && Looping(s, w) && !Doomed(s, w)
    ensures CanDrain(s)
    decreases |Queue(s)|, Rank(s, w)
  {
    if Queue(s) == [] {
      assert Drains(s, []);
    } else {
      var step := NextStep(s, w);
      LoopsOn(s, w);
      StepDrainInv(s, step);
      LooperDrains(Apply(s, step), w);
      Prepend(s, step);
    }
  }

  lemma SpawnsLooper(s: State, t: TaskId)
    requires DrainInv(s) && t in s.pending && Queue(s) != [] && |s.m.active| < s.m.workerCount
    ensures var s' := Apply(s, Schedule(t, true)); Looping(s', s.m.workerId + 1) && !Doomed(s', s.m.workerId + 1)
  {
  }

  /** A caller about to schedule gets a worker, once leaving workers have made room. */
  lemma {:induction false} CallerDrains(s: State, t: TaskId)
    requires DrainInv(s) && t in s.pending
    ensures CanDrain(s)
    decreases |s.m.active|, if s.m.active != [] && InPhase(s, s.m.active[0], Leaving) then 0 else 1
  {
    if Queue(s) == [] {
      assert Drains(s, []);
    } else if |s.m.active| < s.m.workerCount {
      SpawnsLooper(s, t);
      StepDrainInv(s, Schedule(t, true));
      LooperDrains(Apply(s, Schedule(t, true)), s.m.workerId + 1);
      Prepend(s, Schedule(t, true));
    } else {
      var w := s.m.active[0];
      CountIn(s.m.active, w);
      if Looping(s, w) && !Doomed(s, w) {
        LooperDrains(s, w);
      } else {
        CountRemove(s.m.active, w);
        StepDrainInv(s, NextStep(s, w));
        CallerDrains(Apply(s, NextStep(s, w)), t);
        Prepend(s, NextStep(s, w));
      }
    }
  }

  /** A stray takes one task and is a stray no more. */
  lemma StrayTakes(s: State, w: WorkerId)
    requires Shape(s) && w in Strays(s) && s.phase[w].Polling? && Queue(s) != []
    ensures var s' := Apply(s, Pop(w));
            |s'.rings| == |s.rings| && |Queue(s')| == |Queue(s)| - 1 && |Strays(s')| == |Strays(s)| - 1
  {
    assert Strays(Apply(s, Pop(w))) == Strays(s) - {w};
  }

  lemma StrayFetches(s: State, w: WorkerId)
    requires Shape(s) && w in Strays(s) && s.phase[w].Ready?
    ensures var s' := Apply(s, Fetch(w));
            s'.rings == s.rings && Strays(s') == Strays(s) && s'.phase[w].Polling?
  {
  }

  lemma {:induction false} StraysDrain(s: State)
    requires DrainInv(s) && |Queue(s)| <= |Strays(s)|
    ensures CanDrain(s)
    decreases |Queue(s)|
  {
    if Queue(s) == [] {
      assert Drains(s, []);
    } else {
      assert Strays(s) != {};
      var w :| w in Strays(s);
      var s1 := s;
      if s.phase[w].Ready? {
        StrayFetches(s, w);
        StepDrainInv(s, Fetch(w));
        s1 := Apply(s, Fetch(w));
      }
      StrayTakes(s1, w);
      StepDrainInv(s1, Pop(w));
      StraysDrain(Apply(s1, Pop(w)));
      Prepend(s1, Pop(w));
      if s.phase[w].Ready? {
        Prepend(s, Fetch(w));
      }
    }
  }

  // ----------------------------------------------------------- what does not

  /** Nobody is left for the task at position i of the queue. */
  ghost predicate HopelessAt(s: State, i: nat)
    requires |s.rings| > 0
  {
    !Hopeful(s) && |Strays(s)| <= i < |Queue(s)|
  }

  /** The loopers stay doomed if they were all doomed. */
  lemma StillDoomed(s: State, s': State)
    requires Shape(s) && |s'.rings| > 0 && !Hopeful(s) && s'.pending == {} && Queue(s') != []
    requires forall x :: Looping(s', x) && Doomed(s, x) ==> Doomed(s', x)
    requires forall x :: Looping(s', x) ==> Looping(s, x)
    ensures !Hopeful(s')
  {
    forall x | Looping(s', x)
      ensures Doomed(s', x)
    {
      assert Looping(s, x);
      assert Doomed(s, x);
    }
  }

  lemma HopelessPop(s: State, w: WorkerId, i: nat) returns (i': nat)
    requires Shape(s) && w in s.phase && s.phase[w].Polling? && HopelessAt(s, i)
    ensures |DoPop(s, w).rings| > 0 && HopelessAt(DoPop(s, w), i') && Queue(DoPop(s, w))[i'] == Queue(s)[i]
  {
    var s' := DoPop(s, w);
    assert !(Looping(s, w) && !Doomed(s, w));
    i' := i;
    if w in Strays(s) {
      StrayTakes(s, w);
      i' := i - 1;
    } else {
      assert s.phase[w].ring != Current(s);
      assert Strays(s') == Strays(s) && Queue(s') == Queue(s);
    }
    StillDoomed(s, s');
  }

  lemma HopelessMove(s: State, step: Step, i: nat)
    requires Shape(s) && Enabled(s, step) && HopelessAt(s, i)
    requires step.Check? || step.Fetch? || step.Start? || step.Finish? || step.Remove?
    ensures Apply(s, step).rings == s.rings && HopelessAt(Apply(s, step), i)
  {
    var s' := Apply(s, step);
    assert !(Looping(s, step.w) && !Doomed(s, step.w));
    assert Strays(s') == Strays(s);
    StillDoomed(s, s');
  }

  /** Internal steps leave the task where it is, with nobody left for it. */
  lemma HopelessStep(s: State, step: Step, i: nat) returns (i': nat)
    requires Shape(s) && Internal(step) && Enabled(s, step) && HopelessAt(s, i)
    ensures Shape(Apply(s, step)) && HopelessAt(Apply(s, step), i') && Queue(Apply(s, step))[i'] == Queue(s)[i]
  {
    StepShape(s, step);
    if step.Pop? {
      i' := HopelessPop(s, step.w, i);
    } else {
      HopelessMove(s, step, i);
      i' := i;
    }
  }

  lemma {:induction false} NeverDrains(s: State, steps: seq<Step>, i: nat)
    requires Shape(s) && HopelessAt(s, i)
    ensures !Drains(s, steps)
    decreases |steps|
  {
    if steps != [] && Internal(steps[0]) && Enabled(s, steps[0]) {
      var i' := HopelessStep(s, steps[0], i);
      NeverDrains(Apply(s, steps[0]), steps[1..], i');
    }
  }

  /**
   Main result: left to itself, a pool can empty its queue if and only if a caller is about to schedule, an active
   worker goes on looping, or the detached workers past their check are enough for what is queued.
   */
  lemma DrainExact(s: State)
    requires DrainInv(s)
    ensures CanDrain(s) <==> Hopeful(s) || |Queue(s)| <= |Strays(s)|
  {
    if Hopeful(s) {
      if Queue(s) == [] {
        assert Drains(s, []);
      } else if t :| t in s.pending {
        CallerDrains(s, t);
      } else {
        var w :| Looping(s, w) && !Doomed(s, w);
        LooperDrains(s, w);
      }
    } else if |Queue(s)| <= |Strays(s)| {
      StraysDrain(s);
    } else {
      forall steps
        ensures !Drains(s, steps)
      {
        NeverDrains(s, steps, |Queue(s)| - 1);
      }
    }
  }

  lemma {:induction false} RunDrainInv(trace: seq<State>, steps: seq<Step>, n: nat)
    requires IsRun(trace, steps) && n <= |steps|
    ensures DrainInv(trace[n])
  {
    if n > 0 {
      RunDrainInv(trace, steps, n - 1);
      assert Next(trace[n - 1], steps[n - 1], trace[n]);
      StepDrainInv(trace[n - 1], steps[n - 1]);
    } else {
      RunLists(trace, steps, 0);
    }
  }

  lemma RunDrain(trace: seq<State>, steps: seq<Step>, n: nat)
    requires IsRun(trace, steps) && n <= |steps|
    ensures Shape(trace[n])
    ensures CanDrain(trace[n]) <==> Hopeful(trace[n]) || |Queue(trace[n])| <= |Strays(trace[n])|
    ensures !Stalled(trace[n]) && (forall w :: !Doomed(trace[n], w)) ==> CanDrain(trace[n])
  {
    RunDrainInv(trace, steps, n);
    DrainExact(trace[n]);
  }
}
