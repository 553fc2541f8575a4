/** Queue hooks over whole runs: bracketing, and the leak after which no hook is ever called again. */
module PoolHooks {
  import opened Managers
  import opened Protocol
  import opened PoolLists

  /** The init hook has succeeded since the last call of the empty hook. */
  predicate Open(hooks: seq<Hook>)
  {
    hooks != [] &&
    match hooks[|hooks| - 1]
    case InitOk => true
    case Empty => false
    case InitFailed => Open(hooks[..|hooks| - 1])
  }

  /** With an init hook set from the start: workers exist only while open, and the empty hook only closes. */
  ghost predicate HookInv(m: Manager)
  {
    m.hasInitHook ==>
      && (m.Total() > 0 ==> Open(m.hooks))
      && (forall j :: 0 <= j < |m.hooks| && m.hooks[j].Empty? ==> Open(m.hooks[..j]))
  }

  /** Where Open comes from: a success with no empty-hook call after it. */
  lemma {:induction false} OpenWitness(hooks: seq<Hook>) returns (k: nat)
    requires Open(hooks)
    ensures k < |hooks| && hooks[k].InitOk?
    ensures forall l :: k < l < |hooks| ==> !hooks[l].Empty?
  {
    var last := |hooks| - 1;
    if hooks[last].InitOk? {
      k := last;
    } else {
      k := OpenWitness(hooks[..last]);
    }
  }

  lemma AppendHook(hooks: seq<Hook>, h: Hook)
    requires forall j :: 0 <= j < |hooks| && hooks[j].Empty? ==> Open(hooks[..j])
    requires h.Empty? ==> Open(hooks)
    ensures forall j :: 0 <= j < |hooks + [h]| && (hooks + [h])[j].Empty? ==> Open((hooks + [h])[..j])
    ensures Open(hooks + [h]) <==> h.InitOk? || (h.InitFailed? && Open(hooks))
  {
    assert (hooks + [h])[..|hooks|] == hooks;
    forall j | 0 <= j < |hooks + [h]| && (hooks + [h])[j].Empty?
      ensures Open((hooks + [h])[..j])
    {
      assert (hooks + [h])[..j] == hooks[..j];
      if j == |hooks| {
        assert hooks[..j] == hooks;
      }
    }
  }

  lemma ScheduleHooks(m: Manager, queueSize: int, hookOk: bool)
    requires HookInv(m)
    ensures HookInv(AfterSchedule(m, queueSize, hookOk))
  {
    if HooksBefore(m) {
      AppendHook(m.hooks, if hookOk then InitOk else InitFailed);
    }
  }

  lemma RemoveHooks(m: Manager, w: WorkerId)
    requires HookInv(m) && ListInv(m) && w in m.mode
    ensures HookInv(AfterRemove(m, w))
  {
    CountRemove(m.active, w);
    CountRemove(m.detached, w);
    CountIn(m.active, w);
    CountIn(m.detached, w);
    assert Excess(m, w) >= 0 && m.Total() > 0;
    if m.hasInitHook {
      AppendHook(m.hooks, Empty);
    }
  }

  lemma StepHooks(s: State, step: Step)
    requires Shape(s) && Enabled(s, step) && ListInv(s.m) && HookInv(s.m)
    ensures HookInv(Apply(s, step).m)
  {
    if step.Schedule? {
      ScheduleHooks(s.m, |Queue(s)|, step.hookOk);
    } else if step.Detach? {
      if step.w in s.m.mode {
        CountIn(s.m.active, step.w);
        CountIn(s.m.detached, step.w);
        assert Excess(s.m, step.w) >= 0 && s.m.Total() > 0;
        ScheduleHooks(MoveToDetached(s.m, step.w), |Queue(s)|, true);
      }
    } else if step.Remove? {
      RemoveHooks(s.m, step.w);
    }
  }

  lemma {:induction false} RunHookInv(trace: seq<State>, steps: seq<Step>, n: nat)
    requires IsRun(trace, steps) && n <= |steps|
    ensures HookInv(trace[n].m)
    ensures trace[n].m.hasInitHook == trace[0].m.hasInitHook
  {
    if n > 0 {
      RunHookInv(trace, steps, n - 1);
      RunLists(trace, steps, n - 1);
      assert Next(trace[n - 1], steps[n - 1], trace[n]);
      StepHooks(trace[n - 1], steps[n - 1]);
    }
  }

  /**
   Main result for hooks. While any worker is alive the init hook has succeeded since the
   last empty-hook call, and two empty-hook calls have a successful init-hook call between them.
   */
  lemma RunHooks(trace: seq<State>, steps: seq<Step>, n: nat)
    requires IsRun(trace, steps) && n <= |steps| && trace[0].m.hasInitHook
    ensures trace[n].m.mode != map[] ==>
              exists k :: 0 <= k < |trace[n].m.hooks| && trace[n].m.hooks[k].InitOk?
                && forall l :: k < l < |trace[n].m.hooks| ==> !trace[n].m.hooks[l].Empty?
    ensures var hooks := trace[n].m.hooks;
            forall i, j :: 0 <= i < j < |hooks| && hooks[i].Empty? && hooks[j].Empty? ==>
              exists k :: i < k < j && hooks[k].InitOk?
  {
    var m := trace[n].m;
    RunHookInv(trace, steps, n);
    RunLists(trace, steps, n);
    if m.mode != map[] {
      var w :| w in m.mode;
      CountIn(m.active, w);
      CountIn(m.detached, w);
      assert Excess(m, w) >= 0 && m.Total() > 0;
      var k := OpenWitness(m.hooks);
    }
    forall i, j | 0 <= i < j < |m.hooks| && m.hooks[i].Empty? && m.hooks[j].Empty?
      ensures exists k :: i < k < j && m.hooks[k].InitOk?
    {
      var k := OpenWitness(m.hooks[..j]);
      assert m.hooks[..j][i].Empty?;
      assert i < k < j && m.hooks[k].InitOk?;
    }
  }

  /** A hook is called only on the way from or to empty lists. */
  lemma StepSilent(s: State, step: Step)
    requires Shape(s) && Enabled(s, step)
    requires s.m.Total() > 0 && Apply(s, step).m.Total() > 0
    ensures Apply(s, step).m.hooks == s.m.hooks
  {
    if step.Detach? && step.w in s.m.mode {
      assert MoveToDetached(s.m, step.w).Total() > 0;
    }
  }

  /** An excess element survives every step. */
  lemma {:induction false} LeakStays(trace: seq<State>, steps: seq<Step>, i: nat, n: nat)
    requires IsRun(trace, steps) && i < n <= |steps| && DoubleDetach(trace[i], steps[i])
    ensures Excess(trace[n].m, steps[i].w) > 0 && trace[n].m.Total() > 0
    decreases n
  {
    RunLists(trace, steps, n - 1);
    assert Next(trace[n - 1], steps[n - 1], trace[n]);
    StepLists(trace[n - 1], steps[n - 1]);
    if n - 1 > i {
      LeakStays(trace, steps, i, n - 1);
    } else {
      assert Excess(trace[i].m, steps[i].w) >= 0;
    }
    CountIn(trace[n].m.detached, steps[i].w);
  }

  /**
   A double detach leaves an element in the detached list that no removal takes out, so the
   lists are never empty again and neither hook is ever called again.
   */
  lemma {:induction false} LeakSilencesHooks(trace: seq<State>, steps: seq<Step>, i: nat, n: nat)
    requires IsRun(trace, steps) && i < n <= |steps| && DoubleDetach(trace[i], steps[i])
    ensures trace[n].m.Total() > 0
    ensures trace[n].m.hooks == trace[i].m.hooks
    decreases n
  {
    RunLists(trace, steps, n - 1);
    assert Next(trace[n - 1], steps[n - 1], trace[n]);
    LeakStays(trace, steps, i, n);
    if n - 1 > i {
      LeakSilencesHooks(trace, steps, i, n - 1);
    } else {
      assert Excess(trace[i].m, steps[i].w) >= 0;
      CountIn(trace[i].m.detached, steps[i].w);
    }
    StepSilent(trace[n - 1], steps[n - 1]);
  }

  // ------------------------------------------------------- exactly which calls

  /** The lists are empty exactly when no worker is alive and nothing is left over in them. */
  lemma EmptyLists(m: Manager)
    requires ListInv(m)
    ensures m.Total() == 0 <==> m.mode == map[] && ListsExact(m)
  {
    if m.Total() == 0 {
      forall w: WorkerId
        ensures w !in m.mode && Excess(m, w) == 0
      {
        assert Count(m.active, w) == 0 && Count(m.detached, w) == 0 && Excess(m, w) >= 0;
      }
    } else if m.active != [] {
      CountIn(m.active, m.active[0]);
      assert Share(m, m.active[0], Active) > 0;
    } else {
      CountIn(m.detached, m.detached[0]);
      assert m.detached[0] in m.mode || Excess(m, m.detached[0]) > 0;
    }
  }

  /** No worker is alive, and no list element has been leaked by a double detach before step n. */
  ghost predicate Deserted(trace: seq<State>, steps: seq<Step>, n: nat)
    requires n <= |steps| < |trace|
  {
    trace[n].phase == map[] && forall i :: 0 <= i < n ==> !DoubleDetach(trace[i], steps[i])
  }

  lemma RunDeserted(trace: seq<State>, steps: seq<Step>, n: nat)
    requires IsRun(trace, steps) && n <= |steps|
    ensures trace[n].m.Total() == 0 <==> Deserted(trace, steps, n)
  {
    RunLists(trace, steps, n);
    EmptyLists(trace[n].m);
    assert trace[n].phase.Keys == trace[n].m.mode.Keys;
    assert trace[n].phase == map[] <==> trace[n].m.mode == map[];
  }

  lemma StepHooksKept(s: State, step: Step)
    requires Shape(s) && Enabled(s, step)
    ensures Apply(s, step).m.hasInitHook == s.m.hasInitHook && Apply(s, step).m.hasEmptyHook == s.m.hasEmptyHook
  {
  }

  lemma {:induction false} HooksKept(trace: seq<State>, steps: seq<Step>, n: nat)
    requires IsRun(trace, steps) && n <= |steps|
    ensures trace[n].m.hasInitHook == trace[0].m.hasInitHook && trace[n].m.hasEmptyHook == trace[0].m.hasEmptyHook
  {
    if n > 0 {
      HooksKept(trace, steps, n - 1);
      RunLists(trace, steps, n - 1);
      assert Next(trace[n - 1], steps[n - 1], trace[n]);
      StepHooksKept(trace[n - 1], steps[n - 1]);
    }
  }

  /** The hook calls of one step: what it finds decides for the init hook, what it leaves for the empty hook. */
  ghost function Due(trace: seq<State>, steps: seq<Step>, n: nat): seq<Hook>
    requires n < |steps| < |trace|
  {
    match steps[n]
    case Schedule(_, ok) =>
      if trace[0].m.hasInitHook && Deserted(trace, steps, n) then [if ok then InitOk else InitFailed] else []
    case Remove(_) => if trace[0].m.hasEmptyHook && Deserted(trace, steps, n + 1) then [Empty] else []
    case _ => []
  }

  lemma StepHookCalls(s: State, step: Step)
    requires Shape(s) && Enabled(s, step)
    ensures Apply(s, step).m.hooks == s.m.hooks +
            match step
            case Schedule(_, ok) =>
              if s.m.hasInitHook && s.m.Total() == 0 then [if ok then InitOk else InitFailed] else []
            case Remove(_) => if s.m.hasEmptyHook && Apply(s, step).m.Total() == 0 then [Empty] else []
            case _ => []
  {
    if step.Detach? && step.w in s.m.mode {
      assert MoveToDetached(s.m, step.w).Total() > 0;
    }
  }

  /**
   Exactly which hook is called when, in every run: the init hook by a schedule that finds no worker, the empty hook by
   the removal that leaves none, and neither once a double detach has leaked a list element.
   */
  lemma RunHookCalls(trace: seq<State>, steps: seq<Step>, n: nat)
    requires IsRun(trace, steps) && n < |steps|
    ensures trace[n + 1].m.hooks == trace[n].m.hooks + Due(trace, steps, n)
  {
    RunDeserted(trace, steps, n);
    RunDeserted(trace, steps, n + 1);
    HooksKept(trace, steps, n);
    RunLists(trace, steps, n);
    assert Next(trace[n], steps[n], trace[n + 1]);
    StepHookCalls(trace[n], steps[n]);
  }

  /**
   When a schedule creates a worker, in every run: the queue is not empty, the active list has room, and the init hook
   has not just failed. The worker is new, active, last in the active list and about to check its state.
   */
  lemma ScheduleExact(trace: seq<State>, steps: seq<Step>, n: nat)
    requires IsRun(trace, steps) && n < |steps| && steps[n].Schedule?
    ensures |trace[n].rings| > 0
    ensures var s, s' := trace[n], trace[n + 1]; var w := s.m.workerId + 1;
            if Queue(s) != [] && |s.m.active| < s.m.workerCount && Due(trace, steps, n) != [InitFailed]
            then && w !in s.phase && s'.phase == s.phase[w := Checking] && s'.m.workerId == w
                 && s'.m.active == s.m.active + [w] && s'.m.mode == s.m.mode[w := Active]
            else s'.phase == s.phase && s'.m.active == s.m.active && s'.m.mode == s.m.mode
  {
    RunDeserted(trace, steps, n);
    HooksKept(trace, steps, n);
    RunLists(trace, steps, n);
    assert Next(trace[n], steps[n], trace[n + 1]);
    assert trace[n].m.workerId + 1 !in trace[n].m.mode;
  }
}
