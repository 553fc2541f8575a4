/** Concrete runs showing that the exceptions of the pool results do occur. */
module PoolWitnesses {
  import opened Managers
  import opened Protocol
  import opened PoolLists
  import opened PoolProgress
  import opened PoolDrain
  import opened PoolExecute
  import opened PoolPanics
  import Rendezvous

  // ------------------------------------------------------------------- reaching

  /** Some run without a detach passes v and ends in s. */
  ghost predicate Via(v: State, s: State)
  {
    Shape(s) && exists trace, steps, j :: PassesTo(trace, steps, j, v, s)
  }

  ghost predicate PassesTo(trace: seq<State>, steps: seq<Step>, j: nat, v: State, s: State)
  {
    && IsRun(trace, steps) && j <= |steps| && trace[j] == v && trace[|steps|] == s
    && (forall i :: 0 <= i < |steps| ==> !steps[i].Detach?)
  }

  /** Some run without a detach ends in s. */
  ghost predicate Reachable(s: State)
  {
    Via(s, s)
  }

  /** The waiter of task t has been handed worker w. */
  ghost predicate Told(s: State, t: TaskId, w: WorkerId)
  {
    InPhase(s, w, Popped(t)) || InPhase(s, w, Holding(t))
  }

  /** Every detach is made by the waiter of a task that its worker was seen with, and no waiter makes two. */
  ghost predicate ByWaiters(trace: seq<State>, steps: seq<Step>, who: map<nat, TaskId>)
    requires |trace| == |steps| + 1
  {
    && (forall i: nat :: i < |steps| && steps[i].Detach? ==>
          i in who && exists j: nat :: j <= i && Told(trace[j], who[i], steps[i].w))
    && (forall i, j :: i in who && j in who && i != j ==> who[i] != who[j])
  }

  lemma Fresh(workerCount: int, backlog: int, initHook: bool)
    ensures Reachable(Initial(workerCount, backlog, initHook, false))
  {
    var s := Initial(workerCount, backlog, initHook, false);
    var steps: seq<Step> := [];
    assert PassesTo([s], steps, 0, s, s);
  }

  lemma Here(v: State, s: State)
    requires Via(v, s)
    ensures Reachable(s)
  {
    var trace, steps, j :| PassesTo(trace, steps, j, v, s);
    assert PassesTo(trace, steps, |steps|, s, s);
  }

  lemma GrowRun(trace: seq<State>, steps: seq<Step>, step: Step)
    requires IsRun(trace, steps) && Shape(trace[|steps|]) && Enabled(trace[|steps|], step)
    ensures IsRun(trace + [Apply(trace[|steps|], step)], steps + [step]) && Shape(Apply(trace[|steps|], step))
  {
    var trace', steps' := trace + [Apply(trace[|steps|], step)], steps + [step];
    StepShape(trace[|steps|], step);
    forall i | 0 <= i < |steps'|
      ensures Next(trace'[i], steps'[i], trace'[i + 1])
    {
      if i < |steps| {
        assert Next(trace[i], steps[i], trace[i + 1]);
      }
    }
  }

  lemma Extend(v: State, s: State, step: Step)
    requires Via(v, s) && Enabled(s, step) && !step.Detach?
    ensures Via(v, Apply(s, step))
  {
    var trace, steps, j :| PassesTo(trace, steps, j, v, s);
    GrowRun(trace, steps, step);
    assert PassesTo(trace + [Apply(s, step)], steps + [step], j, v, Apply(s, step));
  }

  // -------------------------------------------------------------- general detours

  /** A checking worker that is active goes round to its next task. */
  lemma TakesUp(v: State, s: State, w: WorkerId) returns (s': State)
    requires Via(v, s) && InPhase(s, w, Checking) && s.m.mode[w].Active? && Queue(s) != []
    ensures Via(v, s')
    ensures s' == s.(phase := s.phase[w := Popped(Queue(s)[0])],
                     rings := s.rings[Current(s) := PopFrom(s.rings[Current(s)])])
  {
    Extend(v, s, Check(w));
    var s1 := s.(phase := s.phase[w := Ready]);
    Extend(v, s1, Fetch(w));
    var s2 := s.(phase := s.phase[w := Polling(Current(s))]);
    assert Apply(s1, Fetch(w)) == s2;
    Extend(v, s2, Pop(w));
    s' := Apply(s2, Pop(w));
    assert s2.phase[w := Popped(Queue(s)[0])] == s.phase[w := Popped(Queue(s)[0])];
  }

  /** What an update and a push to the new ring leave. */
  function Renew(s: State, count: int): State
  {
    var t := s.nextTask;
    s.(m := s.m.(workerCount := count), rings := s.rings + [RingView([t], count * s.m.backlog, [t], [])],
       nextTask := t + 1, pending := s.pending + {t}, accepted := s.accepted + {t},
       peak := if count > s.peak then count else s.peak)
  }

  /** The count is updated on an empty queue, and one more task is pushed to the new ring. */
  lemma Renews(v: State, s: State, count: int) returns (s': State)
    requires Via(v, s) && Queue(s) == [] && s.arriving == map[] && count * s.m.backlog >= 1
    ensures s' == Renew(s, count) && Via(v, s')
  {
    Extend(v, s, Update(count));
    var s1 := Apply(s, Update(count));
    Extend(v, s1, Arrive);
    var s2 := Apply(s1, Arrive);
    var t, k := s.nextTask, |s.rings|;
    assert s2.arriving == map[t := k] && s2.rings[k] == EmptyRing(count * s.m.backlog);
    Extend(v, s2, Push(t));
    s' := Apply(s2, Push(t));
    assert PushTo(EmptyRing(count * s.m.backlog), t) == RingView([t], count * s.m.backlog, [t], []);
    assert s'.rings == s.rings + [RingView([t], count * s.m.backlog, [t], [])];
    assert s'.arriving == map[];
  }

  // --------------------------------------------------- one worker, any number of tasks

  const BACKLOG := 64

  /** The first n task ids. */
  function FirstTasks(n: nat): (r: seq<TaskId>)
    ensures |r| == n && forall i :: 0 <= i < n ==> r[i] == i
  {
    if n == 0 then [] else FirstTasks(n - 1) + [n - 1]
  }

  function Below(n: nat): set<TaskId>
  {
    if n == 0 then {} else Below(n - 1) + {n - 1}
  }

  function RingOf(pushed: nat, popped: nat): RingView
    requires popped <= pushed
  {
    RingView(FirstTasks(pushed)[popped..], BACKLOG, FirstTasks(pushed), FirstTasks(pushed)[..popped])
  }

  /** One worker allowed and alive, no hooks, no caller before its push. */
  function Stage(phase: Phase, pushed: nat, popped: nat, tasked: set<WorkerId>, executed: seq<TaskId>,
      pending: set<TaskId>): State
    requires popped <= pushed
  {
    State(Manager(1, BACKLOG, [1], [], 1, map[1 := Active], tasked, false, false, []),
          [RingOf(pushed, popped)], map[1 := phase], pushed, map[], pending,
          Below(pushed), {}, executed, 1)
  }

  lemma Base() returns (s: State)
    ensures s == Stage(Checking, 1, 0, {}, [], {}) && Reachable(s)
  {
    var s0 := Initial(1, BACKLOG, false, false);
    Fresh(1, BACKLOG, false);
    Extend(s0, s0, Arrive);
    var s1 := Apply(s0, Arrive);
    Extend(s0, s1, Push(0));
    var s2 := Apply(s1, Push(0));
    assert s2.rings[0].contents == [0] && s2.rings[0].pushed == [0] && FirstTasks(1) == [0];
    assert s2.rings == [RingOf(1, 0)] && s2.pending == {0} && s2.arriving == map[];
    Extend(s0, s2, Schedule(0, true));
    s := Apply(s2, Schedule(0, true));
    assert s.m.active == [1] && s.m.mode == map[1 := Active] && s.phase == map[1 := Checking];
    assert s.accepted == Below(1);
    Here(s0, s);
  }

  /** A step of the worker that only changes its phase. */
  lemma Move(v: State, p: Phase, pushed: nat, popped: nat, tasked: set<WorkerId>, executed: seq<TaskId>,
      pending: set<TaskId>)
    returns (s: State)
    requires popped <= pushed && Via(v, Stage(p, pushed, popped, tasked, executed, pending))
        && (p.Checking? || p.Ready?)
    ensures s == Stage(if p.Checking? then Ready else Polling(0), pushed, popped, tasked, executed, pending)
        && Via(v, s)
  {
    var s0 := Stage(p, pushed, popped, tasked, executed, pending);
    var step := if p.Checking? then Check(1) else Fetch(1);
    Extend(v, s0, step);
    s := Apply(s0, step);
    assert s.phase == map[1 := if p.Checking? then Ready else Polling(0)];
  }

  /** The next task arrives and is pushed; its schedule is still to come. */
  lemma PushOne(v: State, p: Phase, pushed: nat, popped: nat, tasked: set<WorkerId>, executed: seq<TaskId>,
      pending: set<TaskId>)
    returns (s: State)
    requires popped <= pushed < BACKLOG && Via(v, Stage(p, pushed, popped, tasked, executed, pending))
    ensures s == Stage(p, pushed + 1, popped, tasked, executed, pending + {pushed}) && Via(v, s)
  {
    var s0 := Stage(p, pushed, popped, tasked, executed, pending);
    Extend(v, s0, Arrive);
    var s1 := Apply(s0, Arrive);
    Extend(v, s1, Push(pushed));
    s := Apply(s1, Push(pushed));
    PushedRing(pushed, popped);
    assert s.arriving == map[];
  }

  lemma PushedRing(pushed: nat, popped: nat)
    requires popped <= pushed
    ensures PushTo(RingOf(pushed, popped), pushed) == RingOf(pushed + 1, popped)
  {
  }

  /** The schedule of a pushed task finds the active list full. */
  lemma Settle(v: State, p: Phase, pushed: nat, popped: nat, tasked: set<WorkerId>, executed: seq<TaskId>,
      pending: set<TaskId>, t: TaskId)
    returns (s: State)
    requires popped <= pushed && t in pending && Via(v, Stage(p, pushed, popped, tasked, executed, pending))
    ensures s == Stage(p, pushed, popped, tasked, executed, pending - {t}) && Via(v, s)
  {
    var s0 := Stage(p, pushed, popped, tasked, executed, pending);
    Extend(v, s0, Schedule(t, true));
    s := Apply(s0, Schedule(t, true));
  }

  /** The worker goes round and takes the next task. */
  lemma TakeOne(v: State, pushed: nat, popped: nat, tasked: set<WorkerId>, executed: seq<TaskId>, pending: set<TaskId>)
    returns (s: State)
    requires popped < pushed && Via(v, Stage(Checking, pushed, popped, tasked, executed, pending))
    ensures s == Stage(Popped(popped), pushed, popped + 1, tasked, executed, pending) && Via(v, s)
  {
    s := TakesUp(v, Stage(Checking, pushed, popped, tasked, executed, pending), 1);
    assert PopFrom(RingOf(pushed, popped)) == RingOf(pushed, popped + 1);
    assert s.phase == map[1 := Popped(popped)] && s.rings == [RingOf(pushed, popped + 1)];
  }

  /** The worker is given its task and executes it. */
  lemma StartOne(v: State, t: TaskId, pushed: nat, popped: nat, tasked: set<WorkerId>, executed: seq<TaskId>,
      pending: set<TaskId>)
    returns (s: State)
    requires popped <= pushed && Via(v, Stage(Popped(t), pushed, popped, tasked, executed, pending))
    ensures s == Stage(Holding(t), pushed, popped, tasked + {1}, executed, pending) && Via(v, s)
  {
    var s0 := Stage(Popped(t), pushed, popped, tasked, executed, pending);
    Extend(v, s0, Start(1));
    s := Apply(s0, Start(1));
    assert s.phase == map[1 := Holding(t)];
  }

  lemma FinishOne(v: State, t: TaskId, pushed: nat, popped: nat, tasked: set<WorkerId>, executed: seq<TaskId>,
      pending: set<TaskId>)
    returns (s: State)
    requires popped <= pushed && Via(v, Stage(Holding(t), pushed, popped, tasked, executed, pending))
    ensures s == Stage(Checking, pushed, popped, tasked, executed + [t], pending) && Via(v, s)
  {
    var s0 := Stage(Holding(t), pushed, popped, tasked, executed, pending);
    Extend(v, s0, Finish(1));
    s := Apply(s0, Finish(1));
    assert s.phase == map[1 := Checking];
  }

  // ------------------------------------------------------------------ lost wakeups

  /** Worker 1 has executed task 0 and is back at its check. */
  lemma Executed() returns (s: State)
    ensures s == Stage(Checking, 1, 1, {1}, [0], {}) && Reachable(s)
  {
    var v := Base();
    var _ := TakeOne(v, 1, 0, {}, [], {});
    var _ := StartOne(v, 0, 1, 1, {}, [], {});
    assert {} + {1} == {1};
    s := FinishOne(v, 0, 1, 1, {1}, [], {});
    assert [] + [0] == [0];
    Here(v, s);
  }

  lemma PollsEmpty() returns (s: State)
    ensures s == Stage(Polling(0), 1, 1, {1}, [0], {}) && Reachable(s)
  {
    var v := Executed();
    var _ := Move(v, Checking, 1, 1, {1}, [0], {});
    s := Move(v, Ready, 1, 1, {1}, [0], {});
    Here(v, s);
  }

  lemma PastEmptyPop() returns (s: State)
    ensures s == Stage(Leaving, 1, 1, {1}, [0], {}) && Reachable(s)
  {
    var s0 := PollsEmpty();
    s := FindsEmpty(s0, s0);
    Here(s0, s);
  }

  /** The gap between an empty Pop and removeWorker: the schedule of task 1 finds the list full and is lost. */
  lemma LostWakeupHappens() returns (s: State)
    ensures s == Stage(Leaving, 2, 1, {1}, [0], {1}) && Reachable(s) && LostWakeup(s, Schedule(1, true))
  {
    var v := PastEmptyPop();
    s := PushOne(v, Leaving, 1, 1, {1}, [0], {});
    Here(v, s);
    assert FirstTasks(2) == [0, 1] && Queue(s) == [1] && {} + {1} == {1};
  }

  lemma Overtaken() returns (s: State)
    ensures s == Stage(Leaving, 2, 1, {1}, [0], {}) && Reachable(s)
  {
    var v := LostWakeupHappens();
    s := Settle(v, Leaving, 2, 1, {1}, [0], {1}, 1);
    assert {1} - {1} == {};
    Here(v, s);
  }

  /** And then nobody is left to run it. */
  lemma NobodyLeft() returns (s: State)
    ensures Reachable(s) && Stalled(s) && s.phase == map[] && s.arriving == map[] && Queue(s) == [1]
  {
    var v := Overtaken();
    Extend(v, v, Remove(1));
    s := Apply(v, Remove(1));
    assert FirstTasks(2) == [0, 1] && s.phase == map[];
    Here(v, s);
  }

  /** A failing init hook: the first task is queued and nobody is started for it. */
  lemma FailingHookHappens() returns (s: State)
    ensures Reachable(s) && LostWakeup(s, Schedule(0, false))
  {
    var s0 := Initial(1, BACKLOG, true, false);
    Fresh(1, BACKLOG, true);
    Extend(s0, s0, Arrive);
    var s1 := Apply(s0, Arrive);
    Extend(s0, s1, Push(0));
    s := Apply(s1, Push(0));
    assert Queue(s) == [0] && s.pending == {0};
    Here(s0, s);
  }

  /** Task 1 is queued behind task 0, and its schedule is over. */
  lemma TwoQueued() returns (s: State)
    ensures s == Stage(Checking, 2, 0, {}, [], {}) && Reachable(s)
  {
    var v := Base();
    var _ := PushOne(v, Checking, 1, 0, {}, [], {});
    assert {} + {1} == {1};
    s := Settle(v, Checking, 2, 0, {}, [], {1}, 1);
    assert {1} - {1} == {};
    Here(v, s);
  }

  /** Worker 1 has taken task 0 and not been given it yet; task 1 is queued. */
  lemma TwoTasks() returns (s: State)
    ensures s == Stage(Popped(0), 2, 1, {}, [], {}) && Reachable(s)
  {
    var v := TwoQueued();
    s := TakeOne(v, 2, 0, {}, [], {});
    Here(v, s);
  }

  /** The waiter of task 0 times out between the handing over of the worker and the setting of its task. */
  lemma EarlyDetachHappens() returns (s: State)
    ensures Reachable(s) && Told(s, 0, 1) && LostWakeup(s, Detach(1))
  {
    s := TwoTasks();
    assert FirstTasks(2) == [0, 1] && Queue(s) == [1];
    assert Looping(s, 1);
  }

  // ----------------------------------------------------------------- double detach

  lemma FirstHeld() returns (v: State)
    ensures v == Stage(Holding(0), 2, 1, {1}, [], {}) && Reachable(v)
  {
    var s0 := TwoTasks();
    v := StartOne(s0, 0, 2, 1, {}, [], {});
    assert {} + {1} == {1};
    Here(s0, v);
  }

  /** Worker 1 has executed task 0 and holds task 1; its run has passed the state in which it held task 0. */
  lemma BothHeld() returns (v: State, s: State)
    ensures v == Stage(Holding(0), 2, 1, {1}, [], {}) && s == Stage(Holding(1), 2, 2, {1}, [0], {}) && Via(v, s)
  {
    v := FirstHeld();
    var _ := FinishOne(v, 0, 2, 1, {1}, [], {});
    assert [] + [0] == [0];
    var _ := TakeOne(v, 2, 1, {1}, [0], {});
    s := StartOne(v, 1, 2, 2, {1}, [0], {});
    assert {1} + {1} == {1};
  }

  /**
   Two waiters, one detach each: that of task 0, which has finished, picks its timeout late, and then that of task 1
   times out. The second one detaches a detached worker.
   */
  lemma DoubleDetachHappens() returns (trace: seq<State>, steps: seq<Step>, who: map<nat, TaskId>)
    ensures IsRun(trace, steps) && ByWaiters(trace, steps, who)
    ensures |steps| > 0 && DoubleDetach(trace[|steps| - 1], steps[|steps| - 1])
  {
    var v, s := BothHeld();
    var trace0, steps0, j: nat :| PassesTo(trace0, steps0, j, v, s);
    trace, steps := DetachTwice(trace0, steps0, j, v, s, 1);
    who := map[|steps0| := 0, |steps0| + 1 := 1];
    TwoWaiters(trace, steps, j, 1);
  }

  /** The last two steps, by the waiters of tasks 0 and 1. */
  lemma TwoWaiters(trace: seq<State>, steps: seq<Step>, j: nat, w: WorkerId)
    requires |trace| == |steps| + 1 && |steps| >= 2 && j <= |steps| - 2
    requires Told(trace[j], 0, w) && Told(trace[|steps| - 2], 1, w)
    requires steps[|steps| - 2] == steps[|steps| - 1] == Detach(w)
    requires forall i :: 0 <= i < |steps| - 2 ==> !steps[i].Detach?
    ensures ByWaiters(trace, steps, map[|steps| - 2 := 0, |steps| - 1 := 1])
  {
  }

  lemma StaysDetached(s: State, w: WorkerId)
    requires Shape(s) && w in s.m.mode && w <= s.m.workerId
    ensures DoubleDetach(Apply(s, Detach(w)), Detach(w))
  {
  }

  /** Two more steps, both detaching w. */
  lemma DetachTwice(trace: seq<State>, steps: seq<Step>, j: nat, v: State, s: State, w: WorkerId)
    returns (trace': seq<State>, steps': seq<Step>)
    requires PassesTo(trace, steps, j, v, s) && Shape(s) && w in s.m.mode && w <= s.m.workerId
    ensures IsRun(trace', steps') && |steps'| == |steps| + 2 && trace'[j] == v && trace'[|steps|] == s
    ensures steps'[|steps|] == steps'[|steps| + 1] == Detach(w) && forall i :: 0 <= i < |steps| ==> !steps'[i].Detach?
    ensures DoubleDetach(trace'[|steps| + 1], Detach(w))
  {
    GrowRun(trace, steps, Detach(w));
    var s1 := Apply(s, Detach(w));
    StaysDetached(s, w);
    GrowRun(trace + [s1], steps + [Detach(w)], Detach(w));
    trace', steps' := trace + [s1] + [Apply(s1, Detach(w))], steps + [Detach(w)] + [Detach(w)];
    assert forall i :: 0 <= i < |steps| ==> steps'[i] == steps[i];
  }

  // ------------------------------------------------------------------- panic

  /** The tasks after the first one. */
  function Waiting(n: nat): (r: set<TaskId>)
    ensures n > 1 ==> 1 in r
  {
    if n <= 1 then {} else Waiting(n - 1) + {n - 1}
  }

  lemma {:induction false} Pile(v: State, n: nat)
    requires v == Stage(Checking, 1, 0, {}, [], {}) && Reachable(v) && 1 <= n <= BACKLOG
    ensures Via(v, Stage(Checking, n, 0, {}, [], Waiting(n)))
  {
    if n > 1 {
      Pile(v, n - 1);
      var _ := PushOne(v, Checking, n - 1, 0, {}, [], Waiting(n - 1));
    }
  }

  /** Worker 1 has not run yet and 52 tasks are queued: the next schedule panics. */
  lemma PanicHappens() returns (s: State)
    ensures Reachable(s) && Enabled(s, Schedule(1, true)) && SchedulePanics(s, Schedule(1, true))
  {
    var v := Base();
    Pile(v, 52);
    s := Stage(Checking, 52, 0, {}, [], Waiting(52));
    Here(v, s);
    assert 1 in s.pending;
  }

  // ---------------------------------------------------------------- replaced rings

  /** A caller has read wm.queue and the ring is then replaced. */
  function Replaced(): State
  {
    State(Manager(2, BACKLOG, [], [], 0, map[], {}, false, false, []),
          [EmptyRing(BACKLOG), EmptyRing(2 * BACKLOG)], map[], 1, map[0 := 0], {}, {}, {}, [], 2)
  }

  lemma Replacing()
    ensures Reachable(Replaced())
  {
    var s := Initial(1, BACKLOG, false, false);
    Fresh(1, BACKLOG, false);
    Extend(s, s, Arrive);
    var s1 := Apply(s, Arrive);
    Extend(s, s1, Update(2));
    assert Apply(s1, Update(2)) == Replaced();
    Here(s, Replaced());
  }

  /** The push of that caller lands in the replaced ring, which nobody polls. */
  lemma StrandingHappens() returns (s: State)
    ensures Reachable(s) && s.rings[0].contents == [0] && LostAt(s, 0, 0) && 0 in s.accepted
  {
    Replacing();
    Extend(Replaced(), Replaced(), Push(0));
    s := Apply(Replaced(), Push(0));
    assert Pollers(s, 0) == {};
    Here(Replaced(), s);
  }

  /** Another caller reads wm.queue. */
  lemma Arrives(v: State, s: State) returns (s': State)
    requires Via(v, s)
    ensures Via(v, s') && s' == s.(arriving := s.arriving[s.nextTask := Current(s)], nextTask := s.nextTask + 1)
  {
    Extend(v, s, Arrive);
    s' := Apply(s, Arrive);
  }

  /** A caller pushes to the ring it has read. */
  lemma LatePush(v: State, s: State, t: TaskId, k: nat) returns (s': State)
    requires Via(v, s) && t in s.arriving && s.arriving[t] == k && k < |s.rings|
    requires |s.rings[k].contents| < s.rings[k].capacity
    ensures Via(v, s') && s'.phase == s.phase && s'.arriving == s.arriving - {t} && |s'.rings| == |s.rings|
    ensures s'.rings[k].contents == s.rings[k].contents + [t] && s'.rings[k].capacity == s.rings[k].capacity
  {
    Extend(v, s, Push(t));
    s' := Apply(s, Push(t));
  }

  /** Two callers have read the ring that worker 1 polls, and it is then replaced. */
  lemma ReplacingUnder() returns (s: State)
    ensures Reachable(s) && s.phase == map[1 := Polling(0)] && s.arriving == map[1 := 0, 2 := 0]
    ensures |s.rings| == 2 && s.rings[0].contents == [] && s.rings[0].capacity == BACKLOG
  {
    var v := PollsEmpty();
    var s1 := Arrives(v, v);
    var s2 := Arrives(v, s1);
    Extend(v, s2, Update(1));
    s := Apply(s2, Update(1));
    Here(v, s);
  }

  /** Both push to it: worker 1 can still execute the first of the two tasks,
      and nobody will ever execute the second. */
  lemma SecondIsLost() returns (s: State)
    ensures Reachable(s) && s.rings[0].contents == [1, 2] && CanExecute(s, 1) && LostAt(s, 0, 1)
  {
    var v := ReplacingUnder();
    var s1 := LatePush(v, v, 1, 0);
    s := LatePush(v, s1, 2, 0);
    assert s.rings[0].contents == [1, 2];
    assert Pollers(s, 0) == {1};
    PollersExecute(s, 0, 0);
    Here(v, s);
  }

  /** The only worker still polls the ring that was replaced, and finds it empty. */
  lemma StalePopHappens() returns (s: State)
    ensures Reachable(s) && LostWakeup(s, Pop(1)) && Looping(s, 1)
    ensures s.phase == map[1 := Polling(0)] && s.pending == {} && s.m.mode == map[1 := Active]
  {
    var v := PollsEmpty();
    assert Queue(v) == [];
    var s0 := Renews(v, v, 1);
    Extend(v, s0, Schedule(1, true));
    s := Apply(s0, Schedule(1, true));
    assert s.m == s0.m && s.pending == {} && s.phase == map[1 := Polling(0)];
    assert Looping(s, 1) && Queue(s) == [1] && s.rings[0].contents == [];
    Here(v, s);
  }

  /** That pool is not stalled yet, and still no steps of its own can empty its queue. */
  lemma DoomedHappens() returns (s: State)
    ensures Reachable(s) && !Stalled(s) && !CanDrain(s)
  {
    s := StalePopHappens();
    var trace, steps, j :| PassesTo(trace, steps, j, s, s);
    RunDrain(trace, steps, |steps|);
    assert forall w :: Looping(s, w) ==> w == 1;
    assert Strays(s) == {};
  }

  // ----------------------------------------------------------------- over-full list

  /** Worker 1 leaves; worker 2 was started for task 1 after the count went up. */
  lemma Growing() returns (s: State)
    ensures Reachable(s) && s.phase == map[1 := Leaving, 2 := Checking] && Queue(s) == [1]
    ensures s.m == Manager(2, BACKLOG, [1, 2], [], 2, map[1 := Active, 2 := Active], {1}, false, false, [])
    ensures s.arriving == map[] && s.pending == {} && s.nextTask == 2
  {
    var v := PastEmptyPop();
    assert Queue(v) == [];
    var s0 := Renews(v, v, 2);
    Extend(v, s0, Schedule(1, true));
    s := Apply(s0, Schedule(1, true));
    assert s.m.active == [1, 2] && s.phase == map[1 := Leaving, 2 := Checking] && s.pending == {};
    Here(v, s);
  }

  lemma SecondHolds() returns (s: State)
    ensures Reachable(s) && s.phase == map[1 := Leaving, 2 := Holding(1)] && Queue(s) == []
    ensures s.m == Manager(2, BACKLOG, [1, 2], [], 2, map[1 := Active, 2 := Active], {1, 2}, false, false, [])
    ensures s.arriving == map[] && s.pending == {} && s.nextTask == 2
  {
    var v := Growing();
    var s1 := TakesUp(v, v, 2);
    Extend(v, s1, Start(2));
    s := Apply(s1, Start(2));
    assert s.m.tasked == {1, 2} && s.phase == map[1 := Leaving, 2 := Holding(1)];
    Here(v, s);
  }

  /** The count goes down again, task 2 is queued, and the waiter of task 1 detaches the only looping worker. */
  lemma OverfullHappens() returns (s: State)
    ensures Reachable(s) && Told(s, 1, 2) && 2 in s.m.tasked && LostWakeup(s, Detach(2))
  {
    var v := SecondHolds();
    var s0 := Renews(v, v, 1);
    Extend(v, s0, Schedule(2, true));
    s := Apply(s0, Schedule(2, true));
    assert s.m == s0.m && s.phase == map[1 := Leaving, 2 := Holding(1)] && s.pending == {};
    assert Looping(s, 2) && Queue(s) == [2];
    Here(v, s);
  }

  // ------------------------------------------------------- a detach that panics

  /** One more task is pushed to the current ring; its schedule is still to come. */
  lemma PushMore(v: State, s: State) returns (s': State)
    requires Via(v, s) && s.arriving == map[] && |Queue(s)| < s.rings[Current(s)].capacity
    ensures Via(v, s') && s'.m == s.m && s'.phase == s.phase && s'.arriving == map[] && |s'.rings| == |s.rings|
    ensures Queue(s') == Queue(s) + [s.nextTask] && s'.rings[Current(s)].capacity == s.rings[Current(s)].capacity
    ensures s'.pending == s.pending + {s.nextTask} && s'.nextTask == s.nextTask + 1
  {
    Extend(v, s, Arrive);
    var s1 := Apply(s, Arrive);
    Extend(v, s1, Push(s.nextTask));
    s' := Apply(s1, Push(s.nextTask));
    assert s'.arriving == map[];
  }

  lemma {:induction false} PileUp(v: State, s: State, n: nat) returns (s': State)
    requires Via(v, s) && s.arriving == map[] && |Queue(s)| + n <= s.rings[Current(s)].capacity
    ensures Via(v, s') && s'.m == s.m && s'.phase == s.phase && s'.arriving == map[] && |s'.rings| == |s.rings|
    ensures |Queue(s')| == |Queue(s)| + n && s'.rings[Current(s)].capacity == s.rings[Current(s)].capacity
  {
    s' := s;
    if n > 0 {
      s' := PileUp(v, s, n - 1);
      s' := PushMore(v, s');
    }
  }

  /** A whole call of Run. */
  lemma RunCall(v: State, s: State) returns (s': State)
    requires Via(v, s) && s.arriving == map[] && s.pending == {} && |Queue(s)| < s.rings[Current(s)].capacity
    ensures Via(v, s') && s'.m == AfterSchedule(s.m, |Queue(s)| + 1, true) && s'.phase == Launch(s.phase, s.m, s'.m)
    ensures s'.arriving == map[] && s'.pending == {} && s'.nextTask == s.nextTask + 1 && |s'.rings| == |s.rings|
    ensures Queue(s') == Queue(s) + [s.nextTask] && s'.rings[Current(s)].capacity == s.rings[Current(s)].capacity
  {
    var t := s.nextTask;
    var s1 := PushMore(v, s);
    Extend(v, s1, Schedule(t, true));
    s' := Apply(s1, Schedule(t, true));
    assert s'.pending == {};
  }

  lemma FirstStarted() returns (v: State, s: State)
    ensures Via(v, s) && s.phase == map[1 := Checking] && |s.rings| == 1 && Queue(s) == [0]
    ensures s.m == Manager(2, BACKLOG, [1], [], 1, map[1 := Active], {}, false, false, [])
    ensures s.arriving == map[] && s.pending == {} && s.nextTask == 1 && s.rings[0].capacity == 2 * BACKLOG
  {
    v := Initial(2, BACKLOG, false, false);
    Fresh(2, BACKLOG, false);
    s := RunCall(v, v);
    assert s.m.active == [1] && s.m.mode == map[1 := Active] && s.phase == map[1 := Checking];
  }

  /** Two workers, started for tasks 0 and 1; neither has run. */
  lemma TwoStarted() returns (s: State)
    ensures Reachable(s) && s.phase == map[1 := Checking, 2 := Checking] && Queue(s) == [0, 1]
    ensures s.m == Manager(2, BACKLOG, [1, 2], [], 2, map[1 := Active, 2 := Active], {}, false, false, [])
    ensures s.arriving == map[] && s.pending == {}
  {
    var v, s1 := FirstStarted();
    s := RunCall(v, s1);
    assert s.m.active == [1, 2] && s.m.mode == map[1 := Active, 2 := Active];
    Here(v, s);
  }

  /** A worker is given the task it has taken. */
  lemma Starts(v: State, s: State, w: WorkerId, t: TaskId) returns (s': State)
    requires Via(v, s) && InPhase(s, w, Popped(t))
    ensures Via(v, s') && s' == s.(phase := s.phase[w := Holding(t)], m := s.m.(tasked := s.m.tasked + {w}))
  {
    Extend(v, s, Start(w));
    s' := Apply(s, Start(w));
  }

  lemma Finishes(v: State, s: State, w: WorkerId, t: TaskId) returns (s': State)
    requires Via(v, s) && InPhase(s, w, Holding(t))
    ensures Via(v, s') && s' == s.(phase := s.phase[w := Checking], executed := s.executed + [t])
  {
    Extend(v, s, Finish(w));
    s' := Apply(s, Finish(w));
  }

  /** Worker 2 has executed task 0 and checks again; worker 1 has not run. */
  lemma SecondRan() returns (s: State)
    ensures Reachable(s) && s.phase == map[1 := Checking, 2 := Checking] && Queue(s) == [1]
    ensures s.m == Manager(2, BACKLOG, [1, 2], [], 2, map[1 := Active, 2 := Active], {2}, false, false, [])
    ensures s.arriving == map[] && s.pending == {}
  {
    var v := TwoStarted();
    var s1 := TakesUp(v, v, 2);
    var s2 := Starts(v, s1, 2, 0);
    s := Finishes(v, s2, 2, 0);
    assert s.m.tasked == {2} && s.phase == map[1 := Checking, 2 := Checking];
    Here(v, s);
  }

  /** Worker 2 holds task 1; worker 1, in front of it in the list, has not run. */
  lemma FrontIdle() returns (s: State)
    ensures Reachable(s) && s.phase == map[1 := Checking, 2 := Holding(1)] && Queue(s) == []
    ensures s.m == Manager(2, BACKLOG, [1, 2], [], 2, map[1 := Active, 2 := Active], {2}, false, false, [])
    ensures s.arriving == map[] && s.pending == {}
  {
    var v := SecondRan();
    var s1 := TakesUp(v, v, 2);
    s := Starts(v, s1, 2, 1);
    assert s.m.tasked == {2} && s.phase == map[1 := Checking, 2 := Holding(1)];
    Here(v, s);
  }

  /**
   The count goes down and 52 tasks are queued: the waiter of task 1, whose handler is running on worker 2, times out,
   and the schedule in its detach panics.
   */
  lemma PanicUnderHandler() returns (s: State)
    ensures Reachable(s) && InPhase(s, 2, Holding(1)) && Told(s, 1, 2)
    ensures 2 in s.m.mode && 2 in s.m.tasked && DetachPanics(s.m, 2, |Queue(s)|)
  {
    var v := FrontIdle();
    var s1 := Renews(v, v, 1);
    s := PileUp(v, s1, 51);
    assert RemoveLast([1, 2], 2) == [1];
    Here(v, s);
  }

  /**
   The pool and the rendezvous together: task 1 is being handled on worker 2, its handler is sending any operation, its
   waiter times out and detaches worker 2, and that detach panics in the pool: the handler is blocked for ever.
   */
  lemma StuckHandler(op: Rendezvous.Op)
    returns (s: State, trace: seq<Rendezvous.State>, steps: seq<Rendezvous.Step>)
    ensures Reachable(s) && InPhase(s, 2, Holding(1)) && Told(s, 1, 2)
    ensures Rendezvous.IsRun(trace, steps) && |steps| > 0
    ensures steps[|steps| - 1] == Rendezvous.Timeout(DetachPanics(s.m, 2, |Queue(s)|))
    ensures trace[|steps|].handler == Rendezvous.Sending(op)
    ensures forall step :: !Rendezvous.Enabled(trace[|steps|], step)
  {
    s := PanicUnderHandler();
    trace, steps := Rendezvous.StuckHappens(op, DetachPanics(s.m, 2, |Queue(s)|));
    Rendezvous.StuckForever(trace, steps, |steps|);
  }

  lemma OnlyHeld() returns (v: State)
    ensures v == Stage(Holding(0), 1, 1, {1}, [], {}) && Reachable(v)
  {
    var s0 := Base();
    var _ := TakeOne(s0, 1, 0, {}, [], {});
    v := StartOne(s0, 0, 1, 1, {}, [], {});
    assert {} + {1} == {1};
    Here(s0, v);
  }

  /** Worker 1 has executed task 0 and is gone; the waiter of task 0, told of it before, detaches it late and panics. */
  lemma RemovedDetachHappens() returns (v: State, s: State)
    ensures Via(v, s) && Told(v, 0, 1) && 1 !in s.m.mode && DetachPanics(s.m, 1, |Queue(s)|)
  {
    v := OnlyHeld();
    var s1 := FinishOne(v, 0, 1, 1, {1}, [], {});
    assert [] + [0] == [0];
    s := Leaves(v);
  }

  lemma Leaves(v: State) returns (s: State)
    requires Via(v, Stage(Checking, 1, 1, {1}, [0], {}))
    ensures Via(v, s) && s.phase == map[] && s.m.mode == map[]
  {
    var s1 := Move(v, Checking, 1, 1, {1}, [0], {});
    s1 := Move(v, Ready, 1, 1, {1}, [0], {});
    s1 := FindsEmpty(v, s1);
    s := IsRemoved(v, s1);
  }

  lemma IsRemoved(v: State, s: State) returns (s': State)
    requires Via(v, s) && s.phase == map[1 := Leaving] && s.m.mode == map[1 := Active]
    ensures Via(v, s') && s'.phase == map[] && s'.m.mode == map[]
  {
    Extend(v, s, Remove(1));
    s' := Apply(s, Remove(1));
    assert s'.phase == map[] && s'.m.mode == map[];
  }

  lemma FindsEmpty(v: State, s: State) returns (s': State)
    requires Via(v, s) && s.phase == map[1 := Polling(0)] && s.rings[0].contents == []
    ensures Via(v, s') && s' == s.(phase := map[1 := Leaving])
  {
    Extend(v, s, Pop(1));
    s' := Apply(s, Pop(1));
    assert s'.phase == map[1 := Leaving];
  }
}
