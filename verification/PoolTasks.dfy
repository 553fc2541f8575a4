/** Conservation of tasks over every interleaving: exactly once, in push order, never if rejected. */
module PoolTasks {
  import opened Managers
  import opened Protocol
  import opened PoolLists

  /** Occurrences of a task in all rings, retired ones included. */
  function Queued(rings: seq<RingView>, t: TaskId): nat
  {
    if rings == [] then 0
    else Queued(rings[..|rings| - 1], t) + Count(rings[|rings| - 1].contents, t)
  }

  predicate Holds(p: Phase, t: TaskId)
  {
    (p.Popped? || p.Holding?) && p.task == t
  }

  /** The workers that hold a task. */
  function Holders(phase: map<WorkerId, Phase>, t: TaskId): set<WorkerId>
  {
    set w | w in phase && Holds(phase[w], t)
  }

  /** Places where a task is: queued, held by a worker, or executed. */
  function Places(s: State, t: TaskId): nat
  {
    Queued(s.rings, t) + |Holders(s.phase, t)| + Count(s.executed, t)
  }

  /** A task name is arriving, accepted or rejected, one of the three. */
  ghost predicate Names(s: State)
  {
    && (forall t :: t in s.arriving ==> t < s.nextTask && t !in s.accepted && t !in s.rejected)
    && (forall t :: t in s.accepted ==> t < s.nextTask && t !in s.rejected)
    && (forall t :: t in s.rejected ==> t < s.nextTask)
  }

  ghost predicate Conserved(s: State)
  {
    forall t: TaskId :: Places(s, t) == if t in s.accepted then 1 else 0
  }

  /** In every ring the pops so far, followed by the contents, are the pushes so far. */
  ghost predicate Fifo(s: State)
  {
    forall k :: 0 <= k < |s.rings| ==> s.rings[k].pushed == s.rings[k].popped + s.rings[k].contents
  }

  lemma {:induction false} CountTail(list: seq<nat>, x: nat)
    requires list != []
    ensures Count(list, x) == Count(list[1..], x) + if list[0] == x then 1 else 0
  {
    if |list| > 1 {
      var front := list[..|list| - 1];
      CountTail(front, x);
      assert list[1..][..|list| - 2] == front[1..];
    }
  }

  lemma {:induction false} QueuedUpdate(rings: seq<RingView>, k: nat, r: RingView, t: TaskId)
    requires k < |rings|
    ensures Queued(rings[k := r], t) == Queued(rings, t) - Count(rings[k].contents, t) + Count(r.contents, t)
  {
    var last := |rings| - 1;
    if k < last {
      QueuedUpdate(rings[..last], k, r, t);
      assert rings[k := r][..last] == rings[..last][k := r];
    } else {
      assert rings[k := r][..last] == rings[..last];
    }
  }

  lemma HoldersUpdate(phase: map<WorkerId, Phase>, w: WorkerId, p: Phase, t: TaskId)
    ensures |Holders(phase[w := p], t)|
         == |Holders(phase, t)| - (if w in phase && Holds(phase[w], t) then 1 else 0) + (if Holds(p, t) then 1 else 0)
  {
    var others := Holders(phase, t) - {w};
    assert Holders(phase[w := p], t) == if Holds(p, t) then others + {w} else others;
    assert Holders(phase, t) == if w in phase && Holds(phase[w], t) then others + {w} else others;
  }

  lemma HoldersRemove(phase: map<WorkerId, Phase>, w: WorkerId, t: TaskId)
    requires w in phase && phase[w].Leaving?
    ensures Holders(phase - {w}, t) == Holders(phase, t)
  {
  }

  lemma PushPlaces(s: State, t: TaskId, x: TaskId)
    requires Shape(s) && Names(s) && t in s.arriving
    ensures Places(DoPush(s, t), x) == Places(s, x) + if x in DoPush(s, t).accepted && x !in s.accepted then 1 else 0
  {
    var k, s' := s.arriving[t], DoPush(s, t);
    if |s.rings[k].contents| < s.rings[k].capacity {
      CountAppend(s.rings[k].contents, t);
      QueuedUpdate(s.rings, k, PushTo(s.rings[k], t), x);
      assert Queued(s'.rings, x) == Queued(s.rings, x) + if x == t then 1 else 0;
    } else {
      assert s'.rings == s.rings && s'.accepted == s.accepted;
    }
  }

  lemma PopPlaces(s: State, w: WorkerId, x: TaskId)
    requires Shape(s) && w in s.phase && s.phase[w].Polling?
    ensures Places(DoPop(s, w), x) == Places(s, x)
  {
    var k := s.phase[w].ring;
    if s.rings[k].contents == [] {
      HoldersUpdate(s.phase, w, Leaving, x);
    } else {
      CountTail(s.rings[k].contents, x);
      QueuedUpdate(s.rings, k, PopFrom(s.rings[k]), x);
      HoldersUpdate(s.phase, w, Popped(s.rings[k].contents[0]), x);
    }
  }

  lemma LaunchPlaces(s: State, m: Manager, x: TaskId)
    requires Shape(s) && ListInv(s.m)
    ensures Holders(Launch(s.phase, s.m, m), x) == Holders(s.phase, x)
  {
    assert m.workerId > s.m.workerId ==> m.workerId !in s.m.mode;
  }

  lemma UpdatePlaces(s: State, count: int, x: TaskId)
    requires |s.rings| > 0
    ensures Places(DoUpdate(s, count), x) == Places(s, x)
  {
    assert DoUpdate(s, count).rings[..|s.rings|] == s.rings;
  }

  /** One step creates a place for a task only by accepting it, and destroys none. */
  lemma StepPlaces(s: State, step: Step, x: TaskId)
    requires Shape(s) && Enabled(s, step) && ListInv(s.m) && Names(s)
    ensures Places(Apply(s, step), x) == Places(s, x) + if x in Apply(s, step).accepted
        && x !in s.accepted then 1 else 0
  {
    match step
    case Arrive =>
    case Push(t) => PushPlaces(s, t, x);
    case Schedule(t, _) => LaunchPlaces(s, Apply(s, step).m, x);
    case Check(w) => HoldersUpdate(s.phase, w, Apply(s, step).phase[w], x);
    case Fetch(w) => HoldersUpdate(s.phase, w, Polling(Current(s)), x);
    case Pop(w) => PopPlaces(s, w, x);
    case Start(w) => HoldersUpdate(s.phase, w, Holding(s.phase[w].task), x);
    case Finish(w) =>
      HoldersUpdate(s.phase, w, Checking, x);
      CountAppend(s.executed, s.phase[w].task);
    case Detach(w) => LaunchPlaces(s, Apply(s, step).m, x);
    case Remove(w) => HoldersRemove(s.phase, w, x);
    case Update(count) => UpdatePlaces(s, count, x);
  }

  lemma StepNames(s: State, step: Step)
    requires Shape(s) && Enabled(s, step) && Names(s)
    ensures Names(Apply(s, step))
    ensures s.accepted <= Apply(s, step).accepted && s.rejected <= Apply(s, step).rejected
  {
  }

  lemma StepFifo(s: State, step: Step)
    requires Shape(s) && Enabled(s, step) && Fifo(s)
    ensures Fifo(Apply(s, step))
  {
  }

  lemma InitialPlaces(s: State, t: TaskId)
    requires |s.rings| == 1 && s.rings[0].contents == [] && s.phase == map[] && s.executed == []
    ensures Places(s, t) == 0
  {
    assert Queued(s.rings, t) == Queued(s.rings[..0], t);
  }

  /**
   Main result for tasks, over every interleaving: each accepted task is in exactly one place,
   exactly once; no other task is anywhere; every ring is popped in push order.
   */
  lemma {:induction false} RunTasks(trace: seq<State>, steps: seq<Step>, n: nat)
    requires IsRun(trace, steps) && n <= |steps|
    ensures Names(trace[n]) && Conserved(trace[n]) && Fifo(trace[n])
  {
    if n > 0 {
      var s, step := trace[n - 1], steps[n - 1];
      RunTasks(trace, steps, n - 1);
      RunLists(trace, steps, n - 1);
      assert Next(s, step, trace[n]);
      StepNames(s, step);
      StepFifo(s, step);
      forall t: TaskId
        ensures Places(trace[n], t) == if t in trace[n].accepted then 1 else 0
      {
        StepPlaces(s, step, t);
      }
    } else {
      forall t: TaskId
        ensures Places(trace[0], t) == 0
      {
        InitialPlaces(trace[0], t);
      }
    }
  }

  lemma {:induction false} RejectedStays(trace: seq<State>, steps: seq<Step>, i: nat, n: nat)
    requires IsRun(trace, steps) && i <= n <= |steps|
    ensures trace[i].rejected <= trace[n].rejected
    decreases n
  {
    if i < n {
      RejectedStays(trace, steps, i, n - 1);
      RunTasks(trace, steps, n - 1);
      RunLists(trace, steps, n - 1);
      assert Next(trace[n - 1], steps[n - 1], trace[n]);
      StepNames(trace[n - 1], steps[n - 1]);
    }
  }

  /** A task that Run rejected is never executed, nor held, nor queued, at any later time. */
  lemma RejectedNeverRuns(trace: seq<State>, steps: seq<Step>, i: nat, n: nat, t: TaskId)
    requires IsRun(trace, steps) && i <= n <= |steps| && t in trace[i].rejected
    ensures t !in trace[n].executed && Holders(trace[n].phase, t) == {} && Queued(trace[n].rings, t) == 0
  {
    RejectedStays(trace, steps, i, n);
    RunTasks(trace, steps, n);
    assert Places(trace[n], t) == 0;
    CountIn(trace[n].executed, t);
  }
}
