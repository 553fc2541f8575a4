/** Which accepted tasks can still be executed: an exact answer for every task in every state of every run. */
module PoolExecute {
  import opened Managers
  import opened Protocol
  import opened PoolLists
  import opened PoolTasks
  import opened PoolProgress
  import opened PoolDrain

  // ------------------------------------------------------------------- meaning

  /** The steps, of whatever kind, lead from s to a state in which t has been executed. */
  ghost predicate Leads(s: State, steps: seq<Step>, t: TaskId)
    decreases |steps|
  {
    Shape(s) &&
    if steps == [] then t in s.executed
    else Enabled(s, steps[0]) && Leads(Apply(s, steps[0]), steps[1..], t)
  }

  ghost predicate AllInternal(steps: seq<Step>)
  {
    forall i :: 0 <= i < |steps| ==> Internal(steps[i])
  }

  /** Some continuation executes t. */
  ghost predicate MayExecute(s: State, t: TaskId)
  {
    exists steps :: Leads(s, steps, t)
  }

  /** The pool executes t by steps of its own. */
  ghost predicate CanExecute(s: State, t: TaskId)
  {
    exists steps :: AllInternal(steps) && Leads(s, steps, t)
  }

  lemma Before(s: State, step: Step, t: TaskId)
    requires Shape(s) && Internal(step) && Enabled(s, step) && CanExecute(Apply(s, step), t)
    ensures CanExecute(s, t)
  {
    var rest :| AllInternal(rest) && Leads(Apply(s, step), rest, t);
    var steps := [step] + rest;
    assert steps[1..] == rest;
    assert AllInternal(steps) && Leads(s, steps, t);
  }

  /** The workers about to pop ring k. */
  ghost function Pollers(s: State, k: nat): set<WorkerId>
  {
    set w | w in s.phase && s.phase[w] == Polling(k)
  }

  // ------------------------------------------------------------------ invariant

  ghost predicate TaskInv(s: State)
  {
    DrainInv(s) && Names(s) && Conserved(s)
  }

  lemma StepTaskInv(s: State, step: Step)
    requires TaskInv(s) && Enabled(s, step)
    ensures TaskInv(Apply(s, step)) && s.accepted <= Apply(s, step).accepted
  {
    StepDrainInv(s, step);
    StepNames(s, step);
    forall t: TaskId
      ensures Places(Apply(s, step), t) == if t in Apply(s, step).accepted then 1 else 0
    {
      StepPlaces(s, step, t);
    }
  }

  lemma RunTaskInv(trace: seq<State>, steps: seq<Step>, n: nat)
    requires IsRun(trace, steps) && n <= |steps|
    ensures TaskInv(trace[n])
  {
    RunDrainInv(trace, steps, n);
    RunTasks(trace, steps, n);
  }

  lemma {:induction false} QueuedAtLeast(rings: seq<RingView>, k: nat, t: TaskId)
    requires k < |rings|
    ensures Queued(rings, t) >= Count(rings[k].contents, t)
  {
    if k < |rings| - 1 {
      QueuedAtLeast(rings[..|rings| - 1], k, t);
    }
  }

  lemma {:induction false} QueuedTwice(rings: seq<RingView>, j: nat, k: nat, t: TaskId)
    requires j < k < |rings|
    ensures Queued(rings, t) >= Count(rings[j].contents, t) + Count(rings[k].contents, t)
  {
    var front := rings[..|rings| - 1];
    if k < |rings| - 1 {
      QueuedTwice(front, j, k, t);
    } else {
      QueuedAtLeast(front, j, t);
    }
  }

  lemma {:induction false} QueuedSomewhere(rings: seq<RingView>, t: TaskId)
    ensures Queued(rings, t) > 0 ==> exists k :: 0 <= k < |rings| && t in rings[k].contents
  {
    if rings != [] {
      var last := |rings| - 1;
      QueuedSomewhere(rings[..last], t);
      CountIn(rings[last].contents, t);
      if Queued(rings[..last], t) > 0 {
        var k :| 0 <= k < last && t in rings[..last][k].contents;
        assert t in rings[k].contents;
      }
    }
  }

  /** A queued task is in one ring, held by nobody and not executed. */
  lemma OnlyQueued(s: State, k: nat, t: TaskId)
    requires Conserved(s) && k < |s.rings| && t in s.rings[k].contents
    ensures t !in s.executed && Holders(s.phase, t) == {}
    ensures forall j :: 0 <= j < |s.rings| && t in s.rings[j].contents ==> j == k
  {
    assert Places(s, t) <= 1;
    CountIn(s.rings[k].contents, t);
    QueuedAtLeast(s.rings, k, t);
    CountIn(s.executed, t);
    forall j | 0 <= j < |s.rings| && t in s.rings[j].contents && j != k
      ensures false
    {
      CountIn(s.rings[j].contents, t);
      QueuedTwice(s.rings, if j < k then j else k, if j < k then k else j, t);
    }
  }

  // ---------------------------------------------------------------- what executes

  /** A held task is executed by its worker. */
  lemma HeldExecutes(s: State, w: WorkerId, t: TaskId)
    requires Shape(s) && w in s.phase && Holds(s.phase[w], t)
    ensures CanExecute(s, t)
  {
    if s.phase[w].Popped? {
      StepShape(s, Start(w));
      RunsToEnd(Apply(s, Start(w)), w, t);
      Before(s, Start(w), t);
    } else {
      RunsToEnd(s, w, t);
    }
  }

  lemma RunsToEnd(s: State, w: WorkerId, t: TaskId)
    requires Shape(s) && InPhase(s, w, Holding(t))
    ensures CanExecute(s, t)
  {
    StepShape(s, Finish(w));
    var s' := Apply(s, Finish(w));
    assert t in s'.executed;
    assert Leads(s', [], t) && AllInternal([]);
    Before(s, Finish(w), t);
  }

  /** A worker about to pop a ring takes its first task. */
  lemma PollerTakes(s: State, k: nat, w: WorkerId)
    requires Shape(s) && k < |s.rings| && w in Pollers(s, k) && s.rings[k].contents != []
    ensures var s' := Apply(s, Pop(w));
            && |s'.rings| == |s.rings| && s'.rings[k].contents == s.rings[k].contents[1..]
            && Pollers(s', k) == Pollers(s, k) - {w} && InPhase(s', w, Popped(s.rings[k].contents[0]))
  {
  }

  /** The workers about to pop a ring execute as many of its tasks as they are. */
  lemma {:induction false} PollersExecute(s: State, k: nat, i: nat)
    requires Shape(s) && k < |s.rings| && i < |s.rings[k].contents| && i < |Pollers(s, k)|
    ensures CanExecute(s, s.rings[k].contents[i])
    decreases i
  {
    assert Pollers(s, k) != {};
    var w :| w in Pollers(s, k);
    var s' := Apply(s, Pop(w));
    PollerTakes(s, k, w);
    StepShape(s, Pop(w));
    if i == 0 {
      HeldExecutes(s', w, s.rings[k].contents[0]);
    } else {
      PollersExecute(s', k, i - 1);
    }
    Before(s, Pop(w), s.rings[k].contents[i]);
  }

  /** So do the detached workers past their check, of the current ring. */
  lemma {:induction false} StraysExecute(s: State, i: nat)
    requires Shape(s) && i < |Queue(s)| && i < |Strays(s)|
    ensures CanExecute(s, Queue(s)[i])
    decreases i
  {
    assert Strays(s) != {};
    var t := Queue(s)[i];
    var w :| w in Strays(s);
    var s1 := s;
    if s.phase[w].Ready? {
      StrayFetches(s, w);
      StepShape(s, Fetch(w));
      s1 := Apply(s, Fetch(w));
    }
    var s2 := Apply(s1, Pop(w));
    StrayTakes(s1, w);
    StepShape(s1, Pop(w));
    if i == 0 {
      HeldExecutes(s2, w, t);
    } else {
      assert Queue(s2)[i - 1] == t;
      StraysExecute(s2, i - 1);
    }
    Before(s1, Pop(w), t);
    if s.phase[w].Ready? {
      Before(s, Fetch(w), t);
    }
  }

  /** t is in no replaced ring. */
  ghost predicate NotReplaced(s: State, t: TaskId)
  {
    forall k :: 0 <= k < Current(s) ==> t !in s.rings[k].contents
  }

  lemma StepNotReplaced(s: State, step: Step, t: TaskId)
    requires Shape(s) && Internal(step) && Enabled(s, step) && NotReplaced(s, t)
    ensures NotReplaced(Apply(s, step), t)
  {
  }

  /** Where the current ring is drained, every accepted task that was not in a replaced ring is executed. */
  lemma {:induction false} DrainExecutes(s: State, steps: seq<Step>, t: TaskId)
    requires TaskInv(s) && t in s.accepted && NotReplaced(s, t) && Drains(s, steps)
    ensures CanExecute(s, t)
    decreases |steps|
  {
    if steps == [] {
      assert Places(s, t) == 1;
      QueuedSomewhere(s.rings, t);
      CountIn(s.executed, t);
      if t in s.executed {
        assert Leads(s, [], t) && AllInternal([]);
      } else {
        assert Holders(s.phase, t) != {};
        var w :| w in Holders(s.phase, t);
        HeldExecutes(s, w, t);
      }
    } else {
      StepTaskInv(s, steps[0]);
      StepNotReplaced(s, steps[0], t);
      DrainExecutes(Apply(s, steps[0]), steps[1..], t);
      Before(s, steps[0], t);
    }
  }

  lemma HopefulExecutes(s: State, i: nat)
    requires TaskInv(s) && Hopeful(s) && i < |Queue(s)| && Queue(s)[i] in s.accepted
    ensures CanExecute(s, Queue(s)[i])
  {
    var t := Queue(s)[i];
    DrainExact(s);
    OnlyQueued(s, Current(s), t);
    var steps :| Drains(s, steps);
    DrainExecutes(s, steps, t);
  }

  // ------------------------------------------------------------- what does not

  lemma {:induction false} HopelessNever(s: State, steps: seq<Step>, i: nat)
    requires TaskInv(s) && HopelessAt(s, i) && AllInternal(steps)
    ensures !Leads(s, steps, Queue(s)[i])
    decreases |steps|
  {
    OnlyQueued(s, Current(s), Queue(s)[i]);
    if steps != [] && Enabled(s, steps[0]) {
      StepTaskInv(s, steps[0]);
      var i' := HopelessStep(s, steps[0], i);
      HopelessNever(Apply(s, steps[0]), steps[1..], i');
    }
  }

  /** Ring k was replaced, and fewer workers are about to pop it than tasks lie before position i. */
  ghost predicate LostAt(s: State, k: nat, i: nat)
  {
    k + 1 < |s.rings| && |Pollers(s, k)| <= i < |s.rings[k].contents|
  }

  lemma {:induction false} FewerOf(a: set<WorkerId>, b: set<WorkerId>)
    requires a <= b
    ensures |a| <= |b|
  {
    if a != {} {
      var x :| x in a;
      FewerOf(a - {x}, b - {x});
    }
  }

  /** No step of any kind brings a lost task closer to a worker. */
  lemma StepLost(s: State, step: Step, k: nat, i: nat) returns (i': nat)
    requires Shape(s) && Enabled(s, step) && LostAt(s, k, i)
    ensures LostAt(Apply(s, step), k, i') && Apply(s, step).rings[k].contents[i'] == s.rings[k].contents[i]
  {
    var s' := Apply(s, step);
    i' := i;
    if step.Pop? && step.w in Pollers(s, k) {
      PollerTakes(s, k, step.w);
      i' := i - 1;
    } else {
      LostMove(s, step, k, i);
    }
  }

  lemma LostMove(s: State, step: Step, k: nat, i: nat)
    requires Shape(s) && Enabled(s, step) && LostAt(s, k, i) && !(step.Pop? && step.w in Pollers(s, k))
    ensures LostAt(Apply(s, step), k, i) && Apply(s, step).rings[k].contents[i] == s.rings[k].contents[i]
  {
    var s' := Apply(s, step);
    assert Pollers(s', k) <= Pollers(s, k);
    FewerOf(Pollers(s', k), Pollers(s, k));
    assert s.rings[k].contents <= s'.rings[k].contents;
  }

  lemma {:induction false} LostNever(s: State, steps: seq<Step>, k: nat, i: nat)
    requires TaskInv(s) && LostAt(s, k, i)
    ensures !Leads(s, steps, s.rings[k].contents[i])
    decreases |steps|
  {
    OnlyQueued(s, k, s.rings[k].contents[i]);
    if steps != [] && Enabled(s, steps[0]) {
      StepTaskInv(s, steps[0]);
      var i' := StepLost(s, steps[0], k, i);
      LostNever(Apply(s, steps[0]), steps[1..], k, i');
    }
  }

  /** In a run, a lost task stays in its ring and is never held or executed. */
  lemma {:induction false} StrandedForever(trace: seq<State>, steps: seq<Step>, j: nat, n: nat, k: nat, i: nat)
    returns (i': nat)
    requires IsRun(trace, steps) && j <= n <= |steps| && LostAt(trace[j], k, i)
    ensures LostAt(trace[n], k, i') && trace[n].rings[k].contents[i'] == trace[j].rings[k].contents[i]
    ensures var t := trace[j].rings[k].contents[i]; t !in trace[n].executed && Holders(trace[n].phase, t) == {}
    decreases n
  {
    if n > j {
      var i0 := StrandedForever(trace, steps, j, n - 1, k, i);
      RunTaskInv(trace, steps, n - 1);
      assert Next(trace[n - 1], steps[n - 1], trace[n]);
      i' := StepLost(trace[n - 1], steps[n - 1], k, i0);
    } else {
      i' := i;
    }
    RunTaskInv(trace, steps, n);
    OnlyQueued(trace[n], k, trace[n].rings[k].contents[i']);
  }

  // ---------------------------------------------------------------- main results

  /**
   The task at position i of a replaced ring can be executed, by steps of the pool or by any steps at all, if and only
   if more than i workers are about to pop that ring.
   */
  lemma ReplacedExact(trace: seq<State>, steps: seq<Step>, n: nat, k: nat, i: nat)
    requires IsRun(trace, steps) && n <= |steps|
    requires k + 1 < |trace[n].rings| && i < |trace[n].rings[k].contents|
    ensures var s := trace[n]; var t := s.rings[k].contents[i];
            && (CanExecute(s, t) <==> i < |Pollers(s, k)|)
            && (MayExecute(s, t) <==> i < |Pollers(s, k)|)
  {
    var s := trace[n];
    RunTaskInv(trace, steps, n);
    if i < |Pollers(s, k)| {
      PollersExecute(s, k, i);
    } else {
      forall rest
        ensures !Leads(s, rest, s.rings[k].contents[i])
      {
        LostNever(s, rest, k, i);
      }
    }
  }

  /** The task at position i of the current ring is executed if somebody goes on looping or enough strays are there. */
  lemma CurrentExact(s: State, i: nat)
    requires TaskInv(s) && i < |Queue(s)| && Queue(s)[i] in s.accepted
    ensures CanExecute(s, Queue(s)[i]) <==> Hopeful(s) || i < |Strays(s)|
  {
    if Hopeful(s) {
      HopefulExecutes(s, i);
    } else if i < |Strays(s)| {
      StraysExecute(s, i);
    } else {
      forall rest | AllInternal(rest)
        ensures !Leads(s, rest, Queue(s)[i])
      {
        HopelessNever(s, rest, i);
      }
    }
  }

  /** t lies at position i of ring k, and there are workers for it. */
  ghost predicate InReach(s: State, k: nat, i: nat, t: TaskId)
    requires |s.rings| > 0
  {
    && k < |s.rings| && i < |s.rings[k].contents| && s.rings[k].contents[i] == t
    && if k == Current(s) then Hopeful(s) || i < |Strays(s)| else i < |Pollers(s, k)|
  }

  /**
   Main result, for every accepted task in every state of every run. Left to itself, the pool can execute it if and
   only if it has been executed, is held by a worker, or is queued where there are workers for it.
   */
  lemma ExecuteExact(trace: seq<State>, steps: seq<Step>, n: nat, t: TaskId)
    requires IsRun(trace, steps) && n <= |steps| && t in trace[n].accepted
    ensures Shape(trace[n])
    ensures var s := trace[n];
            CanExecute(s, t) <==> t in s.executed || Holders(s.phase, t) != {} || exists k, i :: InReach(s, k, i, t)
  {
    var s := trace[n];
    RunTaskInv(trace, steps, n);
    assert Places(s, t) == 1;
    if t in s.executed {
      assert Leads(s, [], t) && AllInternal([]);
    } else if Holders(s.phase, t) != {} {
      var w :| w in Holders(s.phase, t);
      HeldExecutes(s, w, t);
    } else {
      CountIn(s.executed, t);
      QueuedSomewhere(s.rings, t);
      var k :| 0 <= k < |s.rings| && t in s.rings[k].contents;
      QueuedExact(trace, steps, n, k, t);
    }
  }

  lemma QueuedExact(trace: seq<State>, steps: seq<Step>, n: nat, k: nat, t: TaskId)
    requires IsRun(trace, steps) && n <= |steps| && t in trace[n].accepted && Shape(trace[n])
    requires k < |trace[n].rings| && t in trace[n].rings[k].contents
    ensures CanExecute(trace[n], t) <==> exists k', i :: InReach(trace[n], k', i, t)
  {
    var s := trace[n];
    RunTaskInv(trace, steps, n);
    OnlyQueued(s, k, t);
    forall i: nat | i < |s.rings[k].contents| && s.rings[k].contents[i] == t
      ensures CanExecute(s, t) <==> InReach(s, k, i, t)
    {
      if k == Current(s) {
        CurrentExact(s, i);
      } else {
        ReplacedExact(trace, steps, n, k, i);
      }
    }
    var i :| 0 <= i < |s.rings[k].contents| && s.rings[k].contents[i] == t;
    assert CanExecute(s, t) <==> InReach(s, k, i, t);
  }
}
