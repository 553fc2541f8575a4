/** The rings of the pool over whole runs: bounded, rejecting exactly when full, replaced exactly when allowed. */
module PoolRings {
  import opened Wrappers
  import opened Rings
  import opened Managers
  import opened Protocol
  import opened PoolLists
  import opened PoolTasks

  // -------------------------------------------------------------------- bounds

  /** No ring holds more than its capacity; a ring of capacity -1, from an empty buffer, holds nothing. */
  ghost predicate RingBounded(r: RingView)
  {
    r.capacity >= -1 && |r.contents| <= if r.capacity >= 0 then r.capacity else 0
  }

  ghost predicate AllBounded(s: State)
  {
    forall k :: 0 <= k < |s.rings| ==> RingBounded(s.rings[k])
  }

  lemma StepRings(s: State, step: Step)
    requires Shape(s) && Enabled(s, step) && AllBounded(s)
    ensures AllBounded(Apply(s, step))
  {
  }

  /** A fresh manager has one bounded ring; a worker count or backlog that is not positive defaults to 1 or 128. */
  lemma InitialRings(workerCount: int, backlog: int, initHook: bool, emptyHook: bool)
    ensures AllBounded(Initial(workerCount, backlog, initHook, emptyHook))
    ensures var s := Initial(workerCount, backlog, initHook, emptyHook);
            && s.m.workerCount == (if workerCount > 0 then workerCount else 1)
            && s.m.backlog == (if backlog > 0 then backlog else 128)
            && s.rings == [EmptyRing(s.m.workerCount * s.m.backlog)]
  {
    var m := InitialManager(workerCount, backlog, initHook, emptyHook);
    assert m.workerCount * m.backlog >= 0;
  }

  lemma {:induction false} RunRings(trace: seq<State>, steps: seq<Step>, n: nat)
    requires IsRun(trace, steps) && n <= |steps|
    ensures AllBounded(trace[n])
  {
    if n > 0 {
      RunRings(trace, steps, n - 1);
      RunLists(trace, steps, n - 1);
      assert Next(trace[n - 1], steps[n - 1], trace[n]);
      StepRings(trace[n - 1], steps[n - 1]);
    } else {
      var wc, bl, ih, eh :| trace[0] == Initial(wc, bl, ih, eh);
      InitialRings(wc, bl, ih, eh);
    }
  }

  // ------------------------------------------------------------- push and update

  /**
   In every run a push is rejected if and only if the ring that its caller read is full; otherwise it is accepted and
   last in that ring. No other ring changes.
   */
  lemma PushExact(trace: seq<State>, steps: seq<Step>, n: nat, t: TaskId)
    requires IsRun(trace, steps) && n < |steps| && steps[n] == Push(t)
    ensures var s, s' := trace[n], trace[n + 1];
            && t in s.arriving && s.arriving[t] < |s.rings| == |s'.rings|
            && var k := s.arriving[t];
               && (t in s'.rejected <==> |s.rings[k].contents| >= s.rings[k].capacity)
               && (t in s'.accepted <==> |s.rings[k].contents| < s.rings[k].capacity)
               && (t in s'.accepted ==> s'.rings[k].contents == s.rings[k].contents + [t] && t in s'.pending)
               && (t in s'.rejected ==> s'.rings == s.rings && s'.pending == s.pending)
               && (forall j :: 0 <= j < |s.rings| && j != k ==> s'.rings[j] == s.rings[j])
  {
    RunLists(trace, steps, n);
    RunTasks(trace, steps, n);
    assert Next(trace[n], steps[n], trace[n + 1]);
  }

  /**
   In every run an update of the count adds a ring if and only if the current one is empty and the new size is at least
   -1; the ring is empty and has room for count times backlog tasks. Otherwise nothing changes.
   */
  lemma UpdateExact(trace: seq<State>, steps: seq<Step>, n: nat, count: int)
    requires IsRun(trace, steps) && n < |steps| && steps[n] == Update(count)
    ensures |trace[n].rings| > 0
    ensures var s, s' := trace[n], trace[n + 1];
            && (s' != s ==> Queue(s) == [] && count * s.m.backlog >= -1)
            && (Queue(s) == [] && count * s.m.backlog >= -1 ==>
                  && |s'.rings| == |s.rings| + 1 && s'.rings[..|s.rings|] == s.rings
                  && s'.rings[|s.rings|].contents == [] && s'.rings[|s.rings|].capacity == count * s.m.backlog
                  && s'.m == s.m.(workerCount := count) && s'.phase == s.phase && s'.arriving == s.arriving)
  {
    RunLists(trace, steps, n);
    assert Next(trace[n], steps[n], trace[n + 1]);
  }

  /** The capacity of the current ring is the worker count times the backlog. */
  lemma {:induction false} RunCapacity(trace: seq<State>, steps: seq<Step>, n: nat)
    requires IsRun(trace, steps) && n <= |steps|
    ensures |trace[n].rings| > 0 && trace[n].m.backlog == trace[0].m.backlog
    ensures trace[n].rings[Current(trace[n])].capacity == trace[n].m.workerCount * trace[0].m.backlog
  {
    if n > 0 {
      RunCapacity(trace, steps, n - 1);
      RunLists(trace, steps, n - 1);
      assert Next(trace[n - 1], steps[n - 1], trace[n]);
      StepCapacity(trace[n - 1], steps[n - 1]);
    }
  }

  lemma StepCapacity(s: State, step: Step)
    requires Shape(s) && Enabled(s, step) && s.rings[Current(s)].capacity == s.m.workerCount * s.m.backlog
    ensures var s' := Apply(s, step);
            |s'.rings| > 0 && s'.m.backlog == s.m.backlog
            && s'.rings[Current(s')].capacity == s'.m.workerCount * s'.m.backlog
  {
  }

  // ------------------------------------------------------------ rings that show it

  /** A ring object in the state that the protocol says. */
  ghost predicate Shows(q: Ring<TaskId>, r: RingView)
    reads q, q.buffer
  {
    q.Valid() && q.Contents() == r.contents && q.CapacitySpec() == r.capacity
  }

  /** The push step of the protocol is Ring.Push on the ring that the caller read. */
  method PushOn(q: Ring<TaskId>, t: TaskId, ghost s: State) returns (ok: bool)
    requires Shape(s) && Names(s) && t in s.arriving && Shows(q, s.rings[s.arriving[t]])
    modifies q, q.buffer
    ensures Shows(q, DoPush(s, t).rings[s.arriving[t]])
    ensures ok <==> t in DoPush(s, t).accepted
    ensures !ok <==> t in DoPush(s, t).rejected
  {
    ok := q.Push(t);
  }

  /** The pop step is Ring.Pop on the ring that the worker read. */
  method PopOn(q: Ring<TaskId>, w: WorkerId, ghost s: State) returns (req: Option<TaskId>)
    requires Shape(s) && w in s.phase && s.phase[w].Polling? && Shows(q, s.rings[s.phase[w].ring])
    modifies q, q.buffer
    ensures Shows(q, DoPop(s, w).rings[s.phase[w].ring])
    ensures DoPop(s, w).phase[w] == if req.Some? then Popped(req.value) else Leaving
  {
    req := q.Pop();
  }

  /** The ring that an update installs is a new Ring of that size. */
  method UpdateOn(count: int, ghost s: State, backlog: int) returns (q: Ring<TaskId>)
    requires Shape(s) && backlog == s.m.backlog && Queue(s) == [] && count * backlog >= -1
    ensures |DoUpdate(s, count).rings| == |s.rings| + 1 && Shows(q, DoUpdate(s, count).rings[|s.rings|])
  {
    q := new Ring<TaskId>(count * backlog);
  }
}
