/**
 What the backend of a response sees over whole runs, told from the steps of the run: which calls reach it, in what
 order, and after which of them the waiter has flushed on its own; and how a blocked handler gets on.
 */
module RendezvousCalls {
  import opened Rendezvous

  // -------------------------------------------------------------- reading a run

  /** The backend's answers, in the order of the steps that got them. */
  function ServedReplies(steps: seq<Step>): seq<Reply>
  {
    if steps == [] then []
    else
      var last := steps[|steps| - 1];
      ServedReplies(steps[..|steps| - 1]) + if last.Serve? then [last.reply] else []
  }

  /** Whether the response was an event stream when each of them came. */
  function ServedStreams(steps: seq<Step>): seq<bool>
  {
    if steps == [] then []
    else
      var last := steps[|steps| - 1];
      ServedStreams(steps[..|steps| - 1]) + if last.Serve? then [last.eventStream] else []
  }

  lemma ServedMore(steps: seq<Step>, n: nat)
    requires n < |steps|
    ensures ServedReplies(steps[..n + 1]) ==
            ServedReplies(steps[..n]) + if steps[n].Serve? then [steps[n].reply] else []
    ensures ServedStreams(steps[..n + 1]) ==
            ServedStreams(steps[..n]) + if steps[n].Serve? then [steps[n].eventStream] else []
  {
    assert steps[..n + 1][..n] == steps[..n];
  }

  /** The operations that are not flushes, as calls on the backend. */
  function WithoutFlushes(log: seq<Op>): seq<BackendCall>
  {
    if log == [] then []
    else
      var last := log[|log| - 1];
      WithoutFlushes(log[..|log| - 1]) + if last.Flush? then [] else [FromHandler(last)]
  }

  // ------------------------------------------------------- what the backend sees

  /** Operation k ends at this place among the calls: where the next operation is, or at the end. */
  function End(at: seq<nat>, k: nat, calls: seq<BackendCall>): nat
  {
    if k + 1 < |at| then at[k + 1] else |calls|
  }

  /**
   Operation k is call number at[k], and a flush by the waiter comes right after it exactly if the operation was a
   write, the backend took it without an error and the response was an event stream.
   */
  ghost predicate PlacedAt(at: seq<nat>, k: nat, op: Op, reply: Reply, stream: bool, calls: seq<BackendCall>)
    requires k < |at|
  {
    && at[k] < |calls| && calls[at[k]] == FromHandler(op)
    && if op.Write? && !reply.failed && stream
       then End(at, k, calls) == at[k] + 2 && at[k] + 1 < |calls| && calls[at[k] + 1] == AutoFlush
       else End(at, k, calls) == at[k] + 1
  }

  /** Every operation is in its place, from the first call on, and there are no other calls. */
  ghost predicate Placed(at: seq<nat>, log: seq<Op>, replies: seq<Reply>, streams: seq<bool>, calls: seq<BackendCall>)
  {
    && |at| == |log| == |replies| == |streams|
    && (if at == [] then calls == [] else at[0] == 0)
    && (forall k :: 0 <= k < |at| ==> PlacedAt(at, k, log[k], replies[k], streams[k], calls))
  }

  /** An operation keeps its place when another one is put behind it. */
  lemma PlaceKept(at: seq<nat>, k: nat, op: Op, reply: Reply, stream: bool, calls: seq<BackendCall>,
      more: seq<BackendCall>)
    requires k < |at| && PlacedAt(at, k, op, reply, stream, calls)
    ensures PlacedAt(at + [|calls|], k, op, reply, stream, calls + more)
  {
    assert End(at + [|calls|], k, calls + more) == End(at, k, calls);
  }

  lemma PlaceLast(at: seq<nat>, op: Op, reply: Reply, stream: bool, calls: seq<BackendCall>)
    ensures PlacedAt(at + [|calls|], |at|, op, reply, stream,
                     calls + Rendered(op, op.Write? && !reply.failed && stream, true))
  {
  }

  lemma PlaceOne(at: seq<nat>, log: seq<Op>, replies: seq<Reply>, streams: seq<bool>, calls: seq<BackendCall>,
      op: Op, reply: Reply, stream: bool)
    requires Placed(at, log, replies, streams, calls)
    ensures Placed(at + [|calls|], log + [op], replies + [reply], streams + [stream],
                   calls + Rendered(op, op.Write? && !reply.failed && stream, true))
  {
    var more := Rendered(op, op.Write? && !reply.failed && stream, true);
    PlaceLast(at, op, reply, stream, calls);
    forall k | 0 <= k < |at|
      ensures PlacedAt(at + [|calls|], k, log[k], replies[k], streams[k], calls + more)
    {
      PlaceKept(at, k, log[k], replies[k], streams[k], calls, more);
    }
  }

  lemma WithoutMore(log: seq<Op>, op: Op, auto: bool)
    ensures WithoutFlushes(log + [op]) == WithoutFlushes(log) + Rendered(op, auto, false)
  {
    assert (log + [op])[..|log|] == log;
  }

  /** What the backend has seen, given its answers and whether the response was an event stream at each of them. */
  ghost predicate Seen(s: State, at: seq<nat>, replies: seq<Reply>, streams: seq<bool>)
  {
    && s.replies == replies && |s.log| == |replies| == |streams|
    && (if s.flusher then Placed(at, s.log, replies, streams, s.calls) else s.calls == WithoutFlushes(s.log))
  }

  lemma ServeSeen(s: State, step: Step, at: seq<nat>, replies: seq<Reply>, streams: seq<bool>)
    requires Seen(s, at, replies, streams) && step.Serve? && Enabled(s, step)
    ensures Seen(Apply(s, step), at + [|s.calls|], replies + [step.reply], streams + [step.eventStream])
  {
    if s.flusher {
      PlaceOne(at, s.log, replies, streams, s.calls, s.waiter.op, step.reply, step.eventStream);
    } else {
      WithoutMore(s.log, s.waiter.op, s.waiter.op.Write? && !step.reply.failed && step.eventStream);
    }
  }

  lemma OtherSeen(s: State, step: Step, at: seq<nat>, replies: seq<Reply>, streams: seq<bool>)
    requires Seen(s, at, replies, streams) && !step.Serve? && Enabled(s, step)
    ensures Seen(Apply(s, step), at, replies, streams)
  {
    var s' := Apply(s, step);
    assert s'.log == s.log && s'.replies == s.replies && s'.calls == s.calls && s'.flusher == s.flusher;
  }

  /**
   Main result, over every run. The backend's answers are those of the steps. A backend that can flush sees every
   operation in order, with the waiter's own flush after exactly the writes to an event stream that did not fail; one
   that cannot flush sees the operations that are not flushes, and nothing else.
   */
  lemma {:induction false} RunCalls(trace: seq<State>, steps: seq<Step>, n: nat) returns (at: seq<nat>)
    requires IsRun(trace, steps) && n <= |steps|
    ensures Seen(trace[n], at, ServedReplies(steps[..n]), ServedStreams(steps[..n]))
  {
    if n == 0 {
      at := [];
    } else {
      at := RunCalls(trace, steps, n - 1);
      ServedMore(steps, n - 1);
      var s, step := trace[n - 1], steps[n - 1];
      if step.Serve? {
        ServeSeen(s, step, at, ServedReplies(steps[..n - 1]), ServedStreams(steps[..n - 1]));
        at := at + [|s.calls|];
      } else {
        OtherSeen(s, step, at, ServedReplies(steps[..n - 1]), ServedStreams(steps[..n - 1]));
      }
    }
  }

  // -------------------------------------------------------- how the handler gets on

  /** What a blocked call comes to: the answer the backend has given or will give, or a panic on a closed channel. */
  function Ending(waiter: WaiterPhase, reply: Reply): Outcome
  {
    match waiter
    case Returned(_) => SendPanicked
    case Acking(given) => Acked(given)
    case _ => Acked(reply)
  }

  /** The steps can be taken one after another from s. */
  predicate CanTake(s: State, steps: seq<Step>)
    decreases |steps|
  {
    steps == [] || (Enabled(s, steps[0]) && CanTake(Apply(s, steps[0]), steps[1..]))
  }

  function After(s: State, steps: seq<Step>): State
    requires CanTake(s, steps)
    decreases |steps|
  {
    if steps == [] then s else After(Apply(s, steps[0]), steps[1..])
  }

  lemma TakeOne(s: State, a: Step)
    requires Enabled(s, a)
    ensures CanTake(s, [a]) && After(s, [a]) == Apply(s, a)
  {
    assert [a][1..] == [];
  }

  lemma TakeTwo(s: State, a: Step, b: Step)
    requires Enabled(s, a) && Enabled(Apply(s, a), b)
    ensures CanTake(s, [a, b]) && After(s, [a, b]) == Apply(Apply(s, a), b)
  {
    assert [a, b][1..] == [b];
    TakeOne(Apply(s, a), b);
  }

  /** The waiter receives the operation, performs it and answers. */
  lemma Served(s: State, reply: Reply, eventStream: bool)
    requires s.handler.Sending? && s.waiter.Selecting? && !s.closed
    ensures var more := [Meet, Serve(reply, eventStream), Ack];
            && CanTake(s, more) && After(s, more).handler.Idle? && After(s, more).log == s.log + [s.handler.op]
            && After(s, more).outcomes == s.outcomes + [Acked(reply)]
  {
    var s1 := Apply(s, Meet);
    TakeTwo(s1, Serve(reply, eventStream), Ack);
    assert [Meet, Serve(reply, eventStream), Ack][1..] == [Serve(reply, eventStream), Ack];
  }

  /**
   A blocked handler whose waiter was not unwound gets on within three steps of the waiter and its caller: it is served
   and told the backend's answer, or, once wait has returned, its send panics on the channel closed under it.
   */
  lemma Released(trace: seq<State>, steps: seq<Step>, n: nat, reply: Reply, eventStream: bool) returns (more: seq<Step>)
    requires IsRun(trace, steps) && n <= |steps|
    requires (trace[n].handler.Sending? || trace[n].handler.AwaitAck?) && !trace[n].waiter.Unwound?
    ensures |more| <= 3 && (forall step :: step in more ==> Unblocks(step)) && CanTake(trace[n], more)
    ensures var s, s' := trace[n], After(trace[n], more);
            s'.handler.Idle? && s'.outcomes == s.outcomes + [Ending(s.waiter, reply)]
  {
    var s := trace[n];
    RunOrdered(trace, steps, n);
    if s.handler.Sending? && s.waiter.Selecting? {
      more := [Meet, Serve(reply, eventStream), Ack];
      Served(s, reply, eventStream);
    } else if s.handler.Sending? {
      more := [CallerClose, SendPanic];
      TakeTwo(s, CallerClose, SendPanic);
    } else if s.waiter.Serving? {
      more := [Serve(reply, eventStream), Ack];
      TakeTwo(s, Serve(reply, eventStream), Ack);
    } else {
      more := [Ack];
      TakeOne(s, Ack);
    }
  }

  lemma StepWaiter(s: State, step: Step)
    requires Enabled(s, step)
    ensures var s' := Apply(s, step);
            && (s'.waiter == Returned(false) <==> s.waiter == Returned(false) || step == SeeClosed)
            && (s'.waiter == Returned(true) <==> s.waiter == Returned(true) || step == Timeout(false))
            && (s'.waiter == Unwound <==> s.waiter == Unwound || step == Timeout(true))
  {
  }

  /** How wait ends, in every run: without an error on a closed channel, with a timeout, or unwound by a panic. */
  lemma {:induction false} RunWaiter(trace: seq<State>, steps: seq<Step>, n: nat)
    requires IsRun(trace, steps) && n <= |steps|
    ensures trace[n].waiter == Returned(false) <==> SeeClosed in steps[..n]
    ensures trace[n].waiter == Returned(true) <==> Timeout(false) in steps[..n]
    ensures trace[n].waiter == Unwound <==> Timeout(true) in steps[..n]
  {
    if n > 0 {
      RunWaiter(trace, steps, n - 1);
      StepWaiter(trace[n - 1], steps[n - 1]);
      assert steps[..n] == steps[..n - 1] + [steps[n - 1]];
    }
  }

  /** Channels stay closed, and what calls have come to stays known. */
  lemma {:induction false} OutcomesStay(trace: seq<State>, steps: seq<Step>, i: nat, n: nat)
    requires IsRun(trace, steps) && i <= n <= |steps|
    ensures trace[i].outcomes <= trace[n].outcomes && (trace[i].closed ==> trace[n].closed)
    decreases n
  {
    if i < n {
      OutcomesStay(trace, steps, i, n - 1);
    }
  }

  /** Every call made after the channels were closed fails at once, for good, and never reaches the backend. */
  lemma ClosedCallsFail(trace: seq<State>, steps: seq<Step>, i: nat, m: nat, n: nat)
    requires IsRun(trace, steps) && i <= m < n <= |steps| && trace[i].closed && steps[m].Call?
    ensures trace[m + 1].handler.Idle?
    ensures |trace[m].issued| < |trace[n].outcomes| && trace[n].outcomes[|trace[m].issued|] == StreamClosed
    ensures |trace[n].log| <= |trace[m].issued|
  {
    OutcomesStay(trace, steps, i, m);
    RunOrdered(trace, steps, m);
    OutcomesStay(trace, steps, m + 1, n);
    assert trace[m + 1].outcomes[|trace[m].issued|] == StreamClosed;
    RunOrdered(trace, steps, n);
    AcksBelow(trace[n], |trace[m].issued|);
  }

  /** The backend has performed no operation whose call has failed. */
  lemma AcksBelow(s: State, k: nat)
    requires Inv(s) && k < |s.outcomes| && !s.outcomes[k].Acked?
    ensures |s.log| <= k
  {
    assert !(k < Acks(s.outcomes));
  }
}
