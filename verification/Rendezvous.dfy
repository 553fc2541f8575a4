/**
 The handler/waiter rendezvous of pkg/appsrv/response.go. The handler goroutine hands each Write,
 WriteHeader and Flush to the goroutine in `wait` over an unbuffered channel and waits for its answer;
 `wait` may time out between two operations, after which its caller closes the channels, unless the detach
 in it panics and unwinds the caller too.
 */
module Rendezvous {

  datatype Op = Write(bytes: seq<int>) | WriteHeader(status: int) | Flush

  /** What the backend answered; only Write has more than an acknowledgement. */
  datatype Reply = Reply(count: int, failed: bool)

  /** How a call of the handler ended. */
  datatype Outcome = Acked(reply: Reply) | StreamClosed | SendPanicked

  datatype HandlerPhase = Idle | Sending(op: Op) | AwaitAck | Done

  datatype WaiterPhase = Selecting | Serving(op: Op) | Acking(reply: Reply) | Returned(timedOut: bool) | Unwound

  /** A call on the backend: a handler operation, or the flush that wait adds after a streamed chunk. */
  datatype BackendCall = FromHandler(op: Op) | AutoFlush

  /**
   `issued` lists the operations the handler has called, in program order, and `outcomes` how the calls that
   have returned ended. `log` lists the operations performed on the backend, `replies` its answers to them
   and `auto` whether wait flushed after them; `calls` is everything the backend saw. `flusher` says
   whether the backend can flush at all.
   */
  datatype State = State(
    issued: seq<Op>, outcomes: seq<Outcome>, handler: HandlerPhase,
    waiter: WaiterPhase, closed: bool, flusher: bool,
    log: seq<Op>, replies: seq<Reply>, auto: seq<bool>, calls: seq<BackendCall>)

  datatype Step =
    | Call(op: Op)                              // the handler calls Write, WriteHeader or Flush
    | Meet                                      // the waiter receives the operation
    | Serve(reply: Reply, eventStream: bool)    // the waiter performs it on the backend
    | Ack                                       // the waiter answers
    | Finish                                    // the handler's run ends in closeChannels
    | Timeout(detachPanics: bool)               // the waiter picks ctx.Done and detaches its worker
    | SeeClosed                                 // the waiter picks a closed channel
    | CallerClose                               // closeChannels after wait has returned
    | SendPanic                                 // a blocked send finds its channel closed
    | ZeroAck                                   // a blocked receive finds its channel closed
    | AckPanic                                  // the answer finds its channel closed

  function Initial(flusher: bool): State
  {
    State([], [], Idle, Selecting, false, flusher, [], [], [], [])
  }

  predicate Enabled(s: State, step: Step)
  {
    match step
    case Call(_) => s.handler.Idle?
    case Meet => s.handler.Sending? && s.waiter.Selecting? && !s.closed
    case Serve(_, _) => s.waiter.Serving?
    case Ack => s.waiter.Acking? && s.handler.AwaitAck? && !s.closed
    case Finish => s.handler.Idle?
    case Timeout(_) => s.waiter.Selecting?
    case SeeClosed => s.waiter.Selecting? && s.closed
    case CallerClose => s.waiter.Returned?
    case SendPanic => s.handler.Sending? && s.closed
    case ZeroAck => s.handler.AwaitAck? && s.closed
    case AckPanic => s.waiter.Acking? && s.closed
  }

  /** What one operation makes the backend see: a flush, asked for or added, only if it can flush. */
  function Rendered(op: Op, auto: bool, flusher: bool): seq<BackendCall>
  {
    (if op.Flush? && !flusher then [] else [FromHandler(op)]) + if auto && flusher then [AutoFlush] else []
  }

  function Apply(s: State, step: Step): State
    requires Enabled(s, step)
  {
    match step
    case Call(op) =>
      var s1 := s.(issued := s.issued + [op]);
      if s.closed then s1.(outcomes := s.outcomes + [StreamClosed]) else s1.(handler := Sending(op))
    case Meet => s.(handler := AwaitAck, waiter := Serving(s.handler.op))
    case Serve(reply, eventStream) =>
      var auto := s.waiter.op.Write? && !reply.failed && eventStream;
      s.(log := s.log + [s.waiter.op], replies := s.replies + [reply], auto := s.auto + [auto],
         calls := s.calls + Rendered(s.waiter.op, auto, s.flusher), waiter := Acking(reply))
    case Ack => s.(outcomes := s.outcomes + [Acked(s.waiter.reply)], handler := Idle, waiter := Selecting)
    case Finish => s.(handler := Done, closed := true)
    case Timeout(detachPanics) => s.(waiter := if detachPanics then Unwound else Returned(true))
    case SeeClosed => s.(waiter := Returned(false))
    case CallerClose => s.(closed := true)
    case SendPanic => s.(outcomes := s.outcomes + [SendPanicked], handler := Idle)
    case ZeroAck => s.(outcomes := s.outcomes + [Acked(Reply(0, false))], handler := Idle)
    case AckPanic => s
  }

  ghost predicate IsRun(trace: seq<State>, steps: seq<Step>)
  {
    && |trace| == |steps| + 1 && (exists flusher :: trace[0] == Initial(flusher))
    && (forall i :: 0 <= i < |steps| ==> Enabled(trace[i], steps[i]) && trace[i + 1] == Apply(trace[i], steps[i]))
  }

  /** Everything the backend saw, recomputed from the operations. */
  function AllRendered(log: seq<Op>, auto: seq<bool>, flusher: bool): seq<BackendCall>
    requires |log| == |auto|
  {
    if log == [] then []
    else AllRendered(log[..|log| - 1], auto[..|log| - 1], flusher) + Rendered(log[|log| - 1], auto[|log| - 1], flusher)
  }

  /** Number of acknowledged calls: they come first. */
  function Acks(outcomes: seq<Outcome>): nat
  {
    if outcomes == [] then 0
    else Acks(outcomes[..|outcomes| - 1]) + if outcomes[|outcomes| - 1].Acked? then 1 else 0
  }

  /** The calls acknowledged so far are the first ones, and each got the backend's answer to its own operation. */
  ghost predicate Answered(s: State)
  {
    && Acks(s.outcomes) <= |s.outcomes| && Acks(s.outcomes) <= |s.replies|
    && (forall i :: 0 <= i < |s.outcomes| ==>
        if i < Acks(s.outcomes) then s.outcomes[i] == Acked(s.replies[i]) else !s.outcomes[i].Acked?)
  }

  /** The log is a prefix of the program and at most one operation ahead of the acknowledgements. */
  ghost predicate Ordered(s: State)
  {
    && s.log <= s.issued && |s.log| == |s.replies| == |s.auto|
    && Acks(s.outcomes) <= |s.log| <= Acks(s.outcomes) + 1
    && (|s.log| == Acks(s.outcomes) + 1 <==> s.waiter.Acking?)
    && s.calls == AllRendered(s.log, s.auto, s.flusher)
  }

  /** How the two goroutines stand to each other. */
  ghost predicate Paired(s: State)
  {
    && (s.handler.Sending? || s.handler.AwaitAck? <==> |s.issued| == |s.outcomes| + 1)
    && (s.handler.Idle? || s.handler.Done? <==> |s.issued| == |s.outcomes|)
    && (s.handler.AwaitAck? <==> s.waiter.Serving? || s.waiter.Acking?)
    && (s.handler.AwaitAck? ==> !s.closed && |s.issued| == Acks(s.outcomes) + 1)
    && (s.handler.Sending? ==> s.issued != [] && s.handler.op == s.issued[|s.issued| - 1])
    && (s.waiter.Serving? ==> s.issued != [] && s.waiter.op == s.issued[|s.issued| - 1])
    && (s.waiter.Acking? ==> s.replies != [] && s.waiter.reply == s.replies[|s.replies| - 1])
    && (s.handler.Done? ==> s.closed)
    && (!s.closed ==> |s.outcomes| == Acks(s.outcomes))
    && (s.closed ==> s.waiter == Returned(true) || (s.handler.Done? && |s.issued| == Acks(s.outcomes)))
    && (s.waiter == Returned(false) ==> s.closed)
  }

  ghost predicate Inv(s: State)
  {
    Answered(s) && Ordered(s) && Paired(s)
  }

  lemma AcksAppend(outcomes: seq<Outcome>, o: Outcome)
    ensures Acks(outcomes + [o]) == Acks(outcomes) + if o.Acked? then 1 else 0
  {
    assert (outcomes + [o])[..|outcomes|] == outcomes;
  }

  lemma RenderAppend(log: seq<Op>, auto: seq<bool>, op: Op, a: bool, flusher: bool)
    requires |log| == |auto|
    ensures AllRendered(log + [op], auto + [a], flusher) == AllRendered(log, auto, flusher) + Rendered(op, a, flusher)
  {
    assert (log + [op])[..|log|] == log && (auto + [a])[..|log|] == auto;
  }

  /** What a step does to the list of outcomes. */
  lemma StepAcks(s: State, step: Step)
    requires Inv(s) && Enabled(s, step)
    ensures Acks(Apply(s, step).outcomes) == Acks(s.outcomes) + if step.Ack? then 1 else 0
    ensures !step.ZeroAck? && !step.AckPanic?
  {
    AcksAppend(s.outcomes, StreamClosed);
    AcksAppend(s.outcomes, SendPanicked);
    if step.Ack? {
      AcksAppend(s.outcomes, Acked(s.waiter.reply));
    }
  }

  lemma SameOutcomes(s: State, s': State)
    requires Answered(s) && s'.outcomes == s.outcomes && s.replies <= s'.replies
    ensures Answered(s')
  {
  }

  /** One more outcome; an acknowledgement comes after acknowledgements only, with the reply that is next. */
  lemma OneMore(s: State, s': State, o: Outcome)
    requires Answered(s) && s'.outcomes == s.outcomes + [o] && s'.replies == s.replies
    requires o.Acked? ==> Acks(s.outcomes) == |s.outcomes| < |s.replies| && o.reply == s.replies[|s.outcomes|]
    ensures Answered(s')
  {
    AcksAppend(s.outcomes, o);
  }

  lemma AckAnswered(s: State)
    requires Inv(s) && Enabled(s, Ack)
    ensures Answered(Apply(s, Ack))
  {
    OneMore(s, Apply(s, Ack), Acked(s.waiter.reply));
  }

  lemma FailAnswered(s: State, step: Step)
    requires Answered(s) && Enabled(s, step) && (step.SendPanic? || step.Call?)
    ensures Answered(Apply(s, step))
  {
    if step.SendPanic? {
      OneMore(s, Apply(s, step), SendPanicked);
    } else if s.closed {
      OneMore(s, Apply(s, step), StreamClosed);
    } else {
      SameOutcomes(s, Apply(s, step));
    }
  }

  lemma StepAnswered(s: State, step: Step)
    requires Inv(s) && Enabled(s, step)
    ensures Answered(Apply(s, step))
  {
    if step.Ack? {
      AckAnswered(s);
    } else if step.SendPanic? || step.Call? {
      FailAnswered(s, step);
    } else {
      StepAcks(s, step);
      SameOutcomes(s, Apply(s, step));
    }
  }

  /** Performing an operation on the backend appends the one the handler waits for. */
  lemma ServeOrdered(s: State, reply: Reply, eventStream: bool)
    requires Inv(s) && s.waiter.Serving?
    ensures Ordered(Apply(s, Serve(reply, eventStream)))
  {
    var auto := s.waiter.op.Write? && !reply.failed && eventStream;
    RenderAppend(s.log, s.auto, s.waiter.op, auto, s.flusher);
    assert s.log + [s.waiter.op] == s.issued;
  }

  lemma StepOrdered(s: State, step: Step)
    requires Inv(s) && Enabled(s, step)
    ensures Ordered(Apply(s, step))
  {
    StepAcks(s, step);
    if step.Serve? {
      ServeOrdered(s, step.reply, step.eventStream);
    } else {
      var s' := Apply(s, step);
      assert s'.log == s.log && s'.auto == s.auto && s'.flusher == s.flusher && s'.calls == s.calls;
      assert s.issued <= s'.issued;
    }
  }

  lemma StepPaired(s: State, step: Step)
    requires Inv(s) && Enabled(s, step)
    ensures Paired(Apply(s, step))
  {
    StepAcks(s, step);
  }

  lemma StepInv(s: State, step: Step)
    requires Inv(s) && Enabled(s, step)
    ensures Inv(Apply(s, step))
    ensures !step.ZeroAck? && !step.AckPanic?
  {
    StepAcks(s, step);
    StepAnswered(s, step);
    StepOrdered(s, step);
    StepPaired(s, step);
  }

  /**
   Main result, over every run: the backend log is a prefix of what the handler called, in program order and at
   most one operation ahead of what it was told is done; every acknowledged call got the backend's answer to its
   own operation; no answer is ever sent or awaited on a closed channel; and a wait that returns without timing
   out has performed and acknowledged the whole program.
   */
  lemma {:induction false} RunOrdered(trace: seq<State>, steps: seq<Step>, n: nat)
    requires IsRun(trace, steps) && n <= |steps|
    ensures Inv(trace[n])
    ensures forall i :: 0 <= i < n ==> !steps[i].ZeroAck? && !steps[i].AckPanic?
    ensures trace[n].waiter == Returned(false) ==>
              trace[n].handler.Done? && trace[n].log == trace[n].issued && Acks(trace[n].outcomes) == |trace[n].issued|
  {
    if n > 0 {
      RunOrdered(trace, steps, n - 1);
      StepInv(trace[n - 1], steps[n - 1]);
    }
  }

  /** Once wait has returned or been unwound, the backend sees nothing more of the handler. */
  lemma {:induction false} SilentAfterReturn(trace: seq<State>, steps: seq<Step>, i: nat, n: nat)
    requires IsRun(trace, steps) && i <= n <= |steps| && (trace[i].waiter.Returned? || trace[i].waiter.Unwound?)
    ensures trace[n].waiter == trace[i].waiter && trace[n].log == trace[i].log && trace[n].calls == trace[i].calls
    decreases n
  {
    if i < n {
      SilentAfterReturn(trace, steps, i, n - 1);
      RunOrdered(trace, steps, n - 1);
      StepInv(trace[n - 1], steps[n - 1]);
    }
  }

  /** A step that lets a blocked handler go on, now or once the waiter has answered or the channels are closed. */
  predicate Unblocks(step: Step)
  {
    step.Meet? || step.Serve? || step.Ack? || step.CallerClose? || step.SendPanic?
  }

  /**
   A blocked handler can move on exactly when the waiter was not unwound: then it is served, or wait has timed out and
   its caller closes the channels under it. A finished handler is always noticed.
   */
  lemma NoDeadlock(trace: seq<State>, steps: seq<Step>, n: nat)
    requires IsRun(trace, steps) && n <= |steps|
    ensures var s := trace[n];
            && (s.handler.Sending? || s.handler.AwaitAck? ==>
                  ((exists step :: Unblocks(step) && Enabled(s, step)) <==> !s.waiter.Unwound?))
            && (s.handler.Done? && s.waiter.Selecting? ==> Enabled(s, SeeClosed))
            && (s.handler.AwaitAck? ==> s.waiter.Serving? || Enabled(s, Ack))
  {
    var s := trace[n];
    RunOrdered(trace, steps, n);
    assert s.waiter.Serving? ==> Enabled(s, Serve(Reply(0, false), false));
    assert s.handler.Sending? && s.waiter.Selecting? && !s.closed ==> Enabled(s, Meet);
    assert s.waiter.Returned? ==> Enabled(s, CallerClose);
    assert s.handler.AwaitAck? && s.waiter.Acking? ==> Enabled(s, Ack);
  }

  /** After a panic in the detach, a handler that is sending is blocked for ever: nothing can happen any more. */
  lemma StuckForever(trace: seq<State>, steps: seq<Step>, n: nat)
    requires IsRun(trace, steps) && n <= |steps| && trace[n].waiter.Unwound? && trace[n].handler.Sending?
    ensures n == |steps| && forall step :: !Enabled(trace[n], step)
  {
    RunOrdered(trace, steps, n);
    assert !trace[n].closed;
  }

  /** It happens to any operation: the handler is sending it, the waiter picks its timeout and the detach panics. */
  lemma StuckHappens(op: Op, detachPanics: bool) returns (trace: seq<State>, steps: seq<Step>)
    ensures IsRun(trace, steps) && |steps| > 0 && steps[|steps| - 1] == Timeout(detachPanics)
    ensures trace[|steps|].handler == Sending(op) && (trace[|steps|].waiter.Unwound? <==> detachPanics)
  {
    var s0 := Initial(true);
    var s1 := Apply(s0, Call(op));
    trace, steps := [s0, s1, Apply(s1, Timeout(detachPanics))], [Call(op), Timeout(detachPanics)];
  }
}
