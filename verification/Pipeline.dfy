/** send() and shutdown() from any thread, through the functor queue, to the kernel: the event
    loop and a connection on it, stepping together. */
module Pipeline {
  import opened Bytes
  import opened Reactor
  import Buffers
  import Connection

  /** A queued functor of the connection: sendInLoop with its bytes, or shutdownInLoop. */
  datatype Job = SendJob(data: seq<byte>) | ShutdownJob

  type Jobs = seq<Task<Job>>

  /** The call of shutdown() that has found the connection open: its thread, what that thread
      had queued before, and whether the functor that follows has been queued. */
  datatype Call = Call(thread: nat, before: seq<Job>, queued: bool)

  /** `reached` records the calls of sendInLoop and shutdownInLoop in order. */
  datatype World = World(loop: Loop<Job>, conn: Connection.Conn, reached: Jobs, call: Option<Call>)

  datatype Action =
    | LoopStep(step: Step<Job>)                                    // anything but running a functor
    | RunJob(answer: Connection.SendAnswer)                        // the next functor of the batch
    | SendDirectly(data: seq<byte>, answer: Connection.SendAnswer) // send() on the loop thread
    | CallShutdown(thread: nat)                                    // shutdown() on any thread
    | ConnStep(cstep: Connection.Step)                             // the write handler, the close

  /** shutdown() sets the state and then queues its functor, doing nothing else in between. */
  predicate MayPush(w: World, thread: nat, job: Job) {
    && thread != LOOP_THREAD
    && (if w.call.Some? && w.call.value.thread == thread && !w.call.value.queued then job == ShutdownJob else job.SendJob?)
  }

  /** What the connection does when the job runs. */
  function Effect(job: Job, answer: Connection.SendAnswer): Connection.Step {
    match job
    case SendJob(data) => Connection.Send(data, answer)
    case ShutdownJob => Connection.ShutdownInLoop
  }

  predicate Enabled(w: World, a: Action) {
    match a
    case LoopStep(step) => step != RunOne && Reactor.Enabled(w.loop, step) && (step.Push? ==> MayPush(w, step.thread, step.functor))
    case RunJob(answer) => Reactor.Enabled(w.loop, RunOne) && Connection.Enabled(w.conn, Effect(w.loop.batch[0].functor, answer))
    case SendDirectly(data, answer) => InUserCode(w.loop.pc) && Connection.Enabled(w.conn, Connection.Send(data, answer))
    case CallShutdown(t) =>
      Connection.Enabled(w.conn, Connection.Shutdown) && t !in w.loop.owing && (t == LOOP_THREAD ==> InUserCode(w.loop.pc))
    case ConnStep(cstep) => (cstep.Writable? || cstep.Close?) && Connection.Enabled(w.conn, cstep)
  }

  function Queued(call: Option<Call>, step: Step<Job>): Option<Call> {
    if step.Push? && step.functor == ShutdownJob && call.Some? then Some(call.value.(queued := true)) else call
  }

  function Next(w: World, a: Action): World
    requires Enabled(w, a)
  {
    match a
    case LoopStep(step) => w.(loop := Reactor.Next(w.loop, step), call := Queued(w.call, step))
    case RunJob(answer) =>
      var task := w.loop.batch[0];
      w.(loop := Reactor.Next(w.loop, RunOne), conn := Connection.Next(w.conn, Effect(task.functor, answer)),
         reached := w.reached + [task])
    case SendDirectly(data, answer) =>
      w.(conn := Connection.Next(w.conn, Connection.Send(data, answer)), reached := w.reached + [Task(LOOP_THREAD, SendJob(data))])
    case CallShutdown(t) =>
      var c := Connection.Next(w.conn, Connection.Shutdown);
      w.(conn := if t == LOOP_THREAD then Connection.Next(c, Connection.ShutdownInLoop) else c,
         call := Some(Call(t, Of(w.loop.pushed, t), t == LOOP_THREAD)))
    case ConnStep(cstep) => w.(conn := Connection.Next(w.conn, cstep))
  }

  /** The action neither loses bytes nor closes the connection. */
  predicate Quiet(w: World, a: Action)
    requires Enabled(w, a)
  {
    match a
    case LoopStep(_) => true
    case RunJob(answer) => !Connection.Loses(w.conn, Effect(w.loop.batch[0].functor, answer))
    case SendDirectly(data, answer) => !Connection.Loses(w.conn, Connection.Send(data, answer))
    case CallShutdown(_) => true
    case ConnStep(cstep) => cstep != Connection.Close && !Connection.Loses(w.conn, cstep)
  }

  function Data(job: Job): seq<byte> {
    if job.SendJob? then job.data else []
  }

  function Payload(tasks: Jobs): seq<byte> {
    if tasks == [] then [] else Data(tasks[0].functor) + Payload(tasks[1..])
  }

  lemma {:induction false} PayloadAppend(a: Jobs, b: Jobs)
    ensures Payload(a + b) == Payload(a) + Payload(b)
  {
    if a == [] {
      assert a + b == b;
    } else {
      assert (a + b)[0] == a[0] && (a + b)[1..] == a[1..] + b;
      PayloadAppend(a[1..], b);
      AppendAssoc(Data(a[0].functor), Payload(a[1..]), Payload(b));
    }
  }

  lemma {:induction false} PayloadSnoc(a: Jobs, t: Task<Job>)
    ensures Payload(a + [t]) == Payload(a) + Data(t.functor)
  {
    PayloadAppend(a, [t]);
    assert Payload([t][1..]) == [] && Data(t.functor) + [] == Data(t.functor);
  }

  /** What other threads have queued has run in order; the loop thread's own sends come between. */
  function Foreign(tasks: Jobs): Jobs {
    if tasks == [] then []
    else (if tasks[0].thread != LOOP_THREAD then [tasks[0]] else []) + Foreign(tasks[1..])
  }

  lemma {:induction false} ForeignAppend(a: Jobs, b: Jobs)
    ensures Foreign(a + b) == Foreign(a) + Foreign(b)
  {
    if a == [] {
      assert a + b == b;
    } else {
      assert (a + b)[0] == a[0] && (a + b)[1..] == a[1..] + b;
      ForeignAppend(a[1..], b);
      AppendAssoc(if a[0].thread != LOOP_THREAD then [a[0]] else [], Foreign(a[1..]), Foreign(b));
    }
  }

  lemma {:induction false} ForeignOf(tasks: Jobs, thread: nat)
    requires thread != LOOP_THREAD
    ensures Of(Foreign(tasks), thread) == Of(tasks, thread)
  {
    if tasks != [] {
      var head := if tasks[0].thread != LOOP_THREAD then [tasks[0]] else [];
      OfPrefix(head, Foreign(tasks[1..]), thread);
      ForeignOf(tasks[1..], thread);
      assert head != [] ==> head[1..] == [];
    }
  }

  // ---- the invariant --------------------------------------------------------

  /** The functor of shutdown() has been queued at most once, by the thread that called it, and
      behind everything that thread had queued before. */
  predicate OneShutdown(pushed: Jobs, call: Option<Call>) {
    && (forall i :: 0 <= i < |pushed| && pushed[i].functor == ShutdownJob ==>
          call.Some? && call.value.queued && pushed[i].thread == call.value.thread)
    && (call.Some? && call.value.thread != LOOP_THREAD ==> Behind(Of(pushed, call.value.thread), call.value))
  }

  predicate Behind(jobs: seq<Job>, call: Call) {
    && |call.before| + (if call.queued then 1 else 0) <= |jobs|
    && jobs[..|call.before|] == call.before
    && (!call.queued ==> |jobs| == |call.before|)
    && forall i :: 0 <= i < |jobs| ==> (jobs[i] == ShutdownJob <==> call.queued && i == |call.before|)
  }

  predicate Linked(w: World) {
    && w.conn.given == Payload(w.reached)
    && Foreign(w.reached) == Foreign(w.loop.executed)
  }

  predicate Inv(w: World) {
    && Reactor.Inv(w.loop)
    && Connection.Inv(w.conn)
    && Linked(w)
    && (w.call.None? <==> w.conn.state == Connection.Connected)
    && OneShutdown(w.loop.pushed, w.call)
  }

  predicate Init(w: World) {
    Reactor.Init(w.loop) && w.conn == Connection.ESTABLISHED && w.reached == [] && w.call == None
  }

  lemma {:induction false} GivenGrows(c: Connection.Conn, step: Connection.Step)
    requires Connection.Inv(c) && Connection.Enabled(c, step)
    ensures Connection.Next(c, step).given == if step.Send? then c.given + step.data else c.given
  {
  }

  lemma {:induction false} OfOne<F>(t: Task<F>, thread: nat)
    ensures Of([t], thread) == if t.thread == thread then [t.functor] else []
  {
    assert [t][1..] == [];
  }

  lemma {:induction false} OfSnoc<F>(tasks: seq<Task<F>>, t: Task<F>, thread: nat)
    ensures Of(tasks + [t], thread) == if t.thread == thread then Of(tasks, thread) + [t.functor] else Of(tasks, thread)
  {
    OfPrefix(tasks, [t], thread);
    OfOne(t, thread);
    assert Of(tasks, thread) + [] == Of(tasks, thread);
  }

  lemma {:induction false} ShutdownInOf(tasks: Jobs, thread: nat)
    requires forall i :: 0 <= i < |tasks| ==> tasks[i].functor != ShutdownJob
    ensures forall i :: 0 <= i < |Of(tasks, thread)| ==> Of(tasks, thread)[i] != ShutdownJob
  {
    if tasks != [] {
      ShutdownInOf(tasks[1..], thread);
    }
  }

  lemma {:induction false} PushKeepsOne(w: World, thread: nat, job: Job)
    requires OneShutdown(w.loop.pushed, w.call) && MayPush(w, thread, job)
    ensures OneShutdown(w.loop.pushed + [Task(thread, job)], Queued(w.call, Push(thread, job)))
  {
    if w.call.Some? {
      OfSnoc(w.loop.pushed, Task(thread, job), w.call.value.thread);
    }
  }

  lemma {:induction false} CallKeepsOne(w: World, thread: nat)
    requires OneShutdown(w.loop.pushed, w.call) && w.call.None?
    ensures OneShutdown(w.loop.pushed, Some(Call(thread, Of(w.loop.pushed, thread), thread == LOOP_THREAD)))
  {
    ShutdownInOf(w.loop.pushed, thread);
  }

  lemma {:induction false} LoopKeepsInv(w: World, step: Step<Job>)
    requires Inv(w) && Enabled(w, LoopStep(step))
    ensures Inv(Next(w, LoopStep(step)))
  {
    Reactor.StepKeepsInv(w.loop, step);
    if step.Push? {
      PushKeepsOne(w, step.thread, step.functor);
    }
  }

  lemma {:induction false} ReachedGrows(w: World, task: Task<Job>, step: Connection.Step)
    requires Linked(w) && Connection.Inv(w.conn) && Connection.Enabled(w.conn, step)
    requires Data(task.functor) == (if step.Send? then step.data else [])
    ensures Connection.Next(w.conn, step).given == Payload(w.reached + [task])
    ensures Foreign(w.reached + [task]) == Foreign(w.reached) + Foreign([task])
  {
    GivenGrows(w.conn, step);
    PayloadSnoc(w.reached, task);
    ForeignAppend(w.reached, [task]);
    assert w.conn.given + [] == w.conn.given;
  }

  lemma {:induction false} RunKeepsLink(w: World, answer: Connection.SendAnswer)
    requires Reactor.Inv(w.loop) && Connection.Inv(w.conn) && Linked(w) && Enabled(w, RunJob(answer))
    ensures Linked(Next(w, RunJob(answer)))
  {
    var task := w.loop.batch[0];
    ReachedGrows(w, task, Effect(task.functor, answer));
    ForeignAppend(w.loop.executed, [task]);
  }

  lemma {:induction false} JobKeepsInv(w: World, answer: Connection.SendAnswer)
    requires Inv(w) && Enabled(w, RunJob(answer)) && Quiet(w, RunJob(answer))
    ensures Inv(Next(w, RunJob(answer)))
  {
    RunKeepsLink(w, answer);
    Reactor.StepKeepsInv(w.loop, RunOne);
    Connection.StepKeepsInv(w.conn, Effect(w.loop.batch[0].functor, answer));
  }

  lemma {:induction false} DirectKeepsInv(w: World, data: seq<byte>, answer: Connection.SendAnswer)
    requires Inv(w) && Enabled(w, SendDirectly(data, answer)) && Quiet(w, SendDirectly(data, answer))
    ensures Inv(Next(w, SendDirectly(data, answer)))
  {
    var task := Task(LOOP_THREAD, SendJob(data));
    Connection.StepKeepsInv(w.conn, Connection.Send(data, answer));
    ReachedGrows(w, task, Connection.Send(data, answer));
    assert Foreign([task]) == [] by { assert [task][1..] == []; }
    assert Foreign(w.reached) + [] == Foreign(w.reached);
  }

  lemma {:induction false} ShutdownKeepsInv(w: World, thread: nat)
    requires Inv(w) && Enabled(w, CallShutdown(thread))
    ensures Inv(Next(w, CallShutdown(thread)))
  {
    var c := Connection.Next(w.conn, Connection.Shutdown);
    Connection.StepKeepsInv(w.conn, Connection.Shutdown);
    if thread == LOOP_THREAD {
      Connection.StepKeepsInv(c, Connection.ShutdownInLoop);
    }
    CallKeepsOne(w, thread);
  }

  lemma {:induction false} StepKeepsInv(w: World, a: Action)
    requires Inv(w) && Enabled(w, a) && Quiet(w, a)
    ensures Inv(Next(w, a))
  {
    match a
    case LoopStep(step) => LoopKeepsInv(w, step);
    case RunJob(answer) => JobKeepsInv(w, answer);
    case SendDirectly(data, answer) => DirectKeepsInv(w, data, answer);
    case CallShutdown(t) => ShutdownKeepsInv(w, t);
    case ConnStep(cstep) =>
      Connection.StepKeepsInv(w.conn, cstep);
      GivenGrows(w.conn, cstep);
  }

  // ---- runs -----------------------------------------------------------------

  predicate Run(w: World, actions: seq<Action>)
    decreases |actions|
  {
    actions == [] || (Enabled(w, actions[0]) && Quiet(w, actions[0]) && Run(Next(w, actions[0]), actions[1..]))
  }

  function After(w: World, actions: seq<Action>): World
    requires Run(w, actions)
    decreases |actions|
  {
    if actions == [] then w else After(Next(w, actions[0]), actions[1..])
  }

  lemma {:induction false} RunKeepsInv(w: World, actions: seq<Action>)
    requires Inv(w) && Run(w, actions)
    ensures Inv(After(w, actions))
    decreases |actions|
  {
    if actions != [] {
      StepKeepsInv(w, actions[0]);
      RunKeepsInv(Next(w, actions[0]), actions[1..]);
    }
  }

  /** What one thread has queued is what has reached the connection, then the rest of the
      batch, then the queue. */
  lemma {:induction false} OnTheWay(w: World, thread: nat)
    requires Inv(w) && thread != LOOP_THREAD
    ensures Of(w.loop.pushed, thread) == Of(w.reached, thread) + (Of(w.loop.batch, thread) + Of(w.loop.pending, thread))
  {
    ForeignOf(w.reached, thread);
    ForeignOf(w.loop.executed, thread);
    OfPrefix(w.loop.batch, w.loop.pending, thread);
    AppendAssoc(w.loop.executed, w.loop.batch, w.loop.pending);
    OfPrefix(w.loop.executed, w.loop.batch + w.loop.pending, thread);
  }

  /** End to end, in every quiet run: the bytes in the kernel followed by the output buffer are
      the bytes of the sends that have reached the loop, one after the other; and the sends of
      each other thread have reached it in the order of that thread's calls. */
  lemma {:induction false} EndToEnd(w: World, actions: seq<Action>, thread: nat)
    requires Init(w) && Run(w, actions) && thread != LOOP_THREAD
    ensures var e := After(w, actions);
      && e.conn.accepted + e.conn.output == Payload(e.reached)
      && Of(e.reached, thread) <= Of(e.loop.pushed, thread)
  {
    RunKeepsInv(w, actions);
    OnTheWay(After(w, actions), thread);
  }

  /** If nobody sends from the loop thread, nothing at all is lost on the way: kernel, output
      buffer, the rest of the batch and the queue hold exactly what was sent, in push order. */
  lemma {:induction false} NothingLost(w: World, actions: seq<Action>)
    requires Init(w) && Run(w, actions) && AllForeign(actions)
    ensures var e := After(w, actions);
      e.conn.accepted + e.conn.output + (Payload(e.loop.batch) + Payload(e.loop.pending)) == Payload(e.loop.pushed)
  {
    RunKeepsInv(w, actions);
    ReachedIsExecuted(w, actions);
    var e := After(w, actions);
    PayloadAppend(e.loop.executed, e.loop.batch);
    PayloadAppend(e.loop.executed + e.loop.batch, e.loop.pending);
    AppendAssoc(Payload(e.loop.executed), Payload(e.loop.batch), Payload(e.loop.pending));
  }

  predicate AllForeign(actions: seq<Action>) {
    actions == [] || (!actions[0].SendDirectly? && AllForeign(actions[1..]))
  }

  lemma {:induction false} ReachedIsExecuted(w: World, actions: seq<Action>)
    requires Run(w, actions) && AllForeign(actions) && w.reached == w.loop.executed
    ensures After(w, actions).reached == After(w, actions).loop.executed
    decreases |actions|
  {
    if actions != [] {
      ReachedIsExecuted(Next(w, actions[0]), actions[1..]);
    }
  }

  // ---- shutdown -------------------------------------------------------------

  /** None of what the caller of shutdown() had queued before is still in batch or queue. */
  predicate AllThrough(w: World, call: Call) {
    |Of(w.loop.batch, call.thread)| + |Of(w.loop.pending, call.thread)| + |call.before| <= |Of(w.loop.pushed, call.thread)|
  }

  /** SHUT_WR goes out with this action. */
  predicate IssuesFin(w: World, a: Action)
    requires Enabled(w, a)
  {
    w.conn.fin.None? && Next(w, a).conn.fin.Some?
  }

  /** When SHUT_WR goes out, all that has reached the connection is in the kernel. */
  lemma {:induction false} FinIsDrained(w: World, a: Action)
    requires Inv(w) && Enabled(w, a) && Quiet(w, a) && IssuesFin(w, a)
    ensures Next(w, a).conn.accepted == Payload(Next(w, a).reached)
  {
    assert Next(w, a).conn.given == Payload(Next(w, a).reached) by { StepKeepsInv(w, a); }
    FinStepDrains(w.conn, w, a);
  }

  lemma {:induction false} FinStepDrains(c: Connection.Conn, w: World, a: Action)
    requires w.conn == c && Connection.Inv(c) && Enabled(w, a) && Quiet(w, a) && IssuesFin(w, a)
    ensures Next(w, a).conn.accepted == Next(w, a).conn.given
  {
    match a
    case RunJob(answer) => Connection.FinAfterAll(c, Effect(w.loop.batch[0].functor, answer));
    case SendDirectly(data, answer) => Connection.FinAfterAll(c, Connection.Send(data, answer));
    case CallShutdown(t) =>
      Connection.StepKeepsInv(c, Connection.Shutdown);
      Connection.FinAfterAll(Connection.Next(c, Connection.Shutdown), Connection.ShutdownInLoop);
    case ConnStep(cstep) => Connection.FinAfterAll(c, cstep);
  }

  lemma {:induction false} PrefixBySize<T>(a: seq<T>, b: seq<T>, more: seq<T>, all: seq<T>)
    requires all == a + more && b <= all
    ensures b <= a <==> |b| <= |a|
  {
    if |b| <= |a| {
      assert b == all[..|b|] == (a + more)[..|b|] == a[..|b|];
    }
  }

  /** The functor of shutdown() runs behind everything its thread had queued before. */
  lemma {:induction false} FunctorComesLast(w: World, call: Call, answer: Connection.SendAnswer)
    requires Inv(w) && w.call == Some(call) && call.thread != LOOP_THREAD
    requires Enabled(w, RunJob(answer)) && w.loop.batch[0].functor == ShutdownJob
    ensures |Of(w.reached, call.thread)| == |call.before|
  {
    var t := call.thread;
    var task, rest := w.loop.batch[0], w.loop.batch[1..];
    var i := |w.loop.executed|;
    assert w.loop.pushed[i] == task;
    OnTheWay(w, t);
    assert w.loop.batch == [task] + rest;
    OfPrefix([task], rest, t);
    OfOne(task, t);
    var n := |Of(w.reached, t)|;
    assert Of(w.loop.pushed, t)[n] == (Of(w.loop.batch, t) + Of(w.loop.pending, t))[0] == ShutdownJob;
  }

  /** The bytes a thread had sent before it called shutdown() are in the kernel when SHUT_WR
      goes out, if and only if none of them was still in batch or queue at that action; and
      they all are when it is the functor of shutdown() that issues it. */
  lemma {:induction false} ShutdownBehindSends(w: World, actions: seq<Action>, a: Action, call: Call)
    requires Init(w) && Run(w, actions) && Enabled(After(w, actions), a) && Quiet(After(w, actions), a)
    requires IssuesFin(After(w, actions), a) && After(w, actions).call == Some(call) && call.thread != LOOP_THREAD
    ensures var s, e := After(w, actions), Next(After(w, actions), a);
      && e.conn.accepted == Payload(e.reached)
      && (call.before <= Of(e.reached, call.thread) <==> AllThrough(s, call))
      && (a.RunJob? ==> AllThrough(s, call))
  {
    RunKeepsInv(w, actions);
    FinIsDrained(After(w, actions), a);
    FinStep(After(w, actions), a, call);
  }

  /** Once shutdown() has been called, only its functor and the write handler issue SHUT_WR. */
  lemma {:induction false} WhoIssuesFin(s: World, a: Action)
    requires Enabled(s, a) && IssuesFin(s, a) && s.call.Some? && (s.call.None? <==> s.conn.state == Connection.Connected)
    ensures a.ConnStep? || (a.RunJob? && s.loop.batch[0].functor == ShutdownJob)
  {
  }

  lemma {:induction false} FinStep(s: World, a: Action, call: Call)
    requires Inv(s) && Enabled(s, a) && IssuesFin(s, a) && s.call == Some(call) && call.thread != LOOP_THREAD
    ensures call.before <= Of(Next(s, a).reached, call.thread) <==> AllThrough(s, call)
    ensures a.RunJob? ==> AllThrough(s, call)
  {
    var t := call.thread;
    WhoIssuesFin(s, a);
    OnTheWay(s, t);
    BeforeIsThrough(s, call);
    if a.RunJob? {
      FunctorComesLast(s, call, a.answer);
      OfSnoc(s.reached, s.loop.batch[0], t);
    }
  }

  lemma {:induction false} BeforeIsThrough(s: World, call: Call)
    requires Inv(s) && s.call == Some(call) && call.thread != LOOP_THREAD
    ensures call.before <= Of(s.reached, call.thread) <==> AllThrough(s, call)
  {
    var t := call.thread;
    OnTheWay(s, t);
    PrefixBySize(Of(s.reached, t), call.before, Of(s.loop.batch, t) + Of(s.loop.pending, t), Of(s.loop.pushed, t));
  }

  /** And they can be left behind: with output waiting, a thread sends, calls shutdown(), and
      the write handler drains the buffer before the loop gets to what the thread has sent. */
  lemma {:induction false} ShutdownOvertakes(w: World, x: byte, y: byte)
    requires Init(w)
    ensures var before := [LoopStep(PollReturns(false)), SendDirectly([x], Connection.WouldBlock),
                           LoopStep(Push(1, SendJob([y]))), LoopStep(Wakeup(1)), CallShutdown(1)];
      var last := ConnStep(Connection.Writable(Buffers.Accepted(1)));
      && Run(w, before) && Enabled(After(w, before), last) && Quiet(After(w, before), last)
      && IssuesFin(After(w, before), last)
      && Next(After(w, before), last).loop.pending == [Task(1, SendJob([y]))]
      && Next(After(w, before), last).conn.accepted == [x]
  {
    var a0, a1: Action := LoopStep(PollReturns(false)), SendDirectly([x], Connection.WouldBlock);
    var a2, a3, a4: Action := LoopStep(Push(1, SendJob([y]))), LoopStep(Wakeup(1)), CallShutdown(1);
    var w1 := Next(w, a0);
    var w2 := Next(w1, a1);
    var w3 := Next(w2, a2);
    var w4 := Next(w3, a3);
    Overtaken(w4, x);
    Alone(w4, a4);
    Cons(w3, a3, [a4]);
    Cons(w2, a2, [a3, a4]);
    Cons(w1, a1, [a2, a3, a4]);
    Cons(w, a0, [a1, a2, a3, a4]);
  }

  lemma {:induction false} Overtaken(w: World, x: byte)
    requires w.conn == Connection.ESTABLISHED.(writing := true, output := [x], given := [x]) && 1 !in w.loop.owing
    ensures var call, last := CallShutdown(1), ConnStep(Connection.Writable(Buffers.Accepted(1)));
      && Enabled(w, call) && Quiet(w, call) && Enabled(Next(w, call), last) && Quiet(Next(w, call), last)
      && IssuesFin(Next(w, call), last)
      && Next(Next(w, call), last).loop == w.loop && Next(Next(w, call), last).conn.accepted == [x]
  {
  }

  lemma {:induction false} Alone(w: World, a: Action)
    requires Enabled(w, a) && Quiet(w, a)
    ensures Run(w, [a]) && After(w, [a]) == Next(w, a)
  {
    assert [a][1..] == [];
  }

  lemma {:induction false} Cons(w: World, a: Action, actions: seq<Action>)
    requires Enabled(w, a) && Quiet(w, a) && Run(Next(w, a), actions)
    ensures Run(w, [a] + actions) && After(w, [a] + actions) == After(Next(w, a), actions)
  {
    assert ([a] + actions)[1..] == actions;
  }
}
