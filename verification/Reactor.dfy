/** The event loop and the threads that queue functors to it, as a step system: every
    interleaving of the pushes and wakeups of other threads with the loop's own steps. */
module Reactor {
  import opened Bytes

  /** The loop thread is 0. */
  const LOOP_THREAD: nat := 0
  /** The most an eventfd counter holds. */
  const COUNTER_MAX: nat := 0xFFFF_FFFF_FFFF_FFFE

  /** Where the loop is: at poll, in the handlers (`wake` when the wakeup channel is still to
      be handled), about to swap the queue out, running the swapped batch, or out of loop(). */
  datatype PC = Polling | Handling(wake: bool) | Draining | Running | Stopped

  datatype Task<F> = Task(thread: nat, functor: F)

  /** `pushed` and `executed` record history; `owing` holds the threads that have pushed (or
      asked to quit) and have still to call wakeup(). */
  datatype Loop<F> = Loop(
    pc: PC, looping: bool, calling: bool, counter: nat,
    pending: seq<Task<F>>, batch: seq<Task<F>>, owing: set<nat>,
    pushed: seq<Task<F>>, executed: seq<Task<F>>)

  datatype Step<F> =
    | Push(thread: nat, functor: F)
    | Quit(thread: nat)
    | Wakeup(thread: nat)
    | PollReturns(wake: bool)
    | ReadWakeup
    | BeginCalling
    | Swap
    | RunOne
    | EndCalling

  /** Whether the loop thread is executing user code, a handler or a functor. */
  predicate InUserCode(pc: PC) {
    pc.Handling? || pc == Running
  }

  /** A thread that owes a wakeup does nothing else first; the loop thread pushes or quits
      only from handlers and functors. The poller reports the wakeup channel only when the
      counter is positive, and may leave it for a later round. */
  predicate Enabled<F>(s: Loop<F>, step: Step<F>) {
    match step
    case Push(t, _) => t !in s.owing && (t == LOOP_THREAD ==> InUserCode(s.pc))
    case Quit(t) => t !in s.owing && (t == LOOP_THREAD ==> InUserCode(s.pc))
    case Wakeup(t) => t in s.owing
    case PollReturns(wake) => s.pc == Polling && (wake ==> s.counter > 0)
    case ReadWakeup => s.pc == Handling(true) && LOOP_THREAD !in s.owing
    case BeginCalling => s.pc == Handling(false) && LOOP_THREAD !in s.owing
    case Swap => s.pc == Draining
    case RunOne => s.pc == Running && s.batch != [] && LOOP_THREAD !in s.owing
    case EndCalling => s.pc == Running && s.batch == [] && LOOP_THREAD !in s.owing
  }

  function Next<F>(s: Loop<F>, step: Step<F>): Loop<F>
    requires Enabled(s, step)
  {
    match step
    case Push(t, f) =>
      var s' := s.(pending := s.pending + [Task(t, f)], pushed := s.pushed + [Task(t, f)]);
      if t != LOOP_THREAD || s.calling then s'.(owing := s.owing + {t}) else s'
    case Quit(t) =>
      var s' := s.(looping := false);
      if t != LOOP_THREAD then s'.(owing := s.owing + {t}) else s'
    case Wakeup(t) =>
      s.(counter := if s.counter < COUNTER_MAX then s.counter + 1 else s.counter, owing := s.owing - {t})
    case PollReturns(wake) => s.(pc := Handling(wake))
    case ReadWakeup => s.(pc := Handling(false), counter := 0)
    case BeginCalling => s.(pc := Draining, calling := true)
    case Swap => s.(pc := Running, batch := s.pending, pending := [])
    case RunOne => s.(batch := s.batch[1..], executed := s.executed + [s.batch[0]])
    case EndCalling => s.(pc := if s.looping then Polling else Stopped, calling := false)
  }

  /** loop() has just been entered. */
  predicate Init<F(==)>(s: Loop<F>) {
    && s.pc == Polling && s.looping && !s.calling && s.counter == 0
    && s.pending == [] && s.batch == [] && s.owing == {} && s.pushed == [] && s.executed == []
  }

  /** Nobody need wake the loop up: an eventfd write has been made or is about to be. */
  predicate WakeupComing<F>(s: Loop<F>) {
    s.counter > 0 || s.owing != {}
  }

  predicate Inv<F(==)>(s: Loop<F>) {
    && (s.calling <==> s.pc == Draining || s.pc == Running)
    && (s.pc != Running ==> s.batch == [])
    && (LOOP_THREAD in s.owing ==> s.pc == Running)
    && (s.pc == Polling || s.pc == Running ==> s.pending != [] ==> WakeupComing(s))
    && (s.pc == Polling ==> !s.looping ==> WakeupComing(s))
    && s.executed + s.batch + s.pending == s.pushed
    && s.counter <= COUNTER_MAX
  }

  lemma {:induction false} StepKeepsInv<F>(s: Loop<F>, step: Step<F>)
    requires Inv(s) && Enabled(s, step)
    ensures Inv(Next(s, step))
  {
    match step
    case Push(t, f) =>
      var x := [Task(t, f)];
      assert s.executed + s.batch + (s.pending + x) == s.executed + s.batch + s.pending + x;
    case Swap =>
      assert s.executed + [] + s.pending == s.executed + s.pending + [];
    case RunOne =>
      assert s.batch == [s.batch[0]] + s.batch[1..];
      assert s.executed + [s.batch[0]] + s.batch[1..] == s.executed + s.batch;
    case _ =>
  }

  /** The steps are taken one after the other, each enabled where it is taken. */
  predicate Run<F>(s: Loop<F>, steps: seq<Step<F>>)
    decreases |steps|
  {
    steps == [] || (Enabled(s, steps[0]) && Run(Next(s, steps[0]), steps[1..]))
  }

  function After<F>(s: Loop<F>, steps: seq<Step<F>>): Loop<F>
    requires Run(s, steps)
    decreases |steps|
  {
    if steps == [] then s else After(Next(s, steps[0]), steps[1..])
  }

  lemma {:induction false} RunKeepsInv<F>(s: Loop<F>, steps: seq<Step<F>>)
    requires Inv(s) && Run(s, steps)
    ensures Inv(After(s, steps))
    decreases |steps|
  {
    if steps != [] {
      StepKeepsInv(s, steps[0]);
      RunKeepsInv(Next(s, steps[0]), steps[1..]);
    }
  }

  /** No lost wakeup: in every interleaving, when the loop is about to block in poll with
      functors pending or after a quit, the counter is positive or a thread that has pushed
      or quit has still to write to it. */
  lemma {:induction false} NoLostWakeup<F>(s: Loop<F>, steps: seq<Step<F>>)
    requires Init(s) && Run(s, steps)
    ensures var e := After(s, steps);
      e.pc == Polling && (e.pending != [] || !e.looping) ==> e.counter > 0 || exists t :: t in e.owing
  {
    RunKeepsInv(s, steps);
    var e := After(s, steps);
    if e.owing != {} {
      var t :| t in e.owing;
    }
  }

  /** Conservation: what has run, what is left of the batch and what is queued are, in this
      order, all that was ever pushed; so functors run at most once and in push order. */
  lemma {:induction false} FunctorsConserved<F>(s: Loop<F>, steps: seq<Step<F>>)
    requires Init(s) && Run(s, steps)
    ensures var e := After(s, steps);
      e.executed + e.batch + e.pending == e.pushed && e.executed <= e.pushed
  {
    RunKeepsInv(s, steps);
    var e := After(s, steps);
    assert e.executed + (e.batch + e.pending) == e.pushed;
  }

  /** The pushes of one thread. */
  function Of<F>(tasks: seq<Task<F>>, thread: nat): seq<F> {
    if tasks == [] then []
    else (if tasks[0].thread == thread then [tasks[0].functor] else []) + Of(tasks[1..], thread)
  }

  lemma {:induction false} OfPrefix<F>(a: seq<Task<F>>, b: seq<Task<F>>, thread: nat)
    ensures Of(a + b, thread) == Of(a, thread) + Of(b, thread)
  {
    if a == [] {
      assert a + b == b;
    } else {
      assert (a + b)[0] == a[0] && (a + b)[1..] == a[1..] + b;
      OfPrefix(a[1..], b, thread);
      AppendAssoc(if a[0].thread == thread then [a[0].functor] else [], Of(a[1..], thread), Of(b, thread));
    }
  }

  /** Seen by one thread: its functors have run in the order of its calls, none skipped. */
  lemma {:induction false} ThreadOrder<F>(s: Loop<F>, steps: seq<Step<F>>, thread: nat)
    requires Init(s) && Run(s, steps)
    ensures var e := After(s, steps); Of(e.executed, thread) <= Of(e.pushed, thread)
  {
    FunctorsConserved(s, steps);
    var e := After(s, steps);
    var more := e.pushed[|e.executed|..];
    assert e.pushed == e.executed + more;
    OfPrefix(e.executed, more, thread);
  }

  // ---- progress -----------------------------------------------------------

  /** What was pushed before is still on its way through queue and batch. */
  predicate UnderWay<F(==)>(s: Loop<F>, due: seq<Task<F>>) {
    s.pc != Stopped && if s.pc == Running then due <= s.executed + s.batch else due <= s.executed + s.pending
  }

  lemma {:induction false} StaysUnderWay<F>(s: Loop<F>, step: Step<F>, due: seq<Task<F>>)
    requires Inv(s) && Enabled(s, step) && step != EndCalling && UnderWay(s, due)
    ensures UnderWay(Next(s, step), due)
  {
    match step
    case Push(t, f) =>
      AppendAssoc(s.executed, s.pending, [Task(t, f)]);
    case RunOne =>
      assert s.batch == [s.batch[0]] + s.batch[1..];
      AppendAssoc(s.executed, [s.batch[0]], s.batch[1..]);
    case _ =>
  }

  /** In every interleaving, whatever other threads push, quit or write in between: what was
      queued when the loop polled has all run when the round ends, after what had run before
      and in push order. */
  lemma {:induction false} RoundRunsAll<F>(s: Loop<F>, steps: seq<Step<F>>)
    requires Inv(s) && s.pc == Polling && Run(s, steps) && EndCalling !in steps && Enabled(After(s, steps), EndCalling)
    ensures s.executed + s.pending <= Next(After(s, steps), EndCalling).executed
  {
    RoundUnderWay(s, steps, s.executed + s.pending);
    var e := After(s, steps);
    assert e.executed + e.batch == e.executed;
  }

  lemma {:induction false} RoundUnderWay<F>(s: Loop<F>, steps: seq<Step<F>>, due: seq<Task<F>>)
    requires Inv(s) && Run(s, steps) && EndCalling !in steps && UnderWay(s, due)
    ensures UnderWay(After(s, steps), due)
    decreases |steps|
  {
    if steps != [] {
      StaysUnderWay(s, steps[0], due);
      StepKeepsInv(s, steps[0]);
      RoundUnderWay(Next(s, steps[0]), steps[1..], due);
    }
  }

  /** One trip round the loop in which nobody pushes. */
  function Trip<F>(n: nat): seq<Step<F>> {
    [PollReturns(true)] + ([ReadWakeup] + ([BeginCalling] + ([Swap] + (seq(n, _ => RunOne) + [EndCalling]))))
  }

  lemma {:induction false} RunCons<F>(s: Loop<F>, step: Step<F>, steps: seq<Step<F>>)
    requires Enabled(s, step) && Run(Next(s, step), steps)
    ensures Run(s, [step] + steps) && After(s, [step] + steps) == After(Next(s, step), steps)
  {
    assert ([step] + steps)[0] == step && ([step] + steps)[1..] == steps;
  }

  lemma {:induction false} RunsBatch<F>(s: Loop<F>)
    requires s.pc == Running && LOOP_THREAD !in s.owing
    ensures var steps := seq(|s.batch|, _ => RunOne) + [EndCalling];
      Run(s, steps) && After(s, steps) == Next(s.(executed := s.executed + s.batch, batch := []), EndCalling)
    decreases |s.batch|
  {
    var steps: seq<Step<F>> := seq(|s.batch|, _ => RunOne) + [EndCalling];
    if s.batch == [] {
      assert steps == [EndCalling];
      assert steps[1..] == [];
      assert s.executed + s.batch == s.executed;
    } else {
      var s' := Next(s, RunOne);
      assert steps[0] == RunOne && steps[1..] == seq(|s'.batch|, _ => RunOne) + [EndCalling];
      RunsBatch(s');
      assert s'.executed + s'.batch == s.executed + s.batch;
    }
  }

  /** And there is such a round: with the counter positive, and nobody pushing, one trip round
      the loop is possible and runs everything that was pending. */
  lemma {:induction false} WakeupSuffices<F>(s: Loop<F>)
    requires Inv(s) && s.pc == Polling && s.counter > 0
    ensures var steps := Trip(|s.pending|);
      && Run(s, steps)
      && After(s, steps).executed == s.executed + s.pending
      && After(s, steps).pending == [] && !After(s, steps).calling
  {
    var s1 := Next(s, PollReturns(true));
    var s2 := Next(s1, ReadWakeup);
    var s3 := Next(s2, BeginCalling);
    var s4 := Next(s3, Swap);
    var tail: seq<Step<F>> := seq(|s.pending|, _ => RunOne) + [EndCalling];
    RunsBatch(s4);
    RunCons(s3, Swap, tail);
    RunCons(s2, BeginCalling, [Swap] + tail);
    RunCons(s1, ReadWakeup, [BeginCalling] + ([Swap] + tail));
    RunCons(s, PollReturns(true), [ReadWakeup] + ([BeginCalling] + ([Swap] + tail)));
  }

  lemma {:induction false} RunAppend<F>(s: Loop<F>, a: seq<Step<F>>, step: Step<F>)
    requires Run(s, a) && Enabled(After(s, a), step)
    ensures Run(s, a + [step]) && After(s, a + [step]) == Next(After(s, a), step)
    decreases |a|
  {
    if a == [] {
      assert [] + [step] == [step] && [step][1..] == [];
    } else {
      assert (a + [step])[0] == a[0] && (a + [step])[1..] == a[1..] + [step];
      RunAppend(Next(s, a[0]), a[1..], step);
    }
  }
}
