/** EventLoop as the source runs it. The ghost field `now` is the state of the step system the
    object stands for, and every method is a run of that system. */
module EventLoops {
  import opened Bytes
  import opened Reactor

  /** A queued callable: null, or one that, when run on the loop thread, queues others and may
      call quit(). */
  datatype Functor = NullFunctor | Functor(id: nat, queues: seq<Functor>, quits: bool)

  /** What happens in a round of loop(): the functors other threads queue while it is in poll,
      the thread that calls quit() meanwhile, whether the poller then reports the wakeup
      channel, and the user code of the other active channels. */
  datatype Round = Round(arrivals: seq<(nat, Functor)>, quitter: Option<nat>, wake: bool, handlers: seq<Functor>)

  /** What has run, what is queued, and whether the loop goes on. */
  datatype Progress = Progress(executed: seq<Task<Functor>>, pending: seq<Task<Functor>>, looping: bool)

  function Functors(tasks: seq<Task<Functor>>): (fs: seq<Functor>)
    ensures |fs| == |tasks| && forall i :: 0 <= i < |fs| ==> fs[i] == tasks[i].functor
  {
    seq(|tasks|, i requires 0 <= i < |tasks| => tasks[i].functor)
  }

  class EventLoop {
    var looping: bool
    var callingPendingFunctors: bool
    var pendingFunctors: seq<Functor>
    var counter: nat
    ghost var now: Loop<Functor>
    ghost const start: Loop<Functor>
    ghost var steps: seq<Step<Functor>>

    /** The fields are those of `now`, which a run of the step system has led to. */
    ghost predicate Valid()
      reads this
    {
      && looping == now.looping && callingPendingFunctors == now.calling && counter == now.counter
      && pendingFunctors == Functors(now.pending)
      && Init(start) && Run(start, steps) && now == After(start, steps)
      && Inv(now)
    }

    ghost function At(): Progress
      reads this
    {
      Progress(now.executed, now.pending, looping)
    }

    constructor ()
      ensures Valid() && now.pc == Polling && steps == []
    {
      looping, callingPendingFunctors, pendingFunctors, counter := true, false, [], 0;
      start := Reactor.Loop.Loop(Polling, true, false, 0, [], [], {}, [], []);
      now := Reactor.Loop.Loop(Polling, true, false, 0, [], [], {}, [], []);
      steps := [];
    }

    /** The ghost half of one atomic action. */
    ghost method Take(step: Step<Functor>)
      requires Init(start) && Run(start, steps) && now == After(start, steps) && Inv(now) && Enabled(now, step)
      modifies `now, `steps
      ensures now == Next(old(now), step) && steps == old(steps) + [step]
      ensures Run(start, steps) && now == After(start, steps) && Inv(now)
    {
      RunAppend(start, steps, step);
      StepKeepsInv(now, step);
      now, steps := Next(now, step), steps + [step];
    }

    /** write(m_wakeupFd): a full counter refuses more. */
    method Wakeup(ghost thread: nat)
      requires Valid() && thread in now.owing
      modifies this
      ensures Valid() && now == Next(old(now), Reactor.Wakeup(thread)) && counter == Min(COUNTER_MAX, old(counter) + 1)
    {
      if counter < COUNTER_MAX {
        counter := counter + 1;
      }
      Take(Reactor.Wakeup(thread));
    }

    /** Called from any thread; `inLoopThread` is what isInLoopThread() answers. */
    method QueueInLoop(cb: Functor, inLoopThread: bool, ghost thread: nat)
      requires Valid() && (inLoopThread <==> thread == LOOP_THREAD) && Enabled(now, Push(thread, cb))
      modifies this
      ensures Valid()
      ensures now.pending == old(now.pending) + [Task(thread, cb)] && now.owing == old(now.owing)
      ensures now.executed == old(now.executed) && now.batch == old(now.batch) && now.pc == old(now.pc)
      ensures looping == old(looping)
      ensures counter == if !inLoopThread || old(now.calling) then Min(COUNTER_MAX, old(counter) + 1) else old(counter)
    {
      pendingFunctors := pendingFunctors + [cb];
      Take(Push(thread, cb));
      if !inLoopThread || callingPendingFunctors {
        Wakeup(thread);
      }
    }

    /** The loop ends after the present round; another thread has to wake it up for that. */
    method Quit(inLoopThread: bool, ghost thread: nat)
      requires Valid() && (inLoopThread <==> thread == LOOP_THREAD) && Enabled(now, Reactor.Quit(thread))
      modifies this
      ensures Valid() && !looping && now.pc == old(now.pc) && now.pending == old(now.pending)
      ensures now.batch == old(now.batch) && now.executed == old(now.executed) && now.owing == old(now.owing)
      ensures counter == if inLoopThread then old(counter) else Min(COUNTER_MAX, old(counter) + 1)
    {
      looping := false;
      Take(Reactor.Quit(thread));
      if !inLoopThread {
        Wakeup(thread);
      }
    }

    /** From the loop thread the callable runs at once, otherwise it is queued. */
    method RunInLoop(cb: Functor, inLoopThread: bool, ghost thread: nat)
      requires Valid() && (inLoopThread <==> thread == LOOP_THREAD) && Enabled(now, Push(thread, cb)) && now.owing == {}
      modifies this
      ensures Valid() && now.pc == old(now.pc) && now.batch == old(now.batch) && now.executed == old(now.executed)
      ensures !inLoopThread ==> now.pending == old(now.pending) + [Task(thread, cb)]
      ensures !inLoopThread ==> counter == Min(COUNTER_MAX, old(counter) + 1)
      ensures inLoopThread ==> now.pending == old(now.pending) + Queued(cb)
      ensures looping == (old(looping) && !(inLoopThread && Quits(cb)))
    {
      if inLoopThread {
        Call(cb);
      } else {
        QueueInLoop(cb, false, thread);
      }
    }

    /** User code on the loop thread: it queues what it queues, and quits if it does. */
    method Call(f: Functor)
      requires Valid() && InUserCode(now.pc) && now.owing == {}
      modifies this
      ensures Valid() && now.pc == old(now.pc) && now.owing == {}
      ensures now.batch == old(now.batch) && now.executed == old(now.executed)
      ensures now.pending == old(now.pending) + Queued(f) && looping == (old(looping) && !Quits(f))
      ensures counter == if old(now.calling) then Min(COUNTER_MAX, old(counter) + |Queued(f)|) else old(counter)
    {
      if f == NullFunctor {
        return;
      }
      var i := 0;
      while i < |f.queues|
        invariant 0 <= i <= |f.queues|
        invariant Valid() && now.pc == old(now.pc) && now.owing == {}
        invariant now.batch == old(now.batch) && now.executed == old(now.executed) && looping == old(looping)
        invariant now.pending == old(now.pending) + Queued(f)[..i]
        invariant counter == if old(now.calling) then Min(COUNTER_MAX, old(counter) + i) else old(counter)
      {
        AppendAssoc(old(now.pending), Queued(f)[..i], [Queued(f)[i]]);
        assert Queued(f)[..i + 1] == Queued(f)[..i] + [Queued(f)[i]];
        QueueInLoop(f.queues[i], true, LOOP_THREAD);
        i := i + 1;
      }
      assert Queued(f)[..i] == Queued(f);
      if f.quits {
        Quit(true, LOOP_THREAD);
      }
    }

    /** Swaps the queue out under the lock and runs the batch; what the functors queue stays
        for the next round, with a wakeup. */
    method DoPendingFunctors()
      requires Valid() && now.pc == Handling(false) && now.owing == {}
      modifies this
      ensures Valid() && now.pc == (if looping then Polling else Stopped)
      ensures now.executed == old(now.executed) + old(now.pending)
      ensures now.pending == AllQueued(Functors(old(now.pending))) && now.batch == []
      ensures now.owing == {} && looping == (old(looping) && !AnyQuits(Functors(old(now.pending))))
      ensures counter == Min(COUNTER_MAX, old(counter) + |now.pending|)
    {
      var functors := SwapOut();
      assert [] + AllQueued(functors) == AllQueued(functors);
      RunBatch(functors);
      callingPendingFunctors := false;
      Take(EndCalling);
    }

    /** The queue is swapped out; from here on a push makes a wakeup. */
    method SwapOut() returns (functors: seq<Functor>)
      requires Valid() && now.pc == Handling(false) && now.owing == {}
      modifies this
      ensures Valid() && now.pc == Running && now.owing == {} && looping == old(looping) && counter == old(counter)
      ensures functors == Functors(old(now.pending)) && now.batch == old(now.pending) && now.pending == []
      ensures now.executed == old(now.executed)
    {
      functors := [];
      callingPendingFunctors := true;
      Take(BeginCalling);
      functors, pendingFunctors := pendingFunctors, functors;
      Take(Swap);
    }

    method RunBatch(functors: seq<Functor>)
      requires Valid() && now.pc == Running && now.owing == {} && functors == Functors(now.batch)
      modifies this
      ensures Valid() && now.pc == Running && now.owing == {} && looping == (old(looping) && !AnyQuits(functors))
      ensures now.executed == old(now.executed) + old(now.batch) && now.batch == []
      ensures now.pending == old(now.pending) + AllQueued(functors)
      ensures counter == Min(COUNTER_MAX, old(counter) + |AllQueued(functors)|)
    {
      ghost var start := now;
      var i := 0;
      BatchStart(start, functors);
      while i < |functors|
        invariant i <= |functors| == |start.batch| && functors == Functors(start.batch)
        invariant Valid() && now.pc == Running && now.owing == {}
        invariant RanUpTo(start, now, functors, i)
      {
        BatchStep(start, now, functors, i);
        RunFunctor(functors[i]);
        i := i + 1;
      }
      BatchEnd(start, now, functors);
    }

    method RunFunctor(functor: Functor)
      requires Valid() && now.pc == Running && now.owing == {}
      requires now.batch != [] && functor == now.batch[0].functor
      modifies this
      ensures Valid() && now.pc == Running && now.owing == {} && looping == (old(looping) && !Quits(functor))
      ensures now.executed == old(now.executed) + [old(now.batch)[0]] && now.batch == old(now.batch)[1..]
      ensures now.pending == old(now.pending) + Queued(functor)
      ensures counter == Min(COUNTER_MAX, old(counter) + |Queued(functor)|)
    {
      Take(RunOne);
      if functor != NullFunctor {
        Call(functor);
      }
    }

    /** Other threads queue functors, each with its wakeup. */
    method Arrive(arrivals: seq<(nat, Functor)>)
      requires Valid() && now.owing == {} && now.pc == Polling && forall a :: a in arrivals ==> a.0 != LOOP_THREAD
      modifies this
      ensures Valid() && now.owing == {} && now.pc == Polling && looping == old(looping)
      ensures now.executed == old(now.executed) && now.pending == old(now.pending) + Tasks(arrivals)
      ensures counter == Min(COUNTER_MAX, old(counter) + |arrivals|)
    {
      var i := 0;
      while i < |arrivals|
        invariant i <= |arrivals| && Valid() && now.owing == {} && now.pc == Polling && looping == old(looping)
        invariant now.executed == old(now.executed) && now.pending == old(now.pending) + Tasks(arrivals)[..i]
        invariant counter == Min(COUNTER_MAX, old(counter) + i)
      {
        QueueInLoop(arrivals[i].1, false, arrivals[i].0);
        AppendAssoc(old(now.pending), Tasks(arrivals)[..i], [Tasks(arrivals)[i]]);
        assert Tasks(arrivals)[..i + 1] == Tasks(arrivals)[..i] + [Tasks(arrivals)[i]];
        i := i + 1;
      }
      assert Tasks(arrivals)[..i] == Tasks(arrivals);
    }

    method RunHandlers(handlers: seq<Functor>)
      requires Valid() && now.owing == {} && now.pc == Handling(false)
      modifies this
      ensures Valid() && now.owing == {} && now.pc == Handling(false) && looping == (old(looping) && !AnyQuits(handlers))
      ensures now.executed == old(now.executed) && now.pending == old(now.pending) + AllQueued(handlers)
      ensures counter == old(counter)
    {
      var i := 0;
      assert old(now.pending) + AllQueued(handlers[..0]) == old(now.pending);
      while i < |handlers|
        invariant i <= |handlers| && Valid() && now.owing == {} && now.pc == Handling(false)
        invariant looping == (old(looping) && !AnyQuits(handlers[..i])) && counter == old(counter)
        invariant now.executed == old(now.executed) && now.pending == old(now.pending) + AllQueued(handlers[..i])
      {
        QueuedSnoc(handlers, i);
        QuitsSnoc(handlers, i);
        AppendAssoc(old(now.pending), AllQueued(handlers[..i]), Queued(handlers[i]));
        Call(handlers[i]);
        i := i + 1;
      }
      assert handlers[..i] == handlers;
    }

    /** Another thread may call quit(), with its wakeup. */
    method Meanwhile(r: Round)
      requires Valid() && now.owing == {} && now.pc == Polling && Foreign(r)
      modifies this
      ensures Valid() && now.owing == {} && now.pc == Polling && looping == (old(looping) && r.quitter.None?)
      ensures now.executed == old(now.executed) && now.pending == old(now.pending) + Tasks(r.arrivals)
      ensures counter == Min(COUNTER_MAX, old(counter) + Wakeups(r))
    {
      Arrive(r.arrivals);
      if r.quitter.Some? {
        Quit(false, r.quitter.value);
      }
    }

    /** One round of loop(). When the poller reports the wakeup channel the eventfd is drained,
        and is then readable only for what the batch itself has queued. */
    method RunRound(r: Round)
      requires Valid() && now.owing == {} && now.pc == Polling && Foreign(r)
      modifies this
      ensures Valid() && now.owing == {} && now.pc == (if looping then Polling else Stopped)
      ensures now.executed == old(now.executed) + (old(now.pending) + Tasks(r.arrivals) + AllQueued(r.handlers))
      ensures now.pending == AllQueued(Functors(old(now.pending) + Tasks(r.arrivals) + AllQueued(r.handlers)))
      ensures looping == (old(looping) && !QuitIn(old(At()), r))
      ensures counter == Min(COUNTER_MAX, (if r.wake then 0 else old(counter) + Wakeups(r)) + |now.pending|)
    {
      Meanwhile(r);
      var reported := r.wake && counter > 0;
      Take(PollReturns(reported));
      if reported {
        counter := 0;
        Take(ReadWakeup);
      }
      RunHandlers(r.handlers);
      DoPendingFunctors();
    }

    /** loop(), for as many rounds as are given or until someone quits: whenever it is still
        going at a poll, all that has been queued by then, by the threads that queue during
        that poll and by its handlers is run, behind what had run already. */
    method Loop(rounds: seq<Round>)
      requires Valid() && now.owing == {} && now.pc == Polling && looping
      requires forall r :: r in rounds ==> Foreign(r)
      modifies this
      ensures Valid() && now.owing == {} && now.pc == (if looping then Polling else Stopped)
      ensures At() == Looped(old(At()), rounds)
      ensures forall k :: 0 <= k < |rounds| ==> var p := Looped(old(At()), rounds[..k]);
                p.looping ==> p.executed + Batch(p, rounds[k]) <= now.executed
    {
      var i := 0;
      assert rounds[0..] == rounds;
      while looping && i < |rounds|
        invariant Valid() && now.owing == {} && now.pc == (if looping then Polling else Stopped) && i <= |rounds|
        invariant Looped(old(At()), rounds) == Looped(At(), rounds[i..])
      {
        assert rounds[i..][0] == rounds[i] && rounds[i..][1..] == rounds[i + 1..];
        RunRound(rounds[i]);
        i := i + 1;
      }
      forall k | 0 <= k < |rounds| && Looped(old(At()), rounds[..k]).looping
        ensures var p := Looped(old(At()), rounds[..k]); p.executed + Batch(p, rounds[k]) <= now.executed
      {
        RunsUntilQuit(old(At()), rounds, k);
      }
    }
  }

  /** The wakeups other threads make in it. */
  function Wakeups(r: Round): nat {
    |r.arrivals| + if r.quitter.Some? then 1 else 0
  }

  /** The functors that run in a round. */
  function Batch(p: Progress, r: Round): seq<Task<Functor>> {
    p.pending + Tasks(r.arrivals) + AllQueued(r.handlers)
  }

  /** Another thread, a handler or a functor quits in it. */
  predicate QuitIn(p: Progress, r: Round) {
    r.quitter.Some? || AnyQuits(r.handlers) || AnyQuits(Functors(Batch(p, r)))
  }

  function RoundDone(p: Progress, r: Round): Progress {
    Progress(p.executed + Batch(p, r), AllQueued(Functors(Batch(p, r))), p.looping && !QuitIn(p, r))
  }

  function Looped(p: Progress, rounds: seq<Round>): Progress
    decreases |rounds|
  {
    if |rounds| == 0 || !p.looping then p else Looped(RoundDone(p, rounds[0]), rounds[1..])
  }

  /** The loop goes on exactly until a round in which someone quits. A round that is begun runs
      all that is queued for it, in this order and behind what ran before; after the last one
      nothing runs. */
  lemma {:induction false} RunsUntilQuit(p: Progress, rounds: seq<Round>, k: nat)
    requires k < |rounds|
    ensures var before, after := Looped(p, rounds[..k]), Looped(p, rounds);
      && (before.looping ==> before.executed + Batch(before, rounds[k]) <= after.executed)
      && (before.looping ==> (Looped(p, rounds[..k + 1]).looping <==> !QuitIn(before, rounds[k])))
      && (!before.looping ==> after == before)
  {
    LoopedCut(p, rounds, k);
    LoopedCut(p, rounds[..k + 1], k);
    assert rounds[..k + 1][..k] == rounds[..k] && rounds[..k + 1][k..] == [rounds[k]];
    var before := Looped(p, rounds[..k]);
    if before.looping {
      assert rounds[k..][0] == rounds[k] && [rounds[k]][1..] == [];
      LoopedExtends(RoundDone(before, rounds[k]), rounds[k..][1..]);
    }
  }

  lemma {:induction false} LoopedCut(p: Progress, rounds: seq<Round>, k: nat)
    requires k <= |rounds|
    ensures Looped(p, rounds) == Looped(Looped(p, rounds[..k]), rounds[k..])
    decreases k
  {
    if k == 0 {
      assert rounds[0..] == rounds;
    } else if p.looping {
      assert rounds[..k][0] == rounds[0] && rounds[..k][1..] == rounds[1..][..k - 1] && rounds[1..][k - 1..] == rounds[k..];
      LoopedCut(RoundDone(p, rounds[0]), rounds[1..], k - 1);
    }
  }

  lemma {:induction false} LoopedExtends(p: Progress, rounds: seq<Round>)
    ensures p.executed <= Looped(p, rounds).executed
    decreases |rounds|
  {
    if |rounds| != 0 && p.looping {
      LoopedExtends(RoundDone(p, rounds[0]), rounds[1..]);
    }
  }

  /** Running a functor calls quit(). */
  predicate Quits(f: Functor) {
    f.Functor? && f.quits
  }

  predicate AnyQuits(fs: seq<Functor>) {
    exists i :: 0 <= i < |fs| && Quits(fs[i])
  }

  lemma {:induction false} QuitsSnoc(fs: seq<Functor>, i: nat)
    requires i < |fs|
    ensures AnyQuits(fs[..i + 1]) <==> AnyQuits(fs[..i]) || Quits(fs[i])
  {
    if AnyQuits(fs[..i]) {
      var k :| 0 <= k < i && Quits(fs[..i][k]);
      assert Quits(fs[..i + 1][k]);
    }
    if Quits(fs[i]) {
      assert Quits(fs[..i + 1][i]);
    }
    if AnyQuits(fs[..i + 1]) {
      var k :| 0 <= k <= i && Quits(fs[..i + 1][k]);
      assert k < i ==> Quits(fs[..i][k]);
    }
  }

  /** Those who queue or quit during poll are not the loop thread. */
  predicate Foreign(r: Round) {
    (forall a :: a in r.arrivals ==> a.0 != LOOP_THREAD) && r.quitter != Some(LOOP_THREAD)
  }

  function Tasks(arrivals: seq<(nat, Functor)>): (ts: seq<Task<Functor>>)
    ensures |ts| == |arrivals| && forall i :: 0 <= i < |ts| ==> ts[i] == Task(arrivals[i].0, arrivals[i].1)
  {
    seq(|arrivals|, i requires 0 <= i < |arrivals| => Task(arrivals[i].0, arrivals[i].1))
  }

  /** Of the batch of `start` the first `i` functors have run. */
  ghost predicate RanUpTo(start: Loop<Functor>, s: Loop<Functor>, functors: seq<Functor>, i: nat) {
    && i <= |start.batch| && i <= |functors|
    && s.batch == start.batch[i..] && s.executed == start.executed + start.batch[..i]
    && s.pending == start.pending + AllQueued(functors[..i])
    && s.looping == (start.looping && !AnyQuits(functors[..i]))
    && s.counter == Min(COUNTER_MAX, start.counter + |AllQueued(functors[..i])|)
  }

  lemma {:induction false} BatchStart(start: Loop<Functor>, functors: seq<Functor>)
    requires start.counter <= COUNTER_MAX
    ensures RanUpTo(start, start, functors, 0)
  {
    assert start.batch[0..] == start.batch && start.executed + start.batch[..0] == start.executed;
    assert start.pending + AllQueued(functors[..0]) == start.pending;
  }

  /** What one more functor does. */
  lemma {:induction false} BatchStep(start: Loop<Functor>, s: Loop<Functor>, functors: seq<Functor>, i: nat)
    requires RanUpTo(start, s, functors, i) && i < |functors| == |start.batch| && functors == Functors(start.batch)
    ensures s.batch != [] && s.batch[0].functor == functors[i]
    ensures forall s': Loop<Functor> {:trigger RanUpTo(start, s', functors, i + 1)} ::
      s'.batch == s.batch[1..] && s'.executed == s.executed + [s.batch[0]] && s'.pending == s.pending + Queued(functors[i])
      && s'.looping == (s.looping && !Quits(functors[i])) && s'.counter == Min(COUNTER_MAX, s.counter + |Queued(functors[i])|)
      ==> RanUpTo(start, s', functors, i + 1)
  {
    assert start.batch[..i + 1] == start.batch[..i] + [start.batch[i]];
    AppendAssoc(start.executed, start.batch[..i], [start.batch[i]]);
    QueuedSnoc(functors, i);
    QuitsSnoc(functors, i);
    AppendAssoc(start.pending, AllQueued(functors[..i]), Queued(functors[i]));
  }

  lemma {:induction false} BatchEnd(start: Loop<Functor>, s: Loop<Functor>, functors: seq<Functor>)
    requires RanUpTo(start, s, functors, |functors|) && |functors| == |start.batch|
    ensures s.batch == [] && s.executed == start.executed + start.batch && s.pending == start.pending + AllQueued(functors)
    ensures s.looping == (start.looping && !AnyQuits(functors))
    ensures s.counter == Min(COUNTER_MAX, start.counter + |AllQueued(functors)|)
  {
    assert start.batch[..|functors|] == start.batch && functors[..|functors|] == functors;
  }

  lemma {:induction false} QueuedSnoc(fs: seq<Functor>, i: nat)
    requires i < |fs|
    ensures AllQueued(fs[..i + 1]) == AllQueued(fs[..i]) + Queued(fs[i])
    decreases i
  {
    if i == 0 {
      assert fs[..1][1..] == [] && Queued(fs[0]) + [] == [] + Queued(fs[0]);
    } else {
      QueuedSnoc(fs[1..], i - 1);
      assert fs[..i + 1][1..] == fs[1..][..i] && fs[..i][1..] == fs[1..][..i - 1];
      AppendAssoc(Queued(fs[0]), AllQueued(fs[1..][..i - 1]), Queued(fs[i]));
    }
  }

  /** What running a functor on the loop thread queues. */
  function Queued(f: Functor): (ts: seq<Task<Functor>>)
    ensures |ts| == if f == NullFunctor then 0 else |f.queues|
    ensures forall i :: 0 <= i < |ts| ==> ts[i] == Task(LOOP_THREAD, f.queues[i])
  {
    match f
    case NullFunctor => []
    case Functor(_, queues, _) => seq(|queues|, i requires 0 <= i < |queues| => Task(LOOP_THREAD, queues[i]))
  }

  function AllQueued(fs: seq<Functor>): seq<Task<Functor>> {
    if fs == [] then [] else Queued(fs[0]) + AllQueued(fs[1..])
  }
}
