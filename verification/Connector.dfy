/** The connect and retry state machine on values: who owns each socket, when the connector's
    channel is in the poller, and how long each retry waits. */
module Connector {
  import opened Bytes

  const INIT_RETRY_DELAY_MS := 500
  const MAX_RETRY_DELAY_MS := 30 * 1000

  datatype Errno =
    | OK | EINPROGRESS | EINTR | EISCONN
    | EAGAIN | EADDRINUSE | EADDRNOTAVAIL | ECONNREFUSED | ENETUNREACH
    | OTHER

  datatype ConnectorStatus = Disconnected | Connecting | Connected

  /** `watched` are the fds of the connector's channels in the poller, `resets` the queued
      functors that will drop the channel, `pending` the retry timers set, `waits` the delays
      asked for since the last restart. `sockets`, `closed` and `handed` record every socket. */
  datatype State = State(
    status: ConnectorStatus, wanted: bool, canRetry: bool, delay: nat, timerAlive: bool, pending: nat, waits: seq<nat>,
    channel: Option<int>, watched: set<int>, resets: nat, sockets: seq<int>, closed: seq<int>, handed: seq<int>)

  function Created(canRetry: bool): State {
    State(Disconnected, false, canRetry, INIT_RETRY_DELAY_MS, true, 0, [], None, {}, 0, [], [], [])
  }

  predicate Begins(errno: Errno) {
    errno.OK? || errno.EINPROGRESS? || errno.EINTR? || errno.EISCONN?
  }

  function Retried(c: State, fd: int): State {
    var c1 := c.(closed := c.closed + [fd], status := Disconnected);
    if c.canRetry && c.wanted
    then c1.(waits := c.waits + [c.delay], pending := c.pending + 1, delay := Min(c.delay * 2, MAX_RETRY_DELAY_MS))
    else c1
  }

  /** One connect: under way, to be tried again, or given up. */
  function ConnectTo(c: State, fd: int, errno: Errno): State {
    var c1 := c.(sockets := c.sockets + [fd]);
    if Begins(errno) then c1.(status := Connecting, channel := Some(fd), watched := c.watched + {fd})
    else if errno.OTHER? then c1.(closed := c.closed + [fd])
    else Retried(c1, fd)
  }

  function Started(c: State, fd: int, errno: Errno): State {
    if c.status == Disconnected && c.wanted then ConnectTo(c, fd, errno) else c
  }

  function Restarted(c: State): State {
    c.(status := Disconnected, wanted := true, delay := INIT_RETRY_DELAY_MS, waits := [])
  }

  /** The channel leaves the poller now and is dropped by a functor later. */
  function Unwatched(c: State, fd: int): State {
    c.(watched := c.watched - {fd}, resets := c.resets + 1)
  }

  /** The socket is handed over, and the timer's channel leaves the loop. */
  function Succeeded(c: State, fd: int): State {
    var c1 := c.(status := Connected, timerAlive := false);
    if c.wanted then c1.(handed := c.handed + [fd]) else c1.(closed := c.closed + [fd])
  }

  function Wrote(c: State, failed: bool): State {
    if c.status != Connecting || c.channel.None? then c
    else
      var fd := c.channel.value;
      var c1 := Unwatched(c, fd);
      if failed then Retried(c1, fd) else Succeeded(c1, fd)
  }

  function Erred(c: State): State {
    if c.status != Connecting || c.channel.None? then c
    else Retried(Unwatched(c, c.channel.value), c.channel.value)
  }

  function Dropped(c: State): State
    requires c.resets > 0
  {
    c.(channel := None, resets := c.resets - 1)
  }

  // ---- Steps and runs ----------------------------------------------------------------

  datatype Step =
    | Want                                  // start() raises the flag, on any thread
    | StartInLoop(fd: int, errno: Errno)    // and startInLoop() runs in the loop
    | RetryFires(fd: int, errno: Errno)
    | Restart(fd: int, errno: Errno)
    | HandleWrite(failed: bool)
    | HandleError
    | ResetChannel

  /** socket() never returns an fd that is in use. */
  predicate Enabled(c: State, s: Step) {
    match s
    case Want => true
    case StartInLoop(fd, _) => fd !in c.watched
    case RetryFires(fd, _) => c.pending > 0 && c.timerAlive && fd !in c.watched
    case Restart(fd, _) => fd !in c.watched
    case HandleWrite(_) => true
    case HandleError => true
    case ResetChannel => c.resets > 0
  }

  function Next(c: State, s: Step): State
    requires Enabled(c, s)
  {
    match s
    case Want => c.(wanted := true)
    case StartInLoop(fd, errno) => Started(c, fd, errno)
    case RetryFires(fd, errno) => Started(c.(pending := c.pending - 1), fd, errno)
    case Restart(fd, errno) => Started(Restarted(c), fd, errno)
    case HandleWrite(failed) => Wrote(c, failed)
    case HandleError => Erred(c)
    case ResetChannel => Dropped(c)
  }

  /** No connect begins while a functor that will drop the channel is queued, and restart is
      not called while connecting. */
  predicate Timely(c: State, s: Step) {
    match s
    case StartInLoop(_, errno) => c.status == Disconnected && c.wanted && Begins(errno) ==> c.resets == 0
    case RetryFires(_, errno) => c.status == Disconnected && c.wanted && Begins(errno) ==> c.resets == 0
    case Restart(_, errno) => c.status != Connecting && (Begins(errno) ==> c.resets == 0)
    case _ => true
  }

  /** The delay of the k-th retry since the last restart. */
  function Backoff(k: nat): nat {
    Min(INIT_RETRY_DELAY_MS * Pow2(k), MAX_RETRY_DELAY_MS)
  }

  predicate BackedOff(waits: seq<nat>) {
    forall k :: 0 <= k < |waits| ==> waits[k] == Backoff(k)
  }

  function Current(c: State): multiset<int> {
    if c.status == Connecting && c.channel.Some? then multiset{c.channel.value} else multiset{}
  }

  /** Every socket opened has been closed, or handed over, or is the one connecting. */
  predicate Owned(c: State) {
    multiset(c.sockets) == multiset(c.closed) + multiset(c.handed) + Current(c)
  }

  /** The connector has a channel in the poller iff it is connecting. */
  predicate Registered(c: State) {
    if c.status == Connecting then c.channel.Some? && c.watched == {c.channel.value} else c.watched == {}
  }

  /** Once `k` of the queued functors that drop the channel have run. */
  function DroppedBy(c: State, k: nat): State
    requires k <= c.resets
    decreases k
  {
    if k == 0 then c else DroppedBy(Dropped(c), k - 1)
  }

  /** Once all of them have. */
  function Drained(c: State): State {
    if c.resets == 0 then c else c.(channel := None, resets := 0)
  }

  lemma {:induction false} DroppedAll(c: State)
    ensures DroppedBy(c, c.resets) == Drained(c)
    decreases c.resets
  {
    if c.resets > 0 {
      DroppedAll(Dropped(c));
    }
  }

  /** Ownership; registration now, and still when the queued functors have run; the retry timer
      is in the loop as long as no connection has been handed over; the back-off. */
  predicate Inv(c: State) {
    && Owned(c) && Registered(c) && Registered(Drained(c))
    && (c.timerAlive <==> c.handed == [])
    && (c.status != Disconnected || c.pending > 0 ==> c.wanted)
    && c.delay == Backoff(|c.waits|) && BackedOff(c.waits)
  }

  lemma {:induction false} RetryBacksOff(c: State, fd: int)
    requires c.delay == Backoff(|c.waits|) && BackedOff(c.waits)
    ensures var r := Retried(c, fd); r.delay == Backoff(|r.waits|) && BackedOff(r.waits)
  {
    assert Pow2(|c.waits| + 1) == 2 * Pow2(|c.waits|);
  }

  lemma {:induction false} LogsGrow(s: seq<int>, fd: int)
    ensures multiset(s + [fd]) == multiset(s) + multiset{fd}
  {
  }

  lemma {:induction false} BeginKeepsInv(c: State, fd: int, errno: Errno)
    requires Inv(c) && fd !in c.watched && c.status == Disconnected && c.wanted && Begins(errno)
    ensures Inv(ConnectTo(c, fd, errno)) <==> c.resets == 0
  {
    LogsGrow(c.sockets, fd);
    assert c.watched + {fd} == {fd};
  }

  lemma {:induction false} RefusedKeepsInv(c: State, fd: int, errno: Errno)
    requires Inv(c) && c.status == Disconnected && c.wanted && !Begins(errno)
    ensures Inv(ConnectTo(c, fd, errno))
  {
    RefusedIsOwned(c, fd, errno);
    RetryBacksOff(c.(sockets := c.sockets + [fd]), fd);
  }

  lemma {:induction false} RefusedIsOwned(c: State, fd: int, errno: Errno)
    requires Owned(c) && c.status == Disconnected && !Begins(errno)
    ensures Owned(ConnectTo(c, fd, errno))
  {
    LogsGrow(c.sockets, fd);
    LogsGrow(c.closed, fd);
  }

  lemma {:induction false} StartKeepsInv(c: State, fd: int, errno: Errno)
    requires Inv(c) && fd !in c.watched
    ensures Inv(Started(c, fd, errno)) <==>
            (c.status == Disconnected && c.wanted && Begins(errno) ==> c.resets == 0)
  {
    if c.status == Disconnected && c.wanted {
      if Begins(errno) {
        BeginKeepsInv(c, fd, errno);
      } else {
        RefusedKeepsInv(c, fd, errno);
      }
    }
  }

  lemma {:induction false} RestartKeepsInv(c: State, fd: int, errno: Errno)
    requires Inv(c) && fd !in c.watched
    ensures Inv(Started(Restarted(c), fd, errno)) <==> c.status != Connecting && (Begins(errno) ==> c.resets == 0)
  {
    if c.status != Connecting {
      StartKeepsInv(Restarted(c), fd, errno);
    } else {
      var r := Started(Restarted(c), fd, errno);
      assert c.channel.value in r.watched;
      assert r.status == Connecting ==> fd in r.watched && c.channel.value != fd;
    }
  }

  lemma {:induction false} ErredKeepsInv(c: State)
    requires Inv(c)
    ensures Inv(Erred(c)) && Erred(c) == Wrote(c, true)
  {
    if c.status == Connecting {
      var fd := c.channel.value;
      LogsGrow(c.closed, fd);
      RetryBacksOff(Unwatched(c, fd), fd);
      assert c.watched - {fd} == {};
    }
  }

  lemma {:induction false} ConnectedKeepsInv(c: State)
    requires Inv(c)
    ensures Inv(Wrote(c, false))
  {
    if c.status == Connecting {
      ConnectedIsOwned(c);
      assert c.watched - {c.channel.value} == {};
    }
  }

  lemma {:induction false} ConnectedIsOwned(c: State)
    requires Owned(c) && c.status == Connecting && c.channel.Some? && c.wanted
    ensures Owned(Wrote(c, false))
  {
    LogsGrow(c.handed, c.channel.value);
  }

  lemma {:induction false} WroteKeepsInv(c: State, failed: bool)
    requires Inv(c)
    ensures Inv(Wrote(c, failed))
  {
    if failed {
      ErredKeepsInv(c);
    } else {
      ConnectedKeepsInv(c);
    }
  }

  lemma {:induction false} WantKeepsInv(c: State)
    requires Inv(c)
    ensures Inv(c.(wanted := true))
  {
  }

  lemma {:induction false} DroppedKeepsInv(c: State)
    requires Inv(c) && c.resets > 0
    ensures Inv(Dropped(c))
  {
  }

  lemma {:induction false} OneLessPending(c: State)
    requires Inv(c) && c.pending > 0
    ensures Inv(c.(pending := c.pending - 1))
  {
  }

  predicate Connects(s: Step) {
    s.StartInLoop? || s.RetryFires? || s.Restart?
  }

  lemma {:induction false} EventKeepsInv(c: State, s: Step)
    requires Inv(c) && Enabled(c, s) && !Connects(s)
    ensures Inv(Next(c, s))
  {
    match s
    case Want => WantKeepsInv(c);
    case HandleWrite(failed) => WroteKeepsInv(c, failed);
    case HandleError => ErredKeepsInv(c);
    case ResetChannel => DroppedKeepsInv(c);
  }

  lemma {:induction false} StartStep(c: State, s: Step)
    requires Inv(c) && Enabled(c, s) && s.StartInLoop?
    ensures Inv(Next(c, s)) <==> Timely(c, s)
  {
    StartKeepsInv(c, s.fd, s.errno);
  }

  lemma {:induction false} RetryStep(c: State, s: Step)
    requires Inv(c) && Enabled(c, s) && s.RetryFires?
    ensures Inv(Next(c, s)) <==> Timely(c, s)
  {
    var c1 := c.(pending := c.pending - 1);
    assert Next(c, s) == Started(c1, s.fd, s.errno);
    assert Inv(c1) by { OneLessPending(c); }
    StartKeepsInv(c1, s.fd, s.errno);
  }

  lemma {:induction false} RestartStep(c: State, s: Step)
    requires Inv(c) && Enabled(c, s) && s.Restart?
    ensures Inv(Next(c, s)) <==> Timely(c, s)
  {
    RestartKeepsInv(c, s.fd, s.errno);
  }

  /** A step keeps ownership, back-off, the retry timer, and registration now and once the
      queued functors have run, exactly when it is timely. */
  lemma {:induction false} StepKeepsInv(c: State, s: Step)
    requires Inv(c) && Enabled(c, s)
    ensures Inv(Next(c, s)) <==> Timely(c, s)
  {
    if s.StartInLoop? {
      StartStep(c, s);
    } else if s.RetryFires? {
      RetryStep(c, s);
    } else if s.Restart? {
      RestartStep(c, s);
    } else {
      EventKeepsInv(c, s);
    }
  }

  predicate AllEnabled(c: State, steps: seq<Step>)
    decreases |steps|
  {
    |steps| == 0 || (Enabled(c, steps[0]) && AllEnabled(Next(c, steps[0]), steps[1..]))
  }

  function Run(c: State, steps: seq<Step>): State
    requires AllEnabled(c, steps)
    decreases |steps|
  {
    if |steps| == 0 then c else Run(Next(c, steps[0]), steps[1..])
  }

  predicate AllTimely(c: State, steps: seq<Step>)
    requires AllEnabled(c, steps)
    decreases |steps|
  {
    |steps| == 0 || (Timely(c, steps[0]) && AllTimely(Next(c, steps[0]), steps[1..]))
  }

  lemma {:induction false} RunKeepsInv(c: State, steps: seq<Step>)
    requires Inv(c) && AllEnabled(c, steps) && AllTimely(c, steps)
    ensures Inv(Run(c, steps))
    decreases |steps|
  {
    if |steps| != 0 {
      StepKeepsInv(c, steps[0]);
      RunKeepsInv(Next(c, steps[0]), steps[1..]);
    }
  }

  /** Over every run from a new connector, and for every fd, used again as often as the kernel
      likes: it has been opened as often as it has been closed or handed over, and once more
      exactly while it is the one being connected; the poller holds the connector's channel iff
      a connect is under way; and each retry waits as long as its number since the last restart
      says. */
  lemma {:induction false} OwnershipAndBackoff(canRetry: bool, steps: seq<Step>, fd: int)
    requires AllEnabled(Created(canRetry), steps) && AllTimely(Created(canRetry), steps)
    ensures var c := Run(Created(canRetry), steps);
            && multiset(c.sockets)[fd] == multiset(c.closed)[fd] + multiset(c.handed)[fd]
                                          + (if c.status == Connecting && c.channel == Some(fd) then 1 else 0)
            && (fd in c.watched <==> c.status == Connecting && c.channel == Some(fd))
            && (forall k :: 0 <= k < |c.waits| ==> c.waits[k] == Backoff(k))
  {
    assert Pow2(0) == 1;
    RunKeepsInv(Created(canRetry), steps);
  }

  /** What a start does with each errno of connect(): a connect under way, the socket closed and
      a retry set if retries are on, or the socket closed and no more. */
  lemma {:induction false} StartByErrno(c: State, fd: int, errno: Errno)
    requires c.status == Disconnected && c.wanted
    ensures var r := Started(c, fd, errno);
      && r.sockets == c.sockets + [fd] && r.handed == c.handed && r.resets == c.resets
      && match errno
         case OK | EINPROGRESS | EINTR | EISCONN =>
           && r.status == Connecting && r.channel == Some(fd) && r.watched == c.watched + {fd}
           && r.closed == c.closed && r.pending == c.pending && r.waits == c.waits
         case EAGAIN | EADDRINUSE | EADDRNOTAVAIL | ECONNREFUSED | ENETUNREACH =>
           && r.status == Disconnected && r.channel == c.channel && r.watched == c.watched && r.closed == c.closed + [fd]
           && r.pending == c.pending + (if c.canRetry then 1 else 0)
           && r.waits == c.waits + (if c.canRetry then [c.delay] else [])
         case OTHER =>
           && r.status == Disconnected && r.channel == c.channel && r.watched == c.watched && r.closed == c.closed + [fd]
           && r.pending == c.pending && r.waits == c.waits
  {
  }

  /** The delays in milliseconds. */
  lemma {:induction false} BackoffValues(k: nat)
    ensures Backoff(0) == 500 && Backoff(1) == 1000 && Backoff(2) == 2000
    ensures Backoff(3) == 4000 && Backoff(4) == 8000 && Backoff(5) == 16000
    ensures k >= 6 ==> Backoff(k) == 30000
  {
    if k > 6 {
      BackoffValues(k - 1);
      assert Pow2(k) == 2 * Pow2(k - 1);
      assert INIT_RETRY_DELAY_MS * Pow2(k - 1) >= MAX_RETRY_DELAY_MS;
    }
  }

  // ---- What the code does not do -----------------------------------------------------

  /** A connect begun while functors that drop the channel are queued loses its channel to
      them, though the poller still holds it: registration survives the start and every one of
      those functors exactly when there is none. */
  lemma {:induction false} QueuedResetDropsTheNewChannel(c: State, fd: int, errno: Errno)
    requires Inv(c) && c.status == Disconnected && c.wanted && Begins(errno)
    ensures var r := Started(c, fd, errno);
            && Registered(r) && r.resets == c.resets
            && ((forall k :: 0 <= k <= c.resets ==> Registered(DroppedBy(r, k))) <==> c.resets == 0)
            && (c.resets > 0 ==> DroppedBy(r, c.resets).channel == None && fd in DroppedBy(r, c.resets).watched)
  {
    DroppedAll(Started(c, fd, errno));
  }

  /** And it happens: a second startInLoop is queued before the error of the first attempt is
      handled. The error queues the reset, the start in front of it begins the next connect,
      and the reset then drops that one's channel. */
  lemma {:induction false} AChannelIsDropped(canRetry: bool, a: int, b: int)
    ensures var steps := [Want, StartInLoop(a, EINPROGRESS), HandleError];
      var more := [StartInLoop(b, EINPROGRESS), ResetChannel];
      && AllEnabled(Created(canRetry), steps) && AllTimely(Created(canRetry), steps)
      && var c := Run(Created(canRetry), steps);
         && c.status == Disconnected && c.wanted && c.resets == 1
         && AllEnabled(c, more) && Run(c, more).status == Connecting
         && Run(c, more).channel == None && b in Run(c, more).watched
  {
    var s0, s1, s2, s3, s4 := Want, StartInLoop(a, EINPROGRESS), HandleError, StartInLoop(b, EINPROGRESS), ResetChannel;
    var c1 := Next(Created(canRetry), s0);
    var c2 := Next(c1, s1);
    var c3 := Next(c2, s2);
    var c4 := Next(c3, s3);
    Alone(c2, s2);
    Cons(c1, s1, [s2]);
    Cons(Created(canRetry), s0, [s1, s2]);
    Alone(c4, s4);
    Cons(c3, s3, [s4]);
  }

  /** The steps the loop takes by itself. */
  predicate FromLoop(s: Step) {
    s.RetryFires? || s.HandleWrite? || s.HandleError? || s.ResetChannel?
  }

  lemma {:induction false} StaysDown(c: State, steps: seq<Step>)
    requires !c.timerAlive && c.status == Disconnected && AllEnabled(c, steps)
    requires forall s :: s in steps ==> FromLoop(s)
    ensures Run(c, steps).status == Disconnected && Run(c, steps).sockets == c.sockets
    decreases |steps|
  {
    if |steps| != 0 {
      assert FromLoop(steps[0]);
      StaysDown(Next(c, steps[0]), steps[1..]);
    }
  }

  /** A run of the loop that opens a socket. */
  ghost predicate Opens(c: State, more: seq<Step>) {
    AllEnabled(c, more) && (forall s :: s in more ==> FromLoop(s)) && Run(c, more).sockets != c.sockets
  }

  /** Over every timely run: a retry that has been set is performed by some run of the loop if
      and only if no connection has ever been handed over, because the first one takes the
      timer out of the loop for good. */
  lemma {:induction false} RetryHappensUntilASuccess(canRetry: bool, steps: seq<Step>)
    requires AllEnabled(Created(canRetry), steps) && AllTimely(Created(canRetry), steps)
    requires var c := Run(Created(canRetry), steps); c.status == Disconnected && c.pending > 0
    ensures var c := Run(Created(canRetry), steps); (exists more :: Opens(c, more)) <==> c.handed == []
  {
    assert Pow2(0) == 1;
    RunKeepsInv(Created(canRetry), steps);
    RetryOpens(Run(Created(canRetry), steps));
  }

  lemma {:induction false} RetryOpens(c: State)
    requires Inv(c) && c.status == Disconnected && c.pending > 0
    ensures (exists more :: Opens(c, more)) <==> c.handed == []
  {
    if c.handed == [] {
      var retry := RetryFires(0, EINPROGRESS);
      var more := [retry];
      assert more[1..] == [] && Run(c, more) == Next(c, retry);
      assert |Run(c, more).sockets| == |c.sockets| + 1;
      forall s | s in more ensures FromLoop(s) {
        assert s == retry;
      }
      assert Opens(c, more);
    } else {
      forall more | AllEnabled(c, more) && forall s :: s in more ==> FromLoop(s)
        ensures Run(c, more).sockets == c.sockets
      {
        StaysDown(c, more);
      }
    }
  }

  /** For example: after a success a restart is refused, a retry is set for 500 ms, and never
      happens, whatever steps the loop takes from there. */
  lemma {:induction false} NoRetryAfterASuccess(a: int, b: int, more: seq<Step>)
    ensures var steps := [Want, StartInLoop(a, EINPROGRESS), HandleWrite(false), ResetChannel, Restart(b, ECONNREFUSED)];
      && AllEnabled(Created(true), steps) && AllTimely(Created(true), steps)
      && var c := Run(Created(true), steps);
         && c.waits == [500] && c.pending == 1 && c.status == Disconnected && c.sockets == [a, b]
         && (AllEnabled(c, more) && (forall s :: s in more ==> FromLoop(s)) ==> Run(c, more).sockets == [a, b])
  {
    var s0, s1, s2, s3, s4 := Want, StartInLoop(a, EINPROGRESS), HandleWrite(false), ResetChannel, Restart(b, ECONNREFUSED);
    var c1 := Next(Created(true), s0);
    var c2 := Next(c1, s1);
    var c3 := Next(c2, s2);
    RefusedLater(c3, a, b);
    Cons(c2, s2, [s3, s4]);
    Cons(c1, s1, [s2, s3, s4]);
    Cons(Created(true), s0, [s1, s2, s3, s4]);
    var c := Run(c3, [s3, s4]);
    if AllEnabled(c, more) && forall s :: s in more ==> FromLoop(s) {
      StaysDown(c, more);
    }
  }

  lemma {:induction false} RefusedLater(c: State, a: int, b: int)
    requires c.status == Connected && c.resets == 1 && c.watched == {} && c.sockets == [a] && c.canRetry
    requires !c.timerAlive && c.pending == 0
    ensures var steps := [ResetChannel, Restart(b, ECONNREFUSED)];
      && AllEnabled(c, steps) && AllTimely(c, steps)
      && var r := Run(c, steps);
         r.waits == [500] && r.pending == 1 && r.status == Disconnected && r.sockets == [a, b] && !r.timerAlive
  {
    var dropped := Next(c, ResetChannel);
    Alone(dropped, Restart(b, ECONNREFUSED));
    Cons(c, ResetChannel, [Restart(b, ECONNREFUSED)]);
  }

  lemma {:induction false} Alone(c: State, s: Step)
    requires Enabled(c, s)
    ensures AllEnabled(c, [s]) && Run(c, [s]) == Next(c, s) && (AllTimely(c, [s]) <==> Timely(c, s))
  {
    assert [s][1..] == [];
  }

  lemma {:induction false} Cons(c: State, s: Step, steps: seq<Step>)
    requires Enabled(c, s) && AllEnabled(Next(c, s), steps)
    ensures AllEnabled(c, [s] + steps) && Run(c, [s] + steps) == Run(Next(c, s), steps)
    ensures AllTimely(c, [s] + steps) <==> Timely(c, s) && AllTimely(Next(c, s), steps)
  {
    assert ([s] + steps)[1..] == steps;
  }
}
