/** TimerEvent and Timer as the source runs them: events are objects whose arrival times are
    rewritten in place, some while they still stand in the ordered set. */
module Timers {
  import opened Bytes
  import opened TimerQueue
  import opened TimerCallbacks

  class TimerEvent {
    const addr: nat
    const cb: Option<nat>
    const timer: Timer
    var recycle: bool
    var arrive: Millis
    var interval: Millis

    constructor (addr: nat, interval: Millis, cb: Option<nat>, recycle: bool, timer: Timer, now: Millis)
      ensures View() == Event(addr, Plus(now, interval), interval, recycle, cb) && this.timer == timer
      ensures arrive == (now + interval) % MILLIS_BOUND
    {
      SixtyFourBits(now, interval);
      this.addr, this.cb, this.timer := addr, cb, timer;
      this.recycle, this.interval, this.arrive := recycle, interval, Plus(now, interval);
    }

    function View(): Event
      reads this
    {
      Event(addr, arrive, interval, recycle, cb)
    }

    method ResetArrive(now: Millis)
      modifies `arrive
      ensures arrive == Plus(now, interval) == (now + interval) % MILLIS_BOUND
    {
      SixtyFourBits(now, interval);
      arrive := Plus(now, interval);
    }

    method Cancel(now: Millis)
      requires timer.Valid() && timer.Knows(this)
      modifies timer
      ensures timer.Valid() && timer.Model() == DelTimer(old(timer.Model()), View(), now)
      ensures this !in timer.timers && forall t :: t in timer.timers ==> t in old(timer.timers)
    {
      timer.Delete(this, now);
    }

    method Reschedule(interval: Millis, startNow: bool, clock: Clock)
      requires timer.Valid() && timer.Knows(this)
      modifies this, timer
      ensures timer.Valid()
      ensures timer.Model() == ResetInterval(old(timer.Model()), old(View()), interval, startNow, clock)
      ensures View() == if interval == old(this.interval) && !startNow then old(View())
                        else Rescheduled(old(View()), interval, startNow, clock(1))
    {
      if interval == this.interval && !startNow {
        return;
      }
      Cancel(clock(0));
      var startTime := if startNow then clock(1) else Minus(arrive, this.interval);
      arrive := Plus(startTime, interval);
      this.interval := interval;
      timer.AddTimer(this, true, clock(2));
    }
  }

  /** `v` are the present states of the events `s`. */
  predicate Shows(s: seq<TimerEvent>, v: seq<Event>)
    reads s
  {
    |s| == |v| && forall i :: 0 <= i < |s| ==> s[i].View() == v[i]
  }

  lemma {:induction false} ShowsAppend(a: seq<TimerEvent>, va: seq<Event>, b: seq<TimerEvent>, vb: seq<Event>)
    requires Shows(a, va) && Shows(b, vb)
    ensures Shows(a + b, va + vb)
  {
  }

  lemma {:induction false} ShowsCut(s: seq<TimerEvent>, v: seq<Event>, n: nat)
    requires Shows(s, v) && n <= |s|
    ensures Shows(s[..n], v[..n]) && Shows(s[n..], v[n..])
  {
  }

  class Timer {
    var timers: seq<TimerEvent>
    /** The state of the timerfd. */
    var deadline: Option<Millis>
    /** The states of the events in the set. */
    ghost var events: seq<Event>

    constructor ()
      ensures Valid() && Model() == Queue([], None)
    {
      timers, deadline, events := [], None, [];
    }

    ghost function Model(): Queue
      reads this
    {
      Queue(events, deadline)
    }

    ghost predicate Valid()
      reads this, timers
    {
      Shows(timers, events) && Ordered(events)
    }

    /** One object per address. */
    predicate Knows(e: TimerEvent)
      reads this
    {
      forall t :: t in timers && t.addr == e.addr ==> t == e
    }

    lemma {:induction false} KnownIsSame(e: TimerEvent)
      requires Shows(timers, events) && Knows(e)
      ensures SameObject(events, e.View())
    {
      forall x | x in events && x.addr == e.addr ensures x == e.View() {
        var k :| 0 <= k < |events| && events[k] == x;
        assert timers[k].View() == x;
      }
    }

    /** The search of the ordered set. */
    method Find(e: TimerEvent) returns (n: nat)
      requires Shows(timers, events)
      ensures n == Position(events, e.View())
    {
      n := 0;
      while n < |timers| && Before(timers[n].View(), e.View())
        invariant n <= |timers| && Position(events, e.View()) == n + Position(events[n..], e.View())
      {
        assert events[n..][1..] == events[n + 1..];
        n := n + 1;
      }
    }

    /** std::set::insert. */
    method InsertEvent(e: TimerEvent)
      requires Shows(timers, events)
      modifies `timers, `events
      ensures Shows(timers, events) && events == Insert(old(events), e.View())
      ensures forall t :: t in timers ==> t in old(timers) || t == e
    {
      var n := Find(e);
      if n == |timers| || Before(e.View(), timers[n].View()) {
        ShowsCut(timers, events, n);
        ShowsAppend(timers[..n], events[..n], [e], [e.View()]);
        ShowsAppend(timers[..n] + [e], events[..n] + [e.View()], timers[n..], events[n..]);
        timers, events := timers[..n] + [e] + timers[n..], events[..n] + [e.View()] + events[n..];
      }
    }

    /** std::set::find followed by std::set::erase; tells whether and where the event was. */
    method EraseEvent(e: TimerEvent) returns (found: bool, n: nat)
      requires Shows(timers, events)
      modifies `timers, `events
      ensures Shows(timers, events) && events == Erase(old(events), e.View())
      ensures n == Position(old(events), e.View()) && (found <==> Present(old(events), e.View()))
      ensures forall t :: t in timers ==> t in old(timers)
    {
      n := Find(e);
      found := n < |timers| && !Before(e.View(), timers[n].View());
      if found {
        ShowsCut(timers, events, n);
        ShowsCut(timers, events, n + 1);
        ShowsAppend(timers[..n], events[..n], timers[n + 1..], events[n + 1..]);
        timers, events := timers[..n] + timers[n + 1..], events[..n] + events[n + 1..];
      }
    }

    method AddTimer(e: TimerEvent, reset: bool, now: Millis)
      requires Valid() && Knows(e)
      modifies this
      ensures Valid() && Model() == TimerQueue.AddTimer(old(Model()), e.View(), reset, now)
      ensures forall t :: t in timers ==> t in old(timers) || t == e
    {
      KnownIsSame(e);
      AddKeepsOrder(Model(), e.View(), reset, now);
      var need := timers == [] || e.arrive < timers[0].arrive;
      InsertEvent(e);
      if need && reset {
        ResetArriveTime(now);
      }
    }

    /** Whether the first element was deleted is decided before the erasure; when the set
        becomes empty the answer does not matter. */
    method Delete(e: TimerEvent, now: Millis)
      requires Valid() && Knows(e)
      modifies this
      ensures Valid() && Model() == DelTimer(old(Model()), e.View(), now)
      ensures e !in timers && forall t :: t in timers ==> t in old(timers)
    {
      KnownIsSame(e);
      DelKeepsOrder(Model(), e.View(), now);
      var found, n := EraseEvent(e);
      NotAmong(e);
      if !found {
        return;
      }
      var reset := n == 0 && timers != [] && e.arrive < timers[0].arrive;
      if reset {
        ResetArriveTime(now);
      }
    }

    lemma {:induction false} NotAmong(e: TimerEvent)
      requires Shows(timers, events) && e.View() !in events
      ensures e !in timers
    {
      forall k | 0 <= k < |timers| ensures timers[k] != e {
        assert events[k] in events;
      }
    }

    /** The overdue prefix goes. */
    method DropOverdue(now: Millis)
      requires Shows(timers, events)
      modifies `timers, `events
      ensures Shows(timers, events) && events == old(events)[Stale(old(events), now)..]
      ensures forall t :: t in timers ==> t in old(timers)
    {
      ghost var n := 0;
      while timers != [] && timers[0].arrive < now
        invariant n <= |old(timers)| && timers == old(timers)[n..] && events == old(events)[n..]
        invariant Shows(timers, events)
        invariant Stale(old(events), now) == n + Stale(events, now)
        decreases |timers|
      {
        timers, events := timers[1..], events[1..];
        n := n + 1;
      }
    }

    method SetDeadline(now: Millis)
      requires timers != [] && timers[0].arrive >= now
      modifies `deadline
      ensures deadline == Armed(now, timers[0].arrive)
    {
      var diff := timers[0].arrive - now;
      SetTimeIsExact(now, timers[0].arrive);
      var expiry := SetTime(now, Spec(diff));
      deadline := if expiry.None? then None else Some(expiry.value);
    }

    method ResetArriveTime(now: Millis)
      requires Shows(timers, events)
      modifies this
      ensures Shows(timers, events) && Model() == TimerQueue.ResetArriveTime(old(Model()), now)
      ensures forall t :: t in timers ==> t in old(timers)
    {
      if timers == [] {
        return;
      }
      DropOverdue(now);
      if timers == [] {
        return;
      }
      SetDeadline(now);
    }

    /** Where the scan stands: `ready` has been passed, `rest` is still to visit. */
    ghost predicate Scanned(v: seq<Event>, n: nat, again: seq<TimerEvent>, rest: seq<TimerEvent>,
                            renewed: seq<Event>, clock: Clock)
      reads again, rest
    {
      && n <= |v| && Due(v, clock(0)) == n + Due(v[n..], clock(0))
      && Shows(rest, v[n..]) && NoRepeats(rest)
      && renewed == Recycled(v[..n], clock) && Shows(again, renewed) && Apart(again, rest)
    }

    /** The scan of the set: it rewrites the arrival time of every recycled event it passes,
        while that event still stands in the set, and stops at the first event that has yet
        to arrive. */
    method Scan(clock: Clock) returns (ready: seq<TimerEvent>, again: seq<TimerEvent>, it: nat, ghost renewed: seq<Event>)
      requires Shows(timers, events) && NoRepeats(timers)
      modifies timers
      ensures it <= |timers| && ready == timers[..it]
      ensures Scanned(events, it, again, timers[it..], renewed, clock)
      ensures it < |timers| ==> timers[it].arrive > clock(0)
    {
      ready, again, it, renewed := [], [], 0, [];
      ScanStart(clock);
      while it < |timers| && timers[it].arrive <= clock(0)
        invariant it <= |timers| && ready == timers[..it]
        invariant Scanned(events, it, again, timers[it..], renewed, clock)
      {
        Advance(timers, it);
        again, renewed := Pass(events, it, timers[it], again, timers[it..], timers[it + 1..], renewed, clock);
        ready := ready + [timers[it]];
        it := it + 1;
      }
    }

    lemma {:induction false} ScanStart(clock: Clock)
      requires Shows(timers, events) && NoRepeats(timers)
      ensures Scanned(events, 0, [], timers[0..], [], clock)
    {
      assert events[0..] == events && timers[0..] == timers;
    }

    lemma {:induction false} ScanEnd(v: seq<Event>, it: nat, again: seq<TimerEvent>, rest: seq<TimerEvent>,
                                     renewed: seq<Event>, clock: Clock)
      requires Scanned(v, it, again, rest, renewed, clock)
      requires rest != [] ==> rest[0].arrive > clock(0)
      ensures it == Due(v, clock(0)) && Shows(rest, v[it..]) && Shows(again, renewed)
      ensures renewed == Recycled(v[..it], clock)
    {
    }

    method Pass(ghost v: seq<Event>, ghost n: nat, e: TimerEvent, again: seq<TimerEvent>, rest: seq<TimerEvent>,
                rest': seq<TimerEvent>, ghost renewed: seq<Event>, clock: Clock)
      returns (again': seq<TimerEvent>, ghost renewed': seq<Event>)
      requires Scanned(v, n, again, rest, renewed, clock)
      requires rest != [] && rest[0] == e && e.arrive <= clock(0) && rest' == rest[1..]
      modifies e
      ensures Scanned(v, n + 1, again', rest', renewed', clock)
    {
      ScanStep(v, n, clock);
      again', renewed' := PassOne(rest, v[n..], again, renewed, clock);
    }

    static method PassOne(rest: seq<TimerEvent>, ghost v: seq<Event>, again: seq<TimerEvent>, ghost renewed: seq<Event>,
                       clock: Clock)
      returns (again': seq<TimerEvent>, ghost renewed': seq<Event>)
      requires rest != [] && Shows(rest, v) && NoRepeats(rest)
      requires Shows(again, renewed) && Apart(again, rest)
      modifies rest[0]
      ensures again' == if v[0].recycle then again + [rest[0]] else again
      ensures renewed' == if v[0].recycle then renewed + [v[0].(arrive := Plus(clock(1 + |renewed|), v[0].interval))]
                          else renewed
      ensures Shows(again', renewed') && Shows(rest[1..], v[1..])
      ensures NoRepeats(rest[1..]) && Apart(again', rest[1..])
    {
      again', renewed' := again, renewed;
      var e := rest[0];
      if e.recycle {
        e.ResetArrive(clock(1 + |again|));
        again' := again + [e];
        renewed' := renewed + [e.View()];
      }
    }

    /** What is done under the lock: scan, then erase what was passed. */
    method Collect(clock: Clock) returns (ready: seq<TimerEvent>, again: seq<TimerEvent>, ghost renewed: seq<Event>)
      requires Shows(timers, events) && NoRepeats(timers)
      modifies this, timers
      ensures deadline == old(deadline) && Shows(timers, events)
      ensures events == old(events)[Due(old(events), clock(0))..]
      ensures renewed == Recycled(Ready(old(Model()), clock(0)), clock) && Shows(again, renewed)
      ensures |ready| == |Ready(old(Model()), clock(0))|
      ensures forall k :: 0 <= k < |ready| ==> ready[k].cb == Ready(old(Model()), clock(0))[k].cb
    {
      var it;
      assert forall k :: 0 <= k < |timers| ==> timers[k].View() == events[k];
      ready, again, it, renewed := Scan(clock);
      ScanEnd(events, it, again, timers[it..], renewed, clock);
      timers, events := timers[it..], events[it..];
    }

    /** The recycled events go back, without re-arming. */
    method Readd(again: seq<TimerEvent>, ghost renewed: seq<Event>)
      requires Valid() && Shows(again, renewed) && Distinct(renewed) && Addrs(events) !! Addrs(renewed)
      modifies this
      ensures Shows(timers, events) && Ordered(events) && deadline == old(deadline)
      ensures events == InsertAll(old(events), renewed)
    {
      var i := 0;
      while i < |again|
        invariant i <= |again| && Shows(timers, events) && deadline == old(deadline)
        invariant Ordered(events) && events == InsertAll(old(events), renewed[..i])
      {
        NewAddress(old(events), renewed, i, again[i]);
        AddTimer(again[i], false, 0);
        assert renewed[..i + 1][..i] == renewed[..i];
        i := i + 1;
      }
      assert renewed[..i] == renewed;
    }

    lemma {:induction false} NewAddress(rest: seq<Event>, renewed: seq<Event>, i: nat, e: TimerEvent)
      requires Shows(timers, events) && Ordered(rest) && Distinct(renewed) && Addrs(rest) !! Addrs(renewed)
      requires i < |renewed| && e.addr == renewed[i].addr && events == InsertAll(rest, renewed[..i])
      ensures Knows(e)
    {
      AddrsOfPrefix(renewed, i);
      InsertAllKeepsOrder(rest, renewed[..i]);
      forall k | 0 <= k < |timers| ensures timers[k].addr != e.addr {
        assert events[k] in events && timers[k].addr == events[k].addr;
        assert events[k] in rest ==> events[k].addr in Addrs(rest);
        assert renewed[i].addr in Addrs(renewed);
      }
    }

    static method RunCallbacks(ready: seq<TimerEvent>, ghost v: seq<Event>) returns (ran: seq<nat>)
      requires |ready| == |v| && forall k :: 0 <= k < |v| ==> ready[k].cb == v[k].cb
      ensures ran == Callbacks(v)
    {
      ran := [];
      var i := 0;
      while i < |ready|
        invariant i <= |ready| && ran == Callbacks(v[..i])
      {
        assert v[..i + 1][..i] == v[..i];
        if ready[i].cb.Some? {
          ran := ran + [ready[i].cb.value];
        }
        i := i + 1;
      }
      assert v[..i] == v;
    }

    /** The expired events are taken out and the recycled ones put back. */
    method Replace(clock: Clock) returns (ready: seq<TimerEvent>, n: nat)
      requires Valid()
      modifies this, timers
      ensures Shows(timers, events) && deadline == old(deadline) && events == Replaced(old(Model()), clock)
      ensures n == |Recycled(Ready(old(Model()), clock(0)), clock)|
      ensures |ready| == |Ready(old(Model()), clock(0))|
      ensures forall k :: 0 <= k < |ready| ==> ready[k].cb == Ready(old(Model()), clock(0))[k].cb
    {
      ghost var q := Model();
      ObjectsDiffer();
      RecycledApart(q, clock);
      FiringKeepsOrder(q, clock);
      var again;
      ghost var renewed;
      ready, again, renewed := Collect(clock);
      Readd(again, renewed);
      n := |again|;
    }

    /** `ran` are the callbacks, in the order they run. */
    method OnTimer(clock: Clock) returns (ran: seq<nat>)
      requires Valid()
      modifies this, timers
      ensures Valid() && Model() == Fired(old(Model()), clock)
      ensures ran == Ran(old(Model()), clock) && InOrder(old(events), clock(0), ran)
    {
      ghost var q := Model();
      RanInOrder(q, clock);
      FiringKeepsOrder(q, clock);
      var ready, n := Replace(clock);
      ResetArriveTime(clock(1 + n));
      ran := RunCallbacks(ready, Ready(q, clock(0)));
    }

    lemma {:induction false} ObjectsDiffer()
      requires Valid()
      ensures NoRepeats(timers)
    {
    }
  }

  lemma {:induction false} Advance(s: seq<TimerEvent>, n: nat)
    requires n < |s|
    ensures s[..n] + [s[n]] == s[..n + 1] && s[n..][0] == s[n] && s[n..][1..] == s[n + 1..]
  {
  }

  predicate Apart(a: seq<TimerEvent>, b: seq<TimerEvent>) {
    forall i, j :: 0 <= i < |a| && 0 <= j < |b| ==> a[i] != b[j]
  }

  predicate NoRepeats(s: seq<TimerEvent>) {
    forall i, j :: 0 <= i < j < |s| ==> s[i] != s[j]
  }
}
