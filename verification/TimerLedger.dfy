/** Where every event of the timer queue goes, over whole runs: into the set, and out of it by
    being run, deleted or dropped. */
module TimerLedger {
  import opened Bytes
  import opened TimerQueue

  /** The events an operation puts into the set; a recycled event enters again. */
  function Entered(q: Queue, op: Op): seq<Event> {
    match op
    case Add(e, _) => EnteredByAdd(q, e)
    case Del(_, _) => []
    case Reset(e, interval, startNow, clock) =>
      if interval == e.interval && !startNow then []
      else EnteredByAdd(DelTimer(q, e, clock(0)), Rescheduled(e, interval, startNow, clock(1)))
    case Fire(clock) => Recycled(Ready(q, clock(0)), clock)
  }

  function EnteredByAdd(q: Queue, e: Event): seq<Event> {
    if Present(q.timers, e) then [] else [e]
  }

  /** The events whose callbacks it runs. */
  function Fires(q: Queue, op: Op): seq<Event> {
    if op.Fire? then Arrived(q.timers, op.clock(0)) else []
  }

  /** The event it deletes: rescheduling deletes and enters. */
  function Deleted(q: Queue, op: Op): seq<Event> {
    if op.Fire? || op.Add? || (op.Reset? && op.interval == op.e.interval && !op.startNow) || !Present(q.timers, op.e) then []
    else [op.e]
  }

  /** A call of resetArriveTime: the queue it finds and its reading of the clock. */
  datatype Rearm = Rearm(before: Queue, now: Millis)

  function RearmsOfAdd(q: Queue, e: Event, now: Millis): seq<Rearm> {
    if Leads(q, e) then [Rearm(q.(timers := Insert(q.timers, e)), now)] else []
  }

  function RearmsOfDel(q: Queue, e: Event, now: Millis): seq<Rearm> {
    if Uncovers(q, e) then [Rearm(q.(timers := Erase(q.timers, e)), now)] else []
  }

  function Rearms(q: Queue, op: Op): seq<Rearm> {
    match op
    case Add(e, now) => RearmsOfAdd(q, e, now)
    case Del(e, now) => RearmsOfDel(q, e, now)
    case Reset(e, interval, startNow, clock) =>
      if interval == e.interval && !startNow then []
      else RearmsOfDel(q, e, clock(0))
           + RearmsOfAdd(DelTimer(q, e, clock(0)), Rescheduled(e, interval, startNow, clock(1)), clock(2))
    case Fire(clock) => [Rearm(q.(timers := Replaced(q, clock)), LastReading(q, clock))]
  }

  /** What one of them drops. */
  function Overdue(r: Rearm): (s: seq<Event>)
    ensures forall e :: e in s ==> e in r.before.timers && e.arrive < r.now
  {
    r.before.timers[..Stale(r.before.timers, r.now)]
  }

  function Dropped(rs: seq<Rearm>): seq<Event> {
    if rs == [] then [] else Overdue(rs[0]) + Dropped(rs[1..])
  }

  /** The reading is not above the earliest arrival. */
  predicate InTime(r: Rearm) {
    r.before.timers == [] || r.now <= r.before.timers[0].arrive
  }

  // ---- one operation --------------------------------------------------------

  /** How often `x` occurs in `s`. */
  function Count(s: seq<Event>, x: Event): nat {
    if s == [] then 0 else (if s[0] == x then 1 else 0) + Count(s[1..], x)
  }

  lemma {:induction false} CountIsMultiplicity(s: seq<Event>, x: Event)
    ensures Count(s, x) == multiset(s)[x]
  {
    if s != [] {
      CountIsMultiplicity(s[1..], x);
      assert s == [s[0]] + s[1..];
      assert multiset(s) == multiset{s[0]} + multiset(s[1..]);
    }
  }

  /** The timerfd is re-armed by adding an event earlier than all that wait, by deleting the
      first of several when the next is strictly later, and by every firing. */
  lemma {:induction false} WhenRearmed(q: Queue, e: Event, now: Millis, clock: Clock)
    requires Ordered(q.timers) && SameObject(q.timers, e)
    ensures Rearms(q, Add(e, now)) != [] <==> forall x :: x in q.timers ==> e.arrive < x.arrive
    ensures Rearms(q, Del(e, now)) != [] <==>
            |q.timers| > 1 && q.timers[0] == e && q.timers[0].arrive < q.timers[1].arrive
    ensures |Rearms(q, Fire(clock))| == 1
  {
    FirstIsEarliest(q.timers, e);
    Presence(q.timers, e);
    if Present(q.timers, e) && Position(q.timers, e) == 0 {
      assert Erase(q.timers, e) == q.timers[1..];
    }
    if q.timers != [] && q.timers[0] == e {
      assert e in q.timers;
      FirstIsAtZero(q.timers);
    }
  }

  lemma {:induction false} FirstIsAtZero(s: seq<Event>)
    requires s != []
    ensures Position(s, s[0]) == 0
  {
  }

  lemma {:induction false} FirstIsEarliest(s: seq<Event>, e: Event)
    requires Ordered(s)
    ensures (s == [] || e.arrive < s[0].arrive) <==> forall x :: x in s ==> e.arrive < x.arrive
  {
    if s != [] {
      forall x | x in s ensures s[0].arrive <= x.arrive {
        var k :| 0 <= k < |s| && s[k] == x;
        assert k > 0 ==> Before(s[0], s[k]);
      }
      assert s[0] in s;
    }
  }

  lemma {:induction false} CountAppend(a: seq<Event>, b: seq<Event>, x: Event)
    ensures Count(a + b, x) == Count(a, x) + Count(b, x)
  {
    if a == [] {
      assert a + b == b;
    } else {
      assert (a + b)[0] == a[0] && (a + b)[1..] == a[1..] + b;
      CountAppend(a[1..], b, x);
    }
  }

  lemma {:induction false} CountCut(s: seq<Event>, n: nat, x: Event)
    requires n <= |s|
    ensures Count(s, x) == Count(s[..n], x) + Count(s[n..], x)
  {
    assert s == s[..n] + s[n..];
    CountAppend(s[..n], s[n..], x);
  }

  lemma {:induction false} CountSpliced(a: seq<Event>, e: Event, b: seq<Event>, x: Event)
    ensures Count(a + [e] + b, x) == Count(a, x) + Count([e], x) + Count(b, x)
  {
    CountAppend(a + [e], b, x);
    CountAppend(a, [e], x);
  }

  lemma {:induction false} InsertCounts(s: seq<Event>, e: Event, x: Event)
    ensures Count(Insert(s, e), x) == Count(s, x) + if Present(s, e) then 0 else Count([e], x)
  {
    var n := Position(s, e);
    CountCut(s, n, x);
    CountSpliced(s[..n], e, s[n..], x);
  }

  lemma {:induction false} EraseCounts(s: seq<Event>, e: Event, x: Event)
    requires Ordered(s) && SameObject(s, e)
    ensures Count(s, x) == Count(Erase(s, e), x) + if Present(s, e) then Count([e], x) else 0
  {
    Presence(s, e);
    if Present(s, e) {
      var n := Position(s, e);
      assert s == s[..n] + [e] + s[n + 1..];
      CountSpliced(s[..n], e, s[n + 1..], x);
      CountAppend(s[..n], s[n + 1..], x);
    }
  }

  lemma {:induction false} RearmCounts(q: Queue, now: Millis, x: Event)
    ensures Count(q.timers, x) == Count(ResetArriveTime(q, now).timers, x) + Count(Dropped([Rearm(q, now)]), x)
  {
    CountCut(q.timers, Stale(q.timers, now), x);
    OneDropped(Rearm(q, now));
  }

  lemma {:induction false} OneDropped(r: Rearm)
    ensures Dropped([r]) == Overdue(r)
  {
    assert [r][1..] == [] && Overdue(r) + [] == Overdue(r);
  }

  lemma {:induction false} AddCounts(q: Queue, e: Event, now: Millis, x: Event)
    ensures Count(q.timers, x) + Count(EnteredByAdd(q, e), x)
         == Count(AddTimer(q, e, true, now).timers, x) + Count(Dropped(RearmsOfAdd(q, e, now)), x)
  {
    InsertCounts(q.timers, e, x);
    if Leads(q, e) {
      RearmCounts(q.(timers := Insert(q.timers, e)), now, x);
    }
  }

  lemma {:induction false} DelCounts(q: Queue, e: Event, now: Millis, x: Event)
    requires Ordered(q.timers) && SameObject(q.timers, e)
    ensures Count(q.timers, x) == Count(DelTimer(q, e, now).timers, x) + Count(Deleted(q, Del(e, now)), x)
                                  + Count(Dropped(RearmsOfDel(q, e, now)), x)
  {
    EraseCounts(q.timers, e, x);
    if Uncovers(q, e) {
      RearmCounts(q.(timers := Erase(q.timers, e)), now, x);
    }
  }

  lemma {:induction false} DroppedAppend(a: seq<Rearm>, b: seq<Rearm>)
    ensures Dropped(a + b) == Dropped(a) + Dropped(b)
  {
    if a == [] {
      assert a + b == b;
    } else {
      assert (a + b)[0] == a[0] && (a + b)[1..] == a[1..] + b;
      DroppedAppend(a[1..], b);
    }
  }

  lemma {:induction false} InsertAllCounts(s: seq<Event>, xs: seq<Event>, x: Event)
    requires Ordered(s) && Distinct(xs) && Addrs(s) !! Addrs(xs)
    ensures Count(InsertAll(s, xs), x) == Count(s, x) + Count(xs, x)
    decreases |xs|
  {
    if xs != [] {
      var n := |xs| - 1;
      AddrsOfPrefix(xs, n);
      InsertAllCounts(s, xs[..n], x);
      NotAmong(s, xs[..n], xs[n]);
      InsertCounts(InsertAll(s, xs[..n]), xs[n], x);
      CountCut(xs, n, x);
      assert xs[n..] == [xs[n]];
    }
  }

  lemma {:induction false} NotAmong(s: seq<Event>, xs: seq<Event>, e: Event)
    requires Ordered(s) && Distinct(xs) && Addrs(s) !! Addrs(xs) && e.addr !in Addrs(s) && e.addr !in Addrs(xs)
    ensures !Present(InsertAll(s, xs), e)
  {
    var r := InsertAll(s, xs);
    InsertAllKeepsOrder(s, xs);
    forall x | x in r ensures x.addr != e.addr {
      assert x in s ==> x.addr in Addrs(s);
      assert x in xs ==> x.addr in Addrs(xs);
    }
    Presence(r, e);
  }

  lemma {:induction false} FireCounts(q: Queue, clock: Clock, x: Event)
    requires Ordered(q.timers)
    ensures Count(q.timers, x) + Count(Recycled(Ready(q, clock(0)), clock), x)
         == Count(Fired(q, clock).timers, x) + Count(Arrived(q.timers, clock(0)), x)
            + Count(Dropped(Rearms(q, Fire(clock))), x)
  {
    FiresExactlyTheArrived(q.timers, clock(0));
    CountCut(q.timers, Due(q.timers, clock(0)), x);
    ReplacedCounts(q, clock, x);
    RearmCounts(q.(timers := Replaced(q, clock)), LastReading(q, clock), x);
  }

  lemma {:induction false} ReplacedCounts(q: Queue, clock: Clock, x: Event)
    requires Ordered(q.timers)
    ensures Count(Replaced(q, clock), x)
         == Count(q.timers[Due(q.timers, clock(0))..], x) + Count(Recycled(Ready(q, clock(0)), clock), x)
  {
    RecycledApart(q, clock);
    FiringKeepsOrder(q, clock);
    InsertAllCounts(q.timers[Due(q.timers, clock(0))..], Recycled(Ready(q, clock(0)), clock), x);
  }

  lemma {:induction false} RescheduleCounts(q: Queue, e: Event, interval: Millis, startNow: bool, clock: Clock, x: Event)
    requires Ordered(q.timers) && SameObject(q.timers, e) && (interval != e.interval || startNow)
    ensures var op := Reset(e, interval, startNow, clock);
      Count(q.timers, x) + Count(Entered(q, op), x)
        == Count(Apply(q, op).timers, x) + Count(Deleted(q, op), x) + Count(Dropped(Rearms(q, op)), x)
  {
    var q1, e1 := DelTimer(q, e, clock(0)), Rescheduled(e, interval, startNow, clock(1));
    var a, b := RearmsOfDel(q, e, clock(0)), RearmsOfAdd(q1, e1, clock(2));
    DelCounts(q, e, clock(0), x);
    AddCounts(q1, e1, clock(2), x);
    DroppedAppend(a, b);
    CountAppend(Dropped(a), Dropped(b), x);
  }

  /** What was in the set or has entered it is in the set, or was run, deleted or dropped. */
  lemma {:induction false} StepCounts(q: Queue, op: Op, x: Event)
    requires Ordered(q.timers) && OwnObject(q, op)
    ensures Count(q.timers, x) + Count(Entered(q, op), x)
         == Count(Apply(q, op).timers, x) + Count(Fires(q, op), x) + Count(Deleted(q, op), x) + Count(Dropped(Rearms(q, op)), x)
  {
    match op
    case Add(e, now) => AddCounts(q, e, now, x);
    case Del(e, now) => DelCounts(q, e, now, x);
    case Reset(e, interval, startNow, clock) =>
      if interval != e.interval || startNow {
        RescheduleCounts(q, e, interval, startNow, clock, x);
      }
    case Fire(clock) => FireCounts(q, clock, x);
  }

  lemma {:induction false} StepKeepsOrder(q: Queue, op: Op)
    requires Ordered(q.timers) && OwnObject(q, op)
    ensures Ordered(Apply(q, op).timers)
  {
    match op
    case Add(e, now) => AddKeepsOrder(q, e, true, now);
    case Del(e, now) => DelKeepsOrder(q, e, now);
    case Reset(e, interval, startNow, clock) =>
      if interval != e.interval || startNow {
        RescheduleKeepsOrder(q, e, Rescheduled(e, interval, startNow, clock(1)), clock(0), clock(2));
      }
    case Fire(clock) => FiringKeepsOrder(q, clock);
  }

  lemma {:induction false} RescheduleKeepsOrder(q: Queue, e: Event, e1: Event, del: Millis, add: Millis)
    requires Ordered(q.timers) && SameObject(q.timers, e) && e1.addr == e.addr
    ensures Ordered(AddTimer(DelTimer(q, e, del), e1, true, add).timers)
  {
    EraseKeepsOrder(q.timers, e);
    ResetIsExact(q.(timers := Erase(q.timers, e)), del);
    AddKeepsOrder(DelTimer(q, e, del), e1, true, add);
  }

  // ---- runs -----------------------------------------------------------------

  function AllEntered(q: Queue, ops: seq<Op>): seq<Event>
    decreases |ops|
  {
    if |ops| == 0 then [] else Entered(q, ops[0]) + AllEntered(Apply(q, ops[0]), ops[1..])
  }

  function AllFires(q: Queue, ops: seq<Op>): seq<Event>
    decreases |ops|
  {
    if |ops| == 0 then [] else Fires(q, ops[0]) + AllFires(Apply(q, ops[0]), ops[1..])
  }

  function AllDeleted(q: Queue, ops: seq<Op>): seq<Event>
    decreases |ops|
  {
    if |ops| == 0 then [] else Deleted(q, ops[0]) + AllDeleted(Apply(q, ops[0]), ops[1..])
  }

  function AllRearms(q: Queue, ops: seq<Op>): seq<Rearm>
    decreases |ops|
  {
    if |ops| == 0 then [] else Rearms(q, ops[0]) + AllRearms(Apply(q, ops[0]), ops[1..])
  }

  lemma {:induction false} RunCounts(q: Queue, ops: seq<Op>, x: Event)
    requires Ordered(q.timers) && AllOwnObjects(q, ops)
    ensures Count(q.timers, x) + Count(AllEntered(q, ops), x)
         == Count(Run(q, ops).timers, x) + Count(AllFires(q, ops), x) + Count(AllDeleted(q, ops), x)
            + Count(Dropped(AllRearms(q, ops)), x)
    decreases |ops|
  {
    if |ops| != 0 {
      var op, q', tail := ops[0], Apply(q, ops[0]), ops[1..];
      StepCounts(q, op, x);
      StepKeepsOrder(q, op);
      RunCounts(q', tail, x);
      CountAppend(Entered(q, op), AllEntered(q', tail), x);
      CountAppend(Fires(q, op), AllFires(q', tail), x);
      CountAppend(Deleted(q, op), AllDeleted(q', tail), x);
      DroppedAppend(Rearms(q, op), AllRearms(q', tail));
      CountAppend(Dropped(Rearms(q, op)), Dropped(AllRearms(q', tail)), x);
    }
  }

  /** Nothing is dropped exactly when every reading is in time. */
  lemma {:induction false} DroppedNothing(rs: seq<Rearm>)
    ensures Dropped(rs) == [] <==> forall r :: r in rs ==> InTime(r)
  {
    if rs != [] {
      DroppedNothing(rs[1..]);
      assert rs == [rs[0]] + rs[1..];
      var s := rs[0].before.timers;
      assert Stale(s, rs[0].now) == 0 <==> InTime(rs[0]);
    }
  }

  lemma {:induction false} OverdueExactly(r: Rearm, e: Event)
    requires Ordered(r.before.timers)
    ensures e in Overdue(r) <==> e in r.before.timers && e.arrive < r.now
  {
    var s, n := r.before.timers, Stale(r.before.timers, r.now);
    CutAtArrival(s, n, r.now);
    assert s == s[..n] + s[n..];
  }

  predicate AllOrdered(rs: seq<Rearm>) {
    forall r :: r in rs ==> Ordered(r.before.timers)
  }

  lemma {:induction false} AddRearmsOrdered(q: Queue, e: Event, now: Millis)
    requires Ordered(q.timers) && SameObject(q.timers, e)
    ensures AllOrdered(RearmsOfAdd(q, e, now))
  {
    InsertKeepsOrder(q.timers, e);
  }

  lemma {:induction false} DelRearmsOrdered(q: Queue, e: Event, now: Millis)
    requires Ordered(q.timers) && SameObject(q.timers, e)
    ensures AllOrdered(RearmsOfDel(q, e, now))
  {
    EraseKeepsOrder(q.timers, e);
  }

  lemma {:induction false} RescheduleRearmsOrdered(q: Queue, e: Event, e1: Event, del: Millis, add: Millis)
    requires Ordered(q.timers) && SameObject(q.timers, e) && e1.addr == e.addr
    ensures AllOrdered(RearmsOfDel(q, e, del)) && AllOrdered(RearmsOfAdd(DelTimer(q, e, del), e1, add))
  {
    DelRearmsOrdered(q, e, del);
    EraseKeepsOrder(q.timers, e);
    ResetIsExact(q.(timers := Erase(q.timers, e)), del);
    AddRearmsOrdered(DelTimer(q, e, del), e1, add);
  }

  /** Every re-arming of an operation finds a set in order. */
  lemma {:induction false} RearmsOrdered(q: Queue, op: Op)
    requires Ordered(q.timers) && OwnObject(q, op)
    ensures AllOrdered(Rearms(q, op))
  {
    match op
    case Add(e, now) => AddRearmsOrdered(q, e, now);
    case Del(e, now) => DelRearmsOrdered(q, e, now);
    case Reset(e, interval, startNow, clock) =>
      RescheduleRearmsOrdered(q, e, Rescheduled(e, interval, startNow, clock(1)), clock(0), clock(2));
    case Fire(clock) => ReplacedIsOrdered(q, clock);
  }

  lemma {:induction false} AllRearmsOrdered(q: Queue, ops: seq<Op>)
    requires Ordered(q.timers) && AllOwnObjects(q, ops)
    ensures AllOrdered(AllRearms(q, ops))
    decreases |ops|
  {
    if |ops| != 0 {
      RearmsOrdered(q, ops[0]);
      StepKeepsOrder(q, ops[0]);
      AllRearmsOrdered(Apply(q, ops[0]), ops[1..]);
    }
  }

  lemma {:induction false} DroppedExactly(rs: seq<Rearm>, e: Event)
    requires AllOrdered(rs)
    ensures e in Dropped(rs) <==> exists r :: r in rs && e in r.before.timers && e.arrive < r.now
  {
    if rs != [] {
      assert rs == [rs[0]] + rs[1..];
      assert rs[0] in rs;
      OverdueExactly(rs[0], e);
      DroppedExactly(rs[1..], e);
    }
  }

  /** Over every run each event that has entered is waiting, or has been run, or deleted, or
      dropped, as often as it entered. */
  lemma {:induction false} EventsConserved(ops: seq<Op>, x: Event)
    requires AllOwnObjects(EMPTY, ops)
    ensures multiset(AllEntered(EMPTY, ops))[x]
         == multiset(Run(EMPTY, ops).timers)[x] + multiset(AllFires(EMPTY, ops))[x] + multiset(AllDeleted(EMPTY, ops))[x]
            + multiset(Dropped(AllRearms(EMPTY, ops)))[x]
  {
    RunCounts(EMPTY, ops, x);
    CountIsMultiplicity(AllEntered(EMPTY, ops), x);
    CountIsMultiplicity(Run(EMPTY, ops).timers, x);
    CountIsMultiplicity(AllFires(EMPTY, ops), x);
    CountIsMultiplicity(AllDeleted(EMPTY, ops), x);
    CountIsMultiplicity(Dropped(AllRearms(EMPTY, ops)), x);
  }

  const EMPTY: Queue := Queue([], None)

  /** Over every run the events dropped are exactly those that some re-arming finds overdue at
      its reading of the clock; so nothing is dropped exactly when no reading is above the
      earliest arrival it finds. */
  lemma {:induction false} DroppedOnlyLate(ops: seq<Op>, x: Event)
    requires AllOwnObjects(EMPTY, ops)
    ensures var rs := AllRearms(EMPTY, ops);
      && (x in Dropped(rs) <==> exists r :: r in rs && x in r.before.timers && x.arrive < r.now)
      && (Dropped(rs) == [] <==> forall r :: r in rs ==> InTime(r))
  {
    AllRearmsOrdered(EMPTY, ops);
    DroppedExactly(AllRearms(EMPTY, ops), x);
    DroppedNothing(AllRearms(EMPTY, ops));
  }
}
