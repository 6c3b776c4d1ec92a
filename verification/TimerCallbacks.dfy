/** What a firing runs and in which order, and when events arrive, in plain integers. */
module TimerCallbacks {
  import opened Bytes
  import opened TimerQueue

  // ---- the order of the callbacks -------------------------------------------

  predicate Runs(e: Event, now: Millis) {
    e.arrive <= now && e.cb.Some?
  }

  /** How many of the first `n` events have arrived and have a callback. */
  function Running(s: seq<Event>, now: Millis, n: nat): nat
    requires n <= |s|
  {
    if n == 0 then 0 else Running(s, now, n - 1) + if Runs(s[n - 1], now) then 1 else 0
  }

  /** `ran` has the callback of each event that has arrived, at the place the events before it
      leave to it, and nothing else. */
  predicate InOrder(s: seq<Event>, now: Millis, ran: seq<nat>) {
    && |ran| == Running(s, now, |s|)
    && forall k :: 0 <= k < |s| && Runs(s[k], now) ==>
         Running(s, now, k) < |ran| && ran[Running(s, now, k)] == s[k].cb.value
  }

  lemma {:induction false} RunningPrefix(s: seq<Event>, now: Millis, m: nat, n: nat)
    requires n <= m <= |s|
    ensures Running(s[..m], now, n) == Running(s, now, n)
  {
    if n > 0 {
      RunningPrefix(s, now, m, n - 1);
    }
  }

  lemma {:induction false} CallbacksInOrder(s: seq<Event>, now: Millis)
    requires forall k :: 0 <= k < |s| ==> s[k].arrive <= now
    ensures InOrder(s, now, Callbacks(s))
    decreases |s|
  {
    if s != [] {
      CallbacksInOrder(s[..|s| - 1], now);
      OneMore(s, now, Callbacks(s[..|s| - 1]), Callbacks(s));
    }
  }

  lemma {:induction false} OneMore(s: seq<Event>, now: Millis, before: seq<nat>, ran: seq<nat>)
    requires s != [] && s[|s| - 1].arrive <= now && InOrder(s[..|s| - 1], now, before)
    requires ran == before + match s[|s| - 1].cb case None => [] case Some(f) => [f]
    ensures InOrder(s, now, ran)
  {
    var n := |s| - 1;
    RunningPrefix(s, now, n, n);
    forall k | 0 <= k < n && Runs(s[k], now)
      ensures Running(s, now, k) < |ran| && ran[Running(s, now, k)] == s[k].cb.value
    {
      RunningPrefix(s, now, n, k);
      assert s[..n][k] == s[k];
    }
  }

  /** Events that have not arrived run nothing. */
  lemma {:induction false} LaterDoNotRun(s: seq<Event>, now: Millis, n: nat, m: nat)
    requires n <= m <= |s| && forall k :: n <= k < |s| ==> s[k].arrive > now
    ensures Running(s, now, m) == Running(s, now, n)
    decreases m
  {
    if n < m {
      LaterDoNotRun(s, now, n, m - 1);
    }
  }

  /** A firing runs the callbacks of exactly the events that have arrived, in the order of the
      set: by arrival, and by identity where arrivals are equal. */
  lemma {:induction false} RanInOrder(q: Queue, clock: Clock)
    requires Ordered(q.timers)
    ensures InOrder(q.timers, clock(0), Ran(q, clock))
  {
    var s, now := q.timers, clock(0);
    var n := Due(s, now);
    forall k | n <= k < |s| ensures s[k].arrive > now {
      assert k > n ==> Before(s[n], s[k]);
    }
    CallbacksInOrder(s[..n], now);
    RunningPrefix(s, now, n, n);
    LaterDoNotRun(s, now, n, |s|);
    forall k | 0 <= k < |s| && Runs(s[k], now)
      ensures Running(s, now, k) < |Ran(q, clock)| && Ran(q, clock)[Running(s, now, k)] == s[k].cb.value
    {
      RunningPrefix(s, now, n, k);
      assert Runs(s[..n][k], now);
    }
  }

  /** For example two events and a clock behind both. */
  lemma {:induction false} EarlierRunsFirst(a: Event, b: Event, clock: Clock)
    requires a.arrive < b.arrive <= clock(0) && a.addr != b.addr && a.cb == Some(1) && b.cb == Some(2)
    ensures Ran(Queue([a, b], None), clock) == [1, 2]
  {
    var s := [a, b];
    RanInOrder(Queue(s, None), clock);
    assert Runs(s[0], clock(0)) && Runs(s[1], clock(0));
    assert Running(s, clock(0), 1) == 1 && Running(s, clock(0), 2) == 2;
  }

  // ---- arrivals -------------------------------------------------------------

  const MILLIS_BOUND: int := 0x1_0000_0000_0000_0000

  /** Sum and difference in 64 bits: exact while they fit, and modulo 2^64 otherwise. */
  lemma {:induction false} SixtyFourBits(a: Millis, b: Millis)
    ensures Plus(a, b) == (a + b) % MILLIS_BOUND && Minus(a, b) == (a - b) % MILLIS_BOUND
    ensures a + b < MILLIS_BOUND ==> Plus(a, b) == a + b
    ensures b <= a ==> Minus(a, b) == a - b
  {
  }

  /** Seconds and nanoseconds of a number of milliseconds. */
  lemma {:induction false} SpecIs(diff: Millis)
    ensures Spec(diff).0 * 1000000000 + Spec(diff).1 == diff * 1000000 && Spec(diff).1 < 1000000000
  {
    assert diff == 1000 * (diff / 1000) + diff % 1000;
  }

  /** An event rescheduled from now arrives one new interval from now; otherwise it arrives one
      new interval after the start of the old one. */
  lemma {:induction false} RescheduledArrival(e: Event, interval: Millis, startNow: bool, now: Millis)
    ensures var r := Rescheduled(e, interval, startNow, now);
      && r == e.(arrive := r.arrive, interval := interval)
      && r.arrive == ((if startNow then now else e.arrive - e.interval) + interval) % MILLIS_BOUND
      && (startNow && now + interval < MILLIS_BOUND ==> r.arrive == now + interval)
      && (!startNow && 0 <= e.arrive - e.interval && e.arrive - e.interval + interval < MILLIS_BOUND
          ==> r.arrive == e.arrive - e.interval + interval)
  {
    SixtyFourBits(e.arrive, e.interval);
    SixtyFourBits(if startNow then now else Minus(e.arrive, e.interval), interval);
    WrapOnce(e.arrive - e.interval, interval);
  }

  lemma {:induction false} WrapOnce(a: int, b: int)
    ensures (a % MILLIS_BOUND + b) % MILLIS_BOUND == (a + b) % MILLIS_BOUND
  {
  }

  /** How many of the first `n` events are recycled. */
  function Recycling(s: seq<Event>, n: nat): nat
    requires n <= |s|
  {
    if n == 0 then 0 else Recycling(s, n - 1) + if s[n - 1].recycle then 1 else 0
  }

  lemma {:induction false} RecyclingPrefix(s: seq<Event>, m: nat, n: nat)
    requires n <= m <= |s|
    ensures Recycling(s[..m], n) == Recycling(s, n)
  {
    if n > 0 {
      RecyclingPrefix(s, m, n - 1);
    }
  }

  /** Each recycled event comes again one interval after its own reading of the clock, taken in
      the order of the set after the reading that began the firing. */
  lemma {:induction false} RecycledArrival(s: seq<Event>, clock: Clock, k: nat)
    requires k < |s| && s[k].recycle
    ensures var r, i := Recycled(s, clock), Recycling(s, k);
      && |r| == Recycling(s, |s|) && i < |r|
      && r[i] == s[k].(arrive := r[i].arrive) && r[i].arrive == (clock(1 + i) + s[k].interval) % MILLIS_BOUND
    decreases |s|
  {
    var init := s[..|s| - 1];
    RecycledSize(s, clock);
    RecycledSize(init, clock);
    RecyclingPrefix(s, |s| - 1, k);
    RecyclingPrefix(s, |s| - 1, |s| - 1);
    if k < |s| - 1 {
      RecycledArrival(init, clock, k);
    } else {
      SixtyFourBits(clock(1 + Recycling(s, k)), s[k].interval);
    }
  }

  lemma {:induction false} RecycledSize(s: seq<Event>, clock: Clock)
    ensures |Recycled(s, clock)| == Recycling(s, |s|)
  {
    if s != [] {
      RecycledSize(s[..|s| - 1], clock);
      RecyclingPrefix(s, |s| - 1, |s| - 1);
    }
  }

  /** How many of the first `n` events have arrived and are recycled. */
  function Renewing(s: seq<Event>, now: Millis, n: nat): nat
    requires n <= |s|
  {
    if n == 0 then 0 else Renewing(s, now, n - 1) + if s[n - 1].arrive <= now && s[n - 1].recycle then 1 else 0
  }

  lemma {:induction false} RenewingIsRecycling(s: seq<Event>, now: Millis, m: nat, n: nat)
    requires m <= n <= |s|
    requires (forall k :: 0 <= k < m ==> s[k].arrive <= now) && forall k :: m <= k < |s| ==> s[k].arrive > now
    ensures Renewing(s, now, n) == Recycling(s[..m], m)
    decreases n
  {
    if n > m {
      RenewingIsRecycling(s, now, m, n - 1);
    } else {
      RecyclingPrefix(s, m, m);
      RenewingPrefix(s, now, n);
    }
  }

  lemma {:induction false} RenewingPrefix(s: seq<Event>, now: Millis, n: nat)
    requires n <= |s| && forall k :: 0 <= k < n ==> s[k].arrive <= now
    ensures Renewing(s, now, n) == Recycling(s, n)
  {
    if n > 0 {
      RenewingPrefix(s, now, n - 1);
    }
  }

  /** A firing re-arms at its reading behind those for the recycled events. */
  lemma {:induction false} LastReadingIs(q: Queue, clock: Clock)
    requires Ordered(q.timers)
    ensures LastReading(q, clock) == clock(1 + Renewing(q.timers, clock(0), |q.timers|))
  {
    var s, n := q.timers, Due(q.timers, clock(0));
    forall k | n <= k < |s| ensures s[k].arrive > clock(0) {
      assert k > n ==> Before(s[n], s[k]);
    }
    RecycledSize(s[..n], clock);
    RenewingIsRecycling(s, clock(0), n, |s|);
  }

  /** Where a rescheduled event still stands in the set, it is with the arrival counted from the
      second reading; every other event was there before. */
  lemma {:induction false} RescheduledStands(q: Queue, e: Event, interval: Millis, startNow: bool, clock: Clock, x: Event)
    requires Ordered(q.timers) && SameObject(q.timers, e) && (interval != e.interval || startNow)
    requires x in ResetInterval(q, e, interval, startNow, clock).timers
    ensures x.addr == e.addr ==> x == Rescheduled(e, interval, startNow, clock(1))
    ensures x.addr != e.addr ==> x in q.timers
  {
    var q1, e1 := DelTimer(q, e, clock(0)), Rescheduled(e, interval, startNow, clock(1));
    EraseKeepsOrder(q.timers, e);
    ResetIsExact(q.(timers := Erase(q.timers, e)), clock(0));
    assert forall y :: y in q1.timers ==> y in q.timers && y != e;
    InsertKeepsOrder(q1.timers, e1);
    ResetIsExact(q1.(timers := Insert(q1.timers, e1)), clock(2));
    assert x in Insert(q1.timers, e1);
  }
}
