/** The timer queue on values: the ordered set of events, the one deadline armed on the
    timerfd, and every operation that changes them. Clock readings are parameters. */
module TimerQueue {
  import opened Bytes

  const U64 := 0x1_0000_0000_0000_0000

  /** Milliseconds in a uint64_t. */
  type Millis = x: int | 0 <= x < U64

  /** The successive readings one call takes of the clock. */
  type Clock = nat -> Millis

  function Plus(a: Millis, b: Millis): Millis {
    if a + b < U64 then a + b else a + b - U64
  }

  function Minus(a: Millis, b: Millis): Millis {
    if a >= b then a - b else a - b + U64
  }

  /** `addr` is the address of the event, the identity the comparator falls back on. */
  datatype Event = Event(addr: nat, arrive: Millis, interval: Millis, recycle: bool, cb: Option<nat>)

  /** `deadline` is the instant the timerfd was last armed for, None when disarmed. */
  datatype Queue = Queue(timers: seq<Event>, deadline: Option<Millis>)

  // ---- The ordered set ---------------------------------------------------------------

  predicate Before(l: Event, r: Event) {
    l.arrive < r.arrive || (l.arrive == r.arrive && l.addr < r.addr)
  }

  /** The comparator, which also orders null pointers. */
  predicate Compare(l: Option<Event>, r: Option<Event>) {
    if l.None? && r.None? then false
    else if l.None? || r.None? then l.None?
    else if l.value.arrive < r.value.arrive then true
    else if l.value.arrive > r.value.arrive then false
    else l.value.addr < r.value.addr
  }

  /** A strict order, total up to equal pointers with equal arrival: what std::set needs. */
  lemma {:induction false} CompareIsAnOrder(a: Option<Event>, b: Option<Event>, c: Option<Event>)
    ensures !Compare(a, a)
    ensures Compare(a, b) && Compare(b, c) ==> Compare(a, c)
    ensures !Compare(a, b) && !Compare(b, a) <==>
            (a.None? && b.None?) || (a.Some? && b.Some? && a.value.arrive == b.value.arrive && a.value.addr == b.value.addr)
    ensures a.Some? && b.Some? ==> (Compare(a, b) <==> Before(a.value, b.value))
  {
  }

  /** Strictly ascending, and no event twice. */
  predicate Ordered(s: seq<Event>) {
    forall i, j :: 0 <= i < j < |s| ==> Before(s[i], s[j]) && s[i].addr != s[j].addr
  }

  function Addrs(s: seq<Event>): set<nat> {
    set e | e in s :: e.addr
  }

  /** How many elements come before `e`: where std::set looks for it. */
  function Position(s: seq<Event>, e: Event): (n: nat)
    ensures n <= |s|
    ensures forall k :: 0 <= k < n ==> Before(s[k], e)
    ensures n < |s| ==> !Before(s[n], e)
  {
    if s == [] || !Before(s[0], e) then 0 else 1 + Position(s[1..], e)
  }

  predicate Present(s: seq<Event>, e: Event) {
    var n := Position(s, e);
    n < |s| && !Before(e, s[n])
  }

  function Insert(s: seq<Event>, e: Event): seq<Event> {
    var n := Position(s, e);
    if Present(s, e) then s else s[..n] + [e] + s[n..]
  }

  function Erase(s: seq<Event>, e: Event): seq<Event> {
    var n := Position(s, e);
    if Present(s, e) then s[..n] + s[n + 1..] else s
  }

  /** An object has one address and one state: the queue holds no other state of `e`. */
  predicate SameObject(s: seq<Event>, e: Event) {
    forall x :: x in s && x.addr == e.addr ==> x == e
  }

  lemma {:induction false} Presence(s: seq<Event>, e: Event)
    requires Ordered(s) && SameObject(s, e)
    ensures Present(s, e) <==> e in s
    ensures Present(s, e) ==> s[Position(s, e)] == e
  {
    var n := Position(s, e);
    if Present(s, e) {
      assert s[n] in s;
    }
    forall k | n < k < |s| ensures s[k] != e {
      assert Before(s[n], s[k]);
    }
  }

  /** An ordered sequence cut at an arrival time: what is before it and what is not. */
  lemma {:induction false} CutAtArrival(s: seq<Event>, n: nat, t: int)
    requires Ordered(s) && n <= |s|
    requires forall k :: 0 <= k < n ==> s[k].arrive < t
    requires n < |s| ==> s[n].arrive >= t
    ensures Ordered(s[..n]) && Ordered(s[n..])
    ensures forall e :: e in s[n..] <==> e in s && e.arrive >= t
  {
    forall k | n <= k < |s| ensures s[k].arrive >= t {
      assert n < k ==> Before(s[n], s[k]);
    }
    forall e | e in s && e.arrive >= t ensures e in s[n..] {
      var k :| 0 <= k < |s| && s[k] == e;
      assert s[n..][k - n] == e;
    }
  }

  lemma {:induction false} Joined(a: seq<Event>, b: seq<Event>)
    requires Ordered(a) && Ordered(b)
    requires forall i, j :: 0 <= i < |a| && 0 <= j < |b| ==> Before(a[i], b[j]) && a[i].addr != b[j].addr
    ensures Ordered(a + b)
  {
  }

  lemma {:induction false} Spliced(a: seq<Event>, e: Event, b: seq<Event>)
    requires Ordered(a) && Ordered(b) && Ordered(a + b)
    requires forall k :: 0 <= k < |a| ==> Before(a[k], e) && a[k].addr != e.addr
    requires forall k :: 0 <= k < |b| ==> b[k].addr != e.addr
    requires b != [] ==> Before(e, b[0])
    ensures Ordered(a + [e] + b)
  {
    Joined(a, [e]);
    forall j | 0 <= j < |b| ensures Before(e, b[j]) {
      assert j > 0 ==> Before(b[0], b[j]);
    }
    forall i, j | 0 <= i < |a| && 0 <= j < |b| ensures Before(a[i], b[j]) && a[i].addr != b[j].addr {
      assert (a + b)[i] == a[i] && (a + b)[|a| + j] == b[j];
    }
    Joined(a + [e], b);
  }

  lemma {:induction false} InsertKeepsOrder(s: seq<Event>, e: Event)
    requires Ordered(s) && SameObject(s, e)
    ensures Ordered(Insert(s, e))
    ensures forall x :: x in Insert(s, e) <==> x in s || x == e
  {
    Presence(s, e);
    if !Present(s, e) {
      var n := Position(s, e);
      var a, b := s[..n], s[n..];
      assert s == a + b;
      forall k | 0 <= k < |s| ensures s[k].addr != e.addr {
        assert s[k] in s;
      }
      Spliced(a, e, b);
    }
  }

  lemma {:induction false} EraseKeepsOrder(s: seq<Event>, e: Event)
    requires Ordered(s) && SameObject(s, e)
    ensures Ordered(Erase(s, e))
    ensures forall x :: x in Erase(s, e) <==> x in s && x != e
  {
    Presence(s, e);
    if Present(s, e) {
      var n := Position(s, e);
      var a, b := s[..n], s[n + 1..];
      assert s == a + [e] + b;
      Joined(a, b);
      assert forall k :: 0 <= k < |s| && k != n ==> s[k].addr != s[n].addr;
    }
  }

  // ---- Re-arming ---------------------------------------------------------------------

  /** How many leading events are overdue. */
  function Stale(s: seq<Event>, now: Millis): (n: nat)
    ensures n <= |s|
    ensures forall k :: 0 <= k < n ==> s[k].arrive < now
    ensures n < |s| ==> s[n].arrive >= now
  {
    if s == [] || s[0].arrive >= now then 0 else 1 + Stale(s[1..], now)
  }

  /** The relative time given to timerfd_settime, as seconds and nanoseconds. */
  function Spec(diff: Millis): (nat, nat) {
    (diff / 1000, (diff % 1000) * 1000 * 1000)
  }

  /** What the kernel does with it: all zero disarms, anything else expires that much later. */
  function SetTime(now: Millis, spec: (nat, nat)): Option<int> {
    if spec == (0, 0) then None else Some(now + 1000 * spec.0 + spec.1 / 1000000)
  }

  lemma {:induction false} SetTimeIsExact(now: Millis, arrive: Millis)
    requires now <= arrive
    ensures SetTime(now, Spec(arrive - now)) == if arrive == now then None else Some(arrive)
  {
    var diff := arrive - now;
    assert diff == 1000 * (diff / 1000) + diff % 1000;
  }

  function Armed(now: Millis, arrive: Millis): Option<Millis>
    requires now <= arrive
  {
    SetTimeIsExact(now, arrive);
    match SetTime(now, Spec(arrive - now))
    case None => None
    case Some(t) => Some(t)
  }

  function ResetArriveTime(q: Queue, now: Millis): Queue {
    var s := q.timers[Stale(q.timers, now)..];
    if s == [] then q.(timers := []) else Queue(s, Armed(now, s[0].arrive))
  }

  /** While events wait, the timerfd is armed for exactly the earliest arrival. */
  predicate Agrees(q: Queue) {
    q.timers != [] ==> q.deadline == Some(q.timers[0].arrive)
  }

  /** Re-arming drops exactly the overdue events, and leaves deadline and queue in agreement
      exactly when no event arrives in the very millisecond of the reading. */
  lemma {:induction false} ResetIsExact(q: Queue, now: Millis)
    requires Ordered(q.timers)
    ensures var r := ResetArriveTime(q, now);
            && Ordered(r.timers)
            && (forall e :: e in r.timers <==> e in q.timers && e.arrive >= now)
            && (Agrees(r) <==> forall e :: e in q.timers ==> e.arrive != now)
  {
    var n := Stale(q.timers, now);
    var s := q.timers[n..];
    CutAtArrival(q.timers, n, now);
    if s != [] {
      SetTimeIsExact(now, s[0].arrive);
      assert s[0] in s;
      forall e | e in s ensures e.arrive >= s[0].arrive {
        var k :| 0 <= k < |s| && s[k] == e;
        assert k > 0 ==> Before(s[0], s[k]);
      }
    }
  }

  /** Nothing is dropped and the deadline is exact exactly when the clock is still below the
      earliest arrival. */
  lemma {:induction false} ResetIsSafe(q: Queue, now: Millis)
    requires Ordered(q.timers) && q.timers != []
    ensures ResetArriveTime(q, now).timers == q.timers && Agrees(ResetArriveTime(q, now)) <==> now < q.timers[0].arrive
  {
    if now < q.timers[0].arrive {
      SetTimeIsExact(now, q.timers[0].arrive);
      assert q.timers[0..] == q.timers;
    } else if q.timers[0].arrive == now {
      SetTimeIsExact(now, now);
    }
  }

  // ---- Adding, deleting and rescheduling ---------------------------------------------

  predicate Leads(q: Queue, e: Event) {
    q.timers == [] || e.arrive < q.timers[0].arrive
  }

  function AddTimer(q: Queue, e: Event, reset: bool, now: Millis): Queue {
    var q1 := q.(timers := Insert(q.timers, e));
    if reset && Leads(q, e) then ResetArriveTime(q1, now) else q1
  }

  /** The earliest event is deleted and the next one arrives strictly later. */
  predicate Uncovers(q: Queue, e: Event) {
    var rest := Erase(q.timers, e);
    Present(q.timers, e) && Position(q.timers, e) == 0 && rest != [] && e.arrive < rest[0].arrive
  }

  function DelTimer(q: Queue, e: Event, now: Millis): Queue {
    var q1 := q.(timers := Erase(q.timers, e));
    if Uncovers(q, e) then ResetArriveTime(q1, now) else q1
  }

  function Rescheduled(e: Event, interval: Millis, startNow: bool, now: Millis): Event {
    e.(arrive := Plus(if startNow then now else Minus(e.arrive, e.interval), interval), interval := interval)
  }

  /** Three readings: for the cancellation, for the new arrival, for the insertion. */
  function ResetInterval(q: Queue, e: Event, interval: Millis, startNow: bool, clock: Clock): Queue {
    if interval == e.interval && !startNow then q
    else AddTimer(DelTimer(q, e, clock(0)), Rescheduled(e, interval, startNow, clock(1)), true, clock(2))
  }

  predicate Misses(q: Queue, now: Millis) {
    forall e :: e in q.timers ==> e.arrive != now
  }

  lemma {:induction false} AddKeepsOrder(q: Queue, e: Event, reset: bool, now: Millis)
    requires Ordered(q.timers) && SameObject(q.timers, e)
    ensures Ordered(AddTimer(q, e, reset, now).timers)
  {
    InsertKeepsOrder(q.timers, e);
    ResetIsExact(q.(timers := Insert(q.timers, e)), now);
  }

  lemma {:induction false} DelKeepsOrder(q: Queue, e: Event, now: Millis)
    requires Ordered(q.timers) && SameObject(q.timers, e)
    ensures Ordered(DelTimer(q, e, now).timers) && e !in Erase(q.timers, e)
  {
    EraseKeepsOrder(q.timers, e);
    ResetIsExact(q.(timers := Erase(q.timers, e)), now);
  }

  /** Whether deadline and set agree after an insertion, from any state before it. */
  predicate AddPunctual(q: Queue, e: Event, now: Millis) {
    if Leads(q, e) then Misses(q, now) && e.arrive != now else Agrees(q)
  }

  lemma {:induction false} AddAgrees(q: Queue, e: Event, now: Millis)
    requires Ordered(q.timers) && SameObject(q.timers, e)
    ensures Ordered(AddTimer(q, e, true, now).timers)
    ensures Agrees(AddTimer(q, e, true, now)) <==> AddPunctual(q, e, now)
    ensures forall x :: x in AddTimer(q, e, true, now).timers ==> x in q.timers || x == e
  {
    var q1 := q.(timers := Insert(q.timers, e));
    InsertKeepsOrder(q.timers, e);
    if Leads(q, e) {
      ResetIsExact(q1, now);
      assert (forall x :: x in q1.timers ==> x.arrive != now) <==> Misses(q, now) && e.arrive != now by {
        assert e in q1.timers;
      }
    } else if Position(q.timers, e) == 0 {
      assert q1.timers[0].arrive == q.timers[0].arrive;
    }
  }

  predicate DelPunctual(q: Queue, e: Event, now: Millis) {
    Uncovers(q, e) ==> forall x :: x in q.timers && x != e ==> x.arrive != now
  }

  lemma {:induction false} DelAgrees(q: Queue, e: Event, now: Millis)
    requires Ordered(q.timers) && SameObject(q.timers, e) && Agrees(q)
    ensures Ordered(DelTimer(q, e, now).timers)
    ensures Agrees(DelTimer(q, e, now)) <==> DelPunctual(q, e, now)
    ensures forall x :: x in DelTimer(q, e, now).timers ==> x in q.timers && x != e
  {
    Presence(q.timers, e);
    EraseKeepsOrder(q.timers, e);
    if Present(q.timers, e) {
      ResetIsExact(q.(timers := Erase(q.timers, e)), now);
    }
  }

  /** Whether they agree after a rescheduling: nothing is done, or the insertion re-arms and
      hits no arrival, or it does not re-arm and the deletion has left them in agreement. */
  predicate ResetPunctual(q: Queue, e: Event, interval: Millis, startNow: bool, clock: Clock) {
    var q1, e1 := DelTimer(q, e, clock(0)), Rescheduled(e, interval, startNow, clock(1));
    || (interval == e.interval && !startNow)
    || (if Leads(q1, e1) then Misses(q1, clock(2)) && e1.arrive != clock(2) else DelPunctual(q, e, clock(0)))
  }

  lemma {:induction false} ResetIntervalAgrees(q: Queue, e: Event, interval: Millis, startNow: bool, clock: Clock)
    requires Ordered(q.timers) && SameObject(q.timers, e) && Agrees(q)
    ensures Ordered(ResetInterval(q, e, interval, startNow, clock).timers)
    ensures Agrees(ResetInterval(q, e, interval, startNow, clock)) <==> ResetPunctual(q, e, interval, startNow, clock)
  {
    if interval != e.interval || startNow {
      DelAgrees(q, e, clock(0));
      AddAgrees(DelTimer(q, e, clock(0)), Rescheduled(e, interval, startNow, clock(1)), clock(2));
    }
  }

  // ---- Firing ------------------------------------------------------------------------

  /** How many leading events have arrived. */
  function Due(s: seq<Event>, now: Millis): (n: nat)
    ensures n <= |s|
    ensures forall k :: 0 <= k < n ==> s[k].arrive <= now
    ensures n < |s| ==> s[n].arrive > now
  {
    if s == [] || s[0].arrive > now then 0 else 1 + Due(s[1..], now)
  }

  /** The recycled events among `s`, with the arrival times they get; reading 0 of the clock
      has already been taken. */
  function Recycled(s: seq<Event>, clock: Clock): seq<Event> {
    if s == [] then []
    else
      var r := Recycled(s[..|s| - 1], clock);
      var e := s[|s| - 1];
      if e.recycle then r + [e.(arrive := Plus(clock(1 + |r|), e.interval))] else r
  }

  /** One step of the scan. */
  lemma {:induction false} ScanStep(s: seq<Event>, n: nat, clock: Clock)
    requires n < |s| && s[n].arrive <= clock(0)
    ensures s[n..][0] == s[n] && s[n..][1..] == s[n + 1..]
    ensures Due(s[n..], clock(0)) == 1 + Due(s[n + 1..], clock(0))
    ensures var r := Recycled(s[..n], clock);
            Recycled(s[..n + 1], clock) ==
              if s[n].recycle then r + [s[n].(arrive := Plus(clock(1 + |r|), s[n].interval))] else r
  {
    assert s[n..][1..] == s[n + 1..];
    assert s[..n + 1][..n] == s[..n];
  }

  function Callbacks(s: seq<Event>): seq<nat> {
    if s == [] then []
    else Callbacks(s[..|s| - 1]) + match s[|s| - 1].cb case None => [] case Some(f) => [f]
  }

  function InsertAll(s: seq<Event>, xs: seq<Event>): seq<Event> {
    if xs == [] then s else Insert(InsertAll(s, xs[..|xs| - 1]), xs[|xs| - 1])
  }

  function Ready(q: Queue, now: Millis): seq<Event> {
    q.timers[..Due(q.timers, now)]
  }

  /** The queue when the expired prefix has been replaced by its recycled events. */
  function Replaced(q: Queue, clock: Clock): seq<Event> {
    InsertAll(q.timers[Due(q.timers, clock(0))..], Recycled(Ready(q, clock(0)), clock))
  }

  function LastReading(q: Queue, clock: Clock): Millis {
    clock(1 + |Recycled(Ready(q, clock(0)), clock)|)
  }

  function Fired(q: Queue, clock: Clock): Queue {
    ResetArriveTime(q.(timers := Replaced(q, clock)), LastReading(q, clock))
  }

  function Ran(q: Queue, clock: Clock): seq<nat> {
    Callbacks(Ready(q, clock(0)))
  }

  /** The events of `s` that have arrived, wherever they stand. */
  function Arrived(s: seq<Event>, now: Millis): seq<Event> {
    if s == [] then []
    else Arrived(s[..|s| - 1], now) + if s[|s| - 1].arrive <= now then [s[|s| - 1]] else []
  }

  /** The scan stops at the first event still to come, yet takes every event that has
      arrived, each once and in (arrival, identity) order. */
  lemma {:induction false} FiresExactlyTheArrived(s: seq<Event>, now: Millis)
    requires Ordered(s)
    ensures s[..Due(s, now)] == Arrived(s, now)
  {
    var n := Due(s, now);
    forall k | n <= k < |s| ensures s[k].arrive > now {
      assert k > n ==> Before(s[n], s[k]);
    }
    ArrivedIsPrefix(s, now, n);
  }

  lemma {:induction false} ArrivedIsPrefix(s: seq<Event>, now: Millis, n: nat)
    requires n <= |s|
    requires forall k :: 0 <= k < n ==> s[k].arrive <= now
    requires forall k :: n <= k < |s| ==> s[k].arrive > now
    ensures Arrived(s, now) == s[..n]
    decreases |s|
  {
    if s != [] {
      var init := s[..|s| - 1];
      if n == |s| {
        ArrivedIsPrefix(init, now, n - 1);
        assert s[..n] == init + [s[|s| - 1]];
      } else {
        ArrivedIsPrefix(init, now, n);
        assert init[..n] == s[..n];
      }
    }
  }

  /** `xs` are distinct objects. */
  predicate Distinct(xs: seq<Event>) {
    forall i, j :: 0 <= i < j < |xs| ==> xs[i].addr != xs[j].addr
  }

  lemma {:induction false} RecycledAddrs(s: seq<Event>, clock: Clock)
    requires Distinct(s)
    ensures Distinct(Recycled(s, clock)) && Addrs(Recycled(s, clock)) <= Addrs(s)
    decreases |s|
  {
    if s != [] {
      var init, last := s[..|s| - 1], s[|s| - 1];
      RecycledAddrs(init, clock);
      var r := Recycled(init, clock);
      assert s == init + [last];
      assert Addrs(s) == Addrs(init) + {last.addr};
      assert last.addr !in Addrs(init);
      forall k | 0 <= k < |r| ensures r[k].addr != last.addr {
        assert r[k] in r && r[k].addr in Addrs(r);
      }
    }
  }

  lemma {:induction false} InsertAllKeepsOrder(s: seq<Event>, xs: seq<Event>)
    requires Ordered(s) && Distinct(xs) && Addrs(s) !! Addrs(xs)
    ensures Ordered(InsertAll(s, xs))
    ensures forall x :: x in InsertAll(s, xs) <==> x in s || x in xs
    decreases |xs|
  {
    if xs != [] {
      var init, last := xs[..|xs| - 1], xs[|xs| - 1];
      assert xs == init + [last];
      assert Addrs(init) <= Addrs(xs) && last.addr in Addrs(xs);
      InsertAllKeepsOrder(s, init);
      var r := InsertAll(s, init);
      forall x | x in r ensures x.addr != last.addr {
        assert x in s ==> x.addr in Addrs(s);
      }
      InsertKeepsOrder(r, last);
    }
  }

  lemma {:induction false} AddrsOfPrefix(xs: seq<Event>, n: nat)
    requires n < |xs| && Distinct(xs)
    ensures Addrs(xs[..n]) <= Addrs(xs) && xs[n].addr !in Addrs(xs[..n]) && Distinct(xs[..n])
  {
  }

  /** The recycled events are distinct objects, none of them among those that stay. */
  lemma {:induction false} RecycledApart(q: Queue, clock: Clock)
    requires Ordered(q.timers)
    ensures var again := Recycled(Ready(q, clock(0)), clock);
            Distinct(again) && Addrs(q.timers[Due(q.timers, clock(0))..]) !! Addrs(again)
  {
    var s, n := q.timers, Due(q.timers, clock(0));
    var ready, rest := s[..n], s[n..];
    RecycledAddrs(ready, clock);
    forall a | a in Addrs(rest) ensures a !in Addrs(ready) {
      var x :| x in rest && x.addr == a;
      var j :| 0 <= j < |rest| && rest[j] == x;
      assert s[n + j] == x;
    }
  }

  lemma {:induction false} ReplacedIsOrdered(q: Queue, clock: Clock)
    requires Ordered(q.timers)
    ensures Ordered(q.timers[Due(q.timers, clock(0))..]) && Ordered(Replaced(q, clock))
    ensures forall e :: e in Replaced(q, clock) <==>
              (e in q.timers && e.arrive > clock(0)) || e in Recycled(Ready(q, clock(0)), clock)
  {
    var n := Due(q.timers, clock(0));
    RecycledApart(q, clock);
    CutAtArrival(q.timers, n, clock(0) + 1);
    InsertAllKeepsOrder(q.timers[n..], Recycled(Ready(q, clock(0)), clock));
  }

  lemma {:induction false} FiringKeepsOrder(q: Queue, clock: Clock)
    requires Ordered(q.timers)
    ensures Ordered(q.timers[Due(q.timers, clock(0))..]) && Ordered(Fired(q, clock).timers)
  {
    ReplacedIsOrdered(q, clock);
    ResetIsExact(q.(timers := Replaced(q, clock)), LastReading(q, clock));
  }

  /** What one firing does: the callbacks of exactly the arrived events, in order; the queue
      then holds the other events and the recycled ones, less those already overdue at the
      last reading; order is kept; and the deadline is exact unless an event arrives in the
      very millisecond of the last reading. */
  lemma {:induction false} FiringIsExact(q: Queue, clock: Clock)
    requires Ordered(q.timers)
    ensures Ran(q, clock) == Callbacks(Arrived(q.timers, clock(0)))
    ensures var r, late := Fired(q, clock), LastReading(q, clock);
            && Ordered(r.timers)
            && (forall e :: e in r.timers <==>
                  && ((e in q.timers && e.arrive > clock(0)) || e in Recycled(Arrived(q.timers, clock(0)), clock))
                  && e.arrive >= late)
            && (Agrees(r) <==> forall e :: e in Replaced(q, clock) ==> e.arrive != late)
  {
    FiresExactlyTheArrived(q.timers, clock(0));
    ReplacedIsOrdered(q, clock);
    ResetIsExact(q.(timers := Replaced(q, clock)), LastReading(q, clock));
  }

  /** An event that waits is lost by a firing, neither run nor kept, exactly when its arrival
      falls between the first reading of the clock and the last. */
  lemma {:induction false} LostBetweenReadings(q: Queue, clock: Clock, e: Event)
    requires Ordered(q.timers) && e in q.timers
    requires e !in Recycled(Arrived(q.timers, clock(0)), clock)
    ensures e !in Arrived(q.timers, clock(0)) && e !in Fired(q, clock).timers <==>
            clock(0) < e.arrive < LastReading(q, clock)
  {
    FiringIsExact(q, clock);
    ArrivedHolds(q.timers, clock(0), e);
  }

  lemma {:induction false} ArrivedHolds(s: seq<Event>, now: Millis, e: Event)
    ensures e in Arrived(s, now) <==> e in s && e.arrive <= now
    decreases |s|
  {
    if s != [] {
      ArrivedHolds(s[..|s| - 1], now, e);
      assert s == s[..|s| - 1] + [s[|s| - 1]];
    }
  }

  lemma {:induction false} OneRuns(e: Event, clock: Clock)
    requires !e.recycle && e.cb.Some?
    ensures Recycled([e], clock) == [] && Callbacks([e]) == [e.cb.value]
  {
    assert [e][..0] == [];
  }

  lemma {:induction false} OneIsDue(a: Event, b: Event, now: Millis)
    requires a.arrive <= now < b.arrive
    ensures Due([a, b], now) == 1 && [a, b][..1] == [a] && [a, b][1..] == [b]
  {
    assert [a, b][1..] == [b];
  }

  lemma {:induction false} OneIsStale(q: Queue, e: Event, now: Millis)
    requires q.timers == [e] && e.arrive < now
    ensures ResetArriveTime(q, now).timers == []
  {
    assert Stale([e], now) == 1;
  }

  /** The first of two events fires, and the second is overdue by the last reading. */
  lemma {:induction false} SecondIsLost(q: Queue, clock: Clock, a: Event, b: Event)
    requires q.timers == [a, b] && !a.recycle && a.cb.Some?
    requires a.arrive <= clock(0) < b.arrive < clock(1)
    ensures Ran(q, clock) == [a.cb.value] && Fired(q, clock).timers == []
  {
    OneIsDue(a, b, clock(0));
    OneRuns(a, clock);
    OneIsStale(q.(timers := [b]), b, clock(1));
  }

  /** One event fires, the clock moves on by 20 ms, and the next event is gone unrun. */
  lemma {:induction false} ALostEvent()
    ensures var a, b := Event(1, 100, 0, false, Some(1)), Event(2, 110, 0, false, Some(2));
            var q, clock := Queue([a, b], Some(100)), (k: nat) => if k == 0 then 100 else 120;
            Ordered(q.timers) && Agrees(q) && Ran(q, clock) == [1] && Fired(q, clock).timers == []
  {
    var a, b := Event(1, 100, 0, false, Some(1)), Event(2, 110, 0, false, Some(2));
    SecondIsLost(Queue([a, b], Some(100)), (k: nat) => if k == 0 then 100 else 120, a, b);
  }

  /** An event that arrives in the millisecond of the reading disarms the timerfd; a later
      event then does not arm it either. */
  lemma {:induction false} ADisarmedTimer(later: Event, now: Millis)
    requires later.arrive > 100 && later.addr != 1
    ensures var q := ResetArriveTime(Queue([Event(1, 100, 0, false, Some(1))], Some(50)), 100);
            q.timers != [] && q.deadline == None && AddTimer(q, later, true, now).deadline == None
  {
    SetTimeIsExact(100, 100);
  }

  /** In agreement, the expiry of the timerfd finds an event to run. */
  lemma {:induction false} ExpiryFindsAnEvent(q: Queue, clock: Clock)
    requires Ordered(q.timers) && Agrees(q) && q.timers != []
    requires q.deadline.Some? && clock(0) >= q.deadline.value
    ensures q.timers[0] in Arrived(q.timers, clock(0)) && |Arrived(q.timers, clock(0))| >= 1
  {
    ArrivedHolds(q.timers, clock(0), q.timers[0]);
  }

  // ---- Runs --------------------------------------------------------------------------

  datatype Op =
    | Add(e: Event, now: Millis)
    | Del(e: Event, now: Millis)
    | Reset(e: Event, interval: Millis, startNow: bool, clock: Clock)
    | Fire(clock: Clock)

  function Apply(q: Queue, op: Op): Queue {
    match op
    case Add(e, now) => AddTimer(q, e, true, now)
    case Del(e, now) => DelTimer(q, e, now)
    case Reset(e, interval, startNow, clock) => ResetInterval(q, e, interval, startNow, clock)
    case Fire(clock) => Fired(q, clock)
  }

  /** The event handed in is the queue's own object if the queue holds it. */
  predicate OwnObject(q: Queue, op: Op) {
    op.Fire? || SameObject(q.timers, op.e)
  }

  /** No reading that re-arms for good hits the arrival of a waiting event. */
  predicate Punctual(q: Queue, op: Op) {
    match op
    case Add(e, now) => Leads(q, e) ==> Misses(q, now) && e.arrive != now
    case Del(e, now) => DelPunctual(q, e, now)
    case Reset(e, interval, startNow, clock) => ResetPunctual(q, e, interval, startNow, clock)
    case Fire(clock) => forall e :: e in Replaced(q, clock) ==> e.arrive != LastReading(q, clock)
  }

  function Run(q: Queue, ops: seq<Op>): Queue
    decreases |ops|
  {
    if |ops| == 0 then q else Run(Apply(q, ops[0]), ops[1..])
  }

  predicate AllOwnObjects(q: Queue, ops: seq<Op>)
    decreases |ops|
  {
    |ops| == 0 || (OwnObject(q, ops[0]) && AllOwnObjects(Apply(q, ops[0]), ops[1..]))
  }

  predicate AllPunctual(q: Queue, ops: seq<Op>)
    decreases |ops|
  {
    |ops| == 0 || (Punctual(q, ops[0]) && AllPunctual(Apply(q, ops[0]), ops[1..]))
  }

  /** Every operation keeps the order, and the agreement exactly when it is punctual. */
  lemma {:induction false} StepAgrees(q: Queue, op: Op)
    requires Ordered(q.timers) && Agrees(q) && OwnObject(q, op)
    ensures Ordered(Apply(q, op).timers) && (Agrees(Apply(q, op)) <==> Punctual(q, op))
  {
    match op
    case Add(e, now) => AddAgrees(q, e, now);
    case Del(e, now) => DelAgrees(q, e, now);
    case Reset(e, interval, startNow, clock) => ResetIntervalAgrees(q, e, interval, startNow, clock);
    case Fire(clock) => FiringIsExact(q, clock);
  }

  /** Over every punctual run the timerfd is armed for exactly the earliest arrival. */
  lemma {:induction false} DeadlineAgrees(q: Queue, ops: seq<Op>)
    requires Ordered(q.timers) && Agrees(q) && AllOwnObjects(q, ops) && AllPunctual(q, ops)
    ensures Ordered(Run(q, ops).timers) && Agrees(Run(q, ops))
    decreases |ops|
  {
    if |ops| != 0 {
      StepAgrees(q, ops[0]);
      DeadlineAgrees(Apply(q, ops[0]), ops[1..]);
    }
  }
}
