/** Channels, the poller's map and the kernel's interest set: what each channel operation does
    to the three of them, and that they always agree. */
module Poller {

  datatype IOEvent = NONE | READ | WRITE | ERROR | HUP

  /** The mask a channel listens for; READ and WRITE are the only bits ever set. */
  datatype Events = Events(read: bool, write: bool)

  const NO_EVENTS: Events := Events(false, false)

  datatype Status = NEW | ADD | DELETE

  datatype Chan = Chan(fd: int, event: Events, status: Status)

  /** The channels of one loop, the poller's channel map, the kernel's interest set, and
      whether any epoll_ctl has failed. */
  datatype Poll<C> = Poll(chans: map<C, Chan>, channelMap: map<int, C>, interest: map<int, Events>, failed: bool)

  datatype Ctl = CTL_ADD | CTL_MOD | CTL_DEL

  /** epoll_ctl fails when it adds an fd that is present or touches one that is not. */
  predicate CtlLegal(op: Ctl, fd: int, interest: map<int, Events>) {
    if op == CTL_ADD then fd !in interest else fd in interest
  }

  function EpollCtl<C>(p: Poll<C>, op: Ctl, fd: int, event: Events): Poll<C> {
    if !CtlLegal(op, fd, p.interest) then p.(failed := true)
    else if op == CTL_DEL then p.(interest := p.interest - {fd})
    else p.(interest := p.interest[fd := event])
  }

  function SetStatus<C>(p: Poll<C>, c: C, status: Status): Poll<C>
    requires c in p.chans
  {
    p.(chans := p.chans[c := p.chans[c].(status := status)])
  }

  function Updated<C>(p: Poll<C>, c: C): Poll<C>
    requires c in p.chans
  {
    var ch := p.chans[c];
    if ch.status != ADD then
      var p1 := if ch.status == NEW then p.(channelMap := p.channelMap[ch.fd := c]) else p;
      EpollCtl(SetStatus(p1, c, ADD), CTL_ADD, ch.fd, ch.event)
    else if ch.event == NO_EVENTS then
      SetStatus(EpollCtl(p, CTL_DEL, ch.fd, ch.event), c, DELETE)
    else
      EpollCtl(p, CTL_MOD, ch.fd, ch.event)
  }

  function Removed<C>(p: Poll<C>, c: C): Poll<C>
    requires c in p.chans
  {
    var ch := p.chans[c];
    var p1 := p.(channelMap := p.channelMap - {ch.fd});
    var p2 := if ch.status == ADD then EpollCtl(p1, CTL_DEL, ch.fd, ch.event) else p1;
    SetStatus(p2, c, NEW)
  }

  function SetEvent<C>(p: Poll<C>, c: C, event: Events): Poll<C>
    requires c in p.chans
  {
    p.(chans := p.chans[c := p.chans[c].(event := event)])
  }

  function Listening(ev: Events, event: IOEvent, on: bool): Events {
    match event
    case READ => ev.(read := on)
    case WRITE => ev.(write := on)
    case _ => ev
  }

  datatype Op<C> = AddListen(c: C, event: IOEvent) | DelListen(c: C, event: IOEvent) | DelAll(c: C) | Remove(c: C)

  /** An event that is neither READ nor WRITE is refused with a warning. */
  function Apply<C>(p: Poll<C>, op: Op<C>): Poll<C>
    requires op.c in p.chans
  {
    match op
    case AddListen(c, event) =>
      if event != READ && event != WRITE then p
      else Updated(SetEvent(p, c, Listening(p.chans[c].event, event, true)), c)
    case DelListen(c, event) =>
      if event != READ && event != WRITE then p
      else Updated(SetEvent(p, c, Listening(p.chans[c].event, event, false)), c)
    case DelAll(c) => Updated(SetEvent(p, c, NO_EVENTS), c)
    case Remove(c) => Removed(p, c)
  }

  /** What a caller must see to: a channel that is not registered is used only when no other
      channel holds its fd, and a channel is removed only when registered and listening for
      nothing. */
  predicate Allowed<C>(p: Poll<C>, op: Op<C>) {
    && op.c in p.chans
    && var ch := p.chans[op.c];
       if op.Remove? then ch.status != NEW && ch.event == NO_EVENTS
       else ch.status == NEW ==> ch.fd !in p.channelMap
  }

  /** The asserts in the source of the two poller operations. */
  predicate AssertsHold<C(==)>(p: Poll<C>, op: Op<C>)
    requires op.c in p.chans
  {
    var ch := p.chans[op.c];
    if op.Remove? then
      ch.fd in p.channelMap && p.channelMap[ch.fd] == op.c && ch.event == NO_EVENTS && ch.status != NEW
    else if ch.status == NEW then ch.fd !in p.channelMap
    else ch.fd in p.channelMap && p.channelMap[ch.fd] == op.c
  }

  /** A channel is in the map iff it is not NEW, and in the kernel's set, with its own mask,
      iff it is ADD. */
  predicate ChanOk<C(==)>(p: Poll<C>, c: C)
    requires c in p.chans
  {
    var ch := p.chans[c];
    && (ch.status != NEW <==> ch.fd in p.channelMap && p.channelMap[ch.fd] == c)
    && (ch.status == ADD ==> ch.fd in p.interest && p.interest[ch.fd] == ch.event)
    && (ch.status == DELETE ==> ch.fd !in p.interest)
  }

  predicate FdOk<C>(p: Poll<C>, fd: int) {
    && (fd in p.channelMap ==> p.channelMap[fd] in p.chans && p.chans[p.channelMap[fd]].fd == fd)
    && (fd in p.interest ==> fd in p.channelMap)
  }

  /** Map, statuses and kernel agree, and no epoll_ctl has ever failed. */
  ghost predicate Agrees<C>(p: Poll<C>) {
    && !p.failed
    && (forall c :: c in p.chans ==> ChanOk(p, c))
    && (forall fd :: FdOk(p, fd))
  }

  /** Only the channel operated on, and its fd, change. */
  lemma {:induction false} OnlyOneChanges<C>(p: Poll<C>, q: Poll<C>, c: C)
    requires Agrees(p) && c in p.chans && q.chans.Keys == p.chans.Keys && !q.failed
    requires var fd := p.chans[c].fd;
      && q.chans == p.chans[c := q.chans[c]] && q.chans[c].fd == fd
      && (fd in p.channelMap ==> p.channelMap[fd] == c) && (fd in q.channelMap ==> q.channelMap[fd] == c)
      && q.channelMap - {fd} == p.channelMap - {fd} && q.interest - {fd} == p.interest - {fd}
      && ChanOk(q, c) && FdOk(q, fd)
    ensures Agrees(q)
  {
    var fd := p.chans[c].fd;
    forall x | x in q.chans
      ensures ChanOk(q, x)
    {
      if x != c {
        var ch := p.chans[x];
        assert ChanOk(p, x) && q.chans[x] == ch;
        if ch.fd != fd {
          assert ch.fd in q.channelMap <==> ch.fd in q.channelMap - {fd};
          assert ch.fd in p.channelMap <==> ch.fd in p.channelMap - {fd};
          assert ch.fd in q.interest <==> ch.fd in q.interest - {fd};
          assert ch.fd in p.interest <==> ch.fd in p.interest - {fd};
        }
      }
    }
    forall f
      ensures FdOk(q, f)
    {
      assert FdOk(p, f);
      if f != fd {
        assert f in q.channelMap <==> f in q.channelMap - {fd};
        assert f in p.channelMap <==> f in p.channelMap - {fd};
        assert f in q.interest <==> f in q.interest - {fd};
        assert f in p.interest <==> f in p.interest - {fd};
      }
    }
  }

  /** Pushing a new mask to the poller: the asserts hold, epoll_ctl is legal and all agree after. */
  lemma {:induction false} UpdateAgrees<C>(p: Poll<C>, c: C, event: Events)
    requires Agrees(p) && c in p.chans && (p.chans[c].status == NEW ==> p.chans[c].fd !in p.channelMap)
    ensures Agrees(Updated(SetEvent(p, c, event), c))
    ensures Updated(SetEvent(p, c, event), c).chans.Keys == p.chans.Keys
  {
    var fd := p.chans[c].fd;
    assert ChanOk(p, c) && FdOk(p, fd);
    OnlyOneChanges(p, Updated(SetEvent(p, c, event), c), c);
  }

  lemma {:induction false} RemoveAgrees<C>(p: Poll<C>, c: C)
    requires Agrees(p) && c in p.chans && p.chans[c].status != NEW
    ensures Agrees(Removed(p, c)) && Removed(p, c).chans.Keys == p.chans.Keys
  {
    var fd := p.chans[c].fd;
    assert ChanOk(p, c) && FdOk(p, fd);
    OnlyOneChanges(p, Removed(p, c), c);
  }

  /** Every allowed operation meets the source's asserts and keeps the agreement. */
  lemma {:induction false} StepAgrees<C>(p: Poll<C>, op: Op<C>)
    requires Agrees(p) && Allowed(p, op)
    ensures AssertsHold(p, op)
    ensures Agrees(Apply(p, op)) && Apply(p, op).chans.Keys == p.chans.Keys
  {
    var c := op.c;
    assert ChanOk(p, c);
    match op
    case AddListen(_, event) => UpdateAgrees(p, c, Listening(p.chans[c].event, event, true));
    case DelListen(_, event) => UpdateAgrees(p, c, Listening(p.chans[c].event, event, false));
    case DelAll(_) => UpdateAgrees(p, c, NO_EVENTS);
    case Remove(_) => RemoveAgrees(p, c);
  }

  /** All of the operations are allowed, each where the ones before it lead. */
  predicate AllAllowed<C>(p: Poll<C>, ops: seq<Op<C>>)
    decreases |ops|
  {
    ops == [] || (Allowed(p, ops[0]) && AllAllowed(Apply(p, ops[0]), ops[1..]))
  }

  function ApplyAll<C>(p: Poll<C>, ops: seq<Op<C>>): Poll<C>
    requires AllAllowed(p, ops)
    decreases |ops|
  {
    if ops == [] then p else ApplyAll(Apply(p, ops[0]), ops[1..])
  }

  /** After any sequence of allowed operations map, statuses and kernel still agree. */
  lemma {:induction false} RunAgrees<C>(p: Poll<C>, ops: seq<Op<C>>)
    requires Agrees(p) && AllAllowed(p, ops)
    ensures Agrees(ApplyAll(p, ops))
    decreases |ops|
  {
    if ops != [] {
      StepAgrees(p, ops[0]);
      RunAgrees(Apply(p, ops[0]), ops[1..]);
    }
  }

  /** Channels that have just been made, and a poller that has seen none of them. */
  predicate Fresh<C>(p: Poll<C>) {
    && p.channelMap == map[] && p.interest == map[] && !p.failed
    && forall c :: c in p.chans ==> p.chans[c].status == NEW
  }

  /** So they agree over every sequence of allowed operations on new channels and an empty
      poller. */
  lemma {:induction false} AlwaysAgrees<C>(p: Poll<C>, ops: seq<Op<C>>)
    requires Fresh(p) && AllAllowed(p, ops)
    ensures Agrees(ApplyAll(p, ops))
  {
    RunAgrees(p, ops);
  }

  /** In terms of the kernel: it watches exactly the fds of the ADD channels. */
  lemma {:induction false} KernelWatches<C>(p: Poll<C>, fd: int)
    requires Agrees(p)
    ensures fd in p.interest <==> exists c :: c in p.chans && p.chans[c].fd == fd && p.chans[c].status == ADD
  {
    assert FdOk(p, fd);
    if fd in p.interest {
      var c := p.channelMap[fd];
      assert ChanOk(p, c);
    }
    forall c | c in p.chans && p.chans[c].fd == fd && p.chans[c].status == ADD
      ensures fd in p.interest
    {
      assert ChanOk(p, c);
    }
  }

  // ---- the objects --------------------------------------------------------

  /** EPollPoller, with the kernel's interest set it drives. */
  class EPollPoller {
    var channelMap: map<int, Channel>
    var interest: map<int, Events>
    var failed: bool

    constructor ()
      ensures channelMap == map[] && interest == map[] && !failed
    {
      channelMap, interest, failed := map[], map[], false;
    }

    /** The poller and the channels of `all`, as a value. */
    ghost function View(all: set<Channel>): Poll<Channel>
      reads this, all
    {
      Poll(map c | c in all :: Chan(c.fd, c.event, c.status), channelMap, interest, failed)
    }

    method Mark(channel: Channel, status: Status, ghost all: set<Channel>)
      requires channel in all
      modifies channel`status
      ensures View(all) == SetStatus(old(View(all)), channel, status)
    {
      channel.status := status;
    }

    method UpdateChannel(channel: Channel, ghost all: set<Channel>)
      requires channel in all
      modifies this, channel`status
      ensures View(all) == Updated(old(View(all)), channel)
    {
      if channel.status == NEW || channel.status == DELETE {
        Register(channel, all);
      } else {
        Modify(channel, all);
      }
    }

    method Record(channel: Channel, ghost all: set<Channel>)
      modifies `channelMap
      ensures View(all) == old(View(all)).(channelMap := old(channelMap)[channel.fd := channel])
    {
      channelMap := channelMap[channel.fd := channel];
    }

    method Register(channel: Channel, ghost all: set<Channel>)
      requires channel in all && channel.status != ADD
      modifies this, channel`status
      ensures View(all) == Updated(old(View(all)), channel)
    {
      if channel.status == NEW {
        Record(channel, all);
      }
      Mark(channel, ADD, all);
      Update(CTL_ADD, channel, all);
    }

    method Modify(channel: Channel, ghost all: set<Channel>)
      requires channel in all && channel.status == ADD
      modifies this, channel`status
      ensures View(all) == Updated(old(View(all)), channel)
    {
      if channel.event == NO_EVENTS {
        Update(CTL_DEL, channel, all);
        Mark(channel, DELETE, all);
      } else {
        Update(CTL_MOD, channel, all);
      }
    }

    method Forget(fd: int, ghost all: set<Channel>)
      modifies `channelMap
      ensures View(all) == old(View(all)).(channelMap := old(channelMap) - {fd})
    {
      channelMap := channelMap - {fd};
    }

    method RemoveChannel(channel: Channel, ghost all: set<Channel>)
      requires channel in all
      modifies this, channel`status
      ensures View(all) == Removed(old(View(all)), channel)
    {
      Forget(channel.fd, all);
      if channel.status == ADD {
        Update(CTL_DEL, channel, all);
      }
      Mark(channel, NEW, all);
    }

    /** epoll_ctl; an error is logged and otherwise ignored. */
    method Update(op: Ctl, channel: Channel, ghost all: set<Channel>)
      requires channel in all
      modifies `interest, `failed
      ensures View(all) == EpollCtl(old(View(all)), op, channel.fd, channel.event)
    {
      if !CtlLegal(op, channel.fd, interest) {
        failed := true;
      } else if op == CTL_DEL {
        interest := interest - {channel.fd};
      } else {
        interest := interest[channel.fd := channel.event];
      }
    }
  }

  class Channel {
    const fd: int
    const poller: EPollPoller
    var event: Events
    var status: Status

    constructor (poller: EPollPoller, fd: int)
      ensures this.poller == poller && this.fd == fd && event == NO_EVENTS && status == NEW
    {
      this.poller, this.fd, event, status := poller, fd, NO_EVENTS, NEW;
    }

    /** Every change of the mask is pushed to the poller. */
    method SetMask(mask: Events, ghost all: set<Channel>)
      requires this in all
      modifies this, poller
      ensures poller.View(all) == Updated(SetEvent(old(poller.View(all)), this, mask), this)
    {
      ghost var before := poller.View(all);
      event := mask;
      assert poller.View(all) == SetEvent(before, this, mask);
      poller.UpdateChannel(this, all);
    }

    method AddListenEvents(ev: IOEvent, ghost all: set<Channel>)
      requires Agrees(poller.View(all)) && Allowed(poller.View(all), AddListen(this, ev))
      modifies this, poller
      ensures poller.View(all) == Apply(old(poller.View(all)), AddListen(this, ev)) && Agrees(poller.View(all))
    {
      StepAgrees(poller.View(all), AddListen(this, ev));
      if ev == READ || ev == WRITE {
        SetMask(Listening(event, ev, true), all);
      }
    }

    method DelListenEvents(ev: IOEvent, ghost all: set<Channel>)
      requires Agrees(poller.View(all)) && Allowed(poller.View(all), DelListen(this, ev))
      modifies this, poller
      ensures poller.View(all) == Apply(old(poller.View(all)), DelListen(this, ev)) && Agrees(poller.View(all))
    {
      StepAgrees(poller.View(all), DelListen(this, ev));
      if ev == READ || ev == WRITE {
        SetMask(Listening(event, ev, false), all);
      }
    }

    method DelAllListenEvents(ghost all: set<Channel>)
      requires Agrees(poller.View(all)) && Allowed(poller.View(all), DelAll(this))
      modifies this, poller
      ensures poller.View(all) == Apply(old(poller.View(all)), DelAll(this)) && Agrees(poller.View(all))
    {
      StepAgrees(poller.View(all), DelAll(this));
      SetMask(NO_EVENTS, all);
    }

    method RemoveFromLoop(ghost all: set<Channel>)
      requires Agrees(poller.View(all)) && Allowed(poller.View(all), Remove(this))
      modifies this, poller
      ensures poller.View(all) == Apply(old(poller.View(all)), Remove(this)) && Agrees(poller.View(all))
    {
      StepAgrees(poller.View(all), Remove(this));
      poller.RemoveChannel(this, all);
    }
  }
}
