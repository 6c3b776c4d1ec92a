/** TcpConnector as the source runs it, over a Channel of the loop's poller; each method is one
    step of the connector's step system and keeps the poller in agreement. */
module TcpConnectors {
  import opened Bytes
  import opened Connector
  import opened Poller

  class TcpConnector {
    var status: ConnectorStatus
    var wanted: bool
    const canRetry: bool
    var retryDelayMs: nat
    var channel: Channel?
    const poller: EPollPoller
    /** Every channel this connector has created. */
    ghost var made: set<Channel>
    ghost var timerAlive: bool
    ghost var pending: nat
    ghost var waits: seq<nat>
    ghost var resets: nat
    ghost var sockets: seq<int>
    ghost var closed: seq<int>
    ghost var handed: seq<int>

    /** The fds of the connector's channels that stand in the poller's map. */
    ghost function Watched(): set<int>
      reads this, poller
    {
      set c | c in made && c.fd in poller.channelMap && poller.channelMap[c.fd] == c :: c.fd
    }

    ghost function View(): State
      reads this, poller
    {
      State(status, wanted, canRetry, retryDelayMs, timerAlive, pending, waits,
            if channel == null then None else Some(channel.fd), Watched(), resets, sockets, closed, handed)
    }

    /** While connecting, the kernel watches the socket for writing and nothing else. */
    ghost predicate Linked(all: set<Channel>)
      reads this, poller, all
    {
      && made <= all && Agrees(poller.View(all)) && retryDelayMs <= MAX_RETRY_DELAY_MS
      && (forall c :: c in made ==> c.poller == poller)
      && (channel != null ==> channel in made)
      && (status == Connecting ==> channel != null && channel.status == ADD && channel.event == Events(false, true))
    }

    ghost predicate Valid(all: set<Channel>)
      reads this, poller, all
    {
      Linked(all) && Inv(View())
    }

    constructor (poller: EPollPoller, canRetry: bool, ghost all: set<Channel>)
      requires Agrees(poller.View(all))
      ensures Valid(all) && View() == Created(canRetry) && this.poller == poller && made == {}
    {
      this.poller, this.canRetry, status, wanted, retryDelayMs := poller, canRetry, Disconnected, false, INIT_RETRY_DELAY_MS;
      channel, made, timerAlive, pending, waits, resets := null, {}, true, 0, [], 0;
      sockets, closed, handed := [], [], [];
      new;
      assert Pow2(0) == 1;
    }

    method Close(fd: int)
      modifies `closed
      ensures closed == old(closed) + [fd]
    {
      closed := closed + [fd];
    }

    /** The delay never exceeds a minute before it is cut, far within an int32_t. */
    method Retry(fd: int)
      requires retryDelayMs <= MAX_RETRY_DELAY_MS
      modifies `closed, `status, `waits, `pending, `retryDelayMs
      ensures View() == Retried(old(View()), fd)
    {
      Close(fd);
      status := Disconnected;
      if !canRetry {
        return;
      }
      if wanted {
        waits, pending := waits + [retryDelayMs], pending + 1;
        retryDelayMs := if retryDelayMs * 2 <= MAX_RETRY_DELAY_MS then retryDelayMs * 2 else MAX_RETRY_DELAY_MS;
      }
    }

    /** A channel for a new socket, listening for writing. `all'` are the loop's channels with it. */
    method NewChannel(fd: int, ghost all: set<Channel>) returns (c: Channel, ghost all': set<Channel>)
      requires Agrees(poller.View(all)) && fd !in poller.channelMap
      modifies poller
      ensures fresh(c) && c.poller == poller && c.fd == fd && c.status == ADD && c.event == Events(false, true)
      ensures all' == all + {c} && Agrees(poller.View(all')) && poller.channelMap == old(poller.channelMap)[fd := c]
    {
      c := new Channel(poller, fd);
      all' := all + {c};
      NewChannelAgrees(all, c);
      ghost var p := poller.View(all');
      assert p.chans[c] == Chan(fd, NO_EVENTS, NEW);
      c.AddListenEvents(WRITE, all');
      assert poller.View(all').chans[c] == Chan(fd, Events(false, true), ADD);
    }

    lemma {:induction false} NewChannelAgrees(all: set<Channel>, c: Channel)
      requires Agrees(poller.View(all)) && c !in all && c.status == NEW && c.fd !in poller.channelMap
      ensures Agrees(poller.View(all + {c}))
    {
      var p, q := poller.View(all), poller.View(all + {c});
      forall x | x in q.chans ensures ChanOk(q, x) {
        assert x != c ==> ChanOk(p, x);
      }
      forall fd ensures FdOk(q, fd) {
        assert FdOk(p, fd);
      }
    }

    method BeginConnecting(fd: int, ghost all: set<Channel>) returns (ghost all': set<Channel>)
      requires Linked(all) && fd !in poller.channelMap && status == Disconnected
      modifies `status, `channel, `made, poller
      ensures Linked(all') && fresh(all' - all) && all <= all'
      ensures View() == old(View()).(status := Connecting, channel := Some(fd), watched := old(View()).watched + {fd})
    {
      ghost var watched := Watched();
      status := Connecting;
      var c;
      c, all' := NewChannel(fd, all);
      channel, made := c, made + {c};
      assert Watched() == watched + {fd};
    }

    method Open(fd: int, ghost all: set<Channel>)
      requires Linked(all)
      modifies `sockets
      ensures Linked(all) && View() == old(View()).(sockets := old(sockets) + [fd])
    {
      sockets := sockets + [fd];
    }

    /** socket() has returned `fd`, which nothing in the process uses; `errno` is connect()'s. */
    method Connect(fd: int, errno: Errno, ghost all: set<Channel>) returns (ghost all': set<Channel>)
      requires Linked(all) && fd !in poller.channelMap && status == Disconnected
      modifies this, poller
      ensures Linked(all') && fresh(all' - all) && all <= all'
      ensures View() == ConnectTo(old(View()), fd, errno)
    {
      Open(fd, all);
      all' := all;
      if Begins(errno) {
        all' := BeginConnecting(fd, all);
      } else if errno.OTHER? {
        Close(fd);
      } else {
        Retry(fd);
      }
    }

    method RunStart(fd: int, errno: Errno, ghost all: set<Channel>) returns (ghost all': set<Channel>)
      requires Linked(all) && fd !in poller.channelMap
      modifies this, poller
      ensures Linked(all') && fresh(all' - all) && all <= all'
      ensures View() == Started(old(View()), fd, errno)
    {
      all' := all;
      if status == Disconnected {
        if wanted {
          all' := Connect(fd, errno, all);
        }
      }
    }

    /** A timely start keeps the connector valid; an untimely one is made all the same. */
    method StartInLoop(fd: int, errno: Errno, ghost all: set<Channel>) returns (ghost all': set<Channel>)
      requires Linked(all) && fd !in poller.channelMap
      modifies this, poller
      ensures Linked(all') && fresh(all' - all) && all <= all'
      ensures View() == Next(old(View()), Step.StartInLoop(fd, errno))
      ensures old(Inv(View()) && Timely(View(), Step.StartInLoop(fd, errno))) ==> Valid(all')
    {
      KeepsInv(Step.StartInLoop(fd, errno));
      all' := RunStart(fd, errno, all);
    }

    lemma {:induction false} KeepsInv(s: Step)
      requires Enabled(View(), s)
      ensures Inv(View()) && Timely(View(), s) ==> Inv(Next(View(), s))
    {
      if Inv(View()) {
        StepKeepsInv(View(), s);
      }
    }

    /** start() called in the loop thread; from another thread the two steps are apart. */
    method Start(fd: int, errno: Errno, ghost all: set<Channel>) returns (ghost all': set<Channel>)
      requires Linked(all) && fd !in poller.channelMap
      modifies this, poller
      ensures Linked(all') && fresh(all' - all) && all <= all'
      ensures View() == Next(Next(old(View()), Want), Step.StartInLoop(fd, errno))
      ensures old(Inv(View()) && Timely(Next(View(), Want), Step.StartInLoop(fd, errno))) ==> Valid(all')
    {
      KeepsInv(Want);
      RaiseFlag(all);
      all' := StartInLoop(fd, errno, all);
    }

    method RaiseFlag(ghost all: set<Channel>)
      requires Linked(all)
      modifies `wanted
      ensures Linked(all) && View() == old(View()).(wanted := true)
    {
      wanted := true;
    }

    method ResetState(ghost all: set<Channel>)
      requires Linked(all)
      modifies `status, `wanted, `retryDelayMs, `waits
      ensures Linked(all) && View() == Restarted(old(View()))
    {
      status, wanted, retryDelayMs, waits := Disconnected, true, INIT_RETRY_DELAY_MS, [];
    }

    method Restart(fd: int, errno: Errno, ghost all: set<Channel>) returns (ghost all': set<Channel>)
      requires Linked(all) && fd !in poller.channelMap
      modifies this, poller
      ensures Linked(all') && fresh(all' - all) && all <= all'
      ensures View() == Next(old(View()), Step.Restart(fd, errno))
      ensures old(Inv(View()) && Timely(View(), Step.Restart(fd, errno))) ==> Valid(all')
    {
      KeepsInv(Step.Restart(fd, errno));
      ResetState(all);
      all' := RunStart(fd, errno, all);
    }

    /** The functor queued when the channel left the poller. */
    method ResetChannel(ghost all: set<Channel>)
      requires Linked(all) && resets > 0
      modifies `channel, `resets
      ensures View() == Next(old(View()), Step.ResetChannel)
      ensures status != Connecting ==> Linked(all)
      ensures old(Valid(all)) ==> Valid(all)
    {
      KeepsInv(Step.ResetChannel);
      channel, resets := null, resets - 1;
    }

    method Unregister(c: Channel, ghost all: set<Channel>)
      requires c.poller == poller && c in all && Agrees(poller.View(all)) && c.status == ADD
      modifies c, poller
      ensures Agrees(poller.View(all)) && poller.channelMap == old(poller.channelMap) - {c.fd}
    {
      c.DelAllListenEvents(all);
      c.RemoveFromLoop(all);
    }

    method RemoveAndResetChannel(ghost all: set<Channel>) returns (fd: int)
      requires Linked(all) && status == Connecting
      modifies `resets, channel, poller
      ensures channel.fd == fd && made <= all && Agrees(poller.View(all))
      ensures View() == Unwatched(old(View()), fd)
    {
      ghost var watched := Watched();
      Unregister(channel, all);
      fd := channel.fd;
      resets := resets + 1;
      assert Watched() == watched - {fd};
    }

    /** The connection is handed over; the retry timer leaves the loop. */
    method Succeed(fd: int)
      modifies `status, `timerAlive, `closed, `handed
      ensures View() == Succeeded(old(View()), fd)
    {
      status := Connected;
      if wanted {
        handed := handed + [fd];
      } else {
        Close(fd);
      }
      timerAlive := false;
    }

    method Finish(failed: bool, ghost all: set<Channel>)
      requires Linked(all) && status == Connecting
      modifies this, channel, poller
      ensures Linked(all) && View() == Wrote(old(View()), failed)
    {
      var fd := RemoveAndResetChannel(all);
      if failed {
        Retry(fd);
      } else {
        Succeed(fd);
      }
    }

    /** `failed`: getsockopt fails or reports an error. */
    method HandleWrite(failed: bool, ghost all: set<Channel>)
      requires Linked(all)
      modifies this, channel, poller
      ensures Linked(all) && View() == Next(old(View()), Step.HandleWrite(failed))
      ensures old(Valid(all)) ==> Valid(all)
    {
      KeepsInv(Step.HandleWrite(failed));
      if status == Connecting {
        Finish(failed, all);
      }
    }

    method Fail(ghost all: set<Channel>)
      requires Linked(all) && status == Connecting
      modifies this, channel, poller
      ensures Linked(all) && View() == Erred(old(View()))
    {
      var fd := RemoveAndResetChannel(all);
      Retry(fd);
    }

    /** An error event always means another try. */
    method HandleError(ghost all: set<Channel>)
      requires Linked(all)
      modifies this, channel, poller
      ensures Linked(all) && View() == Next(old(View()), Step.HandleError)
      ensures old(Valid(all)) ==> Valid(all)
    {
      KeepsInv(Step.HandleError);
      if status == Connecting {
        Fail(all);
      }
    }
  }
}
