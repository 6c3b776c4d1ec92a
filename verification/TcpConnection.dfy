/** TcpConnection as the source runs it, over a Buffer and a Channel; each handler is one step
    of the connection's step system and keeps the poller in agreement. */
module TcpConnections {
  import opened Bytes
  import opened Buffers
  import opened Connection
  import opened Poller

  class TcpConnection {
    var state: ConnState
    const channel: Channel
    const output: Buffer
    ghost var accepted: seq<byte>
    ghost var given: seq<byte>
    ghost var fin: Option<(seq<byte>, seq<byte>)>
    ghost var asked: bool

    predicate Open()
      reads this
    {
      state == Connected || state == Disconnecting
    }

    /** `all` are the channels of the loop. An open connection's channel is registered and
        always listens for reading; no other listens for writing. */
    ghost predicate Valid(all: set<Channel>)
      reads this, output, all, channel.poller
    {
      && output.Valid()
      && channel in all && Agrees(channel.poller.View(all))
      && (Open() ==> channel.status == ADD && channel.event.read)
      && (channel.event.write ==> Open())
    }

    ghost function View(): Conn
      requires output.Valid()
      reads this, output, output.data, channel
    {
      Conn(state, channel.event.write, output.Contents(), accepted, given, fin, asked)
    }

    constructor (poller: EPollPoller, connfd: int, ghost all: set<Channel>)
      requires Agrees(poller.View(all)) && connfd !in poller.channelMap
      ensures state == Connecting && fresh(channel) && channel.poller == poller && channel.fd == connfd
      ensures channel.event == NO_EVENTS && channel.status == NEW && fresh(output) && fresh(output.data)
      ensures output.Valid() && View() == ESTABLISHED.(state := Connecting)
    {
      state := Connecting;
      channel := new Channel(poller, connfd);
      output := new Buffer(INITIAL_SIZE);
      accepted, given, fin, asked := [], [], None, false;
    }

    method ConnectEstablished(ghost all: set<Channel>)
      requires output.Valid() && channel in all && Agrees(channel.poller.View(all))
      requires state == Connecting && channel.status == NEW && channel.fd !in channel.poller.channelMap
      modifies `state, channel, channel.poller
      ensures Valid(all) && state == Connected
      ensures View() == old(View()).(state := Connected)
      ensures channel.event == old(channel.event).(read := true)
    {
      state := Connected;
      channel.AddListenEvents(READ, all);
    }

    /** EPOLLOUT on or off; the channel of an open connection stays registered. */
    method ListenWrite(on: bool, ghost all: set<Channel>)
      requires Valid(all) && Open()
      modifies channel, channel.poller
      ensures Valid(all) && channel.event == Events(true, on)
    {
      if on {
        channel.AddListenEvents(WRITE, all);
      } else {
        channel.DelListenEvents(WRITE, all);
      }
    }

    /** send() and shutdown() leave no way here before the connection is established. */
    method SendInLoop(data: seq<byte>, answer: SendAnswer, ghost all: set<Channel>)
      requires Valid(all) && state != Connecting && (answer.Wrote? ==> answer.n <= |data|)
      modifies this`accepted, this`given, output, output.data, channel, channel.poller
      ensures Valid(all) && (output.data == old(output.data) || fresh(output.data))
      ensures View() == Sent(old(View()), data, answer)
    {
      if state == Disconnected {
        return;
      }
      var nwrote, err := 0, false;
      if !channel.event.write && output.ReadableBytes() == 0 {
        match answer
        case Wrote(n) => nwrote := n;
        case PeerGone => err := true;
        case _ =>
      }
      accepted, given := accepted + data[..nwrote], given + data;
      if !err && nwrote < |data| {
        Spill(data[nwrote..], all);
      }
    }

    /** What was not written waits in the output buffer, with EPOLLOUT on. */
    method Spill(rest: seq<byte>, ghost all: set<Channel>)
      requires Valid(all) && Open()
      modifies output, output.data, channel, channel.poller
      ensures Valid(all) && (output.data == old(output.data) || fresh(output.data))
      ensures View() == old(View()).(output := old(output.Contents()) + rest, writing := true)
    {
      output.WriteLen(rest);
      if !channel.event.write {
        ListenWrite(true, all);
      }
    }

    /** The size_t result of a failed write is larger than any buffer. A write event that is
        dispatched behind a close in the same round finds the channel not writing. */
    method HandleWrite(answer: WriteAnswer, ghost all: set<Channel>)
      requires Valid(all) && output.ReadableBytes() < SIZE_MAX
      requires answer.Accepted? ==> answer.n <= output.ReadableBytes()
      modifies this`accepted, this`fin, output`readIndex, output`writeIndex, channel, channel.poller
      ensures Valid(all)
      ensures View() == Written(old(View()), answer)
    {
      if channel.event.write {
        var n := output.WriteFd(answer);
        if n > 0 {
          accepted := accepted + if answer.Accepted? then output.Contents()[..n] else [];
          output.Retrieve(n);
          if output.ReadableBytes() == 0 {
            Drained(all);
          }
        }
      }
    }

    /** The buffer has been written out: EPOLLOUT off, and the half-close that was waiting. */
    method Drained(ghost all: set<Channel>)
      requires Valid(all) && Open()
      modifies `fin, channel, channel.poller
      ensures Valid(all)
      ensures var c := old(View()).(writing := false);
        View() == if state == Disconnecting then FinSent(c) else c
    {
      ListenWrite(false, all);
      if state == Disconnecting {
        ShutdownInLoop();
      }
    }

    /** shutdown(): the flag now, the half-close from the loop. */
    method Shutdown(ghost all: set<Channel>)
      requires Valid(all)
      modifies `state
      ensures Valid(all)
      ensures View() == if Enabled(old(View()), Step.Shutdown) then Next(old(View()), Step.Shutdown) else old(View())
    {
      if state == Connected {
        state := Disconnecting;
      }
    }

    method ShutdownInLoop()
      requires output.Valid()
      modifies `fin
      ensures View() == FinSent(old(View()))
    {
      if !channel.event.write {
        fin := if fin.Some? then fin else Some((accepted, given));
      }
    }

    method HandleClose(ghost all: set<Channel>)
      requires Valid(all) && Open()
      modifies `state, channel, channel.poller
      ensures Valid(all) && channel.status == DELETE && channel.fd !in channel.poller.interest
      ensures View() == old(View()).(state := Disconnected, writing := false)
    {
      state := Disconnected;
      channel.DelAllListenEvents(all);
      assert ChanOk(channel.poller.View(all), channel);
    }

    /** While the connection is open and its invariant holds, the kernel watches its socket for
        reading always, and for writing exactly while bytes wait in the output buffer. */
    lemma KernelMask(all: set<Channel>)
      requires Valid(all) && Open() && Inv(View())
      ensures channel.fd in channel.poller.interest
      ensures channel.poller.interest[channel.fd] == Events(true, output.Contents() != [])
    {
      assert ChanOk(channel.poller.View(all), channel);
    }
  }
}
