/** The output path of a connection as a step system: sends that may be written only in part,
    the write handler, and the half-close. */
module Connection {
  import opened Bytes
  import opened Buffers

  datatype ConnState = Disconnected | Connecting | Connected | Disconnecting

  /** What write() answers in sendInLoop: PeerGone is EPIPE or ECONNRESET. */
  datatype SendAnswer = Wrote(n: nat) | WouldBlock | PeerGone | OtherError

  /** `accepted` are the bytes the kernel has taken and `given` those handed to sendInLoop
      while the connection was not closed. `fin` is what the two were when SHUT_WR was first
      issued, and `asked` tells whether shutdownInLoop has run after shutdown(). */
  datatype Conn = Conn(
    state: ConnState, writing: bool, output: seq<byte>,
    accepted: seq<byte>, given: seq<byte>,
    fin: Option<(seq<byte>, seq<byte>)>, asked: bool)

  const ESTABLISHED: Conn := Conn(Connected, false, [], [], [], None, false)

  datatype Step =
    | Send(data: seq<byte>, answer: SendAnswer)
    | Writable(result: WriteAnswer)
    | Shutdown
    | ShutdownInLoop
    | Close

  /** The kernel takes no more than it is offered; shutdown() works on a connected one, its
      functor follows it, and handleClose asserts that the connection is open. */
  predicate Enabled(c: Conn, step: Step) {
    match step
    case Send(data, Wrote(n)) => n <= |data|
    case Send(_, _) => true
    case Writable(Accepted(n)) => n <= |c.output|
    case Writable(WriteFailed) => true
    case Shutdown => c.state == Connected
    case ShutdownInLoop => c.state == Disconnecting
    case Close => c.state == Connected || c.state == Disconnecting
  }

  /** Whether a send is written straight away. */
  predicate Direct(c: Conn) {
    !c.writing && c.output == []
  }

  function Sent(c: Conn, data: seq<byte>, answer: SendAnswer): Conn
    requires answer.Wrote? ==> answer.n <= |data|
  {
    if c.state == Disconnected then c
    else
      var n := if Direct(c) && answer.Wrote? then answer.n else 0;
      var c' := c.(accepted := c.accepted + data[..n], given := c.given + data);
      if (Direct(c) && answer == PeerGone) || n == |data| then c'
      else c'.(output := c.output + data[n..], writing := true)
  }

  function FinSent(c: Conn): Conn {
    if c.writing || c.fin.Some? then c else c.(fin := Some((c.accepted, c.given)))
  }

  /** The write handler. A failed write comes back as a huge size and empties the buffer. */
  function Written(c: Conn, answer: WriteAnswer): Conn
    requires answer.Accepted? ==> answer.n <= |c.output|
  {
    var n := if answer.Accepted? then answer.n else SIZE_MAX;
    if !c.writing || n == 0 then c
    else
      var c' := c.(accepted := c.accepted + (if answer.Accepted? then c.output[..n] else []),
                   output := if answer.Accepted? then c.output[n..] else []);
      if c'.output != [] then c'
      else if c.state == Disconnecting then FinSent(c'.(writing := false))
      else c'.(writing := false)
  }

  function Next(c: Conn, step: Step): Conn
    requires Enabled(c, step)
  {
    match step
    case Send(data, answer) => Sent(c, data, answer)
    case Writable(answer) => Written(c, answer)
    case Shutdown => c.(state := Disconnecting)
    case ShutdownInLoop => FinSent(c.(asked := true))
    case Close => c.(state := Disconnected, writing := false)
  }

  /** No byte is lost, doubled or reordered between sendInLoop and the kernel. */
  predicate Conserved(c: Conn) {
    c.accepted + c.output == c.given
  }

  /** The steps that lose bytes: a direct write refused because the peer is gone, and a
      failed write with bytes waiting. */
  predicate Loses(c: Conn, step: Step) {
    match step
    case Send(data, answer) => c.state != Disconnected && Direct(c) && answer == PeerGone && data != []
    case Writable(answer) => c.writing && answer == WriteFailed && c.output != []
    case _ => false
  }

  lemma {:induction false} ConservedUnlessLost(c: Conn, step: Step)
    requires Conserved(c) && Enabled(c, step)
    ensures Conserved(Next(c, step)) <==> !Loses(c, step)
  {
    match step
    case Send(data, answer) =>
      if c.state != Disconnected {
        var n := if Direct(c) && answer.Wrote? then answer.n else 0;
        assert data == data[..n] + data[n..];
        AppendAssoc(c.accepted, c.output, data);
        if Direct(c) {
          assert c.accepted + c.output == c.accepted;
          AppendAssoc(c.accepted, data[..n], data[n..]);
          assert [] + data[n..] == data[n..];
          if answer == PeerGone {
            assert Next(c, step).accepted == c.accepted + data[..0] == c.accepted;
          } else if n == |data| {
            assert Next(c, step).accepted + [] == c.accepted + data;
          }
        } else {
          assert c.accepted + data[..0] == c.accepted && data[0..] == data;
        }
      }
    case Writable(answer) =>
      if c.writing {
        if answer.Accepted? {
          AppendAssoc(c.accepted, c.output[..answer.n], c.output[answer.n..]);
          assert c.output[..answer.n] + c.output[answer.n..] == c.output;
        } else {
          assert Next(c, step).accepted == c.accepted + [] == c.accepted;
          assert |Next(c, step).accepted + Next(c, step).output| == |c.accepted|;
        }
      }
    case _ =>
  }

  // ---- runs ---------------------------------------------------------------

  predicate Run(c: Conn, steps: seq<Step>)
    decreases |steps|
  {
    steps == [] || (Enabled(c, steps[0]) && Run(Next(c, steps[0]), steps[1..]))
  }

  function After(c: Conn, steps: seq<Step>): Conn
    requires Run(c, steps)
    decreases |steps|
  {
    if steps == [] then c else After(Next(c, steps[0]), steps[1..])
  }

  /** Both happen: what is sent to a full socket is lost when the write handler then fails, and
      what is sent when the peer is gone is lost at once. */
  lemma {:induction false} BytesAreLost(data: seq<byte>)
    requires data != []
    ensures var failed, gone := [Send(data, WouldBlock), Writable(WriteFailed)], [Send(data, PeerGone)];
      && Run(ESTABLISHED, failed) && Run(ESTABLISHED, gone)
      && After(ESTABLISHED, failed).given == data == After(ESTABLISHED, gone).given
      && After(ESTABLISHED, failed).accepted == [] == After(ESTABLISHED, gone).accepted
      && After(ESTABLISHED, failed).output == [] == After(ESTABLISHED, gone).output
  {
    var sent := Next(ESTABLISHED, Send(data, WouldBlock));
    assert sent.output == data && sent.given == data;
    Alone(sent, Writable(WriteFailed));
    Cons(ESTABLISHED, Send(data, WouldBlock), [Writable(WriteFailed)]);
    Alone(ESTABLISHED, Send(data, PeerGone));
  }

  lemma {:induction false} Alone(c: Conn, step: Step)
    requires Enabled(c, step)
    ensures Run(c, [step]) && After(c, [step]) == Next(c, step)
  {
    assert [step][1..] == [];
  }

  lemma {:induction false} Cons(c: Conn, step: Step, steps: seq<Step>)
    requires Enabled(c, step) && Run(Next(c, step), steps)
    ensures Run(c, [step] + steps) && After(c, [step] + steps) == After(Next(c, step), steps)
  {
    assert ([step] + steps)[1..] == steps;
  }

  /** No step of the run loses bytes or closes the connection. */
  predicate Quiet(c: Conn, steps: seq<Step>)
    requires Run(c, steps)
    decreases |steps|
  {
    steps == [] || (!Loses(c, steps[0]) && steps[0] != Close && Quiet(Next(c, steps[0]), steps[1..]))
  }

  predicate Inv(c: Conn) {
    && (c.state == Connected || c.state == Disconnecting)
    && Conserved(c)
    && (c.writing <==> c.output != [])
    && (c.fin.Some? ==> c.fin.value.0 == c.fin.value.1)
    && (c.asked ==> c.state == Disconnecting && (c.fin.Some? || c.writing))
  }

  lemma {:induction false} StepKeepsInv(c: Conn, step: Step)
    requires Inv(c) && Enabled(c, step) && !Loses(c, step) && step != Close
    ensures Inv(Next(c, step))
  {
    ConservedUnlessLost(c, step);
    var c' := Next(c, step);
    if c'.output == [] {
      assert c'.accepted + [] == c'.accepted;
    }
  }

  lemma {:induction false} RunKeepsInv(c: Conn, steps: seq<Step>)
    requires Inv(c) && Run(c, steps) && Quiet(c, steps)
    ensures Inv(After(c, steps))
    decreases |steps|
  {
    if steps != [] {
      StepKeepsInv(c, steps[0]);
      RunKeepsInv(Next(c, steps[0]), steps[1..]);
    }
  }

  /** On every quiet run from the established connection the bytes the kernel has taken,
      followed by the output buffer, are all that was given, and EPOLLOUT is asked for
      exactly while the buffer holds something. */
  lemma {:induction false} OutputConserved(steps: seq<Step>)
    requires Run(ESTABLISHED, steps) && Quiet(ESTABLISHED, steps)
    ensures var c := After(ESTABLISHED, steps);
      c.accepted + c.output == c.given && (c.writing <==> c.output != [])
  {
    RunKeepsInv(ESTABLISHED, steps);
  }

  /** Half-close: SHUT_WR goes out only once everything given before it is in the kernel, and
      a shutdown that has been asked for has been issued or waits for the buffer to drain,
      with EPOLLOUT on. */
  lemma {:induction false} HalfClose(steps: seq<Step>)
    requires Run(ESTABLISHED, steps) && Quiet(ESTABLISHED, steps)
    ensures var c := After(ESTABLISHED, steps);
      && (c.fin.Some? ==> c.fin.value.0 == c.fin.value.1)
      && (c.asked ==> c.fin.Some? || (c.writing && c.output != [] && c.state == Disconnecting))
  {
    RunKeepsInv(ESTABLISHED, steps);
  }

  /** The step that issues SHUT_WR finds everything given so far in the kernel. */
  lemma {:induction false} FinAfterAll(c: Conn, step: Step)
    requires Inv(c) && Enabled(c, step) && !Loses(c, step) && step != Close
    requires c.fin.None? && Next(c, step).fin.Some?
    ensures Next(c, step).accepted == Next(c, step).given
  {
    StepKeepsInv(c, step);
    var e := Next(c, step);
    assert e.fin == Some((e.accepted, e.given));
  }

  function Sum(ns: seq<nat>): nat {
    if ns == [] then 0 else ns[0] + Sum(ns[1..])
  }

  function Writes(ns: seq<nat>): seq<Step> {
    if ns == [] then [] else [Writable(Accepted(ns[0]))] + Writes(ns[1..])
  }

  /** However small the pieces the kernel takes, the one that drains the buffer of a
      connection being shut down issues SHUT_WR. */
  lemma {:induction false} DrainIssuesFin(c: Conn, ns: seq<nat>)
    requires Inv(c) && c.state == Disconnecting && c.writing && Sum(ns) == |c.output|
    ensures Run(c, Writes(ns)) && After(c, Writes(ns)).output == [] && After(c, Writes(ns)).fin.Some?
    ensures After(c, Writes(ns)).accepted == c.given
    decreases |ns|
  {
    var step := Writable(Accepted(ns[0]));
    assert Writes(ns)[0] == step && Writes(ns)[1..] == Writes(ns[1..]);
    StepKeepsInv(c, step);
    var c' := Next(c, step);
    if c'.output == [] {
      DrainedStays(c', ns[1..]);
      assert c'.accepted + [] == c'.accepted;
    } else {
      DrainIssuesFin(c', ns[1..]);
    }
  }

  /** Nothing is left to write: further empty writes change nothing. */
  lemma {:induction false} DrainedStays(c: Conn, ns: seq<nat>)
    requires !c.writing && c.output == [] && Sum(ns) == 0
    ensures Run(c, Writes(ns)) && After(c, Writes(ns)) == c
    decreases |ns|
  {
    if ns != [] {
      assert Writes(ns)[1..] == Writes(ns[1..]);
      DrainedStays(c, ns[1..]);
    }
  }
}
