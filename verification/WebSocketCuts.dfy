/** What becomes of websocket messages whose bytes arrive in several reads. */
module WebSocketCuts {
  import opened Bytes
  import opened WebSocket

  /** The fewest bytes that decode to the message: one frame, with its shortest length form. */
  function Cost(m: Message): nat {
    2 + MASK_LEN + |LengthBytes(|m.data|)| + |m.data|
  }

  function Costs(ms: seq<Message>): nat {
    if ms == [] then 0 else Cost(ms[0]) + Costs(ms[1..])
  }

  lemma {:induction false} CostsAppend(a: seq<Message>, b: seq<Message>)
    ensures Costs(a + b) == Costs(a) + Costs(b)
  {
    if a == [] {
      assert a + b == b;
    } else {
      assert (a + b)[0] == a[0] && (a + b)[1..] == a[1..] + b;
      CostsAppend(a[1..], b);
    }
  }

  /** A frame takes head, mask, payload and a length form that can hold the payload's size. */
  lemma {:induction false} FrameCosts(s: seq<byte>)
    requires ReadFrame(s).Frame?
    ensures var f := ReadFrame(s); |f.rest| + 2 + MASK_LEN + |LengthBytes(|f.data|)| + |f.data| <= |s|
  {
    var h := ParseHead(s[0], s[1]);
    var t := s[2..];
    if h.payload == 126 {
      BigEndianBound(t[..2]);
      assert Pow2(8) == 256 && Pow2(16) == 65536 by { Pow2Add(8, 8); }
    }
  }

  lemma {:induction false} BigEndianBound(s: seq<byte>)
    ensures FromBigEndian(s) < Pow2(8 * |s|)
    decreases |s|
  {
    if s != [] {
      BigEndianBound(s[..|s| - 1]);
      Pow2Add(8, 8 * (|s| - 1));
      assert Pow2(8) == 256;
    }
  }

  /** No way of cutting a message into frames costs less than one frame. */
  lemma {:induction false} DecodeCosts(s: seq<byte>, heads: nat, opcode: nat, data: seq<byte>)
    requires DecodeFrom(s, heads, opcode, data).0.Some?
    ensures var (m, rest) := DecodeFrom(s, heads, opcode, data);
      && |data| <= |m.value.data|
      && |rest| + 2 + MASK_LEN + |m.value.data| - |data| <= |s|
      && (data == [] ==> |rest| + Cost(m.value) <= |s|)
    decreases heads
  {
    match ReadFrame(s)
    case Skipped(rest) =>
      DecodeCosts(rest, heads - 1, opcode, data);
    case Frame(fin, op, payload, rest) =>
      FrameCosts(s);
      if !fin {
        DecodeCosts(rest, heads - 1, NextOpcode(opcode, op), data + payload);
      }
  }

  lemma {:induction false} SingleCost(f: Fragment)
    ensures EncodeFragments([f]) == EncodeFrame(f, true) && Whole([f]).data == f.data
    ensures |EncodeFragments([f])| == Cost(Whole([f]))
  {
    assert [f][1..] == [] && EncodeFrame(f, true) + [] == EncodeFrame(f, true);
    assert Joined([f]) == f.data + Joined([f][1..]) && f.data + [] == f.data;
  }

  /** A message of one frame that arrives in two reads is delivered exactly when the first
      read holds less than the frame head. */
  lemma {:induction false} SplitMessage(f: Fragment, n: nat)
    requires IsDataOpcode(f.opcode) && n < |EncodeFragments([f])|
    ensures var s := EncodeFragments([f]);
      Decode(Decode(s[..n]).1 + s[n..]).0 == Some(Whole([f])) <==> n < 2
  {
    var s := EncodeFragments([f]);
    assert AllData([f]) by { assert [f][1..] == []; }
    PartialReadKeepsBytes([f], n);
    if n < 2 {
      assert s[..n] + s[n..] == s && s + [] == s;
      RoundTrip([f], []);
    } else {
      DecodeTakesHead(s[..n], MAX_HEADS, 0, []);
      SingleCost(f);
      var t := Decode(s[..n]).1 + s[n..];
      assert |t| < |s|;
      if Decode(t).0.Some? {
        DecodeCosts(t, MAX_HEADS, 0, []);
      }
    }
  }

  // ---- the stream in pieces -------------------------------------------------

  /** The loop called each time a read has been appended to the buffer: all that is handed
      over, and what is left. */
  function Receive(left: seq<byte>, pieces: seq<seq<byte>>): (seq<Message>, seq<byte>)
    decreases |pieces|
  {
    if pieces == [] then ([], left)
    else
      var (ms, left1) := Deliver(left + pieces[0]);
      var (ms', left2) := Receive(left1, pieces[1..]);
      (ms + ms', left2)
  }

  /** How far the first `n` bytes of the stream reach into a message that is not whole. */
  function Overhang(msgs: seq<seq<Fragment>>, n: nat): nat {
    if msgs == [] || n < |EncodeFragments(msgs[0])| then n
    else Overhang(msgs[1..], n - |EncodeFragments(msgs[0])|)
  }

  /** Every read ends at the end of a message or one byte behind it; `n` bytes have been read. */
  predicate GoodCuts(msgs: seq<seq<Fragment>>, n: nat, pieces: seq<seq<byte>>)
    decreases |pieces|
  {
    pieces == [] || (Overhang(msgs, n + |pieces[0]|) <= 1 && GoodCuts(msgs, n + |pieces[0]|, pieces[1..]))
  }

  lemma {:induction false} DeliverCosts(s: seq<byte>)
    ensures Costs(Deliver(s).0) + |Deliver(s).1| <= |s|
    decreases |s|
  {
    var (m, rest) := Decode(s);
    if m.None? {
      DecodeTakesHead(s, MAX_HEADS, 0, []);
    } else {
      DecodeCosts(s, MAX_HEADS, 0, []);
      SuccessConsumes(s, MAX_HEADS, 0, []);
      if rest == [] {
        assert [m.value][1..] == [];
      } else {
        DeliverCosts(rest);
        assert ([m.value] + Deliver(rest).0)[1..] == Deliver(rest).0;
      }
    }
  }

  lemma {:induction false} ReceiveCosts(left: seq<byte>, pieces: seq<seq<byte>>)
    ensures Costs(Receive(left, pieces).0) + |Receive(left, pieces).1| <= |left| + |Concat(pieces)|
    decreases |pieces|
  {
    if pieces != [] {
      var (ms, left1) := Deliver(left + pieces[0]);
      DeliverCosts(left + pieces[0]);
      ReceiveCosts(left1, pieces[1..]);
      CostsAppend(ms, Receive(left1, pieces[1..]).0);
    }
  }

  /** A message that is not whole is left as it is while it is at most one byte, and loses at
      least a head otherwise. */
  lemma {:induction false} LeftOfOne(fs: seq<Fragment>, n: nat)
    requires AllData(fs) && n < |EncodeFragments(fs)|
    ensures var s := EncodeFragments(fs)[..n];
      Deliver(s).0 == [] && (if n < 2 then Deliver(s).1 == s else |Deliver(s).1| + 2 <= n)
  {
    NoEarlyDelivery(fs, n);
    PartialReadKeepsBytes(fs, n);
    DecodeTakesHead(EncodeFragments(fs)[..n], MAX_HEADS, 0, []);
  }

  /** What has become of a stream of which `a` has arrived and `more` has not: the messages
      handed over, and the bytes that are left of the next one. */
  predicate Arrived(msgs: seq<seq<Fragment>>, a: seq<byte>, more: seq<byte>, k: nat, d: nat) {
    && k <= |msgs| && Deliver(a).0 == Wholes(msgs[..k]) && |EncodeStream(msgs[k..])| == d + |more|
    && (if d < 2 then |Deliver(a).1| == d && Deliver(a).1 + more == EncodeStream(msgs[k..])
        else |Deliver(a).1| + 2 <= d)
  }

  lemma {:induction false} ArrivedInPart(msgs: seq<seq<Fragment>>, a: seq<byte>, more: seq<byte>)
    requires msgs != [] && Sendable(msgs) && a + more == EncodeStream(msgs) && |a| < |EncodeFragments(msgs[0])|
    ensures Arrived(msgs, a, more, 0, |a|)
  {
    SplitWithin(a, more, EncodeFragments(msgs[0]), EncodeStream(msgs[1..]));
    LeftOfOne(msgs[0], |a|);
    assert msgs[0..] == msgs && msgs[..0] == [];
  }

  lemma {:induction false} ArrivedWhole(msgs: seq<seq<Fragment>>, a: seq<byte>, more: seq<byte>, k: nat, d: nat)
    requires msgs != [] && Sendable(msgs) && Arrived(msgs[1..], a, more, k, d)
    ensures Arrived(msgs, EncodeFragments(msgs[0]) + a, more, 1 + k, d)
  {
    var tail := msgs[1..];
    DeliverStep(msgs[0], a);
    assert msgs[..1 + k][0] == msgs[0] && msgs[..1 + k][1..] == tail[..k] && msgs[1 + k..] == tail[k..];
  }

  lemma {:induction false} WhatArrived(msgs: seq<seq<Fragment>>, a: seq<byte>, more: seq<byte>)
    requires Sendable(msgs) && a + more == EncodeStream(msgs)
    ensures Arrived(msgs, a, more, Complete(msgs, |a|), Overhang(msgs, |a|))
    decreases |msgs|
  {
    if msgs == [] {
      NoneArrived(a, more);
    } else if |a| < |EncodeFragments(msgs[0])| {
      ArrivedInPart(msgs, a, more);
    } else {
      var a' := FirstArrived(msgs, a, more);
      WhatArrived(msgs[1..], a', more);
      ArrivedWhole(msgs, a', more, Complete(msgs[1..], |a'|), Overhang(msgs[1..], |a'|));
    }
  }

  lemma {:induction false} NoneArrived(a: seq<byte>, more: seq<byte>)
    requires a + more == []
    ensures Arrived([], a, more, 0, |a|)
  {
    assert a == [] && Deliver([]) == ([], []);
  }

  lemma {:induction false} FirstArrived(msgs: seq<seq<Fragment>>, a: seq<byte>, more: seq<byte>) returns (a': seq<byte>)
    requires msgs != [] && a + more == EncodeStream(msgs) && |EncodeFragments(msgs[0])| <= |a|
    ensures a == EncodeFragments(msgs[0]) + a' && a' + more == EncodeStream(msgs[1..])
  {
    SplitHead(a, more, EncodeFragments(msgs[0]), EncodeStream(msgs[1..]));
    a' := a[|EncodeFragments(msgs[0])|..];
  }

  lemma {:induction false} OverhangFrom(msgs: seq<seq<Fragment>>, n: nat, x: nat)
    ensures Overhang(msgs, n + x) == Overhang(msgs[Complete(msgs, n)..], Overhang(msgs, n) + x)
    decreases |msgs|
  {
    if msgs == [] || n < |EncodeFragments(msgs[0])| {
      assert msgs[0..] == msgs;
    } else {
      var first, tail := |EncodeFragments(msgs[0])|, msgs[1..];
      OverhangFrom(tail, n - first, x);
      assert msgs[1 + Complete(tail, n - first)..] == tail[Complete(tail, n - first)..];
    }
  }

  /** Messages that are handed over can be forgotten. */
  lemma {:induction false} GoodCutsFrom(msgs: seq<seq<Fragment>>, n: nat, x: nat, pieces: seq<seq<byte>>)
    ensures GoodCuts(msgs, n + x, pieces) <==> GoodCuts(msgs[Complete(msgs, n)..], Overhang(msgs, n) + x, pieces)
    decreases |pieces|
  {
    if pieces != [] {
      OverhangFrom(msgs, n, x + |pieces[0]|);
      GoodCutsFrom(msgs, n, x + |pieces[0]|, pieces[1..]);
    }
  }

  lemma {:induction false} WholesAppend(a: seq<seq<Fragment>>, b: seq<seq<Fragment>>)
    ensures Wholes(a + b) == Wholes(a) + Wholes(b)
  {
    if a == [] {
      assert a + b == b;
    } else {
      assert (a + b)[0] == a[0] && (a + b)[1..] == a[1..] + b;
      WholesAppend(a[1..], b);
    }
  }

  lemma {:induction false} SendableFrom(msgs: seq<seq<Fragment>>, k: nat)
    requires Sendable(msgs) && k <= |msgs|
    ensures Sendable(msgs[k..])
  {
    if k > 0 {
      SendableFrom(msgs[1..], k - 1);
      assert msgs[1..][k - 1..] == msgs[k..];
    } else {
      assert msgs[0..] == msgs;
    }
  }

  /** One read: the messages handed over, and the state in which the rest is received. */
  lemma {:induction false} ReadStep(msgs: seq<seq<Fragment>>, left: seq<byte>, pieces: seq<seq<byte>>)
    returns (k: nat, d: nat, left': seq<byte>)
    requires Sendable(msgs) && pieces != [] && left + Concat(pieces) == EncodeStream(msgs)
    ensures k == Complete(msgs, |left| + |pieces[0]|) && d == Overhang(msgs, |left| + |pieces[0]|)
    ensures Receive(left, pieces).0 == Wholes(msgs[..k]) + Receive(left', pieces[1..]).0
    ensures Receive(left, pieces).1 == Receive(left', pieces[1..]).1
    ensures k <= |msgs| && Sendable(msgs[k..]) && |EncodeStream(msgs[k..])| == d + |Concat(pieces[1..])|
    ensures if d < 2 then |left'| == d && left' + Concat(pieces[1..]) == EncodeStream(msgs[k..]) else |left'| + 2 <= d
  {
    var a, more := left + pieces[0], Concat(pieces[1..]);
    AppendAssoc(left, pieces[0], more);
    WhatArrived(msgs, a, more);
    k, d, left' := Complete(msgs, |a|), Overhang(msgs, |a|), Deliver(a).1;
    SendableFrom(msgs, k);
  }

  lemma {:induction false} WholesFrom(msgs: seq<seq<Fragment>>, k: nat)
    requires k <= |msgs|
    ensures Wholes(msgs) == Wholes(msgs[..k]) + Wholes(msgs[k..])
  {
    WholesAppend(msgs[..k], msgs[k..]);
    assert msgs == msgs[..k] + msgs[k..];
  }

  /** The cuts behind a read, seen from the messages still to come. */
  lemma {:induction false} CutsFrom(msgs: seq<seq<Fragment>>, n: nat, pieces: seq<seq<byte>>)
    ensures GoodCuts(msgs, n, pieces) <==> GoodCuts(msgs[Complete(msgs, n)..], Overhang(msgs, n), pieces)
  {
    GoodCutsFrom(msgs, n, 0, pieces);
  }

  /** However the stream is cut into reads, everything is delivered when each read ends at the
      end of a message or one byte behind it. */
  lemma {:induction false} GoodCutsDeliver(msgs: seq<seq<Fragment>>, left: seq<byte>, pieces: seq<seq<byte>>)
    requires Sendable(msgs) && |left| <= 1 && left + Concat(pieces) == EncodeStream(msgs)
    requires GoodCuts(msgs, |left|, pieces)
    ensures Receive(left, pieces) == (Wholes(msgs), [])
    decreases |pieces|
  {
    if pieces == [] {
      assert left + [] == left;
      StreamsAreLong(msgs);
    } else {
      var k, d, left' := ReadStep(msgs, left, pieces);
      CutsFrom(msgs, |left| + |pieces[0]|, pieces[1..]);
      GoodCutsDeliver(msgs[k..], left', pieces[1..]);
      WholesFrom(msgs, k);
    }
  }

  lemma {:induction false} StreamsAreLong(msgs: seq<seq<Fragment>>)
    requires Sendable(msgs)
    ensures msgs == [] || |EncodeStream(msgs)| >= 2
  {
    if msgs != [] {
      FragmentsAreLong(msgs[0]);
    }
  }

  lemma {:induction false} FragmentsAreLong(fs: seq<Fragment>)
    requires fs != []
    ensures |EncodeFragments(fs)| >= 2
  {
  }

  // ---- messages of one frame ------------------------------------------------

  predicate Singles(msgs: seq<seq<Fragment>>) {
    msgs == [] || (|msgs[0]| == 1 && IsDataOpcode(msgs[0][0].opcode) && Singles(msgs[1..]))
  }

  lemma {:induction false} SinglesAreSendable(msgs: seq<seq<Fragment>>)
    requires Singles(msgs)
    ensures Sendable(msgs) && Costs(Wholes(msgs)) == |EncodeStream(msgs)|
  {
    if msgs != [] {
      assert msgs[0] == [msgs[0][0]] && msgs[0][1..] == [];
      SingleCost(msgs[0][0]);
      SinglesAreSendable(msgs[1..]);
      assert Wholes(msgs)[1..] == Wholes(msgs[1..]);
    }
  }

  lemma {:induction false} SinglesFrom(msgs: seq<seq<Fragment>>, k: nat)
    requires Singles(msgs) && k <= |msgs|
    ensures Singles(msgs[k..]) && Singles(msgs[..k])
  {
    if k > 0 {
      SinglesFrom(msgs[1..], k - 1);
      assert msgs[1..][k - 1..] == msgs[k..] && msgs[..k][1..] == msgs[1..][..k - 1];
    } else {
      assert msgs[0..] == msgs;
    }
  }

  /** And only then: when every message is one frame, all of them are delivered if and only if
      each read ends at the end of a message or one byte behind it. */
  lemma {:induction false} ExactlyGoodCutsDeliver(msgs: seq<seq<Fragment>>, left: seq<byte>, pieces: seq<seq<byte>>)
    requires Singles(msgs) && |left| <= 1 && left + Concat(pieces) == EncodeStream(msgs)
    ensures Receive(left, pieces).0 == Wholes(msgs) <==> GoodCuts(msgs, |left|, pieces)
    decreases |pieces|
  {
    SinglesAreSendable(msgs);
    if pieces == [] {
      assert left + [] == left;
      StreamsAreLong(msgs);
    } else {
      var k, d, left' := ReadOfSingles(msgs, left, pieces);
      if d <= 1 {
        CutsFrom(msgs, |left| + |pieces[0]|, pieces[1..]);
        ExactlyGoodCutsDeliver(msgs[k..], left', pieces[1..]);
      } else {
        LostForGood(msgs[k..], d, left', pieces[1..]);
      }
    }
  }

  /** After one read the stream is delivered whole exactly when the messages still to come are. */
  lemma {:induction false} ReadOfSingles(msgs: seq<seq<Fragment>>, left: seq<byte>, pieces: seq<seq<byte>>)
    returns (k: nat, d: nat, left': seq<byte>)
    requires Singles(msgs) && Sendable(msgs) && pieces != [] && left + Concat(pieces) == EncodeStream(msgs)
    ensures k == Complete(msgs, |left| + |pieces[0]|) <= |msgs| && d == Overhang(msgs, |left| + |pieces[0]|)
    ensures Receive(left, pieces).0 == Wholes(msgs) <==> Receive(left', pieces[1..]).0 == Wholes(msgs[k..])
    ensures Singles(msgs[k..]) && |EncodeStream(msgs[k..])| == d + |Concat(pieces[1..])|
    ensures if d < 2 then |left'| == d && left' + Concat(pieces[1..]) == EncodeStream(msgs[k..]) else |left'| + 2 <= d
  {
    k, d, left' := ReadStep(msgs, left, pieces);
    WholesFrom(msgs, k);
    SinglesFrom(msgs, k);
    SameBehind(Wholes(msgs[..k]), Receive(left', pieces[1..]).0, Wholes(msgs[k..]));
  }

  lemma {:induction false} SameBehind<T>(a: seq<T>, b: seq<T>, c: seq<T>)
    ensures a + b == a + c <==> b == c
  {
    assert (a + b)[|a|..] == b && (a + c)[|a|..] == c;
  }

  /** Bytes that a read has cost are missing for the messages still to come. */
  lemma {:induction false} LostForGood(msgs: seq<seq<Fragment>>, d: nat, left: seq<byte>, pieces: seq<seq<byte>>)
    requires Singles(msgs) && |EncodeStream(msgs)| == d + |Concat(pieces)| && |left| < d
    ensures Receive(left, pieces).0 != Wholes(msgs)
  {
    SinglesAreSendable(msgs);
    ReceiveCosts(left, pieces);
  }
}
