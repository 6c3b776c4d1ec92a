/** The websocket encoder, decoder and delivery loop as the source runs them, over message
    objects that the encoder masks in place and a Buffer that the decoder consumes. */
module WSStructure {
  import opened Bytes
  import opened Buffers
  import opened WebSocket

  const INT32_BOUND: nat := 0x8000_0000

  class WSFrameMessage {
    var opcode: nat
    var data: seq<byte>

    constructor (opcode: nat, data: seq<byte>)
      ensures this.opcode == opcode && this.data == data
    {
      this.opcode := opcode;
      this.data := data;
    }

    ghost function View(): Message
      reads this
    {
      Message(opcode, data)
    }
  }

  /** One frame. The message object is left masked. */
  method EncodeMessage(msg: WSFrameMessage, fin: bool, mask: seq<byte>) returns (wire: seq<byte>)
    requires Fragment(msg.opcode, msg.data, mask).Ok()
    modifies msg`data
    ensures wire == EncodeFrame(Fragment(msg.opcode, old(msg.data), mask), fin)
    ensures msg.data == Masked(old(msg.data), mask)
  {
    var buf := new Buffer(INITIAL_SIZE);
    WriteHead(buf, msg.opcode, |msg.data|, fin);
    MaskInPlace(msg, mask);
    buf.WriteLen(mask);
    buf.WriteLen(msg.data);
    wire := buf.RetrieveAllAsString();
  }

  method WriteHead(buf: Buffer, opcode: nat, size: nat, fin: bool)
    requires buf.Valid() && buf.Contents() == [] && size < SIZE_BOUND
    modifies buf, buf.data
    ensures buf.Valid() && (buf.data == old(buf.data) || fresh(buf.data))
    ensures buf.Contents() == HeadBytes(Head(fin, opcode, true, PayloadCode(size))) + LengthBytes(size)
  {
    var payload := if size < 126 then size else if size < 65536 then 126 else 127;
    buf.WriteLen(HeadBytes(Head(fin, opcode, true, payload)));
    if payload == 126 {
      buf.WriteLen(BigEndian(size, 2));
    } else if payload == 127 {
      buf.WriteLen(BigEndian(size, 8));
    }
  }

  method MaskInPlace(msg: WSFrameMessage, mask: seq<byte>)
    requires |mask| == MASK_LEN
    modifies msg`data
    ensures msg.data == Masked(old(msg.data), mask)
  {
    ghost var was := msg.data;
    var i := 0;
    while i < |msg.data|
      modifies msg`data
      invariant 0 <= i <= |msg.data| == |was|
      invariant forall k :: 0 <= k < i ==> msg.data[k] == Masked(was, mask)[k]
      invariant forall k :: i <= k < |was| ==> msg.data[k] == was[k]
    {
      msg.data := msg.data[i := XorByte(msg.data[i], mask[i % MASK_LEN])];
      i := i + 1;
    }
  }

  /** What the message objects hold. */
  type Store = map<WSFrameMessage, seq<byte>>

  ghost function Contents(msgs: seq<WSFrameMessage>): Store
    reads msgs
  {
    map m | m in msgs :: m.data
  }

  /** A message to be sent: its object, the object's opcode and the mask drawn for it. */
  datatype Draw = Draw(msg: WSFrameMessage, opcode: nat, mask: seq<byte>)

  ghost function Draws(msgs: seq<WSFrameMessage>, masks: seq<seq<byte>>): (ds: seq<Draw>)
    requires |masks| == |msgs|
    reads msgs
    ensures |ds| == |msgs| && forall i :: 0 <= i < |ds| ==> ds[i] == Draw(msgs[i], msgs[i].opcode, masks[i])
  {
    seq(|msgs|, i requires 0 <= i < |msgs| == |masks| reads msgs => Draw(msgs[i], msgs[i].opcode, masks[i]))
  }

  /** Every object is there, with a size the encoder can write, and every mask has its length. */
  ghost predicate Encodable(ds: seq<Draw>, store: Store) {
    forall d :: d in ds ==> d.msg in store && |store[d.msg]| < SIZE_BOUND && |d.mask| == MASK_LEN
  }

  ghost function Sent(d: Draw, store: Store): Fragment
    requires Encodable([d], store)
  {
    assert d in [d];
    Fragment(d.opcode, store[d.msg], d.mask)
  }

  ghost function MaskedBy(d: Draw, store: Store): Store
    requires Encodable([d], store)
  {
    assert d in [d];
    store[d.msg := Masked(store[d.msg], d.mask)]
  }

  lemma {:induction false} EncodableRest(ds: seq<Draw>, store: Store)
    requires ds != [] && Encodable(ds, store)
    ensures Encodable([ds[0]], store) && Encodable(ds[1..], MaskedBy(ds[0], store))
  {
    assert ds[0] in ds;
  }

  /** The fragments sent, each as its object is when its turn comes: the encoder has masked an
      object that was listed before. */
  ghost function Fragments(ds: seq<Draw>, store: Store): (fs: seq<Fragment>)
    requires Encodable(ds, store)
    ensures |fs| == |ds|
    decreases |ds|
  {
    if ds == [] then []
    else
      EncodableRest(ds, store);
      [Sent(ds[0], store)] + Fragments(ds[1..], MaskedBy(ds[0], store))
  }

  /** What the objects hold after: masked once for every time they are listed. */
  ghost function MaskedStore(ds: seq<Draw>, store: Store): (s: Store)
    requires Encodable(ds, store)
    ensures s.Keys == store.Keys
    decreases |ds|
  {
    if ds == [] then store
    else
      EncodableRest(ds, store);
      MaskedStore(ds[1..], MaskedBy(ds[0], store))
  }

  /** A fragmented message: the last fragment carries fin. */
  method EncodeMessages(msgs: seq<WSFrameMessage>, masks: seq<seq<byte>>) returns (wire: seq<byte>)
    requires |masks| == |msgs| && Encodable(Draws(msgs, masks), Contents(msgs))
    modifies msgs
    ensures wire == EncodeFragments(old(Fragments(Draws(msgs, masks), Contents(msgs))))
    ensures Contents(msgs) == old(MaskedStore(Draws(msgs, masks), Contents(msgs)))
  {
    ghost var rest, store := Draws(msgs, masks), Contents(msgs);
    ghost var all, after := EncodeFragments(Fragments(rest, store)), MaskedStore(rest, store);
    wire := [];
    SendStart(rest, store);
    var i := 0;
    while i < |msgs|
      invariant i <= |msgs| && store == Contents(msgs) && Pending(rest, msgs, masks, i)
      invariant StillToSend(rest, wire, store, all, after)
    {
      SendOne(rest, wire, store, all, after);
      PendingRest(rest, msgs, masks, i);
      var frame := EncodeTurn(msgs[i], i == |msgs| - 1, masks[i], msgs, rest[0], store);
      wire, store, rest := wire + frame, MaskedBy(rest[0], store), rest[1..];
      i := i + 1;
    }
    SendEnd(wire, store, all, after);
  }

  /** The messages from the i-th on. */
  ghost predicate Pending(rest: seq<Draw>, msgs: seq<WSFrameMessage>, masks: seq<seq<byte>>, i: nat)
    reads msgs
  {
    && |rest| + i == |msgs| == |masks|
    && forall k :: 0 <= k < |rest| ==> rest[k] == Draw(msgs[i + k], msgs[i + k].opcode, masks[i + k])
  }

  lemma {:induction false} PendingRest(rest: seq<Draw>, msgs: seq<WSFrameMessage>, masks: seq<seq<byte>>, i: nat)
    requires rest != [] && Pending(rest, msgs, masks, i)
    ensures i < |msgs| && rest[0] == Draw(msgs[i], msgs[i].opcode, masks[i]) && msgs[i] in msgs
    ensures Pending(rest[1..], msgs, masks, i + 1) && (|rest| == 1 <==> i == |msgs| - 1)
  {
    forall k | 0 <= k < |rest| - 1
      ensures rest[1..][k] == Draw(msgs[i + 1 + k], msgs[i + 1 + k].opcode, masks[i + 1 + k])
    {
      assert rest[1..][k] == rest[k + 1];
    }
  }

  lemma {:induction false} SendStart(ds: seq<Draw>, store: Store)
    requires Encodable(ds, store)
    ensures StillToSend(ds, [], store, EncodeFragments(Fragments(ds, store)), MaskedStore(ds, store))
  {
    assert [] + EncodeFragments(Fragments(ds, store)) == EncodeFragments(Fragments(ds, store));
  }

  lemma {:induction false} SendEnd(wire: seq<byte>, store: Store, all: seq<byte>, after: Store)
    requires StillToSend([], wire, store, all, after)
    ensures wire == all && store == after
  {
    assert wire + [] == wire;
  }

  /** `wire` has been written; the messages `ds` bring it to `all`, and leave `after`. */
  ghost predicate StillToSend(ds: seq<Draw>, wire: seq<byte>, store: Store, all: seq<byte>, after: Store) {
    && Encodable(ds, store)
    && wire + EncodeFragments(Fragments(ds, store)) == all
    && MaskedStore(ds, store) == after
  }

  lemma {:induction false} SendOne(ds: seq<Draw>, wire: seq<byte>, store: Store, all: seq<byte>, after: Store)
    requires ds != [] && StillToSend(ds, wire, store, all, after)
    ensures Encodable([ds[0]], store)
    ensures StillToSend(ds[1..], wire + EncodeFrame(Sent(ds[0], store), |ds| == 1), MaskedBy(ds[0], store), all, after)
  {
    EncodableRest(ds, store);
    var f, tail := Sent(ds[0], store), Fragments(ds[1..], MaskedBy(ds[0], store));
    assert ([f] + tail)[1..] == tail;
    AppendAssoc(wire, EncodeFrame(f, |ds| == 1), EncodeFragments(tail));
  }

  method EncodeTurn(msg: WSFrameMessage, fin: bool, mask: seq<byte>, ghost msgs: seq<WSFrameMessage>,
                    ghost d: Draw, ghost store: Store)
    returns (frame: seq<byte>)
    requires msg in msgs && d == Draw(msg, msg.opcode, mask) && store == Contents(msgs) && Encodable([d], store)
    modifies msg`data
    ensures frame == EncodeFrame(Sent(d, store), fin)
    ensures Contents(msgs) == MaskedBy(d, store)
  {
    assert d in [d] && store[msg] == msg.data;
    frame := EncodeMessage(msg, fin, mask);
  }

  lemma {:induction false} NotListed(ds: seq<Draw>, store: Store, m: WSFrameMessage)
    requires Encodable(ds, store) && m in store && forall d :: d in ds ==> d.msg != m
    ensures MaskedStore(ds, store)[m] == store[m]
    decreases |ds|
  {
    if ds != [] {
      EncodableRest(ds, store);
      assert ds[0] in ds;
      NotListed(ds[1..], MaskedBy(ds[0], store), m);
    }
  }

  /** With every object listed once, the fragments are the messages as they were, and each
      object is left masked once. */
  lemma {:induction false} ListedOnce(ds: seq<Draw>, store: Store, i: nat)
    requires Encodable(ds, store) && i < |ds|
    requires forall j, k :: 0 <= j < k < |ds| ==> ds[j].msg != ds[k].msg
    ensures ds[i] in ds && Fragments(ds, store)[i] == Fragment(ds[i].opcode, store[ds[i].msg], ds[i].mask)
    ensures MaskedStore(ds, store)[ds[i].msg] == Masked(store[ds[i].msg], ds[i].mask)
    decreases |ds|
  {
    assert ds[i] in ds;
    EncodableRest(ds, store);
    if i == 0 {
      NotListed(ds[1..], MaskedBy(ds[0], store), ds[0].msg);
    } else {
      ListedOnce(ds[1..], MaskedBy(ds[0], store), i - 1);
    }
  }

  /** The decoding loop. `cur_len` and the payload index are 32-bit signed in the source, so
      the buffer must hold less than 2^31 bytes. */
  method DecodeMessage(buf: Buffer) returns (r: WSFrameMessage?)
    requires buf.Valid() && buf.ReadableBytes() < INT32_BOUND
    modifies buf`readIndex, buf`writeIndex
    ensures buf.Valid() && buf.Contents() == Decode(old(buf.Contents())).1
    ensures r == null <==> Decode(old(buf.Contents())).0 == None
    ensures r != null ==> fresh(r) && Decode(old(buf.Contents())).0 == Some(r.View())
  {
    var opcode, data, heads := 0, [], MAX_HEADS;
    ghost var target := Decode(buf.Contents());
    while heads > 0
      modifies buf`readIndex, buf`writeIndex
      invariant buf.Valid() && 0 <= heads
      invariant DecodeFrom(buf.Contents(), heads, opcode, data) == target
      invariant |data| + buf.ReadableBytes() < INT32_BOUND
    {
      heads := heads - 1;
      var ended, isData, fin, op, plain := DecodeFrame(buf);
      if ended {
        return null;
      }
      if isData {
        data := data + plain;
        opcode := NextOpcode(opcode, op);
        if fin {
          r := new WSFrameMessage(opcode, data);
          return;
        }
      }
    }
    return null;
  }

  /** One round of the loop: `ended` when the source returns or breaks without a message. */
  method DecodeFrame(buf: Buffer) returns (ended: bool, isData: bool, fin: bool, op: nat, plain: seq<byte>)
    requires buf.Valid()
    modifies buf`readIndex, buf`writeIndex
    ensures buf.Valid()
    ensures var round := ReadFrame(old(buf.Contents()));
      && buf.Contents() == round.rest
      && (ended <==> round.Broken?)
      && (isData <==> round.Frame?)
      && (isData ==> round == Frame(fin, op, plain, buf.Contents()) && |plain| + |buf.Contents()| <= old(|buf.Contents()|))
  {
    ended, isData, fin, op, plain := true, false, false, 0, [];
    if buf.ReadableBytes() < 2 {
      return;
    }
    var head := buf.ReadLen(2);
    var h := ParseHead(head[0], head[1]);
    if !IsDataOpcode(h.opcode) {
      ended := false;
      return;
    }
    if !h.mask {
      return;
    }
    ghost var s := buf.Contents();
    var length := h.payload;
    if h.payload == 126 {
      if buf.ReadableBytes() < 2 {
        return;
      }
      var len := buf.ReadLen(2);
      length := FromBigEndian(len);
    } else if h.payload == 127 {
      if buf.ReadableBytes() < 8 {
        return;
      }
      var len := buf.ReadLen(8);
      length := FromBigEndian(len);
    }
    assert ReadLength(h, s) == ReadPayload(h, length, buf.Contents());
    if buf.ReadableBytes() < MASK_LEN {
      return;
    }
    var mask := buf.ReadLen(MASK_LEN);
    if buf.ReadableBytes() < length {
      return;
    }
    plain := buf.ReadLen(length);
    plain := Unmask(plain, mask);
    ended, isData, fin, op := false, true, h.fin, h.opcode;
  }

  /** The decoder's masking loop, over the bytes just read. */
  method Unmask(payload: seq<byte>, mask: seq<byte>) returns (plain: seq<byte>)
    requires |mask| == MASK_LEN
    ensures plain == Masked(payload, mask)
  {
    plain := payload;
    var i := 0;
    while i < |plain|
      invariant 0 <= i <= |plain| == |payload|
      invariant forall k :: 0 <= k < i ==> plain[k] == Masked(payload, mask)[k]
      invariant forall k :: i <= k < |plain| ==> plain[k] == payload[k]
    {
      plain := plain[i := XorByte(plain[i], mask[i % MASK_LEN])];
      i := i + 1;
    }
  }

  /** A websocket connection of the server; the dispatcher's calls are recorded in order. */
  class WSServer {
    ghost var handled: seq<Message>

    method WSCommunication(buf: Buffer)
      requires buf.Valid() && buf.ReadableBytes() < INT32_BOUND
      modifies `handled, buf`readIndex, buf`writeIndex
      ensures buf.Valid() && buf.Contents() == Deliver(old(buf.Contents())).1
      ensures handled == old(handled) + Deliver(old(buf.Contents())).0
    {
      ghost var before, target := handled, Deliver(buf.Contents());
      while true
        modifies `handled, buf`readIndex, buf`writeIndex
        invariant buf.Valid() && buf.ReadableBytes() < INT32_BOUND
        invariant before + target.0 == handled + Deliver(buf.Contents()).0
        invariant target.1 == Deliver(buf.Contents()).1
        decreases buf.ReadableBytes()
      {
        ghost var s := buf.Contents();
        var req := DecodeMessage(buf);
        if req == null {
          DeliverNothing(s);
          return;
        }
        SuccessConsumes(s, MAX_HEADS, 0, []);
        ghost var m, more := req.View(), Deliver(buf.Contents()).0;
        DeliverSuccess(s, m, buf.Contents());
        assert handled + ([m] + more) == handled + [m] + more;
        handled := handled + [m];
        if buf.ReadableBytes() == 0 {
          assert Decode([]) == (None, []);
          DeliverNothing([]);
          return;
        }
      }
    }
  }

  lemma {:induction false} DeliverNothing(s: seq<byte>)
    requires Decode(s).0 == None
    ensures Deliver(s) == ([], Decode(s).1)
  {
  }
}
