/** The repository's websocket frame format: what a frame is on the wire, what the decoder
    makes of any bytes, and the theorems that relate the two.

    The layout is the one of WSFrameHead, two bytes of bit fields as GCC lays them out on a
    little-endian machine, an optional big-endian length of 2 or 8 bytes, a mask of 32 bytes
    and the masked payload. It is not the layout of RFC 6455. */
module WebSocket {
  import opened Bytes

  const CONTINUE: nat := 1
  const TEXT_FRAME: nat := 2
  const BIN_FRAME: nat := 3
  const MASK_LEN: nat := 32
  /** Sizes take 64 bits. */
  const SIZE_BOUND: nat := 0x1_0000_0000_0000_0000
  /** Frame heads the decoder looks at in one call. */
  const MAX_HEADS: nat := 3

  datatype Message = Message(opcode: nat, data: seq<byte>)

  /** One frame to be sent: the message and the random mask drawn for it. */
  datatype AnyFragment = Fragment(opcode: nat, data: seq<byte>, mask: seq<byte>) {
    predicate Ok() {
      |mask| == MASK_LEN && |data| < SIZE_BOUND
    }
  }

  type Fragment = f: AnyFragment | f.Ok() witness Fragment(CONTINUE, [], seq(MASK_LEN, _ => 0))

  predicate IsDataOpcode(op: nat) {
    op == CONTINUE || op == TEXT_FRAME || op == BIN_FRAME
  }

  /** Only data frames are ever decoded into a message. */
  predicate AllData(fs: seq<Fragment>) {
    fs == [] || (IsDataOpcode(fs[0].opcode) && AllData(fs[1..]))
  }

  // ---- the wire -----------------------------------------------------------

  function Masked(data: seq<byte>, mask: seq<byte>): (r: seq<byte>)
    requires |mask| == MASK_LEN
    ensures |r| == |data|
  {
    seq(|data|, i requires 0 <= i < |data| => XorByte(data[i], mask[i % MASK_LEN]))
  }

  lemma {:induction false} MaskedTwice(data: seq<byte>, mask: seq<byte>)
    requires |mask| == MASK_LEN
    ensures Masked(Masked(data, mask), mask) == data
  {
    forall i | 0 <= i < |data|
      ensures Masked(Masked(data, mask), mask)[i] == data[i]
    {
      XorByteTwice(data[i], mask[i % MASK_LEN]);
    }
  }

  datatype Head = Head(fin: bool, opcode: nat, mask: bool, payload: nat)

  function Bit(b: bool): nat {
    if b then 1 else 0
  }

  /** fin is bit 0 and the opcode bits 4 to 7 of the first byte (the reserved bits are 0),
      mask is bit 0 and the payload code bits 1 to 7 of the second. */
  function HeadBytes(h: Head): (s: seq<byte>)
    ensures |s| == 2
  {
    [(Bit(h.fin) + 16 * (h.opcode % 16)) as byte, (Bit(h.mask) + 2 * (h.payload % 128)) as byte]
  }

  function ParseHead(b0: byte, b1: byte): Head {
    Head(b0 % 2 == 1, (b0 / 16) as nat, b1 % 2 == 1, (b1 / 2) as nat)
  }

  function PayloadCode(size: nat): nat {
    if size < 126 then size else if size < 65536 then 126 else 127
  }

  function LengthBytes(size: nat): seq<byte> {
    if size < 126 then [] else if size < 65536 then BigEndian(size, 2) else BigEndian(size, 8)
  }

  function EncodeFrame(f: Fragment, fin: bool): seq<byte> {
    HeadBytes(Head(fin, f.opcode, true, PayloadCode(|f.data|)))
    + LengthBytes(|f.data|) + f.mask + Masked(f.data, f.mask)
  }

  /** A fragmented message: only the last frame carries fin. */
  function EncodeFragments(fs: seq<Fragment>): seq<byte> {
    if fs == [] then []
    else EncodeFrame(fs[0], |fs| == 1) + EncodeFragments(fs[1..])
  }

  // ---- the decoder --------------------------------------------------------

  /** What one round of the decoding loop finds: too few bytes or no mask bit, a frame head
      that carries no data opcode, or a whole unmasked frame. */
  datatype Round =
    | Broken(rest: seq<byte>)
    | Skipped(rest: seq<byte>)
    | Frame(fin: bool, opcode: nat, data: seq<byte>, rest: seq<byte>)

  function ReadFrame(s: seq<byte>): (r: Round)
    ensures !r.Broken? ==> |r.rest| + 2 <= |s|
    ensures r.Frame? ==> |r.rest| + |r.data| + 2 + MASK_LEN <= |s|
  {
    if |s| < 2 then Broken(s)
    else
      var h := ParseHead(s[0], s[1]);
      if !IsDataOpcode(h.opcode) then Skipped(s[2..])
      else if !h.mask then Broken(s[2..])
      else ReadLength(h, s[2..])
  }

  function ReadLength(h: Head, s: seq<byte>): Round {
    if h.payload == 126 then
      if |s| < 2 then Broken(s) else ReadPayload(h, FromBigEndian(s[..2]), s[2..])
    else if h.payload == 127 then
      if |s| < 8 then Broken(s) else ReadPayload(h, FromBigEndian(s[..8]), s[8..])
    else ReadPayload(h, h.payload, s)
  }

  function ReadPayload(h: Head, length: nat, s: seq<byte>): Round {
    if |s| < MASK_LEN then Broken(s)
    else
      var body := s[MASK_LEN..];
      if |body| < length then Broken(body)
      else Frame(h.fin, h.opcode, Masked(body[..length], s[..MASK_LEN]), body[length..])
  }

  /** The loop, with `heads` rounds to go and `opcode` and `data` gathered so far.
      Every way out but a frame with fin gives no message, and gives nothing back. */
  function DecodeFrom(s: seq<byte>, heads: nat, opcode: nat, data: seq<byte>): (Option<Message>, seq<byte>)
    decreases |s|
  {
    if heads == 0 then (None, s)
    else
      match ReadFrame(s)
      case Broken(rest) => (None, rest)
      case Skipped(rest) => DecodeFrom(rest, heads - 1, opcode, data)
      case Frame(fin, op, payload, rest) =>
        if fin then (Some(Message(NextOpcode(opcode, op), data + payload)), rest)
        else DecodeFrom(rest, heads - 1, NextOpcode(opcode, op), data + payload)
  }

  function NextOpcode(opcode: nat, op: nat): nat {
    if opcode == 0 && op != CONTINUE then op else opcode
  }

  function Decode(s: seq<byte>): (Option<Message>, seq<byte>) {
    DecodeFrom(s, MAX_HEADS, 0, [])
  }

  // ---- round trip ---------------------------------------------------------

  lemma {:induction false} HeadRoundTrip(h: Head)
    requires h.opcode < 16 && h.payload < 128
    ensures ParseHead(HeadBytes(h)[0], HeadBytes(h)[1]) == h
  {
    var b0 := HeadBytes(h)[0];
    assert b0 as nat == Bit(h.fin) + 16 * h.opcode;
  }

  lemma {:induction false} LengthRoundTrip(size: nat, t: seq<byte>)
    requires size < SIZE_BOUND
    ensures var w := |LengthBytes(size)|; var s := LengthBytes(size) + t;
      && s[w..] == t
      && (PayloadCode(size) == 126 ==> w == 2 && FromBigEndian(s[..2]) == size)
      && (PayloadCode(size) == 127 ==> w == 8 && FromBigEndian(s[..8]) == size)
      && (PayloadCode(size) < 126 ==> w == 0 && PayloadCode(size) == size)
  {
    var w := |LengthBytes(size)|;
    var s := LengthBytes(size) + t;
    assert s[..w] == LengthBytes(size) && s[w..] == t;
    if 126 <= size < 65536 {
      WordSizes();
      BigEndianRoundTrip(size, 2);
    } else if 65536 <= size {
      WordSizes();
      BigEndianRoundTrip(size, 8);
    }
  }

  lemma {:induction false} WordSizes()
    ensures Pow2(16) == 65536 && Pow2(64) == SIZE_BOUND
  {
    assert Pow2(8) == 256;
    Pow2Add(8, 8);
    Pow2Add(16, 16);
    Pow2Add(32, 32);
  }

  /** The head is read off the front. */
  lemma {:induction false} HeadRead(h: Head, t: seq<byte>)
    requires IsDataOpcode(h.opcode) && h.mask && h.payload < 128
    ensures ReadFrame(HeadBytes(h) + t) == ReadLength(h, t)
  {
    HeadRoundTrip(h);
    assert (HeadBytes(h) + t)[2..] == t;
  }

  /** And the length behind it, whichever form it has. */
  lemma {:induction false} LengthRead(h: Head, size: nat, t: seq<byte>)
    requires h.payload == PayloadCode(size) && size < SIZE_BOUND
    ensures ReadLength(h, LengthBytes(size) + t) == ReadPayload(h, size, t)
  {
    LengthRoundTrip(size, t);
  }

  lemma {:induction false} PayloadRead(h: Head, data: seq<byte>, mask: seq<byte>, rest: seq<byte>)
    requires |mask| == MASK_LEN
    ensures ReadPayload(h, |data|, mask + (Masked(data, mask) + rest)) == Frame(h.fin, h.opcode, data, rest)
  {
    var body := Masked(data, mask) + rest;
    assert (mask + body)[..MASK_LEN] == mask && (mask + body)[MASK_LEN..] == body;
    assert body[..|data|] == Masked(data, mask) && body[|data|..] == rest;
    MaskedTwice(data, mask);
  }

  function HeadOf(f: Fragment, fin: bool): Head {
    Head(fin, f.opcode, true, PayloadCode(|f.data|))
  }

  lemma {:induction false} FrameParts(f: Fragment, fin: bool)
    ensures EncodeFrame(f, fin) == HeadBytes(HeadOf(f, fin)) + (LengthBytes(|f.data|) + (f.mask + Masked(f.data, f.mask)))
  {
    Nested(HeadBytes(HeadOf(f, fin)), LengthBytes(|f.data|), f.mask, Masked(f.data, f.mask));
  }

  lemma {:induction false} Nested(a: seq<byte>, b: seq<byte>, c: seq<byte>, d: seq<byte>)
    ensures a + b + c + d == a + (b + (c + d))
  {
  }

  lemma {:induction false} FrameRoundTrip(f: Fragment, fin: bool, rest: seq<byte>)
    requires IsDataOpcode(f.opcode)
    ensures ReadFrame(EncodeFrame(f, fin) + rest) == Frame(fin, f.opcode, f.data, rest)
  {
    var h, len, masked := HeadOf(f, fin), LengthBytes(|f.data|), Masked(f.data, f.mask);
    FrameParts(f, fin);
    AppendAssoc(HeadBytes(h), len + (f.mask + masked), rest);
    AppendAssoc(len, f.mask + masked, rest);
    AppendAssoc(f.mask, masked, rest);
    HeadRead(h, len + (f.mask + (masked + rest)));
    LengthRead(h, |f.data|, f.mask + (masked + rest));
    PayloadRead(h, f.data, f.mask, rest);
  }

  /** The opcode a receiver reports: the first that is not CONTINUE, and 0 if there is none. */
  function ReportedOpcode(opcode: nat, fs: seq<Fragment>): nat
    decreases |fs|
  {
    if fs == [] then opcode else ReportedOpcode(NextOpcode(opcode, fs[0].opcode), fs[1..])
  }

  function Joined(fs: seq<Fragment>): seq<byte> {
    if fs == [] then [] else fs[0].data + Joined(fs[1..])
  }

  function Whole(fs: seq<Fragment>): Message {
    Message(ReportedOpcode(0, fs), Joined(fs))
  }

  lemma {:induction false} DecodeStep(f: Fragment, fin: bool, more: seq<byte>, heads: nat, opcode: nat, data: seq<byte>)
    requires IsDataOpcode(f.opcode)
    requires heads > 0
    ensures var opcode' := NextOpcode(opcode, f.opcode);
      DecodeFrom(EncodeFrame(f, fin) + more, heads, opcode, data) ==
      if fin then (Some(Message(opcode', data + f.data)), more)
      else DecodeFrom(more, heads - 1, opcode', data + f.data)
  {
    FrameRoundTrip(f, fin, more);
  }

  /** Decoding what was encoded, whatever follows it, when there is a round for every fragment. */
  lemma {:induction false} DecodeEncoded(fs: seq<Fragment>, rest: seq<byte>, heads: nat, opcode: nat, data: seq<byte>)
    requires AllData(fs)
    requires 1 <= |fs| <= heads
    ensures DecodeFrom(EncodeFragments(fs) + rest, heads, opcode, data) ==
      (Some(Message(ReportedOpcode(opcode, fs), data + Joined(fs))), rest)
    decreases |fs|
  {
    var f, fin, tail := fs[0], |fs| == 1, fs[1..];
    var opcode', data' := NextOpcode(opcode, f.opcode), data + f.data;
    var more := EncodeFragments(tail) + rest;
    DecodeStep(f, fin, more, heads, opcode, data);
    AppendAssoc(EncodeFrame(f, fin), EncodeFragments(tail), rest);
    AppendAssoc(data, f.data, Joined(tail));
    if fin {
      assert tail == [] && [] + rest == rest && data' + [] == data';
    } else {
      DecodeEncoded(tail, rest, heads - 1, opcode', data');
    }
  }

  /** With more fragments than rounds, those looked at are gone and no message comes. */
  lemma {:induction false} DecodeTooMany(fs: seq<Fragment>, rest: seq<byte>, heads: nat, opcode: nat, data: seq<byte>)
    requires AllData(fs)
    requires heads < |fs|
    ensures DecodeFrom(EncodeFragments(fs) + rest, heads, opcode, data) == (None, EncodeFragments(fs[heads..]) + rest)
    decreases |fs|
  {
    if heads == 0 {
      assert fs[0..] == fs;
    } else {
      var f, tail := fs[0], fs[1..];
      var more := EncodeFragments(tail) + rest;
      DecodeStep(f, false, more, heads, opcode, data);
      AppendAssoc(EncodeFrame(f, false), EncodeFragments(tail), rest);
      DecodeTooMany(tail, rest, heads - 1, NextOpcode(opcode, f.opcode), data + f.data);
      assert fs[heads..] == tail[heads - 1..];
    }
  }

  /** The message comes back whole exactly when it has no more fragments than the decoder
      has rounds. */
  lemma {:induction false} RoundTrip(fs: seq<Fragment>, rest: seq<byte>)
    requires AllData(fs)
    requires fs != []
    ensures Decode(EncodeFragments(fs) + rest) == (Some(Whole(fs)), rest) <==> |fs| <= 3
    ensures |fs| > 3 ==> Decode(EncodeFragments(fs) + rest) == (None, EncodeFragments(fs[3..]) + rest)
  {
    if |fs| <= MAX_HEADS {
      DecodeEncoded(fs, rest, MAX_HEADS, 0, []);
      assert [] + Joined(fs) == Joined(fs);
    } else {
      DecodeTooMany(fs, rest, MAX_HEADS, 0, []);
    }
  }

  // ---- no early delivery --------------------------------------------------

  lemma {:induction false} FramePrefixIsBroken(f: Fragment, fin: bool, n: nat)
    requires IsDataOpcode(f.opcode)
    requires n < |EncodeFrame(f, fin)|
    ensures ReadFrame(EncodeFrame(f, fin)[..n]).Broken?
  {
    FrameParts(f, fin);
    PartsBroken(HeadOf(f, fin), |f.data|, f.mask + Masked(f.data, f.mask), n);
  }

  lemma {:induction false} PartsBroken(h: Head, size: nat, t: seq<byte>, n: nat)
    requires IsDataOpcode(h.opcode) && h.mask && h.payload == PayloadCode(size) && size < SIZE_BOUND
    requires |t| == MASK_LEN + size && n < |HeadBytes(h) + (LengthBytes(size) + t)|
    ensures ReadFrame((HeadBytes(h) + (LengthBytes(size) + t))[..n]).Broken?
  {
    if n >= 2 {
      TakeAppend(HeadBytes(h), LengthBytes(size) + t, n);
      HeadRead(h, (LengthBytes(size) + t)[..n - 2]);
      LengthAndPayloadBroken(h, size, t, n - 2);
    }
  }

  lemma {:induction false} LengthAndPayloadBroken(h: Head, size: nat, t: seq<byte>, n: nat)
    requires h.payload == PayloadCode(size) && size < SIZE_BOUND && |t| == MASK_LEN + size
    requires n < |LengthBytes(size) + t|
    ensures ReadLength(h, (LengthBytes(size) + t)[..n]).Broken?
  {
    var len := LengthBytes(size);
    TakeAppend(len, t, n);
    if n >= |len| {
      LengthRead(h, size, t[..n - |len|]);
    }
  }

  /** No message comes in `heads` rounds, whatever has been gathered before. */
  ghost predicate Nothing(s: seq<byte>, heads: nat) {
    forall opcode, data :: DecodeFrom(s, heads, opcode, data).0 == None
  }

  lemma {:induction false} BrokenGivesNothing(s: seq<byte>, heads: nat)
    requires heads == 0 || ReadFrame(s).Broken?
    ensures Nothing(s, heads)
  {
  }

  lemma {:induction false} ShortOfAFrame(f: Fragment, fin: bool, p: seq<byte>, heads: nat)
    requires IsDataOpcode(f.opcode) && p < EncodeFrame(f, fin)
    ensures Nothing(p, heads)
  {
    assert p == EncodeFrame(f, fin)[..|p|];
    FramePrefixIsBroken(f, fin, |p|);
    BrokenGivesNothing(p, heads);
  }

  lemma {:induction false} BehindAFrame(f: Fragment, p: seq<byte>, rest: seq<byte>, heads: nat)
    requires IsDataOpcode(f.opcode) && heads > 0 && p == EncodeFrame(f, false) + rest && Nothing(rest, heads - 1)
    ensures Nothing(p, heads)
  {
    forall opcode, data
      ensures DecodeFrom(p, heads, opcode, data).0 == None
    {
      DecodeStep(f, false, rest, heads, opcode, data);
      assert DecodeFrom(rest, heads - 1, NextOpcode(opcode, f.opcode), data + f.data).0 == None;
    }
  }

  lemma {:induction false} PrefixSplit(p: seq<byte>, a: seq<byte>, b: seq<byte>)
    requires p <= a + b
    ensures if |p| < |a| then p < a else p == a + p[|a|..] && p[|a|..] <= b
  {
    TakeAppend(a, b, |p|);
    assert p == (a + b)[..|p|];
  }

  /** A strict prefix of an encoding ends within the first frame or behind it. */
  lemma {:induction false} FirstFrame(fs: seq<Fragment>, p: seq<byte>)
    requires fs != [] && p < EncodeFragments(fs)
    ensures var first := EncodeFrame(fs[0], |fs| == 1);
      if |p| < |first| then p < first
      else |fs| > 1 && p == first + p[|first|..] && p[|first|..] < EncodeFragments(fs[1..])
  {
    PrefixSplit(p, EncodeFrame(fs[0], |fs| == 1), EncodeFragments(fs[1..]));
    assert |fs| == 1 ==> EncodeFragments(fs[1..]) == [];
  }

  lemma {:induction false} PrefixDecodesToNothing(fs: seq<Fragment>, p: seq<byte>, heads: nat)
    requires AllData(fs)
    requires p < EncodeFragments(fs)
    ensures Nothing(p, heads)
    decreases |fs|
  {
    if heads == 0 {
      BrokenGivesNothing(p, heads);
    } else {
      FirstFrame(fs, p);
      var first := EncodeFrame(fs[0], |fs| == 1);
      if |p| < |first| {
        ShortOfAFrame(fs[0], |fs| == 1, p, heads);
      } else {
        PrefixDecodesToNothing(fs[1..], p[|first|..], heads - 1);
        BehindAFrame(fs[0], p, p[|first|..], heads);
      }
    }
  }

  /** No strict prefix of an encoded message, of any number of fragments, decodes to a message. */
  lemma {:induction false} NoEarlyDelivery(fs: seq<Fragment>, n: nat)
    requires AllData(fs)
    requires n < |EncodeFragments(fs)|
    ensures Decode(EncodeFragments(fs)[..n]).0 == None
  {
    PrefixDecodesToNothing(fs, EncodeFragments(fs)[..n], MAX_HEADS);
  }

  /** A decode that finds too little leaves the buffer as it was only when not even the two
      bytes of a frame head had arrived. */
  lemma {:induction false} PartialReadKeepsBytes(fs: seq<Fragment>, n: nat)
    requires AllData(fs)
    requires n < |EncodeFragments(fs)|
    ensures var p := EncodeFragments(fs)[..n]; Decode(p).1 == p <==> n < 2
  {
    var p := EncodeFragments(fs)[..n];
    if n >= 2 {
      DecodeTakesHead(p, MAX_HEADS, 0, []);
    }
  }

  lemma {:induction false} DecodeTakesHead(s: seq<byte>, heads: nat, opcode: nat, data: seq<byte>)
    requires heads > 0
    ensures |DecodeFrom(s, heads, opcode, data).1| <= |s| - (if |s| < 2 then 0 else 2)
    decreases heads
  {
    match ReadFrame(s)
    case Broken(_) =>
    case Skipped(rest) =>
      if heads > 1 { DecodeTakesHead(rest, heads - 1, opcode, data); }
    case Frame(fin, op, payload, rest) =>
      if !fin && heads > 1 {
        DecodeTakesHead(rest, heads - 1, NextOpcode(opcode, op), data + payload);
      }
  }

  /** So a message whose head arrives in one read and whose rest arrives in the next can be
      lost: an empty text message with a zero mask is. */
  lemma {:induction false} SplitMessageIsLost()
    ensures var f := Fragment(TEXT_FRAME, [], seq(MASK_LEN, _ => 0 as byte));
      && var s := EncodeFragments([f]);
         && |s| == 34
         && Decode(s).0 == Some(Message(TEXT_FRAME, []))
         && Decode(s[..2]).0 == None
         && Decode(Decode(s[..2]).1 + s[2..]).0 == None
  {
    var f := Fragment(TEXT_FRAME, [], seq(MASK_LEN, _ => 0 as byte));
    var s := EncodeFragments([f]);
    assert s == EncodeFrame(f, true) by { assert EncodeFragments([f][1..]) == []; }
    assert AllData([f][1..]);
    RoundTrip([f], []);
    assert s + [] == s;
    assert Whole([f]) == Message(TEXT_FRAME, []) by {
      assert ReportedOpcode(TEXT_FRAME, [f][1..]) == TEXT_FRAME && Joined([f][1..]) == [];
    }
    NoEarlyDelivery([f], 2);
    HeadRoundTrip(Head(true, TEXT_FRAME, true, 0));
    assert DecodeFrom(s[..2], 3, 0, []) == (None, []) by { assert ReadFrame(s[..2]) == Broken([]); }
    assert [] + s[2..] == f.mask;
    ZerosAreSkipped(f.mask, MAX_HEADS, 0, []);
  }

  lemma {:induction false} ZerosAreSkipped(z: seq<byte>, heads: nat, opcode: nat, data: seq<byte>)
    requires forall i :: 0 <= i < |z| ==> z[i] == 0
    ensures DecodeFrom(z, heads, opcode, data).0 == None
  {
    if heads > 0 && |z| >= 2 {
      ZerosAreSkipped(z[2..], heads - 1, opcode, data);
    }
  }

  // ---- the stream ---------------------------------------------------------

  /** A decode that succeeds takes at least a head and a mask. */
  lemma {:induction false} SuccessConsumes(s: seq<byte>, heads: nat, opcode: nat, data: seq<byte>)
    requires DecodeFrom(s, heads, opcode, data).0.Some?
    ensures |DecodeFrom(s, heads, opcode, data).1| + 2 + MASK_LEN <= |s|
    decreases heads
  {
    match ReadFrame(s)
    case Skipped(rest) =>
      SuccessConsumes(rest, heads - 1, opcode, data);
    case Frame(fin, op, payload, rest) =>
      if !fin {
        SuccessConsumes(rest, heads - 1, NextOpcode(opcode, op), data + payload);
      }
  }

  /** The decode-and-deliver loop of the server: the messages handed over and the bytes left. */
  function Deliver(s: seq<byte>): (seq<Message>, seq<byte>)
    decreases |s|
  {
    var (m, rest) := Decode(s);
    if m.None? then ([], rest)
    else if rest == [] then ([m.value], [])
    else
      SuccessConsumes(s, MAX_HEADS, 0, []);
      var (ms, rest') := Deliver(rest);
      ([m.value] + ms, rest')
  }

  predicate Sendable(msgs: seq<seq<Fragment>>) {
    msgs == [] || (AllData(msgs[0]) && 1 <= |msgs[0]| <= MAX_HEADS && Sendable(msgs[1..]))
  }

  function EncodeStream(msgs: seq<seq<Fragment>>): seq<byte> {
    if msgs == [] then [] else EncodeFragments(msgs[0]) + EncodeStream(msgs[1..])
  }

  function Wholes(msgs: seq<seq<Fragment>>): seq<Message> {
    if msgs == [] then [] else [Whole(msgs[0])] + Wholes(msgs[1..])
  }

  /** How many of the messages lie entirely within the first `n` bytes of the stream. */
  function Complete(msgs: seq<seq<Fragment>>, n: nat): (k: nat)
    ensures k <= |msgs|
  {
    if msgs == [] || n < |EncodeFragments(msgs[0])| then 0
    else 1 + Complete(msgs[1..], n - |EncodeFragments(msgs[0])|)
  }

  /** The loop hands over, in order, exactly the messages that have arrived whole: all of
      them from the whole stream, with nothing left in the buffer, and from any prefix of
      the stream those the prefix contains and no other. */
  lemma {:induction false} StreamDelivery(msgs: seq<seq<Fragment>>, n: nat)
    requires Sendable(msgs) && n <= |EncodeStream(msgs)|
    ensures Deliver(EncodeStream(msgs)[..n]).0 == Wholes(msgs[..Complete(msgs, n)])
    ensures n == |EncodeStream(msgs)| ==> Complete(msgs, n) == |msgs| && Deliver(EncodeStream(msgs)[..n]).1 == []
    decreases |msgs|
  {
    if msgs == [] {
      assert EncodeStream(msgs)[..n] == [];
    } else {
      var first, tail := EncodeFragments(msgs[0]), msgs[1..];
      TakeAppend(first, EncodeStream(tail), n);
      if n < |first| {
        NoEarlyDelivery(msgs[0], n);
      } else {
        DeliverStep(msgs[0], EncodeStream(tail)[..n - |first|]);
        StreamDelivery(tail, n - |first|);
        WholesStep(msgs, n);
      }
    }
  }

  lemma {:induction false} WholesStep(msgs: seq<seq<Fragment>>, n: nat)
    requires Sendable(msgs) && msgs != [] && |EncodeFragments(msgs[0])| <= n <= |EncodeStream(msgs)|
    ensures var k := Complete(msgs[1..], n - |EncodeFragments(msgs[0])|);
      Complete(msgs, n) == 1 + k && Wholes(msgs[..1 + k]) == [Whole(msgs[0])] + Wholes(msgs[1..][..k])
  {
    var k := Complete(msgs[1..], n - |EncodeFragments(msgs[0])|);
    assert msgs[..1 + k][0] == msgs[0] && msgs[..1 + k][1..] == msgs[1..][..k];
  }

  lemma {:induction false} DeliverStep(fs: seq<Fragment>, more: seq<byte>)
    requires AllData(fs)
    requires 1 <= |fs| <= MAX_HEADS
    ensures Deliver(EncodeFragments(fs) + more) == ([Whole(fs)] + Deliver(more).0, Deliver(more).1)
  {
    RoundTrip(fs, more);
    DeliverSuccess(EncodeFragments(fs) + more, Whole(fs), more);
  }

  lemma {:induction false} DeliverSuccess(s: seq<byte>, m: Message, more: seq<byte>)
    requires Decode(s) == (Some(m), more)
    ensures Deliver(s) == ([m] + Deliver(more).0, Deliver(more).1)
  {
    if more == [] {
      assert Decode([]) == (None, []);
      assert Deliver([]) == ([], []);
      assert [m] + [] == [m];
    }
  }
}
