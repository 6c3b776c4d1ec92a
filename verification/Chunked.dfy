/** The chunked-body reassembly of the HTTP client, over the received segments. */
module Chunked {
  import opened Bytes

  const CR: byte := 13
  const LF: byte := 10
  const SEMICOLON: byte := 59
  const EQUALS: byte := 61
  const INT32_BOUND: int := 0x8000_0000
  const SIZE_MAX: nat := 0xFFFF_FFFF_FFFF_FFFF
  const LONG_MAX: nat := 0x7FFF_FFFF_FFFF_FFFF

  // ---- the chunk-header machine -------------------------------------------

  predicate IsHex(b: byte) {
    48 <= b <= 57 || 65 <= b <= 70 || 97 <= b <= 102
  }

  function HexDigit(b: byte): nat
    requires IsHex(b)
  {
    if b <= 57 then b as nat - 48 else if b <= 70 then b as nat - 55 else b as nat - 87
  }

  const TSPECIALS: set<byte> := {40, 41, 60, 62, 64, 44, 59, 58, 92, 34, 47, 91, 93, 63, 61, 123, 125, 32, 9}

  predicate IsToken(b: byte) {
    31 < b < 127 && b !in TSPECIALS
  }

  /** States of Chunked_Header: the size digits, the extensions, and the line end. */
  datatype Scan = Start | Size | NameStart | Name | ValueStart | Value | GotCR | Done | Bad

  function Step(st: Scan, b: byte): Scan {
    match st
    case Start => if IsHex(b) then Size else Bad
    case Size => if IsHex(b) then Size else AfterToken(b)
    case NameStart => if IsToken(b) then Name else Bad
    case Name => if IsToken(b) then Name else if b == EQUALS then ValueStart else AfterToken(b)
    case ValueStart => if IsToken(b) then Value else Bad
    case Value => if IsToken(b) then Value else AfterToken(b)
    case GotCR => if b == LF then Done else Bad
    case Done => Bad
    case Bad => Bad
  }

  function AfterToken(b: byte): Scan {
    if b == SEMICOLON then NameStart else if b == CR then GotCR else if b == LF then Done else Bad
  }

  /** Where the machine stops: the state it is in and how many bytes it took. The `done`
      action breaks out after the line feed. */
  function Execute(st: Scan, s: seq<byte>): (r: (Scan, nat))
    ensures r.1 <= |s|
    ensures r.0 == Done && st != Done ==> r.1 >= 1
    decreases |s|
  {
    if st == Done || st == Bad || s == [] then (st, 0)
    else
      var (st', n) := Execute(Step(st, s[0]), s[1..]);
      (st', n + 1)
  }

  /** strtol in base 16 over the leading digits. */
  function HexValue(acc: nat, s: seq<byte>): nat
    decreases |s|
  {
    if s != [] && IsHex(s[0]) then HexValue(16 * acc + HexDigit(s[0]), s[1..]) else acc
  }

  /** What is left of a number in an int32_t, and in a size_t. */
  function Int32(v: int): int {
    if -INT32_BOUND <= v < INT32_BOUND then v else (v + INT32_BOUND) % (2 * INT32_BOUND) - INT32_BOUND
  }

  function SizeT(v: int): nat {
    if 0 <= v <= SIZE_MAX then v else v % (SIZE_MAX + 1)
  }

  /** content_len, an `int` assigned from a `long` that saturates. */
  function ContentLen(line: seq<byte>): int {
    Int32(Min(HexValue(0, line), LONG_MAX))
  }

  // ---- the reassembly loops -----------------------------------------------

  /** The body, a null response, or an exception out of std::string::substr. */
  datatype Outcome = Body(bytes: seq<byte>) | Null | Throws

  datatype Header = Got(len: int, msg: seq<byte>, segs: seq<seq<byte>>) | NoHeader | HeaderThrows

  function StripCRLF(msg: seq<byte>): seq<byte> {
    if |msg| >= 2 && msg[0] == CR && msg[1] == LF then msg[2..] else msg
  }

  /** Bytes and segments still to be looked at. */
  function Left(msg: seq<byte>, segs: seq<seq<byte>>): nat {
    |msg| + Total(segs)
  }

  function Total(segs: seq<seq<byte>>): nat {
    if segs == [] then 0 else 1 + |segs[0]| + Total(segs[1..])
  }

  /** The inner loop: each round pulls one more segment in, drops a CRLF in front and runs
      the machine from its start; a header line that is not complete is thrown away. */
  function NextHeader(msg: seq<byte>, segs: seq<seq<byte>>): (h: Header)
    ensures h.Got? ==> Left(h.msg, h.segs) < Left(msg, segs)
    decreases Left(msg, segs)
  {
    if segs == [] && msg == [] then NoHeader
    else
      var text := StripCRLF(if segs == [] then msg else msg + segs[0]);
      var segs' := if segs == [] then [] else segs[1..];
      if text == [] then HeaderThrows
      else
        var (st, n) := Execute(Start, text);
        if st == Done then Got(ContentLen(text), text[n..], segs')
        else if st == Bad then NoHeader
        else NextHeader([], segs')
  }

  datatype Data = Took(body: seq<byte>, msg: seq<byte>, segs: seq<seq<byte>>) | NoData | DataThrows

  /** The data of a chunk of `len` bytes, appended to `body`. */
  function TakeData(body: seq<byte>, len: int, msg: seq<byte>, segs: seq<seq<byte>>): (d: Data)
    ensures d.Took? ==> Left(d.msg, d.segs) <= Left(msg, segs)
  {
    if len <= Int32(|msg|) then
      if 0 <= len <= |msg| then Took(body + msg[..len], msg[len..], segs) else DataThrows
    else Pull(body + msg, SizeT(len - |msg|), segs)
  }

  /** The loop that fills a chunk from the following segments. */
  function Pull(body: seq<byte>, remain: nat, segs: seq<seq<byte>>): (d: Data)
    ensures d.Took? ==> Left(d.msg, d.segs) <= Left([], segs)
    decreases |segs|
  {
    if remain == 0 then Took(body, [], segs)
    else if segs == [] then NoData
    else if remain >= |segs[0]| then Pull(body + segs[0], remain - |segs[0]|, segs[1..])
    else Took(body + segs[0][..remain], segs[0][remain..], segs[1..])
  }

  function ReadBody(body: seq<byte>, msg: seq<byte>, segs: seq<seq<byte>>): Outcome
    decreases Left(msg, segs)
  {
    match NextHeader(msg, segs)
    case NoHeader => Null
    case HeaderThrows => Throws
    case Got(len, msg1, segs1) =>
      match TakeData(body, len, msg1, segs1)
      case NoData => Null
      case DataThrows => Throws
      case Took(body', msg2, segs2) => if len <= 0 then Body(body') else ReadBody(body', msg2, segs2)
  }

  // ---- the wire and its cuts ----------------------------------------------

  /** `line` is a whole chunk-header line, extensions included, announcing `n` bytes. */
  predicate IsHeaderLine(line: seq<byte>, n: nat) {
    Execute(Start, line) == (Done, |line|) && ContentLen(line) == n
  }

  datatype Chunk = Chunk(line: seq<byte>, data: seq<byte>)

  /** Non-empty chunks, each behind a line announcing its length. */
  predicate ChunksOk(chunks: seq<Chunk>) {
    chunks == []
    || (chunks[0].data != [] && IsHeaderLine(chunks[0].line, |chunks[0].data|) && ChunksOk(chunks[1..]))
  }

  /** The CRLF that ends the data before, unless the line is the first. */
  function Opening(first: bool): seq<byte> {
    if first then [] else [CR, LF]
  }

  /** Chunks, the last-chunk line and whatever follows it. */
  function Wire(first: bool, chunks: seq<Chunk>, last: seq<byte>, trailer: seq<byte>): seq<byte> {
    if chunks == [] then Opening(first) + last + trailer
    else Opening(first) + chunks[0].line + (chunks[0].data + Wire(false, chunks[1..], last, trailer))
  }

  function AllData(chunks: seq<Chunk>): seq<byte> {
    if chunks == [] then [] else chunks[0].data + AllData(chunks[1..])
  }

  function Rest(segs: seq<seq<byte>>): seq<seq<byte>> {
    if segs == [] then [] else segs[1..]
  }

  /** The bytes a search for a header looks at first: `m` received and not used, and one
      more segment. */
  function Sight(m: nat, segs: seq<seq<byte>>): nat {
    m + if segs == [] then 0 else |segs[0]|
  }

  /** How many bytes are received and not used, and what is still to come, once `k` bytes
      have been pulled in. */
  function Advance(k: nat, segs: seq<seq<byte>>): (nat, seq<seq<byte>>)
    decreases |segs|
  {
    if k == 0 then (0, segs)
    else if segs == [] then (0, [])
    else if k >= |segs[0]| then Advance(k - |segs[0]|, segs[1..])
    else (|segs[0]| - k, segs[1..])
  }

  function AfterData(k: nat, m: nat, segs: seq<seq<byte>>): (nat, seq<seq<byte>>) {
    if k <= m then (m - k, segs) else Advance(k - m, segs)
  }

  /** The condition on the cut, on lengths alone: each header line, with the CRLF before it,
      is whole by the time one more segment has been received. */
  predicate Uncut(m: nat, segs: seq<seq<byte>>, first: bool, chunks: seq<Chunk>, last: seq<byte>)
    decreases |chunks|
  {
    var line := if chunks == [] then last else chunks[0].line;
    var head := |Opening(first)| + |line|;
    && head <= Sight(m, segs)
    && (chunks == []
        || var (m', segs') := AfterData(|chunks[0].data|, Sight(m, segs) - head, Rest(segs));
           Uncut(m', segs', false, chunks[1..], last))
  }

  // ---- lemmas -------------------------------------------------------------

  /** The machine stops at the end of a header line whatever follows it. */
  lemma {:induction false} ExecuteStops(st: Scan, line: seq<byte>, more: seq<byte>)
    requires Execute(st, line).0 == Done && st != Done
    ensures Execute(st, line + more) == Execute(st, line)
    decreases |line|
  {
    assert st != Bad && line != [];
    assert (line + more)[0] == line[0] && (line + more)[1..] == line[1..] + more;
    var st' := Step(st, line[0]);
    if st' != Done {
      ExecuteStops(st', line[1..], more);
    }
  }

  /** A header line has a byte behind its digits, so more bytes do not change its value. */
  lemma {:induction false} HexValueStops(acc: nat, st: Scan, line: seq<byte>, more: seq<byte>)
    requires Execute(st, line).0 == Done && (st == Start || st == Size)
    ensures HexValue(acc, line + more) == HexValue(acc, line)
    decreases |line|
  {
    assert (line + more)[0] == line[0] && (line + more)[1..] == line[1..] + more;
    if IsHex(line[0]) {
      HexValueStops(16 * acc + HexDigit(line[0]), Size, line[1..], more);
    }
  }

  lemma {:induction false} HeaderLineFound(line: seq<byte>, n: nat, more: seq<byte>)
    requires IsHeaderLine(line, n)
    ensures Execute(Start, line + more) == (Done, |line|) && ContentLen(line + more) == n
    ensures StripCRLF([CR, LF] + line + more) == StripCRLF(line + more) == line + more != []
  {
    ExecuteStops(Start, line, more);
    HexValueStops(0, Start, line, more);
    assert IsHex(line[0]);
    assert ([CR, LF] + line + more)[2..] == line + more;
  }

  lemma {:induction false} NextHeaderFound(msg: seq<byte>, segs: seq<seq<byte>>, first: bool, line: seq<byte>, n: nat, more: seq<byte>)
    requires IsHeaderLine(line, n)
    requires (if segs == [] then msg else msg + segs[0]) == Opening(first) + line + more
    ensures NextHeader(msg, segs) == Got(n, more, Rest(segs))
  {
    HeaderLineFound(line, n, more);
    AppendAssoc(Opening(first), line, more);
    assert first ==> [] + (line + more) == line + more;
    assert StripCRLF(if segs == [] then msg else msg + segs[0]) == line + more;
    assert (line + more)[|line|..] == more;
  }

  /** Pulling one more segment in, if there is one, does not change what is left in all. */
  lemma {:induction false} PullOne(msg: seq<byte>, segs: seq<seq<byte>>)
    ensures var text := if segs == [] then msg else msg + segs[0];
      |text| == Sight(|msg|, segs) && text + Concat(Rest(segs)) == msg + Concat(segs)
  {
    if segs != [] {
      AppendAssoc(msg, segs[0], Concat(segs[1..]));
    }
  }

  /** With a header line in sight, the inner loop finds it in one round. */
  lemma {:induction false} HeaderStep(msg: seq<byte>, segs: seq<seq<byte>>, first: bool, line: seq<byte>, n: nat, more: seq<byte>)
    returns (msg': seq<byte>)
    requires msg + Concat(segs) == Opening(first) + line + more && IsHeaderLine(line, n)
    requires |Opening(first)| + |line| <= Sight(|msg|, segs)
    ensures NextHeader(msg, segs) == Got(n, msg', Rest(segs)) && msg' + Concat(Rest(segs)) == more
    ensures |msg'| == Sight(|msg|, segs) - |Opening(first)| - |line|
  {
    var text := if segs == [] then msg else msg + segs[0];
    var head := Opening(first) + line;
    PullOne(msg, segs);
    SplitHead(text, Concat(Rest(segs)), head, more);
    msg' := text[|head|..];
    NextHeaderFound(msg, segs, first, line, n, msg');
  }

  lemma {:induction false} SplitAppend(body: seq<byte>, data: seq<byte>, n: nat)
    requires n <= |data|
    ensures body + data[..n] + data[n..] == body + data
  {
  }

  /** Filling a chunk from the segments takes exactly its data. */
  lemma {:induction false} PullStep(body: seq<byte>, data: seq<byte>, segs: seq<seq<byte>>, more: seq<byte>)
    returns (msg': seq<byte>, segs': seq<seq<byte>>)
    requires Concat(segs) == data + more
    ensures Pull(body, |data|, segs) == Took(body + data, msg', segs') && msg' + Concat(segs') == more
    ensures (|msg'|, segs') == Advance(|data|, segs)
    decreases |segs|
  {
    if data == [] {
      msg', segs' := [], segs;
      assert body + data == body && [] + Concat(segs) == Concat(segs) && [] + more == more;
    } else {
      assert segs != [];
      var seg, tail := segs[0], segs[1..];
      if |seg| <= |data| {
        SplitWithin(seg, Concat(tail), data, more);
        msg', segs' := PullStep(body + seg, data[|seg|..], tail, more);
        SplitAppend(body, data, |seg|);
      } else {
        SplitHead(seg, Concat(tail), data, more);
        msg', segs' := seg[|data|..], tail;
        assert seg[..|data|] == data;
      }
    }
  }

  /** After the header line, the data of the chunk is taken whole, wherever the cuts fall. */
  lemma {:induction false} DataStep(body: seq<byte>, data: seq<byte>, msg: seq<byte>, segs: seq<seq<byte>>, more: seq<byte>)
    returns (msg': seq<byte>, segs': seq<seq<byte>>)
    requires msg + Concat(segs) == data + more && |msg| < INT32_BOUND && |data| < INT32_BOUND
    ensures TakeData(body, |data|, msg, segs) == Took(body + data, msg', segs') && msg' + Concat(segs') == more
    ensures (|msg'|, segs') == AfterData(|data|, |msg|, segs)
  {
    if |data| <= |msg| {
      SplitHead(msg, Concat(segs), data, more);
      msg', segs' := msg[|data|..], segs;
      TakeFromMsg(body, data, msg', segs);
    } else {
      SplitWithin(msg, Concat(segs), data, more);
      msg', segs' := PullStep(body + msg, data[|msg|..], segs, more);
      TakeFromSegs(body, data, |msg|, segs);
      SplitAppend(body, data, |msg|);
    }
  }

  lemma {:induction false} TakeFromMsg(body: seq<byte>, data: seq<byte>, tail: seq<byte>, segs: seq<seq<byte>>)
    requires |data + tail| < INT32_BOUND
    ensures TakeData(body, |data|, data + tail, segs) == Took(body + data, tail, segs)
  {
    var msg := data + tail;
    assert msg[..|data|] == data && msg[|data|..] == tail;
  }

  lemma {:induction false} TakeFromSegs(body: seq<byte>, data: seq<byte>, n: nat, segs: seq<seq<byte>>)
    requires n < |data| < INT32_BOUND
    ensures TakeData(body, |data|, data[..n], segs) == Pull(body + data[..n], |data[n..]|, segs)
  {
  }

  /** What the loops make of what is left, and that they make the same of two situations. */
  predicate Gives(body: seq<byte>, msg: seq<byte>, segs: seq<seq<byte>>, o: Outcome) {
    ReadBody(body, msg, segs) == o
  }

  ghost predicate Alike(body: seq<byte>, msg: seq<byte>, segs: seq<seq<byte>>,
                        body': seq<byte>, msg': seq<byte>, segs': seq<seq<byte>>) {
    forall o {:trigger Gives(body, msg, segs, o)} {:trigger Gives(body', msg', segs', o)} ::
      Gives(body, msg, segs, o) <==> Gives(body', msg', segs', o)
  }

  /** One round of the outer loop over a chunk with data. */
  lemma {:induction false} ChunkStep(body: seq<byte>, msg: seq<byte>, segs: seq<seq<byte>>, first: bool, c: Chunk, more: seq<byte>)
    returns (msg': seq<byte>, segs': seq<seq<byte>>)
    requires c.data != [] && IsHeaderLine(c.line, |c.data|)
    requires msg + Concat(segs) == Opening(first) + c.line + (c.data + more) && |msg + Concat(segs)| < INT32_BOUND
    requires |Opening(first)| + |c.line| <= Sight(|msg|, segs)
    ensures Alike(body, msg, segs, body + c.data, msg', segs') && msg' + Concat(segs') == more
    ensures (|msg'|, segs') == AfterData(|c.data|, Sight(|msg|, segs) - |Opening(first)| - |c.line|, Rest(segs))
  {
    var msg1 := HeaderStep(msg, segs, first, c.line, |c.data|, c.data + more);
    PullOne(msg, segs);
    msg', segs' := DataStep(body, c.data, msg1, Rest(segs), more);
    ReadOne(body, msg, segs, |c.data|, msg1, Rest(segs), body + c.data, msg', segs');
  }

  lemma {:induction false} ReadOne(body: seq<byte>, msg: seq<byte>, segs: seq<seq<byte>>, n: nat,
      msg1: seq<byte>, segs1: seq<seq<byte>>, body': seq<byte>, msg2: seq<byte>, segs2: seq<seq<byte>>)
    requires n > 0 && NextHeader(msg, segs) == Got(n, msg1, segs1)
    requires TakeData(body, n, msg1, segs1) == Took(body', msg2, segs2)
    ensures ReadBody(body, msg, segs) == ReadBody(body', msg2, segs2)
  {
  }

  lemma {:induction false} LastChunk(body: seq<byte>, msg: seq<byte>, segs: seq<seq<byte>>, msg1: seq<byte>, segs1: seq<seq<byte>>)
    requires NextHeader(msg, segs) == Got(0, msg1, segs1)
    requires |msg1| < INT32_BOUND
    ensures ReadBody(body, msg, segs) == Body(body)
  {
    assert body + msg1[..0] == body;
  }

  /** The loops from any point between chunks: `msg` has been received and not used, `segs`
      is still to come. */
  lemma {:induction false} ReadRest(body: seq<byte>, msg: seq<byte>, segs: seq<seq<byte>>,
      first: bool, chunks: seq<Chunk>, last: seq<byte>, trailer: seq<byte>)
    requires ChunksOk(chunks) && IsHeaderLine(last, 0)
    requires msg + Concat(segs) == Wire(first, chunks, last, trailer) && |msg + Concat(segs)| < INT32_BOUND
    requires Uncut(|msg|, segs, first, chunks, last)
    ensures Gives(body, msg, segs, Body(body + AllData(chunks)))
    decreases |chunks|
  {
    if chunks == [] {
      LastRead(body, msg, segs, first, last, trailer);
      assert body + [] == body;
    } else {
      var msg', segs' := FirstRead(body, msg, segs, first, chunks, last, trailer);
      ReadRest(body + chunks[0].data, msg', segs', false, chunks[1..], last, trailer);
      AppendAssoc(body, chunks[0].data, AllData(chunks[1..]));
    }
  }

  lemma {:induction false} FirstRead(body: seq<byte>, msg: seq<byte>, segs: seq<seq<byte>>,
      first: bool, chunks: seq<Chunk>, last: seq<byte>, trailer: seq<byte>)
    returns (msg': seq<byte>, segs': seq<seq<byte>>)
    requires chunks != [] && ChunksOk(chunks)
    requires msg + Concat(segs) == Wire(first, chunks, last, trailer) && |msg + Concat(segs)| < INT32_BOUND
    requires Uncut(|msg|, segs, first, chunks, last)
    ensures Alike(body, msg, segs, body + chunks[0].data, msg', segs')
    ensures msg' + Concat(segs') == Wire(false, chunks[1..], last, trailer) && |msg' + Concat(segs')| < INT32_BOUND
    ensures ChunksOk(chunks[1..]) && Uncut(|msg'|, segs', false, chunks[1..], last)
  {
    msg', segs' := ChunkStep(body, msg, segs, first, chunks[0], Wire(false, chunks[1..], last, trailer));
  }

  lemma {:induction false} LastRead(body: seq<byte>, msg: seq<byte>, segs: seq<seq<byte>>, first: bool, last: seq<byte>, trailer: seq<byte>)
    requires IsHeaderLine(last, 0) && |Opening(first)| + |last| <= Sight(|msg|, segs)
    requires msg + Concat(segs) == Opening(first) + last + trailer && |msg + Concat(segs)| < INT32_BOUND
    ensures Gives(body, msg, segs, Body(body))
  {
    var msg1 := HeaderStep(msg, segs, first, last, 0, trailer);
    LastChunk(body, msg, segs, msg1, Rest(segs));
  }

  /** Reassembly: whatever the chunks, their header lines and the received segments, the body
      is the concatenation of the chunks when each header line is whole by the time one more
      segment has been received. `begin` is what the first segment holds behind the head. */
  lemma {:induction false} Reassembled(begin: seq<byte>, segs: seq<seq<byte>>, chunks: seq<Chunk>, last: seq<byte>, trailer: seq<byte>)
    requires ChunksOk(chunks) && IsHeaderLine(last, 0)
    requires begin + Concat(segs) == Wire(true, chunks, last, trailer) && |begin + Concat(segs)| < INT32_BOUND
    requires Uncut(|begin|, segs, true, chunks, last)
    ensures ReadBody([], begin, segs) == Body(AllData(chunks))
  {
    ReadRest([], begin, segs, true, chunks, last, trailer);
    assert [] + AllData(chunks) == AllData(chunks);
  }

  // ---- cuts that spare the header lines ------------------------------------

  /** Some cut of the wire falls strictly between `a` and `b`; the first one is at `m`. */
  predicate CutInside(m: nat, segs: seq<seq<byte>>, a: nat, b: nat)
    decreases |segs|
  {
    segs != [] && (a < m < b || CutInside(m + |segs[0]|, segs[1..], a, b))
  }

  /** No cut goes through a header line or the CRLF before it. */
  predicate Spared(m: nat, segs: seq<seq<byte>>, at: nat, first: bool, chunks: seq<Chunk>, last: seq<byte>)
    decreases |chunks|
  {
    var line := if chunks == [] then last else chunks[0].line;
    var end := at + |Opening(first)| + |line|;
    && !CutInside(m, segs, at, end)
    && (chunks == [] || Spared(m, segs, end + |chunks[0].data|, false, chunks[1..], last))
  }

  predicate NoneEmpty(segs: seq<seq<byte>>) {
    segs == [] || (segs[0] != [] && NoneEmpty(segs[1..]))
  }

  /** One segment on, there are fewer cuts. */
  lemma {:induction false} SparedLater(m: nat, segs: seq<seq<byte>>, at: nat, first: bool, chunks: seq<Chunk>, last: seq<byte>)
    requires segs != [] && Spared(m, segs, at, first, chunks, last)
    ensures Spared(m + |segs[0]|, segs[1..], at, first, chunks, last)
    decreases |chunks|
  {
    if chunks != [] {
      SparedLater(m, segs, at + |Opening(first)| + |chunks[0].line| + |chunks[0].data|, false, chunks[1..], last);
    }
  }

  /** From `at - m` bytes before its end, data is pulled in; the wire is then received up to
      `at + m'`, still with the cuts in order. */
  lemma {:induction false} SparedAfter(at: nat, k: nat, segs: seq<seq<byte>>, chunks: seq<Chunk>, last: seq<byte>)
    requires k <= |Concat(segs)| && NoneEmpty(segs) && at >= k && Spared(at - k, segs, at, false, chunks, last)
    ensures var (m', segs') := Advance(k, segs);
      && NoneEmpty(segs') && Spared(at + m', segs', at, false, chunks, last)
      && m' + |Concat(segs')| == |Concat(segs)| - k
    decreases |segs|
  {
    if k > 0 {
      SparedLater(at - k, segs, at, false, chunks, last);
      if k >= |segs[0]| {
        SparedAfter(at, k - |segs[0]|, segs[1..], chunks, last);
      }
    }
  }

  /** With no cut inside it, the header line is in sight. */
  lemma {:induction false} SparedInSight(at: nat, m: nat, segs: seq<seq<byte>>, head: nat)
    requires NoneEmpty(segs) && head <= m + |Concat(segs)| && !CutInside(at + m, segs, at, at + head)
    ensures head <= Sight(m, segs)
  {
    if segs != [] && m == 0 && segs[1..] != [] {
      assert segs[0] != [] && !CutInside(at + |segs[0]|, segs[1..], at, at + head);
    }
  }

  lemma {:induction false} OneReceived(at: nat, m: nat, segs: seq<seq<byte>>, first: bool, chunks: seq<Chunk>, last: seq<byte>)
    requires NoneEmpty(segs) && Spared(at + m, segs, at, first, chunks, last)
    ensures NoneEmpty(Rest(segs)) && Spared(at + Sight(m, segs), Rest(segs), at, first, chunks, last)
    ensures m + |Concat(segs)| == Sight(m, segs) + |Concat(Rest(segs))|
  {
    if segs != [] {
      SparedLater(at + m, segs, at, first, chunks, last);
    }
  }

  /** A cut into non-empty segments that spares the header lines meets the condition: `at`
      bytes of the wire are used and at + m received. */
  lemma {:induction false} SparedIsUncut(at: nat, m: nat, segs: seq<seq<byte>>, first: bool, chunks: seq<Chunk>, last: seq<byte>, trailer: seq<byte>)
    requires NoneEmpty(segs) && m + |Concat(segs)| == |Wire(first, chunks, last, trailer)|
    requires Spared(at + m, segs, at, first, chunks, last)
    ensures Uncut(m, segs, first, chunks, last)
    decreases |chunks|
  {
    var line := if chunks == [] then last else chunks[0].line;
    var head := |Opening(first)| + |line|;
    SparedInSight(at, m, segs, head);
    if chunks != [] {
      OneReceived(at, m, segs, first, chunks, last);
      SparedChunk(at, Sight(m, segs), Rest(segs), first, chunks, last);
      var (m', segs') := AfterData(|chunks[0].data|, Sight(m, segs) - head, Rest(segs));
      SparedIsUncut(at + head + |chunks[0].data|, m', segs', false, chunks[1..], last, trailer);
    }
  }

  lemma {:induction false} SparedChunk(at: nat, m: nat, segs: seq<seq<byte>>, first: bool, chunks: seq<Chunk>, last: seq<byte>)
    requires NoneEmpty(segs) && chunks != [] && Spared(at + m, segs, at, first, chunks, last)
    requires |Opening(first)| + |chunks[0].line| <= m
    requires |Opening(first)| + |chunks[0].line| + |chunks[0].data| <= m + |Concat(segs)|
    ensures var used := |Opening(first)| + |chunks[0].line| + |chunks[0].data|;
      var (m', segs') := AfterData(|chunks[0].data|, m - |Opening(first)| - |chunks[0].line|, segs);
      && NoneEmpty(segs') && Spared(at + used + m', segs', at + used, false, chunks[1..], last)
      && m' + |Concat(segs')| == m + |Concat(segs)| - used
  {
    var used := |Opening(first)| + |chunks[0].line| + |chunks[0].data|;
    if used > m {
      SparedAfter(at + used, used - m, segs, chunks[1..], last);
    }
  }

  // ---- printed sizes ------------------------------------------------------

  function HexDigitText(d: nat): byte
    requires d < 16
  {
    (if d < 10 then 48 + d else 87 + d) as byte
  }

  /** A size as a sender prints it. */
  function HexText(n: nat): seq<byte> {
    if n < 16 then [HexDigitText(n)] else HexText(n / 16) + [HexDigitText(n % 16)]
  }

  predicate AllHex(s: seq<byte>) {
    forall i :: 0 <= i < |s| ==> IsHex(s[i])
  }

  lemma {:induction false} HexTextIsHex(n: nat)
    ensures AllHex(HexText(n)) && HexText(n) != []
  {
    if n >= 16 {
      HexTextIsHex(n / 16);
    }
  }

  lemma {:induction false} HexValueAppend(acc: nat, a: seq<byte>, more: seq<byte>)
    requires AllHex(a)
    ensures HexValue(acc, a + more) == HexValue(HexValue(acc, a), more)
    decreases |a|
  {
    if a == [] {
      assert a + more == more;
    } else {
      assert (a + more)[0] == a[0] && (a + more)[1..] == a[1..] + more;
      HexValueAppend(16 * acc + HexDigit(a[0]), a[1..], more);
    }
  }

  lemma {:induction false} HexTextValue(n: nat)
    ensures HexValue(0, HexText(n)) == n
  {
    if n < 16 {
      OneDigit(0, n);
    } else {
      HexTextIsHex(n / 16);
      HexValueAppend(0, HexText(n / 16), [HexDigitText(n % 16)]);
      HexTextValue(n / 16);
      OneDigit(n / 16, n % 16);
    }
  }

  lemma {:induction false} OneDigit(acc: nat, d: nat)
    requires d < 16
    ensures HexValue(acc, [HexDigitText(d)]) == 16 * acc + d
  {
  }

  lemma {:induction false} DigitsRun(st: Scan, digits: seq<byte>, more: seq<byte>)
    requires AllHex(digits) && (st == Size || (st == Start && digits != []))
    ensures Execute(st, digits + more) == (Execute(Size, more).0, |digits| + Execute(Size, more).1)
    decreases |digits|
  {
    if digits == [] {
      assert digits + more == more;
    } else {
      assert (digits + more)[0] == digits[0] && (digits + more)[1..] == digits[1..] + more;
      DigitsRun(Size, digits[1..], more);
    }
  }

  lemma {:induction false} LineEndRuns()
    ensures Execute(Size, [CR, LF]) == (Done, 2)
  {
    var end: seq<byte> := [CR, LF];
    assert end[1..] == [LF] && [LF][1..] == [];
    assert Execute(Done, []) == (Done, 0);
    assert Execute(GotCR, [LF]) == (Done, 1);
  }

  /** Every size below 2^31 printed in hexadecimal, with CRLF, is a header line for it. */
  lemma {:induction false} HexLineIsHeader(n: nat)
    requires n < INT32_BOUND
    ensures IsHeaderLine(HexText(n) + [CR, LF], n)
  {
    var text, end: seq<byte> := HexText(n), [CR, LF];
    assert AllHex(text) && text != [] by { HexTextIsHex(n); }
    assert Execute(Start, text + end) == (Done, |text| + 2) by { LineEndRuns(); DigitsRun(Start, text, end); }
    assert HexValue(0, text + end) == n by { HexValueAppend(0, text, end); HexTextValue(n); }
  }
}
