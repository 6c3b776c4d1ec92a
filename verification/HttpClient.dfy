/** The client's body reassembly as the source runs it: nested loops over an index into the
    received segments, around the chunk-header machine and its parser structure. */
module HttpClient {
  import opened Bytes
  import opened Chunked

  /** httpclient_parser, as far as the chunk header goes. */
  class ChunkParser {
    var cs: Scan
    var contentLen: int
    var chunksDone: bool

    constructor ()
      ensures cs == Start
    {
      cs, contentLen, chunksDone := Start, -1, false;
    }

    method Reset()
      modifies this
      ensures cs == Start && contentLen == -1 && !chunksDone
    {
      cs, contentLen, chunksDone := Start, -1, false;
    }

    /** Runs the machine from its start; the size action fires where the digits end. */
    method Run(data: seq<byte>) returns (np: nat)
      modifies this
      ensures (cs, np) == Execute(Start, data)
      ensures cs == Done ==> contentLen == ContentLen(data) && chunksDone == (contentLen <= 0)
    {
      Reset();
      np := 0;
      while np < |data| && cs != Done && cs != Bad
        modifies this
        invariant np <= |data|
        invariant Execute(Start, data) == (Execute(cs, data[np..]).0, np + Execute(cs, data[np..]).1)
        invariant cs != Start && cs != Size && cs != Bad ==> contentLen == ContentLen(data) && chunksDone == (contentLen <= 0)
      {
        var next := Step(cs, data[np]);
        assert data[np..][1..] == data[np + 1..];
        if cs == Size && next != Size {
          contentLen := ContentLen(data);
          chunksDone := contentLen <= 0;
        }
        cs := next;
        np := np + 1;
      }
    }
  }

  /** One more segment, if there is one, less a CRLF in front. */
  method PullSegment(resHttp: seq<seq<byte>>, from: nat, msg0: seq<byte>) returns (msg: seq<byte>, index: nat)
    requires from <= |resHttp|
    ensures msg == StripCRLF(if from == |resHttp| then msg0 else msg0 + resHttp[from])
    ensures index == (if from == |resHttp| then from else from + 1)
    ensures resHttp[index..] == if resHttp[from..] == [] then [] else resHttp[from..][1..]
  {
    msg, index := msg0, from;
    if index < |resHttp| {
      msg := msg + resHttp[index];
      index := index + 1;
    }
    if |msg| >= 2 && msg[0] == CR && msg[1] == LF {
      msg := msg[2..];
    }
  }

  /** The inner loop. `index` counts the segments used. */
  method FindHeader(parser: ChunkParser, resHttp: seq<seq<byte>>, from: nat, msg0: seq<byte>)
    returns (h: Header, index: nat)
    requires from <= |resHttp|
    modifies parser
    ensures from <= index <= |resHttp|
    ensures h == NextHeader(msg0, resHttp[from..])
    ensures h.Got? ==> h.segs == resHttp[index..] && parser.contentLen == h.len && parser.chunksDone == (h.len <= 0)
  {
    var msg := msg0;
    index := from;
    while true
      modifies parser
      invariant from <= index <= |resHttp|
      invariant NextHeader(msg, resHttp[index..]) == NextHeader(msg0, resHttp[from..])
      decreases |resHttp| - index, |msg|
    {
      if index >= |resHttp| && msg == [] {
        return NoHeader, index;
      }
      msg, index := PullSegment(resHttp, index, msg);
      if msg == [] {
        return HeaderThrows, index;
      }
      var np := parser.Run(msg);
      if parser.cs == Bad {
        return NoHeader, index;
      }
      if parser.cs == Done {
        return Got(parser.contentLen, msg[np..], resHttp[index..]), index;
      }
      msg := [];
    }
  }

  /** The loop that fills a chunk from the following segments. */
  method FillChunk(body0: seq<byte>, remain0: nat, resHttp: seq<seq<byte>>, from: nat)
    returns (d: Data, index: nat)
    requires from <= |resHttp|
    ensures from <= index <= |resHttp|
    ensures d == Pull(body0, remain0, resHttp[from..])
    ensures d.Took? || d == NoData
    ensures d.Took? ==> d.segs == resHttp[index..]
  {
    var body, msg := body0, [];
    var remain: nat := remain0;
    index := from;
    while remain > 0
      invariant from <= index <= |resHttp|
      invariant remain > 0 || msg == [] ==> Pull(body, remain, resHttp[index..]) == Pull(body0, remain0, resHttp[from..])
      invariant remain == 0 ==> Took(body, msg, resHttp[index..]) == Pull(body0, remain0, resHttp[from..])
      decreases |resHttp| - index
    {
      if index >= |resHttp| {
        return NoData, index;
      }
      assert resHttp[index..][1..] == resHttp[index + 1..];
      msg := resHttp[index];
      index := index + 1;
      if remain >= |msg| {
        body := body + msg;
        remain := remain - |msg|;
        msg := [];
      } else {
        body := body + msg[..remain];
        msg := msg[remain..];
        remain := 0;
      }
    }
    d := Took(body, msg, resHttp[index..]);
  }

  /** The data of one chunk: out of what is in `msg`, or of that and the segments to come. */
  method TakeChunk(body: seq<byte>, len: int, msg: seq<byte>, resHttp: seq<seq<byte>>, from: nat)
    returns (d: Data, index: nat)
    requires from <= |resHttp|
    ensures from <= index <= |resHttp|
    ensures d == TakeData(body, len, msg, resHttp[from..])
    ensures d.Took? ==> d.segs == resHttp[index..]
  {
    index := from;
    if len <= Int32(|msg|) {
      if 0 <= len <= |msg| {
        d := Took(body + msg[..len], msg[len..], resHttp[from..]);
      } else {
        d := DataThrows;
      }
    } else {
      d, index := FillChunk(body + msg, SizeT(len - |msg|), resHttp, from);
    }
  }

  /** HttpParserResponse behind the head: `first` is what resHttp[0] holds behind it. */
  method ReassembleChunked(first: seq<byte>, resHttp: seq<seq<byte>>) returns (o: Outcome)
    requires resHttp != []
    ensures o == ReadBody([], first, resHttp[1..])
  {
    var parser := new ChunkParser();
    var body, msg, index := [], first, 1;
    while true
      modifies parser
      invariant index <= |resHttp|
      invariant ReadBody(body, msg, resHttp[index..]) == ReadBody([], first, resHttp[1..])
      decreases Left(msg, resHttp[index..])
    {
      ghost var segs := resHttp[index..];
      var h;
      h, index := FindHeader(parser, resHttp, index, msg);
      if h == NoHeader {
        return Null;
      } else if h == HeaderThrows {
        return Throws;
      }
      var d;
      d, index := TakeChunk(body, h.len, h.msg, resHttp, index);
      if d == NoData {
        return Null;
      } else if d == DataThrows {
        return Throws;
      }
      body, msg := d.body, d.msg;
      if parser.chunksDone {
        return Body(body);
      }
    }
  }

  /** The other branch: all segments joined, and as many bytes as Content-Length says. */
  method ReadByLength(first: seq<byte>, resHttp: seq<seq<byte>>, contentLen: nat) returns (o: Outcome)
    requires resHttp != []
    ensures var all := first + Concat(resHttp[1..]);
      o == if |all| < contentLen then Null else Body(all[..contentLen])
  {
    var msg, i := first, 1;
    while i < |resHttp|
      invariant 1 <= i <= |resHttp|
      invariant msg + Concat(resHttp[i..]) == first + Concat(resHttp[1..])
    {
      AppendAssoc(msg, resHttp[i], Concat(resHttp[i + 1..]));
      assert resHttp[i..][1..] == resHttp[i + 1..];
      msg := msg + resHttp[i];
      i := i + 1;
    }
    assert msg + [] == msg;
    o := if |msg| < contentLen then Null else Body(msg[..contentLen]);
  }

  /** Only the joined bytes matter to that branch, not where they were cut. */
  lemma {:induction false} JoinIgnoresCuts(segs: seq<seq<byte>>, i: nat, n: nat)
    requires i < |segs| && n <= |segs[i]|
    ensures Concat(segs[..i] + [segs[i][..n], segs[i][n..]] + segs[i + 1..]) == Concat(segs)
  {
    var cut := segs[..i] + [segs[i][..n], segs[i][n..]] + segs[i + 1..];
    if i == 0 {
      assert cut[1..][1..] == segs[1..];
      AppendAssoc(segs[0][..n], segs[0][n..], Concat(segs[1..]));
      assert segs[0][..n] + segs[0][n..] == segs[0];
    } else {
      JoinIgnoresCuts(segs[1..], i - 1, n);
      assert cut[1..] == segs[1..][..i - 1] + [segs[i][..n], segs[i][n..]] + segs[1..][i..];
    }
  }
}
