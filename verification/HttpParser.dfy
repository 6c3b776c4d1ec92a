/** The request parser as the source runs it: a loop over the state that takes lines out of a
    Buffer and fills a request object. */
module HttpParsing {
  import opened Bytes
  import opened Buffers
  import opened Http
  import RT = HttpRoundTrip

  class HttpRequest {
    var httpMethod: HttpMethod
    var version: nat
    var path: seq<byte>
    var query: seq<byte>
    var fragment: seq<byte>
    var body: seq<byte>
    var close: bool
    var websocket: bool
    var headers: Headers

    ghost function View(): Request
      reads this
    {
      Request(httpMethod, version, path, query, fragment, body, close, websocket, headers)
    }

    constructor ()
      ensures View() == DEFAULT
    {
      httpMethod, version, path := GET, 0x11, [47];
      query, fragment, body := [], [], [];
      close, websocket, headers := true, false, map[];
    }

    method SetHeader(name: seq<byte>, value: seq<byte>)
      modifies `headers
      ensures headers == Http.SetHeader(old(headers), name, value)
    {
      var k := Canon(name);
      var spelling := if k in headers then headers[k].name else name;
      headers := headers[k := Header(spelling, value)];
    }
  }

  /** HttpRequest::dump. The map is walked in the order of its comparator, here `order`. */
  method Dump(req: HttpRequest, order: seq<seq<byte>>) returns (os: seq<byte>)
    requires RT.Enumerates(order, req.headers)
    ensures os == RT.Dump(req.View(), order)
  {
    var r := Request(req.httpMethod, req.version, req.path, req.query, req.fragment, req.body, req.close, req.websocket, req.headers);
    os := Ascii(MethodName(req.httpMethod)) + [SP] + (RT.Target(r) + [SP] + RT.VersionText(req.version)) + RT.CRLF;
    if !req.websocket {
      os := os + RT.Line(RT.CONNECTION, if req.close then RT.CLOSE else RT.KEEP_ALIVE);
    } else {
      os := os + [];
    }
    os := DumpHeaders(req.websocket, req.headers, order, os);
    if req.body != [] {
      os := os + (RT.Line(RT.CONTENT_LENGTH, RT.Decimal(|req.body|)) + RT.CRLF + req.body);
    } else {
      os := os + RT.CRLF;
    }
  }

  method DumpHeaders(websocket: bool, headers: Headers, order: seq<seq<byte>>, start: seq<byte>) returns (os: seq<byte>)
    requires forall i :: 0 <= i < |order| ==> order[i] in headers
    ensures os == start + RT.HeaderLines(websocket, headers, order)
  {
    os := start;
    ghost var lines := RT.HeaderLines(websocket, headers, order);
    var i := 0;
    while i < |order|
      invariant 0 <= i <= |order|
      invariant os + RT.HeaderLines(websocket, headers, order[i..]) == start + lines
    {
      var k := order[i];
      HeadersFrom(websocket, headers, order, i, os);
      if websocket || k != RT.CONNECTION_KEY {
        os := os + RT.Line(headers[k].name, headers[k].value);
      }
      i := i + 1;
    }
    assert order[i..] == [] && os + [] == os;
  }

  lemma {:induction false} HeadersFrom(websocket: bool, headers: Headers, order: seq<seq<byte>>, i: nat, os: seq<byte>)
    requires i < |order| && forall j :: 0 <= j < |order| ==> order[j] in headers
    ensures var k, more := order[i], RT.HeaderLines(websocket, headers, order[i + 1..]);
      os + RT.HeaderLines(websocket, headers, order[i..]) ==
      (if !websocket && k == RT.CONNECTION_KEY then os else os + RT.Line(headers[k].name, headers[k].value)) + more
  {
    var k, more := order[i], RT.HeaderLines(websocket, headers, order[i + 1..]);
    assert order[i..][1..] == order[i + 1..];
    assert [] + more == more;
    AppendAssoc(os, RT.Line(headers[k].name, headers[k].value), more);
  }

  class HttpParser {
    var state: ParserState
    const request: HttpRequest

    constructor ()
      ensures state == ParserLine && fresh(request) && request.View() == DEFAULT
    {
      state := ParserLine;
      request := new HttpRequest();
    }

    /** What a call has still to do, seen from the present state. */
    ghost function Remaining(buf: Buffer): Parsed
      requires buf.Valid() && Parsing(state)
      reads this, request, buf, buf.data
    {
      Parse(state, request.View(), buf.Contents())
    }

    ghost predicate Finished(buf: Buffer, ok: bool, target: Parsed)
      requires buf.Valid()
      reads this, request, buf, buf.data
    {
      Parsed(ok, state, request.View(), buf.Contents()) == target
    }

    /** In any other state the source's loop never ends. */
    method ParserHttpRequest(buf: Buffer) returns (ok: bool)
      requires buf.Valid() && Parsing(state)
      modifies `state, request, buf`readIndex, buf`writeIndex
      ensures buf.Valid() && Finished(buf, ok, old(Remaining(buf)))
    {
      ghost var target := Remaining(buf);
      while true
        modifies `state, request, buf`readIndex, buf`writeIndex
        invariant buf.Valid() && Parsing(state) && Remaining(buf) == target
        decreases buf.ReadableBytes()
      {
        var crlf := buf.SearchCRLF();
        if crlf == None {
          return false;
        }
        var ended;
        if state == ParserLine {
          ended, ok := LineRound(buf, crlf.value);
        } else {
          ended, ok := HeaderRound(buf, crlf.value);
        }
        if ended {
          return;
        }
      }
    }

    method LineRound(buf: Buffer, crlf: nat) returns (ended: bool, ok: bool)
      requires buf.Valid() && state == ParserLine && FindCRLF(buf.Contents()) == Some(crlf)
      modifies `state, request, buf`readIndex, buf`writeIndex
      ensures buf.Valid()
      ensures ended ==> Finished(buf, ok, old(Remaining(buf)))
      ensures !ended ==> Parsing(state) && Remaining(buf) == old(Remaining(buf)) && buf.ReadableBytes() < old(buf.ReadableBytes())
    {
      ok := TryRequestLine(buf.Peek(crlf), buf.Contents());
      ended := !ok;
      if ok {
        buf.Retrieve(crlf + 2);
        state := ParserHeaders;
      }
    }

    method HeaderRound(buf: Buffer, crlf: nat) returns (ended: bool, ok: bool)
      requires buf.Valid() && state == ParserHeaders && FindCRLF(buf.Contents()) == Some(crlf)
      modifies `state, request, buf`readIndex, buf`writeIndex
      ensures buf.Valid()
      ensures ended ==> Finished(buf, ok, old(Remaining(buf)))
      ensures !ended ==> Parsing(state) && Remaining(buf) == old(Remaining(buf)) && buf.ReadableBytes() < old(buf.ReadableBytes())
    {
      ok := TryHeaderLine(buf.Peek(crlf), buf.Contents());
      buf.Retrieve(crlf + 2);
      ended := ok;
    }

    /** The request line at the front of `s`, and what it means for the whole parse. */
    method TryRequestLine(line: seq<byte>, ghost s: seq<byte>) returns (ok: bool)
      requires FindCRLF(s) == Some(|line|) && line == s[..|line|]
      modifies request
      ensures Parse(ParserLine, old(request.View()), s) ==
        if ok then Parse(ParserHeaders, request.View(), s[|line| + 2..]) else Parsed(false, ParserLine, request.View(), s)
    {
      ghost var req := request.View();
      ok := ParserRequestLine(line);
      ParseRequestLine(req, s, |line|, ok, request.View());
    }

    method TryHeaderLine(line: seq<byte>, ghost s: seq<byte>) returns (done: bool)
      requires FindCRLF(s) == Some(|line|) && line == s[..|line|] && state == ParserHeaders
      modifies `state, request
      ensures state == if done then ParserFinished else ParserHeaders
      ensures Parse(ParserHeaders, old(request.View()), s) ==
        if done then Parsed(true, ParserFinished, request.View(), s[|line| + 2..])
        else Parse(ParserHeaders, request.View(), s[|line| + 2..])
    {
      ghost var req := request.View();
      done := ParserHeaderLine(line);
      ParseHeaderLine(req, s, |line|, done, request.View());
    }

    method ParserRequestLine(line: seq<byte>) returns (ok: bool)
      modifies request
      ensures (ok, request.View()) == ParseLine(old(request.View()), line)
    {
      var first := Find(line, SP);
      if first == |line| {
        return false;
      }
      if !IsMethod(line[..first]) {
        return false;
      }
      ok := ParserTarget(line[first + 1..]);
    }

    /** Path and query are stored before the version is checked. */
    method ParserTarget(tail: seq<byte>) returns (ok: bool)
      modifies request
      ensures (ok, request.View()) == ParseTarget(old(request.View()), tail)
    {
      var second := Find(tail, SP);
      if second == |tail| {
        return false;
      }
      SetTarget(tail[..second]);
      ok := SetVersion(tail[second + 1..]);
    }

    /** The query keeps its question mark; without one the request's old query stays. */
    method SetTarget(target: seq<byte>)
      modifies request`path, request`query
      ensures request.View() == Http.SetTarget(old(request.View()), target)
    {
      var q := Find(target, QUESTION);
      if q != |target| {
        request.path := target[..q];
        request.query := target[q..];
      } else {
        request.path := target;
      }
    }

    method SetVersion(version: seq<byte>) returns (ok: bool)
      modifies request`version
      ensures (ok, request.View()) == Http.SetVersion(old(request.View()), version)
    {
      if !(|version| == 8 && version[..7] == HTTP_1) {
        return false;
      }
      if version[7] == 49 {
        request.version := 0x11;
      } else if version[7] == 48 {
        request.version := 0x10;
      } else {
        return false;
      }
      return true;
    }

    /** True when the line has no colon, which ends the headers. */
    method ParserHeaderLine(line: seq<byte>) returns (done: bool)
      requires state == ParserHeaders
      modifies `state, request
      ensures (done, request.View()) == ParseHeader(old(request.View()), line)
      ensures state == if done then ParserFinished else ParserHeaders
    {
      var colon := Find(line, COLON);
      if colon == |line| {
        state := ParserFinished;
        return true;
      }
      var value := Trim(line, colon + 1);
      request.SetHeader(line[..colon], value);
      done := false;
    }

    /** The value from `from` on, without the space around it. */
    static method Trim(line: seq<byte>, from: nat) returns (value: seq<byte>)
      requires from <= |line|
      ensures value == TrimRight(TrimLeft(line[from..]))
    {
      var it := from;
      while it < |line| && IsSpace(line[it])
        invariant from <= it <= |line|
        invariant TrimLeft(line[from..]) == TrimLeft(line[it..])
      {
        assert line[it..][1..] == line[it + 1..];
        it := it + 1;
      }
      value := line[it..];
      ghost var trimmed := value;
      assert TrimLeft(trimmed) == trimmed;
      while value != [] && IsSpace(value[|value| - 1])
        invariant TrimRight(value) == TrimRight(trimmed)
        decreases |value|
      {
        value := value[..|value| - 1];
      }
    }
  }
}
