/** HTTP requests as values, how one is printed and what the incremental parser makes of
    any bytes. */
module Http {
  import opened Bytes
  import opened Buffers

  const SP: byte := 32
  const COLON: byte := 58
  const QUESTION: byte := 63
  const HASH: byte := 35

  datatype HttpMethod =
    | DELETE | GET | HEAD | POST | PUT | CONNECT | OPTIONS | TRACE
    | COPY | LOCK | MKCOL | MOVE | PROPFIND | PROPPATCH | SEARCH | UNLOCK
    | BIND | REBIND | UNBIND | ACL | REPORT | MKACTIVITY | CHECKOUT | MERGE
    | MSEARCH | NOTIFY | SUBSCRIBE | UNSUBSCRIBE | PATCH | PURGE | MKCALENDAR | LINK
    | UNLINK | SOURCE
    | INVALID_METHOD

  function MethodName(m: HttpMethod): string {
    match m
    case DELETE => "DELETE"
    case GET => "GET"
    case HEAD => "HEAD"
    case POST => "POST"
    case PUT => "PUT"
    case CONNECT => "CONNECT"
    case OPTIONS => "OPTIONS"
    case TRACE => "TRACE"
    case COPY => "COPY"
    case LOCK => "LOCK"
    case MKCOL => "MKCOL"
    case MOVE => "MOVE"
    case PROPFIND => "PROPFIND"
    case PROPPATCH => "PROPPATCH"
    case SEARCH => "SEARCH"
    case UNLOCK => "UNLOCK"
    case BIND => "BIND"
    case REBIND => "REBIND"
    case UNBIND => "UNBIND"
    case ACL => "ACL"
    case REPORT => "REPORT"
    case MKACTIVITY => "MKACTIVITY"
    case CHECKOUT => "CHECKOUT"
    case MERGE => "MERGE"
    case MSEARCH => "MSEARCH"
    case NOTIFY => "NOTIFY"
    case SUBSCRIBE => "SUBSCRIBE"
    case UNSUBSCRIBE => "UNSUBSCRIBE"
    case PATCH => "PATCH"
    case PURGE => "PURGE"
    case MKCALENDAR => "MKCALENDAR"
    case LINK => "LINK"
    case UNLINK => "UNLINK"
    case SOURCE => "SOURCE"
    case INVALID_METHOD => "UNKNOW"
  }

  function Ascii(s: string): (r: seq<byte>)
    ensures |r| == |s|
  {
    seq(|s|, i requires 0 <= i < |s| => (s[i] as int % 256) as byte)
  }

  function Text(s: seq<byte>): string {
    seq(|s|, i requires 0 <= i < |s| => s[i] as char)
  }

  /** The index of the first `b`, or |s|. */
  function Find(s: seq<byte>, b: byte): (n: nat)
    ensures n <= |s| && (n < |s| ==> s[n] == b)
    ensures forall j :: 0 <= j < n ==> s[j] != b
  {
    if s == [] || s[0] == b then 0 else 1 + Find(s[1..], b)
  }

  lemma {:induction false} FindJoined(a: seq<byte>, b: byte, rest: seq<byte>)
    requires b !in a
    ensures Find(a + [b] + rest, b) == |a|
  {
    var s := a + [b] + rest;
    assert s[|a|] == b;
    assert forall j :: 0 <= j < |a| ==> s[j] == a[j];
  }

  /** What the C string functions see of a std::string. */
  function CString(s: seq<byte>): seq<byte> {
    s[..Find(s, 0)]
  }

  function Lower(s: seq<byte>): seq<byte> {
    seq(|s|, i requires 0 <= i < |s| => if 65 <= s[i] <= 90 then s[i] + 32 else s[i])
  }

  /** Two names are the same key of a header map when these agree. */
  function Canon(name: seq<byte>): seq<byte> {
    Lower(CString(name))
  }

  datatype Header = Header(name: seq<byte>, value: seq<byte>)
  type Headers = map<seq<byte>, Header>

  /** Assignment through operator[]: a key already present keeps its spelling. */
  function SetHeader(h: Headers, name: seq<byte>, value: seq<byte>): Headers {
    var k := Canon(name);
    h[k := Header(if k in h then h[k].name else name, value)]
  }

  datatype Request = Request(
    httpMethod: HttpMethod, version: nat, path: seq<byte>, query: seq<byte>, fragment: seq<byte>,
    body: seq<byte>, close: bool, websocket: bool, headers: Headers)

  const DEFAULT: Request := Request(GET, 0x11, [47], [], [], [], true, false, map[])

  // ---- parsing ------------------------------------------------------------

  datatype ParserState = ParserLine | ParserHeaders | ParserBody | ParserFinished

  /** Whether StringToHttpMethod, which compares C strings, finds a method. */
  predicate IsMethod(s: seq<byte>) {
    exists m :: m != INVALID_METHOD && MethodName(m) == Text(CString(s))
  }

  const HTTP_1: seq<byte> := [72, 84, 84, 80, 47, 49, 46]

  /** The request line. The method is checked and not stored, and the path and query are
      stored before the version is checked. */
  function ParseLine(req: Request, line: seq<byte>): (bool, Request) {
    var first := Find(line, SP);
    if first == |line| || !IsMethod(line[..first]) then (false, req)
    else ParseTarget(req, line[first + 1..])
  }

  function ParseTarget(req: Request, tail: seq<byte>): (bool, Request) {
    var second := Find(tail, SP);
    if second == |tail| then (false, req)
    else SetVersion(SetTarget(req, tail[..second]), tail[second + 1..])
  }

  function SetVersion(req: Request, version: seq<byte>): (bool, Request) {
    if |version| == 8 && version[..7] == HTTP_1 && version[7] == 49 then (true, req.(version := 0x11))
    else if |version| == 8 && version[..7] == HTTP_1 && version[7] == 48 then (true, req.(version := 0x10))
    else (false, req)
  }

  /** A query keeps its question mark; without one the old query stays. */
  function SetTarget(req: Request, target: seq<byte>): Request {
    var q := Find(target, QUESTION);
    if q < |target| then req.(path := target[..q], query := target[q..]) else req.(path := target)
  }

  predicate IsSpace(b: byte) {
    b == 32 || 9 <= b <= 13
  }

  function TrimLeft(s: seq<byte>): seq<byte> {
    if s != [] && IsSpace(s[0]) then TrimLeft(s[1..]) else s
  }

  function TrimRight(s: seq<byte>): seq<byte> {
    if s != [] && IsSpace(s[|s| - 1]) then TrimRight(s[..|s| - 1]) else s
  }

  /** A header line; a line without a colon ends the headers. */
  function ParseHeader(req: Request, line: seq<byte>): (bool, Request) {
    var c := Find(line, COLON);
    if c == |line| then (true, req)
    else (false, req.(headers := SetHeader(req.headers, line[..c], TrimRight(TrimLeft(line[c + 1..])))))
  }

  datatype Parsed = Parsed(ok: bool, state: ParserState, req: Request, rest: seq<byte>)

  predicate Parsing(st: ParserState) {
    st == ParserLine || st == ParserHeaders
  }

  /** What one line does: the parser goes on to the headers, is done, or refuses the line. */
  datatype LineStep = More(req: Request) | Done(req: Request) | Refused(req: Request)

  function TakeLine(st: ParserState, req: Request, line: seq<byte>): LineStep
    requires Parsing(st)
  {
    if st == ParserLine then
      var (ok, req') := ParseLine(req, line);
      if ok then More(req') else Refused(req')
    else
      var (done, req') := ParseHeader(req, line);
      if done then Done(req') else More(req')
  }

  /** One call of the parser on the bytes of the buffer. Every round but the last drops a
      line; a refused request line stays in the buffer. */
  function Parse(st: ParserState, req: Request, s: seq<byte>): (p: Parsed)
    requires Parsing(st)
    ensures p.ok <==> p.state == ParserFinished
    ensures !p.ok ==> Parsing(p.state)
    decreases |s|
  {
    match FindCRLF(s)
    case None => Parsed(false, st, req, s)
    case Some(i) =>
      match TakeLine(st, req, s[..i])
      case More(req') => Parse(ParserHeaders, req', s[i + 2..])
      case Done(req') => Parsed(true, ParserFinished, req', s[i + 2..])
      case Refused(req') => Parsed(false, st, req', s)
  }

  // ---- split invariance ---------------------------------------------------

  lemma {:induction false} FirstCRLF(s: seq<byte>, i: nat)
    requires CRLFAt(s, i) && forall j :: 0 <= j < i ==> !CRLFAt(s, j)
    ensures FindCRLF(s) == Some(i)
  {
    var r := FindCRLF(s);
    assert r.Some? && CRLFAt(s, r.value);
  }

  lemma {:induction false} CRLFSurvives(a: seq<byte>, b: seq<byte>)
    requires FindCRLF(a).Some?
    ensures FindCRLF(a + b) == FindCRLF(a)
  {
    var i := FindCRLF(a).value;
    forall j | 0 <= j < i
      ensures !CRLFAt(a + b, j)
    {
      assert !CRLFAt(a, j);
    }
    FirstCRLF(a + b, i);
  }

  /** More bytes behind the first line do not change what the first line is. */
  lemma {:induction false} FirstLineStays(a: seq<byte>, b: seq<byte>)
    requires FindCRLF(a).Some?
    ensures var i := FindCRLF(a).value;
      FindCRLF(a + b) == Some(i) && (a + b)[..i] == a[..i] && (a + b)[i + 2..] == a[i + 2..] + b
  {
    CRLFSurvives(a, b);
  }

  /** Taking a refused line again changes nothing. */
  lemma {:induction false} RefusedAgain(st: ParserState, req: Request, line: seq<byte>)
    requires Parsing(st) && TakeLine(st, req, line).Refused?
    ensures TakeLine(st, TakeLine(st, req, line).req, line) == TakeLine(st, req, line)
  {
  }

  lemma {:induction false} ParseFirst(st: ParserState, req: Request, s: seq<byte>, i: nat)
    requires Parsing(st) && FindCRLF(s) == Some(i)
    ensures Parse(st, req, s) ==
      match TakeLine(st, req, s[..i])
      case More(req') => Parse(ParserHeaders, req', s[i + 2..])
      case Done(req') => Parsed(true, ParserFinished, req', s[i + 2..])
      case Refused(req') => Parsed(false, st, req', s)
  {
  }

  lemma {:induction false} ParseRequestLine(req: Request, s: seq<byte>, i: nat, ok: bool, req': Request)
    requires FindCRLF(s) == Some(i) && ParseLine(req, s[..i]) == (ok, req')
    ensures Parse(ParserLine, req, s) ==
      if ok then Parse(ParserHeaders, req', s[i + 2..]) else Parsed(false, ParserLine, req', s)
  {
  }

  lemma {:induction false} ParseHeaderLine(req: Request, s: seq<byte>, i: nat, done: bool, req': Request)
    requires FindCRLF(s) == Some(i) && ParseHeader(req, s[..i]) == (done, req')
    ensures Parse(ParserHeaders, req, s) ==
      if done then Parsed(true, ParserFinished, req', s[i + 2..]) else Parse(ParserHeaders, req', s[i + 2..])
  {
  }

  /** Bytes that arrive later do not change what a finished parse found. */
  lemma {:induction false} FinishedParse(st: ParserState, req: Request, a: seq<byte>, b: seq<byte>)
    requires Parsing(st) && Parse(st, req, a).ok
    ensures Parse(st, req, a + b) == Parse(st, req, a).(rest := Parse(st, req, a).rest + b)
    decreases |a|
  {
    FirstLineStays(a, b);
    var i := FindCRLF(a).value;
    ParseFirst(st, req, a, i);
    ParseFirst(st, req, a + b, i);
    var step := TakeLine(st, req, a[..i]);
    if step.More? {
      FinishedParse(ParserHeaders, step.req, a[i + 2..], b);
    }
  }

  /** A call that returns false can be resumed: with more bytes appended to what it left,
      the next call does what one call on all the bytes does. */
  lemma {:induction false} SplitInvariance(st: ParserState, req: Request, a: seq<byte>, b: seq<byte>)
    requires Parsing(st) && !Parse(st, req, a).ok
    ensures var p := Parse(st, req, a); Parse(p.state, p.req, p.rest + b) == Parse(st, req, a + b)
    decreases |a|
  {
    if FindCRLF(a).Some? {
      FirstLineStays(a, b);
      var i := FindCRLF(a).value;
      ParseFirst(st, req, a, i);
      ParseFirst(st, req, a + b, i);
      var step := TakeLine(st, req, a[..i]);
      if step.More? {
        SplitInvariance(ParserHeaders, step.req, a[i + 2..], b);
      } else {
        RefusedAgain(st, req, a[..i]);
        ParseFirst(st, step.req, a + b, i);
      }
    }
  }

  /** The parser called each time a piece has been appended to the buffer, until it succeeds. */
  function Feed(st: ParserState, req: Request, left: seq<byte>, pieces: seq<seq<byte>>): Parsed
    requires Parsing(st)
    decreases |pieces|
  {
    if pieces == [] then Parsed(false, st, req, left)
    else
      var p := Parse(st, req, left + pieces[0]);
      if p.ok then p.(rest := p.rest + Concat(pieces[1..]))
      else Feed(p.state, p.req, p.rest, pieces[1..])
  }

  /** However the bytes are cut into pieces, the outcome is that of parsing them at once. */
  lemma {:induction false} AnyPieces(st: ParserState, req: Request, left: seq<byte>, pieces: seq<seq<byte>>)
    requires Parsing(st) && Parse(st, req, left) == Parsed(false, st, req, left)
    ensures Feed(st, req, left, pieces) == Parse(st, req, left + Concat(pieces))
    decreases |pieces|
  {
    if pieces == [] {
      assert left + Concat(pieces) == left;
    } else {
      var a, more := left + pieces[0], Concat(pieces[1..]);
      AppendAssoc(left, pieces[0], more);
      var p := Parse(st, req, a);
      if p.ok {
        FinishedParse(st, req, a, more);
      } else {
        SplitInvariance(st, req, a, more);
        SplitInvariance(st, req, a, []);
        assert p.rest + [] == p.rest && a + [] == a;
        AnyPieces(p.state, p.req, p.rest, pieces[1..]);
      }
    }
  }

  lemma {:induction false} AnyPiecesFromEmpty(st: ParserState, req: Request, pieces: seq<seq<byte>>)
    requires Parsing(st)
    ensures Feed(st, req, [], pieces) == Parse(st, req, Concat(pieces))
  {
    AnyPieces(st, req, [], pieces);
    assert [] + Concat(pieces) == Concat(pieces);
  }
}
