/** What HttpRequest::dump prints, and that the parser reads it back. */
module HttpRoundTrip {
  import opened Bytes
  import opened Buffers
  import opened Http

  const CRLF: seq<byte> := [CR, LF]
  const CONNECTION: seq<byte> := [67, 111, 110, 110, 101, 99, 116, 105, 111, 110]
  const CONNECTION_KEY: seq<byte> := Lower(CONNECTION)
  const CLOSE: seq<byte> := [99, 108, 111, 115, 101]
  const KEEP_ALIVE: seq<byte> := [107, 101, 101, 112, 45, 97, 108, 105, 118, 101]
  const CONTENT_LENGTH: seq<byte> := [99, 111, 110, 116, 101, 110, 116, 45, 108, 101, 110, 103, 116, 104]

  function Digit(n: nat): byte {
    (48 + n % 10) as byte
  }

  function Decimal(n: nat): seq<byte> {
    if n < 10 then [Digit(n)] else Decimal(n / 10) + [Digit(n)]
  }

  function Line(name: seq<byte>, value: seq<byte>): seq<byte> {
    name + [COLON] + ([SP] + value) + CRLF
  }

  function Target(req: Request): seq<byte> {
    req.path
    + (if req.query == [] then [] else [QUESTION] + req.query)
    + FragmentText(req)
  }

  function VersionText(version: nat): seq<byte> {
    [72, 84, 84, 80, 47] + Decimal(version / 16) + [46] + Decimal(version % 16)
  }

  function RequestLine(req: Request): seq<byte> {
    Ascii(MethodName(req.httpMethod)) + [SP] + (Target(req) + [SP] + VersionText(req.version))
  }

  function ConnectionValue(req: Request): seq<byte> {
    if req.close then CLOSE else KEEP_ALIVE
  }

  /** The header lines in the order the map is walked; the stored Connection header is left
      out unless the request is a websocket one. */
  function HeaderLines(websocket: bool, headers: Headers, order: seq<seq<byte>>): seq<byte>
    requires forall i :: 0 <= i < |order| ==> order[i] in headers
  {
    if order == [] then []
    else
      var k := order[0];
      (if !websocket && k == CONNECTION_KEY then [] else Line(headers[k].name, headers[k].value))
      + HeaderLines(websocket, headers, order[1..])
  }

  /** `order` lists each key of the map once. The source walks the map in strcasecmp order;
      nothing below depends on which order it is. */
  ghost predicate Enumerates(order: seq<seq<byte>>, headers: Headers) {
    && (forall i, j :: 0 <= i < j < |order| ==> order[i] != order[j])
    && (forall k :: k in order <==> k in headers)
  }

  function Dump(req: Request, order: seq<seq<byte>>): seq<byte>
    requires forall i :: 0 <= i < |order| ==> order[i] in req.headers
  {
    RequestLine(req) + CRLF + ConnectionLine(req) + HeaderLines(req.websocket, req.headers, order) + Tail(req)
  }

  function ConnectionLine(req: Request): seq<byte> {
    if req.websocket then [] else Line(CONNECTION, ConnectionValue(req))
  }

  // ---- what may be printed ------------------------------------------------

  ghost predicate NoCRLF(s: seq<byte>) {
    forall i :: 0 <= i ==> !CRLFAt(s, i)
  }

  predicate Trimmed(s: seq<byte>) {
    s != [] ==> !IsSpace(s[0]) && !IsSpace(s[|s| - 1])
  }

  ghost predicate NameOk(name: seq<byte>) {
    COLON !in name && NoCRLF(name)
  }

  ghost predicate ValueOk(value: seq<byte>) {
    Trimmed(value) && NoCRLF(value)
  }

  ghost predicate HeadersOk(h: Headers) {
    forall k :: k in h ==> Canon(h[k].name) == k && NameOk(h[k].name) && ValueOk(h[k].value)
  }

  ghost predicate Printable(req: Request) {
    && req.httpMethod != INVALID_METHOD
    && (req.version == 0x10 || req.version == 0x11)
    && NoCRLF(req.path) && SP !in req.path && QUESTION !in req.path
    && NoCRLF(req.query) && SP !in req.query
    && NoCRLF(req.fragment) && SP !in req.fragment && (req.query == [] ==> QUESTION !in req.fragment)
    && HeadersOk(req.headers)
  }

  /** What the parser makes of the printed request: a fragment is read as part of the path
      or of the query, and the headers are the printed ones. */
  function ReadBack(req: Request): Request {
    var printed := PrintedHeaders(req);
    var fragment := FragmentText(req);
    DEFAULT.(
      version := req.version,
      path := if req.query == [] then req.path + fragment else req.path,
      query := if req.query == [] then [] else [QUESTION] + req.query + fragment,
      headers := if req.body == [] then printed else SetHeader(printed, CONTENT_LENGTH, Decimal(|req.body|)))
  }

  function PrintedHeaders(req: Request): Headers {
    if req.websocket then req.headers
    else req.headers[CONNECTION_KEY := Header(CONNECTION, ConnectionValue(req))]
  }

  // ---- lines --------------------------------------------------------------

  lemma {:induction false} NoCRLFJoin(a: seq<byte>, sep: byte, b: seq<byte>)
    requires NoCRLF(a) && NoCRLF(b) && sep != CR && sep != LF
    ensures NoCRLF(a + [sep] + b)
  {
    var s := a + [sep] + b;
    forall i | 0 <= i
      ensures !CRLFAt(s, i)
    {
      if i + 1 < |a| {
        assert !CRLFAt(a, i);
      } else if |a| < i && i + 1 < |s| {
        assert !CRLFAt(b, i - |a| - 1);
      }
    }
  }

  lemma {:induction false} LineFound(line: seq<byte>, rest: seq<byte>)
    requires NoCRLF(line)
    ensures var s := line + CRLF + rest;
      FindCRLF(s) == Some(|line|) && s[..|line|] == line && s[|line| + 2..] == rest
  {
    var s := line + CRLF + rest;
    forall j | 0 <= j < |line|
      ensures !CRLFAt(s, j)
    {
      assert !CRLFAt(line, j);
    }
    FirstCRLF(s, |line|);
  }

  lemma {:induction false} NotTrimmedAway(value: seq<byte>)
    requires Trimmed(value)
    ensures TrimRight(TrimLeft([SP] + value)) == value
  {
    assert ([SP] + value)[1..] == value;
    assert TrimLeft([SP] + value) == TrimLeft(value) == value;
  }

  /** One printed header line is parsed to one assignment to the header map. */
  lemma {:induction false} HeaderLineParses(req: Request, name: seq<byte>, value: seq<byte>, rest: seq<byte>)
    requires NameOk(name) && ValueOk(value)
    ensures Parse(ParserHeaders, req, Line(name, value) + rest) ==
      Parse(ParserHeaders, req.(headers := SetHeader(req.headers, name, value)), rest)
  {
    var line := name + [COLON] + ([SP] + value);
    NoCRLFJoin([], SP, value);
    assert [] + [SP] + value == [SP] + value;
    NoCRLFJoin(name, COLON, [SP] + value);
    LineFound(line, rest);
    FindJoined(name, COLON, [SP] + value);
    CutAt(name, COLON, [SP] + value);
    NotTrimmedAway(value);
  }

  /** The header map after the printed lines have been read into `base`. */
  function Assigned(base: Headers, websocket: bool, headers: Headers, order: seq<seq<byte>>): Headers
    requires forall i :: 0 <= i < |order| ==> order[i] in headers
    decreases |order|
  {
    if order == [] then base
    else
      var k := order[0];
      var base' := if !websocket && k == CONNECTION_KEY then base else SetHeader(base, headers[k].name, headers[k].value);
      Assigned(base', websocket, headers, order[1..])
  }

  lemma {:induction false} HeaderLinesParse(req: Request, websocket: bool, headers: Headers, order: seq<seq<byte>>, rest: seq<byte>)
    requires HeadersOk(headers) && forall i :: 0 <= i < |order| ==> order[i] in headers
    ensures Parse(ParserHeaders, req, HeaderLines(websocket, headers, order) + rest) ==
      Parse(ParserHeaders, req.(headers := Assigned(req.headers, websocket, headers, order)), rest)
    decreases |order|
  {
    if order == [] {
      assert [] + rest == rest && req.(headers := req.headers) == req;
    } else {
      var k, lines := order[0], HeaderLines(websocket, headers, order[1..]);
      if !websocket && k == CONNECTION_KEY {
        assert [] + lines == lines;
        HeaderLinesParse(req, websocket, headers, order[1..], rest);
      } else {
        var h := headers[k];
        FirstHeaderParses(req, h.name, h.value, lines, rest);
        HeaderLinesParse(req.(headers := SetHeader(req.headers, h.name, h.value)), websocket, headers, order[1..], rest);
      }
    }
  }

  lemma {:induction false} FirstHeaderParses(req: Request, name: seq<byte>, value: seq<byte>, lines: seq<byte>, rest: seq<byte>)
    requires NameOk(name) && ValueOk(value)
    ensures Parse(ParserHeaders, req, Line(name, value) + lines + rest) ==
      Parse(ParserHeaders, req.(headers := SetHeader(req.headers, name, value)), lines + rest)
  {
    AppendAssoc(Line(name, value), lines, rest);
    HeaderLineParses(req, name, value, lines + rest);
  }

  /** The printed part of a header map, as far as `order` goes. */
  ghost function Printed(websocket: bool, headers: Headers, order: seq<seq<byte>>): Headers {
    map k | k in headers && k in order && (websocket || k != CONNECTION_KEY) :: headers[k]
  }

  lemma {:induction false} PrintedStep(websocket: bool, headers: Headers, order: seq<seq<byte>>)
    requires order != [] && order[0] in headers
    ensures var k, tail := order[0], order[1..];
      Printed(websocket, headers, order) ==
      if !websocket && k == CONNECTION_KEY then Printed(websocket, headers, tail)
      else Printed(websocket, headers, tail)[k := headers[k]]
  {
    var k, tail := order[0], order[1..];
    assert forall x :: x in order <==> x == k || x in tail;
  }

  lemma {:induction false} OverlayStep(base: Headers, k: seq<byte>, h: Header, more: Headers)
    requires k !in more || more[k] == h
    ensures base[k := h] + more == base + more[k := h]
  {
  }

  /** Whatever the order, assigning each header once over `base` overlays the map on it. */
  lemma {:induction false} AssignedIsOverlay(base: Headers, websocket: bool, headers: Headers, order: seq<seq<byte>>)
    requires HeadersOk(headers) && forall i :: 0 <= i < |order| ==> order[i] in headers
    requires forall i, j :: 0 <= i < j < |order| ==> order[i] != order[j]
    requires forall i :: 0 <= i < |order| && (websocket || order[i] != CONNECTION_KEY) ==> order[i] !in base
    ensures Assigned(base, websocket, headers, order) == base + Printed(websocket, headers, order)
    decreases |order|
  {
    if order == [] {
      assert base + Printed(websocket, headers, order) == base;
    } else {
      var k, tail := order[0], order[1..];
      PrintedStep(websocket, headers, order);
      if !websocket && k == CONNECTION_KEY {
        AssignedIsOverlay(base, websocket, headers, tail);
      } else {
        var h := headers[k];
        assert SetHeader(base, h.name, h.value) == base[k := h];
        AssignedIsOverlay(base[k := h], websocket, headers, tail);
        OverlayStep(base, k, h, Printed(websocket, headers, tail));
      }
    }
  }

  ghost function Base(websocket: bool, connection: seq<byte>): Headers {
    if websocket then map[] else map[CONNECTION_KEY := Header(CONNECTION, connection)]
  }

  lemma {:induction false} PrintedHeadersAssigned(req: Request, order: seq<seq<byte>>)
    requires HeadersOk(req.headers) && Enumerates(order, req.headers)
    ensures Assigned(Base(req.websocket, ConnectionValue(req)), req.websocket, req.headers, order) == PrintedHeaders(req)
  {
    AssignedIsOverlay(Base(req.websocket, ConnectionValue(req)), req.websocket, req.headers, order);
    AllPrinted(req.websocket, req.headers, order, ConnectionValue(req));
  }

  lemma {:induction false} AllPrinted(websocket: bool, headers: Headers, order: seq<seq<byte>>, connection: seq<byte>)
    requires Enumerates(order, headers)
    ensures Base(websocket, connection) + Printed(websocket, headers, order) ==
      if websocket then headers else headers[CONNECTION_KEY := Header(CONNECTION, connection)]
  {
    if websocket {
      assert Printed(websocket, headers, order) == headers;
    } else {
      assert Printed(websocket, headers, order).Keys == headers.Keys - {CONNECTION_KEY};
    }
  }

  // ---- request line -------------------------------------------------------

  lemma {:induction false} VersionTexts()
    ensures VersionText(0x10) == HTTP_1 + [48] && VersionText(0x11) == HTTP_1 + [49]
    ensures NoCRLF(VersionText(0x10)) && NoCRLF(VersionText(0x11))
  {
  }

  function FragmentText(req: Request): seq<byte> {
    if req.fragment == [] then [] else [HASH] + req.fragment
  }

  lemma {:induction false} FragmentJoins(a: seq<byte>, fragment: seq<byte>)
    requires NoCRLF(a) && NoCRLF(fragment)
    ensures NoCRLF(a + (if fragment == [] then [] else [HASH] + fragment))
  {
    if fragment == [] {
      assert a + [] == a;
    } else {
      NoCRLFJoin(a, HASH, fragment);
      assert a + ([HASH] + fragment) == a + [HASH] + fragment;
    }
  }

  lemma {:induction false} TargetOk(req: Request)
    requires Printable(req)
    ensures NoCRLF(Target(req)) && SP !in Target(req)
    ensures SetTarget(DEFAULT, Target(req)) == DEFAULT.(path := ReadBack(req).path, query := ReadBack(req).query)
  {
    var fragment := FragmentText(req);
    FragmentJoins(req.path, req.fragment);
    FragmentJoins(req.query, req.fragment);
    if req.query == [] {
      assert Target(req) == req.path + fragment;
      NoQuestion(req.path + fragment);
    } else {
      var query := req.query + fragment;
      assert Target(req) == req.path + [QUESTION] + query;
      NoCRLFJoin(req.path, QUESTION, query);
      SplitTarget(req.path, query);
      AppendAssoc([QUESTION], req.query, fragment);
    }
  }

  lemma {:induction false} NoQuestion(target: seq<byte>)
    requires QUESTION !in target
    ensures SetTarget(DEFAULT, target) == DEFAULT.(path := target)
  {
  }

  lemma {:induction false} SplitTarget(path: seq<byte>, query: seq<byte>)
    requires QUESTION !in path
    ensures SetTarget(DEFAULT, path + [QUESTION] + query) == DEFAULT.(path := path, query := [QUESTION] + query)
  {
    FindJoined(path, QUESTION, query);
    var target := path + [QUESTION] + query;
    assert target[..|path|] == path && target[|path|..] == [QUESTION] + query;
  }

  lemma {:induction false} LineParses(name: seq<byte>, target: seq<byte>, minor: byte)
    requires SP !in name && IsMethod(name) && SP !in target && (minor == 48 || minor == 49)
    ensures ParseLine(DEFAULT, name + [SP] + (target + [SP] + (HTTP_1 + [minor]))) ==
      (true, SetTarget(DEFAULT, target).(version := if minor == 49 then 0x11 else 0x10))
  {
    var version := HTTP_1 + [minor];
    var tail := target + [SP] + version;
    var line := name + [SP] + tail;
    FindJoined(name, SP, tail);
    CutAt(name, SP, tail);
    FindJoined(target, SP, version);
    CutAt(target, SP, version);
    assert version[..7] == HTTP_1;
  }

  lemma {:induction false} RequestLineParses(req: Request)
    requires Printable(req)
    ensures NoCRLF(RequestLine(req))
    ensures ParseLine(DEFAULT, RequestLine(req)) ==
      (true, DEFAULT.(path := ReadBack(req).path, query := ReadBack(req).query, version := req.version))
  {
    var name := Ascii(MethodName(req.httpMethod));
    var target, version := Target(req), VersionText(req.version);
    assert RequestLine(req) == name + [SP] + (target + [SP] + version);
    TargetOk(req);
    VersionTexts();
    NameIsMethod(req.httpMethod);
    NoCRLFJoin(target, SP, version);
    NoCRLFJoin(name, SP, target + [SP] + version);
    LineParses(name, target, if req.version == 0x11 then 49 else 48);
  }

  predicate Upper(s: string) {
    forall i :: 0 <= i < |s| ==> 'A' <= s[i] <= 'Z'
  }

  predicate WebDav(m: HttpMethod) {
    || m.COPY? || m.LOCK? || m.MKCOL? || m.MOVE? || m.PROPFIND? || m.PROPPATCH? || m.SEARCH? || m.UNLOCK?
    || m.BIND? || m.REBIND? || m.UNBIND? || m.ACL?
  }

  predicate Extension(m: HttpMethod) {
    || m.REPORT? || m.MKACTIVITY? || m.CHECKOUT? || m.MERGE? || m.MSEARCH? || m.NOTIFY? || m.SUBSCRIBE?
    || m.UNSUBSCRIBE? || m.PATCH? || m.PURGE? || m.MKCALENDAR? || m.LINK? || m.UNLINK? || m.SOURCE?
  }

  lemma {:induction false} MethodNamesAreUpper(m: HttpMethod)
    ensures Upper(MethodName(m))
  {
    if WebDav(m) {
      WebDavNamesAreUpper(m);
    } else if Extension(m) {
      ExtensionNamesAreUpper(m);
    } else {
      OtherNamesAreUpper(m);
    }
  }

  lemma {:induction false} WebDavNamesAreUpper(m: HttpMethod)
    requires WebDav(m)
    ensures Upper(MethodName(m))
  {
  }

  lemma {:induction false} ExtensionNamesAreUpper(m: HttpMethod)
    requires Extension(m)
    ensures Upper(MethodName(m))
  {
  }

  lemma {:induction false} OtherNamesAreUpper(m: HttpMethod)
    requires !WebDav(m) && !Extension(m)
    ensures Upper(MethodName(m))
  {
  }

  lemma {:induction false} NameIsMethod(m: HttpMethod)
    requires m != INVALID_METHOD
    ensures var name := Ascii(MethodName(m)); IsMethod(name) && SP !in name && NoCRLF(name)
  {
    MethodNamesAreUpper(m);
    UpperIsPlain(MethodName(m));
  }

  lemma {:induction false} UpperIsPlain(s: string)
    requires Upper(s)
    ensures Text(CString(Ascii(s))) == s && SP !in Ascii(s) && NoCRLF(Ascii(s))
  {
    NoZeroIsCString(Ascii(s));
  }

  lemma {:induction false} DecimalOk(n: nat)
    ensures Decimal(n) != [] && ValueOk(Decimal(n))
    ensures forall i :: 0 <= i < |Decimal(n)| ==> 48 <= Decimal(n)[i] <= 57
  {
    if n >= 10 {
      DecimalOk(n / 10);
    }
  }

  lemma {:induction false} ConnectionName()
    ensures NameOk(CONNECTION) && Canon(CONNECTION) == CONNECTION_KEY
  {
    ConnectionHasNoZero();
    assert CString(CONNECTION) == CONNECTION by { NoZeroIsCString(CONNECTION); }
  }

  lemma {:induction false} ConnectionHasNoZero()
    ensures 0 !in CONNECTION && NameOk(CONNECTION)
  {
  }

  lemma {:induction false} FixedTexts()
    ensures NameOk(CONTENT_LENGTH) && ValueOk(CLOSE) && ValueOk(KEEP_ALIVE)
  {
  }

  lemma {:induction false} NoZeroIsCString(s: seq<byte>)
    requires 0 !in s
    ensures CString(s) == s
  {
  }

  // ---- the round trip -----------------------------------------------------

  /** The blank line ends the headers, with or without a length line before it. */
  lemma {:induction false} BlankLineEnds(r: Request, body: seq<byte>)
    ensures Parse(ParserHeaders, r, CRLF + body) == Parsed(true, ParserFinished, r, body)
  {
    LineFound([], body);
    assert [] + CRLF + body == CRLF + body;
  }

  function Tail(req: Request): seq<byte> {
    if req.body == [] then CRLF else Line(CONTENT_LENGTH, Decimal(|req.body|)) + CRLF + req.body
  }

  lemma {:induction false} LengthThenBody(r: Request, digits: seq<byte>, body: seq<byte>)
    requires ValueOk(digits)
    ensures Parse(ParserHeaders, r, Line(CONTENT_LENGTH, digits) + CRLF + body) ==
      Parsed(true, ParserFinished, r.(headers := SetHeader(r.headers, CONTENT_LENGTH, digits)), body)
  {
    FixedTexts();
    HeaderLineParses(r, CONTENT_LENGTH, digits, CRLF + body);
    BlankLineEnds(r.(headers := SetHeader(r.headers, CONTENT_LENGTH, digits)), body);
    AppendAssoc(Line(CONTENT_LENGTH, digits), CRLF, body);
  }

  lemma {:induction false} TailParses(r: Request, req: Request)
    ensures Parse(ParserHeaders, r, Tail(req)) == Parsed(true, ParserFinished,
      if req.body == [] then r else r.(headers := SetHeader(r.headers, CONTENT_LENGTH, Decimal(|req.body|))), req.body)
  {
    if req.body == [] {
      BlankLineEnds(r, []);
      assert CRLF + [] == CRLF;
    } else {
      DecimalOk(|req.body|);
      LengthThenBody(r, Decimal(|req.body|), req.body);
    }
  }

  lemma {:induction false} ConnectionParses(r: Request, req: Request, rest: seq<byte>)
    requires r.headers == map[]
    ensures Parse(ParserHeaders, r, ConnectionLine(req) + rest) ==
      Parse(ParserHeaders, r.(headers := Base(req.websocket, ConnectionValue(req))), rest)
  {
    var value := ConnectionValue(req);
    if req.websocket {
      assert [] + rest == rest && r.(headers := map[]) == r;
    } else {
      FixedTexts();
      assert NameOk(CONNECTION) && SetHeader(map[], CONNECTION, value) == Base(false, value) by { ConnectionName(); }
      HeaderLineParses(r, CONNECTION, value, rest);
    }
  }

  lemma {:induction false} HeadersParse(r: Request, req: Request, order: seq<seq<byte>>)
    requires Printable(req) && Enumerates(order, req.headers) && r.headers == map[]
    ensures var h := PrintedHeaders(req);
      Parse(ParserHeaders, r, ConnectionLine(req) + (HeaderLines(req.websocket, req.headers, order) + Tail(req))) ==
      Parsed(true, ParserFinished, r.(headers := if req.body == [] then h else SetHeader(h, CONTENT_LENGTH, Decimal(|req.body|))), req.body)
  {
    var base := Base(req.websocket, ConnectionValue(req));
    ConnectionParses(r, req, HeaderLines(req.websocket, req.headers, order) + Tail(req));
    HeaderLinesParse(r.(headers := base), req.websocket, req.headers, order, Tail(req));
    PrintedHeadersAssigned(req, order);
    TailParses(r.(headers := PrintedHeaders(req)), req);
  }

  /** A fresh parser given a printed request finishes, has the request that was printed
      (see ReadBack: except for the method, which is GET whatever was printed), and leaves
      exactly the body in the buffer. */
  lemma {:induction false} PrintThenParse(req: Request, order: seq<seq<byte>>)
    requires Printable(req) && Enumerates(order, req.headers)
    ensures Parse(ParserLine, DEFAULT, Dump(req, order)) == Parsed(true, ParserFinished, ReadBack(req), req.body)
  {
    var r := DEFAULT.(path := ReadBack(req).path, query := ReadBack(req).query, version := req.version);
    var rest := ConnectionLine(req) + (HeaderLines(req.websocket, req.headers, order) + Tail(req));
    assert Dump(req, order) == RequestLine(req) + CRLF + rest by {
      Reassociate(RequestLine(req) + CRLF, ConnectionLine(req), HeaderLines(req.websocket, req.headers, order), Tail(req));
    }
    assert NoCRLF(RequestLine(req)) && ParseLine(DEFAULT, RequestLine(req)) == (true, r) by { RequestLineParses(req); }
    FirstLineParses(RequestLine(req), r, rest);
    HeadersParse(r, req, order);
  }

  /** Method, path, query and fragment come back as they were exactly when the method is GET and
      there is neither query nor fragment. */
  lemma {:induction false} TargetComesBack(req: Request, order: seq<seq<byte>>)
    requires Printable(req) && Enumerates(order, req.headers)
    ensures var back := Parse(ParserLine, DEFAULT, Dump(req, order)).req;
      back.httpMethod == req.httpMethod && back.path == req.path && back.query == req.query && back.fragment == req.fragment
      <==> req.httpMethod == GET && req.query == [] && req.fragment == []
  {
    PrintThenParse(req, order);
    if req.query != [] {
      assert |ReadBack(req).query| > |req.query|;
    } else if req.fragment == [] {
      assert req.path + [] == req.path;
    }
  }

  lemma {:induction false} QueryComesBackMarked(req: Request, order: seq<seq<byte>>, query: seq<byte>)
    requires Printable(req) && Enumerates(order, req.headers)
    requires req.query != [] && query == [QUESTION] + req.query + FragmentText(req)
    ensures var back := Parse(ParserLine, DEFAULT, Dump(req, order)).req;
      back.httpMethod == GET && back.path == req.path && back.query == query && back.fragment == []
  {
    PrintThenParse(req, order);
  }

  /** For example POST /a?b#c. */
  lemma {:induction false} APostComesBackAsGet(req: Request)
    requires req == DEFAULT.(httpMethod := POST, path := [47, 97], query := [98], fragment := [99])
    ensures Printable(req)
    ensures var back := Parse(ParserLine, DEFAULT, Dump(req, [])).req;
      back.httpMethod == GET && back.path == [47, 97] && back.query == [63, 98, 35, 99] && back.fragment == []
  {
    ExampleIsPrintable(req);
    QueryComesBackMarked(req, [], [63, 98, 35, 99]);
  }

  lemma {:induction false} ExampleIsPrintable(req: Request)
    requires req == DEFAULT.(httpMethod := POST, path := [47, 97], query := [98], fragment := [99])
    ensures Printable(req) && Enumerates([], req.headers) && req.path == [47, 97] && req.query != []
    ensures [63, 98, 35, 99] == [QUESTION] + req.query + FragmentText(req)
  {
  }

  lemma {:induction false} Reassociate(a: seq<byte>, b: seq<byte>, c: seq<byte>, d: seq<byte>)
    ensures a + b + c + d == a + (b + (c + d))
  {
  }

  lemma {:induction false} FirstLineParses(line: seq<byte>, r: Request, rest: seq<byte>)
    requires NoCRLF(line) && ParseLine(DEFAULT, line) == (true, r)
    ensures Parse(ParserLine, DEFAULT, line + CRLF + rest) == Parse(ParserHeaders, r, rest)
  {
    LineFound(line, rest);
  }
}
