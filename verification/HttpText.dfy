/** The text of HTTP requests: which header names are the same key, what numbers are printed
    as, and a request as it stands on the wire. */
module HttpText {
  import opened Bytes
  import opened Http
  import opened HttpRoundTrip

  // ---- header names ---------------------------------------------------------

  /** Equal, or one letter in its two cases. */
  predicate SameLetter(a: byte, b: byte) {
    a == b || ('A' as int <= a as int <= 'Z' as int && b as int == a as int + 32)
    || ('A' as int <= b as int <= 'Z' as int && a as int == b as int + 32)
  }

  /** `n` is where the C string in `s` ends. */
  predicate EndsAt(s: seq<byte>, n: nat) {
    n <= |s| && (n < |s| ==> s[n] == 0) && forall i :: 0 <= i < n ==> s[i] != 0
  }

  /** Names are compared up to the first zero byte, byte by byte. */
  predicate SameName(a: seq<byte>, b: seq<byte>) {
    exists n :: 0 <= n <= |a| && EndsAt(a, n) && EndsAt(b, n) && forall i :: 0 <= i < n ==> SameLetter(a[i], b[i])
  }

  lemma {:induction false} EndIsUnique(s: seq<byte>, n: nat)
    requires EndsAt(s, n)
    ensures |CString(s)| == n && forall i :: 0 <= i < n ==> CString(s)[i] == s[i]
  {
    assert Find(s, 0) == n;
  }

  lemma {:induction false} LowerAgrees(a: byte, b: byte)
    ensures Lower([a]) == Lower([b]) <==> SameLetter(a, b)
  {
    assert Lower([a])[0] == (if 65 <= a <= 90 then a + 32 else a);
    assert Lower([b])[0] == (if 65 <= b <= 90 then b + 32 else b);
  }

  lemma {:induction false} LowerAt(s: seq<byte>, i: nat)
    requires i < |s|
    ensures |Lower(s)| == |s| && Lower(s)[i] == Lower([s[i]])[0]
  {
  }

  /** Two names are one key exactly when they are the same name. */
  lemma {:induction false} KeysAreNames(a: seq<byte>, b: seq<byte>)
    ensures Canon(a) == Canon(b) <==> SameName(a, b)
  {
    var n := Find(a, 0);
    var m := Find(b, 0);
    assert EndsAt(a, n) && EndsAt(b, m);
    EndIsUnique(a, n);
    EndIsUnique(b, m);
    if Canon(a) == Canon(b) {
      assert n == m by { assert |Canon(a)| == n && |Canon(b)| == m; }
      forall i | 0 <= i < n ensures SameLetter(a[i], b[i]) {
        SameAt(CString(a), CString(b), i);
      }
    }
    if SameName(a, b) {
      var k :| 0 <= k <= |a| && EndsAt(a, k) && EndsAt(b, k) && forall i :: 0 <= i < k ==> SameLetter(a[i], b[i]);
      EndIsUnique(a, k);
      EndIsUnique(b, k);
      forall i | 0 <= i < k ensures Canon(a)[i] == Canon(b)[i] {
        SameAt(CString(a), CString(b), i);
      }
      assert Canon(a) == Canon(b);
    }
  }

  lemma {:induction false} SameAt(a: seq<byte>, b: seq<byte>, i: nat)
    requires i < |a| && i < |b|
    ensures Lower(a)[i] == Lower(b)[i] <==> SameLetter(a[i], b[i])
  {
    LowerAt(a, i);
    LowerAt(b, i);
    LowerAgrees(a[i], b[i]);
    assert Lower([a[i]]) == [Lower([a[i]])[0]] && Lower([b[i]]) == [Lower([b[i]])[0]];
  }

  /** Setting two headers: with the same name one entry is left, spelt like the first and with
      the value of the second; otherwise there are two. */
  lemma {:induction false} SetTwice(h: Headers, n: seq<byte>, v: seq<byte>, n': seq<byte>, v': seq<byte>)
    requires forall k :: k in h ==> Canon(n) != k && Canon(n') != k
    ensures var r := SetHeader(SetHeader(h, n, v), n', v');
      && |r| == |h| + (if SameName(n, n') then 1 else 2)
      && Canon(n) in r && r[Canon(n)] == Header(n, if SameName(n, n') then v' else v)
      && Canon(n') in r && r[Canon(n')] == Header(if SameName(n, n') then n else n', v')
      && forall k :: k in h ==> k in r && r[k] == h[k]
  {
    KeysAreNames(n, n');
    var one := SetHeader(h, n, v);
    var r := SetHeader(one, n', v');
    assert one.Keys == h.Keys + {Canon(n)};
    assert r.Keys == one.Keys + {Canon(n')};
  }

  /** For example `H: 1` and `h: 2`. */
  lemma {:induction false} CaseDoesNotMatter(v: seq<byte>, v': seq<byte>)
    ensures var r := SetHeader(SetHeader(map[], Ascii("H"), v), Ascii("h"), v');
      |r| == 1 && Canon(Ascii("h")) in r && r[Canon(Ascii("h"))] == Header(Ascii("H"), v')
  {
    var upper, lower := Ascii("H"), Ascii("h");
    assert EndsAt(upper, 1) && EndsAt(lower, 1) && SameLetter(upper[0], lower[0]);
    assert SameName(upper, lower);
    SetTwice(map[], upper, v, lower, v');
  }

  /** Of a request that is not a websocket one a stored header is printed exactly when its name
      is not `connection`, in whatever case it is spelt; the others stay as they are. */
  lemma {:induction false} ConnectionIsReplaced(headers: Headers, a: seq<seq<byte>>, k: seq<byte>, b: seq<seq<byte>>)
    requires forall x :: x in a + [k] + b ==> x in headers
    requires Canon(headers[k].name) == k
    ensures (forall i :: 0 <= i < |a + [k] + b| ==> (a + [k] + b)[i] in headers) && (forall x :: x in a + b ==> x in headers)
    ensures HeaderLines(false, headers, a + [k] + b) ==
      if SameName(headers[k].name, Ascii("connection")) then HeaderLines(false, headers, a + b)
      else HeaderLines(false, headers, a) + Line(headers[k].name, headers[k].value) + HeaderLines(false, headers, b)
  {
    ConnectionKeyIsConnection();
    KeysAreNames(headers[k].name, Ascii("connection"));
    assert k in headers && a + [k] + b == a + ([k] + b) && ([k] + b)[1..] == b;
    forall x | x in a || x in b ensures x in headers {
      assert x in a + [k] + b;
    }
    LinesJoin(headers, a, [k] + b);
    LinesJoin(headers, a, b);
    var line := Line(headers[k].name, headers[k].value);
    AppendAssoc(HeaderLines(false, headers, a), line, HeaderLines(false, headers, b));
    assert [] + HeaderLines(false, headers, b) == HeaderLines(false, headers, b);
  }

  /** So the printed request is the same without it. */
  lemma {:induction false} DumpOmitsConnection(req: Request, a: seq<seq<byte>>, k: seq<byte>, b: seq<seq<byte>>)
    requires !req.websocket && forall x :: x in a + [k] + b ==> x in req.headers
    requires Canon(req.headers[k].name) == k && SameName(req.headers[k].name, Ascii("connection"))
    ensures (forall i :: 0 <= i < |a + [k] + b| ==> (a + [k] + b)[i] in req.headers) && (forall x :: x in a + b ==> x in req.headers)
    ensures Dump(req, a + [k] + b) == Dump(req, a + b)
  {
    ConnectionIsReplaced(req.headers, a, k, b);
  }

  lemma {:induction false} LinesJoin(headers: Headers, a: seq<seq<byte>>, b: seq<seq<byte>>)
    requires (forall x :: x in a ==> x in headers) && (forall x :: x in b ==> x in headers)
    ensures HeaderLines(false, headers, a + b) == HeaderLines(false, headers, a) + HeaderLines(false, headers, b)
  {
    if a == [] {
      assert a + b == b && [] + HeaderLines(false, headers, b) == HeaderLines(false, headers, b);
    } else {
      assert (a + b)[0] == a[0] && (a + b)[1..] == a[1..] + b;
      LinesJoin(headers, a[1..], b);
      var line := if a[0] == CONNECTION_KEY then [] else Line(headers[a[0]].name, headers[a[0]].value);
      AppendAssoc(line, HeaderLines(false, headers, a[1..]), HeaderLines(false, headers, b));
    }
  }

  const SPELT_LOW: seq<byte> := [99, 111, 110, 110, 101, 99, 116, 105, 111, 110]

  lemma {:induction false} ConnectionKeyIsConnection()
    ensures CONNECTION_KEY == Canon(Ascii("connection"))
  {
    SpeltLow();
    LowIsKey();
    CapitalIsKey();
  }

  lemma {:induction false} SpeltLow()
    ensures Ascii("connection") == SPELT_LOW
  {
    assert |SPELT_LOW| == 10 && forall i :: 0 <= i < 10 ==> SPELT_LOW[i] == Ascii("connection")[i];
  }

  lemma {:induction false} LowIsKey()
    ensures Canon(SPELT_LOW) == SPELT_LOW
  {
    LowIsItsKey(SPELT_LOW);
  }

  lemma {:induction false} LowIsItsKey(s: seq<byte>)
    requires forall i :: 0 <= i < |s| ==> s[i] > 90
    ensures Canon(s) == s
  {
    assert EndsAt(s, |s|);
    EndIsUnique(s, |s|);
  }

  lemma {:induction false} CapitalIsKey()
    ensures CONNECTION_KEY == SPELT_LOW
  {
    assert |CONNECTION_KEY| == 10 && forall i :: 0 <= i < 10 ==> CONNECTION_KEY[i] == SPELT_LOW[i];
  }

  // ---- numbers --------------------------------------------------------------

  /** Digits read from the left. */
  function ReadDecimal(acc: nat, s: seq<byte>): nat
    requires forall i :: 0 <= i < |s| ==> '0' as int <= s[i] as int <= '9' as int
    decreases |s|
  {
    if s == [] then acc else ReadDecimal(10 * acc + (s[0] as int - '0' as int), s[1..])
  }

  lemma {:induction false} ReadDecimalLast(acc: nat, s: seq<byte>, d: byte)
    requires forall i :: 0 <= i < |s| ==> '0' as int <= s[i] as int <= '9' as int
    requires '0' as int <= d as int <= '9' as int
    ensures ReadDecimal(acc, s + [d]) == 10 * ReadDecimal(acc, s) + (d as int - '0' as int)
    decreases |s|
  {
    if s == [] {
      assert (s + [d])[1..] == [];
    } else {
      assert (s + [d])[0] == s[0] && (s + [d])[1..] == s[1..] + [d];
      ReadDecimalLast(10 * acc + (s[0] as int - '0' as int), s[1..], d);
    }
  }

  /** A printed number reads as itself, and has no leading zero. */
  lemma {:induction false} DecimalReads(n: nat)
    ensures Decimal(n) != [] && forall i :: 0 <= i < |Decimal(n)| ==> '0' as int <= Decimal(n)[i] as int <= '9' as int
    ensures ReadDecimal(0, Decimal(n)) == n
    ensures n > 0 ==> Decimal(n)[0] as int != '0' as int
    ensures n == 0 ==> |Decimal(n)| == 1
  {
    if n < 10 {
      assert Decimal(n)[1..] == [];
    } else {
      DecimalReads(n / 10);
      ReadDecimalLast(0, Decimal(n / 10), Digit(n));
    }
  }

  /** The content-length header is there and reads as `n`. */
  predicate AnnouncesLength(h: Headers, n: nat) {
    var key := Canon(Ascii("content-length"));
    && key in h
    && (forall i :: 0 <= i < |h[key].value| ==> '0' as int <= h[key].value[i] as int <= '9' as int)
    && ReadDecimal(0, h[key].value) == n
  }

  lemma {:induction false} LengthAnnounced(h: Headers, n: nat)
    ensures AnnouncesLength(SetHeader(h, CONTENT_LENGTH, Decimal(n)), n)
  {
    DecimalReads(n);
    ContentLengthText();
  }

  /** The length that comes back from a printed request with a body is the size of the body. */
  lemma {:induction false} LengthComesBack(req: Request, order: seq<seq<byte>>)
    requires Printable(req) && Enumerates(order, req.headers) && req.body != []
    ensures AnnouncesLength(Parse(ParserLine, DEFAULT, Dump(req, order)).req.headers, |req.body|)
  {
    PrintThenParse(req, order);
    LengthAnnounced(PrintedHeaders(req), |req.body|);
  }

  lemma {:induction false} ContentLengthText()
    ensures CONTENT_LENGTH == Ascii("content-length")
  {
    var s := Ascii("content-length");
    assert |s| == 14 == |CONTENT_LENGTH|;
    assert forall i :: 0 <= i < 14 ==> CONTENT_LENGTH[i] == s[i];
  }

  // ---- the text -------------------------------------------------------------

  lemma {:induction false} FixedText()
    ensures CRLF == Ascii("\r\n") && [SP] == Ascii(" ") && [QUESTION] == Ascii("?") && [HASH] == Ascii("#")
    ensures [COLON] + [SP] == Ascii(": ")
    ensures CONNECTION == Ascii("Connection") && CLOSE == Ascii("close") && KEEP_ALIVE == Ascii("keep-alive")
  {
    assert |CONNECTION| == 10 && forall i :: 0 <= i < 10 ==> CONNECTION[i] == Ascii("Connection")[i];
    assert |CLOSE| == 5 && forall i :: 0 <= i < 5 ==> CLOSE[i] == Ascii("close")[i];
    assert |KEEP_ALIVE| == 10 && forall i :: 0 <= i < 10 ==> KEEP_ALIVE[i] == Ascii("keep-alive")[i];
  }

  lemma {:induction false} VersionIsPrinted(version: nat)
    requires version == 0x10 || version == 0x11
    ensures VersionText(version) == Ascii(if version == 0x10 then "HTTP/1.0" else "HTTP/1.1")
  {
    assert Decimal(1) == [49] && Decimal(0) == [48];
  }

  function TargetText(req: Request): seq<byte> {
    req.path + (if req.query == [] then [] else Ascii("?") + req.query)
    + (if req.fragment == [] then [] else Ascii("#") + req.fragment)
  }

  /** The first line, and what stands in front of each value. */
  lemma {:induction false} PrintedText(req: Request, name: seq<byte>, value: seq<byte>)
    requires req.version == 0x10 || req.version == 0x11
    ensures RequestLine(req) == Ascii(MethodName(req.httpMethod)) + Ascii(" ")
      + (TargetText(req) + Ascii(" ") + Ascii(if req.version == 0x10 then "HTTP/1.0" else "HTTP/1.1"))
    ensures Line(name, value) == name + Ascii(": ") + value + Ascii("\r\n")
    ensures ConnectionLine(req) == if req.websocket then []
      else Line(Ascii("Connection"), Ascii(if req.close then "close" else "keep-alive"))
    ensures Tail(req) == if req.body == [] then Ascii("\r\n")
      else Line(Ascii("content-length"), Decimal(|req.body|)) + Ascii("\r\n") + req.body
  {
    FixedText();
    ContentLengthText();
    VersionIsPrinted(req.version);
    AppendAssoc(TargetText(req), [SP], VersionText(req.version));
    AppendAssoc(name, [COLON], [SP] + value);
    AppendAssoc([COLON], [SP], value);
    AppendAssoc(name, [COLON] + [SP], value);
  }

  // ---- white space ----------------------------------------------------------

  /** Trimming takes the space off both ends and nothing else. */
  lemma {:induction false} TrimsExactly(s: seq<byte>) returns (i: nat, j: nat)
    ensures i <= j <= |s| && TrimRight(TrimLeft(s)) == s[i..j]
    ensures forall k :: 0 <= k < |s| && !(i <= k < j) ==> s[k] == 32 || 9 <= s[k] <= 13
    ensures i < j ==> !(s[i] == 32 || 9 <= s[i] <= 13) && !(s[j - 1] == 32 || 9 <= s[j - 1] <= 13)
  {
    i := TrimsLeft(s);
    var t := s[i..];
    var n := TrimsRight(t);
    j := i + n;
    assert t[..n] == s[i..j];
    forall k | j <= k < |s| ensures IsSpace(s[k]) {
      assert s[k] == t[k - i];
    }
    if i < j {
      assert s[i] == t[0] && s[j - 1] == t[n - 1];
    }
  }

  lemma {:induction false} TrimsLeft(s: seq<byte>) returns (i: nat)
    ensures i <= |s| && TrimLeft(s) == s[i..]
    ensures forall k :: 0 <= k < i ==> IsSpace(s[k])
    ensures i < |s| ==> !IsSpace(s[i])
  {
    if s != [] && IsSpace(s[0]) {
      i := TrimsLeft(s[1..]);
      assert s[1..][i..] == s[1 + i..];
      assert forall k :: 0 < k < 1 + i ==> s[k] == s[1..][k - 1];
      i := 1 + i;
    } else {
      i := 0;
    }
  }

  lemma {:induction false} TrimsRight(s: seq<byte>) returns (n: nat)
    ensures n <= |s| && TrimRight(s) == s[..n]
    ensures forall k :: n <= k < |s| ==> IsSpace(s[k])
    ensures n > 0 ==> !IsSpace(s[n - 1])
  {
    if s != [] && IsSpace(s[|s| - 1]) {
      n := TrimsRight(s[..|s| - 1]);
    } else {
      n := |s|;
    }
  }

  // ---- request lines --------------------------------------------------------

  /** A line of a method, a target and a version, with one space after each of the first two. */
  predicate LineOf(line: seq<byte>, name: seq<byte>, target: seq<byte>, version: seq<byte>) {
    && line == name + [32] + (target + [32] + version) && 32 !in name && 32 !in target
    && IsMethod(name) && (version == Ascii("HTTP/1.0") || version == Ascii("HTTP/1.1"))
  }

  lemma {:induction false} VersionsAccepted(req: Request, version: seq<byte>)
    ensures SetVersion(req, version) ==
      if version == Ascii("HTTP/1.1") then (true, req.(version := 0x11))
      else if version == Ascii("HTTP/1.0") then (true, req.(version := 0x10))
      else (false, req)
  {
    var one, zero := Ascii("HTTP/1.1"), Ascii("HTTP/1.0");
    assert one[7] == 49 && zero[7] == 48;
    assert one[..7] == HTTP_1 && zero[..7] == HTTP_1;
    if |version| == 8 && version[..7] == HTTP_1 {
      assert version == version[..7] + [version[7]];
      assert one == one[..7] + [one[7]] && zero == zero[..7] + [zero[7]];
    }
  }

  /** A request line is accepted exactly when it is of this form. */
  lemma {:induction false} LinesAccepted(req: Request, line: seq<byte>)
    ensures ParseLine(req, line).0 <==> exists name, target, version :: LineOf(line, name, target, version)
  {
    if ParseLine(req, line).0 {
      var name, target, version := LineTaken(req, line);
    }
    forall name, target, version | LineOf(line, name, target, version)
      ensures ParseLine(req, line).0
    {
      LineAccepted(req, line, name, target, version);
    }
  }

  lemma {:induction false} CutAtFound(s: seq<byte>, b: byte)
    requires Find(s, b) < |s|
    ensures s == s[..Find(s, b)] + [b] + s[Find(s, b) + 1..] && b !in s[..Find(s, b)]
  {
  }

  lemma {:induction false} LineTaken(req: Request, line: seq<byte>)
    returns (name: seq<byte>, target: seq<byte>, version: seq<byte>)
    requires ParseLine(req, line).0
    ensures LineOf(line, name, target, version)
  {
    CutAtFound(line, 32);
    name := line[..Find(line, 32)];
    target, version := TargetTaken(req, line[|name| + 1..]);
  }

  lemma {:induction false} TargetTaken(req: Request, tail: seq<byte>) returns (target: seq<byte>, version: seq<byte>)
    requires ParseTarget(req, tail).0
    ensures tail == target + [32] + version && 32 !in target
    ensures version == Ascii("HTTP/1.0") || version == Ascii("HTTP/1.1")
  {
    CutAtFound(tail, 32);
    target, version := tail[..Find(tail, 32)], tail[Find(tail, 32) + 1..];
    VersionsAccepted(SetTarget(req, target), version);
  }

  lemma {:induction false} LineAccepted(req: Request, line: seq<byte>, name: seq<byte>, target: seq<byte>, version: seq<byte>)
    requires LineOf(line, name, target, version)
    ensures ParseLine(req, line).0
  {
    var tail := target + [32] + version;
    FindJoined(name, 32, tail);
    FindJoined(target, 32, version);
    CutAt(name, 32, tail);
    CutAt(target, 32, version);
    VersionsAccepted(SetTarget(req, target), version);
  }

  /** A line without a colon ends the headers; any other sets what stands before the first colon
      to what follows it, trimmed. */
  lemma {:induction false} HeadersAccepted(req: Request, line: seq<byte>, name: seq<byte>, value: seq<byte>)
    ensures ParseHeader(req, line).0 <==> 58 !in line
    ensures 58 !in line ==> ParseHeader(req, line).1 == req
    ensures line == name + [58] + value && 58 !in name ==>
      ParseHeader(req, line) == (false, req.(headers := SetHeader(req.headers, name, TrimRight(TrimLeft(value)))))
  {
    if line == name + [58] + value && 58 !in name {
      FindJoined(name, 58, value);
      CutAt(name, 58, value);
    }
  }
}
