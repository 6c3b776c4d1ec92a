/** What happens to a chunk-header line that is not in sight when it is looked for, and so
    that the condition on the cut is exact. */
module ChunkedCuts {
  import opened Bytes
  import opened Chunked

  /** The digits a sender prints for `n`: no leading zero, nothing behind them. */
  predicate Plain(digits: seq<byte>, n: nat) {
    && digits != [] && AllHex(digits) && HexValue(0, digits) == n < INT32_BOUND
    && (|digits| > 1 ==> HexDigit(digits[0]) > 0)
  }

  const CRLF: seq<byte> := [CR, LF]

  lemma {:induction false} PlainIsHeader(digits: seq<byte>, n: nat)
    requires AllHex(digits) && digits != [] && HexValue(0, digits) == n < INT32_BOUND
    ensures IsHeaderLine(digits + CRLF, n)
  {
    LineEndRuns();
    DigitsRun(Start, digits, CRLF);
    HexValueAppend(0, digits, CRLF);
  }

  lemma {:induction false} HexTextIsPlain(n: nat)
    requires n < INT32_BOUND
    ensures Plain(HexText(n), n)
  {
    HexTextIsHex(n);
    HexTextValue(n);
    if n > 0 {
      HexTextLeads(n);
    }
  }

  lemma {:induction false} HexTextLeads(n: nat)
    requires n > 0
    ensures HexText(n) != [] && IsHex(HexText(n)[0]) && HexDigit(HexText(n)[0]) > 0
  {
    if n >= 16 {
      HexTextLeads(n / 16);
    }
  }

  // ---- what is left of the digits ------------------------------------------

  lemma {:induction false} MoreIsMore(a: nat, b: nat, s: seq<byte>)
    requires a < b
    ensures HexValue(a, s) < HexValue(b, s)
    decreases |s|
  {
    if s != [] && IsHex(s[0]) {
      MoreIsMore(16 * a + HexDigit(s[0]), 16 * b + HexDigit(s[0]), s[1..]);
    }
  }

  /** Without its first digits a number is smaller. */
  lemma {:induction false} SuffixIsSmaller(digits: seq<byte>, n: nat, k: nat)
    requires Plain(digits, n) && 0 < k < |digits|
    ensures HexValue(0, digits[k..]) < n
  {
    var a, b := digits[..k], digits[k..];
    assert digits == a + b;
    HexValueAppend(0, a, b);
    LeadIsPositive(a);
    MoreIsMore(0, HexValue(0, a), b);
  }

  lemma {:induction false} LeadIsPositive(a: seq<byte>)
    requires a != [] && AllHex(a) && HexDigit(a[0]) > 0
    ensures HexValue(0, a) > 0
  {
    AtLeast(HexDigit(a[0]), a[1..]);
  }

  lemma {:induction false} AtLeast(acc: nat, s: seq<byte>)
    ensures HexValue(acc, s) >= acc
    decreases |s|
  {
    if s != [] && IsHex(s[0]) {
      AtLeast(16 * acc + HexDigit(s[0]), s[1..]);
    }
  }

  lemma {:induction false} SuffixAtMost(digits: seq<byte>, k: nat)
    requires AllHex(digits) && k <= |digits|
    ensures HexValue(0, digits[k..]) <= HexValue(0, digits)
  {
    var a, b := digits[..k], digits[k..];
    assert digits == a + b;
    HexValueAppend(0, a, b);
    if HexValue(0, a) > 0 {
      MoreIsMore(0, HexValue(0, a), b);
    }
  }

  // ---- one search ----------------------------------------------------------

  function Remaining(h: Header): seq<byte>
    requires h.Got?
  {
    h.msg + Concat(h.segs)
  }

  /** A header that is found takes bytes of the wire. */
  lemma {:induction false} GotTakes(msg: seq<byte>, segs: seq<seq<byte>>)
    requires NextHeader(msg, segs).Got?
    ensures |Remaining(NextHeader(msg, segs))| < |msg + Concat(segs)|
    decreases Left(msg, segs)
  {
    PullOne(msg, segs);
    var text := StripCRLF(if segs == [] then msg else msg + segs[0]);
    var (st, n) := Execute(Start, text);
    if st == Done {
      assert |text[n..]| == |text| - n;
    } else {
      GotTakes([], Rest(segs));
    }
  }

  /** Digits alone are no header: they are thrown away. */
  lemma {:induction false} DigitsAreDropped(text: seq<byte>)
    requires AllHex(text) && text != []
    ensures Execute(Start, text) == (Size, |text|)
  {
    DigitsRun(Start, text, []);
    assert text + [] == text;
  }

  lemma {:induction false} DigitsAndCR(digits: seq<byte>)
    requires AllHex(digits) && digits != []
    ensures Execute(Start, digits + [CR]) == (GotCR, |digits| + 1)
  {
    DigitsRun(Start, digits, [CR]);
    assert [CR][1..] == [];
    assert Execute(GotCR, []) == (GotCR, 0);
  }

  /** A search that does not begin at a digit or a CRLF fails. */
  lemma {:induction false} NoHeaderHere(msg: seq<byte>, segs: seq<seq<byte>>)
    requires NoneEmpty(segs) && msg + Concat(segs) != []
    requires !IsHex((msg + Concat(segs))[0])
    requires (msg + Concat(segs))[0] != CR || (|msg| + |Concat(segs)| > 1 && (msg + Concat(segs))[1] != LF)
    ensures NextHeader(msg, segs) == NoHeader
  {
    PullOne(msg, segs);
    var text := if segs == [] then msg else msg + segs[0];
    var s := msg + Concat(segs);
    assert text != [];
    assert text[0] == (text + Concat(Rest(segs)))[0] == s[0];
    if |text| > 1 {
      assert text[1] == (text + Concat(Rest(segs)))[1] == s[1];
    }
    assert StripCRLF(text) == text;
    assert Execute(Start, text).0 == Bad;
  }

  /** The end of a line whose digits have been dropped. What is found, if anything, lies
      behind it. */
  lemma {:induction false} LineEndLeft(segs: seq<seq<byte>>, tail: seq<byte>)
    requires NoneEmpty(segs) && Concat(segs) == CRLF + tail
    ensures NextHeader([], segs).Got? ==> |Remaining(NextHeader([], segs))| < |tail| && IsHex(tail[0])
  {
    var seg, more := segs[0], segs[1..];
    assert [] + seg == seg && seg[0] == Concat(segs)[0] == CR;
    if |seg| == 1 {
      assert Execute(Start, seg).0 == Bad;
    } else {
      SplitHead(seg, Concat(more), CRLF, tail);
      var text := seg[2..];
      assert StripCRLF(seg) == text;
      if text != [] {
        assert text[0] == tail[0];
        assert !IsHex(text[0]) ==> Execute(Start, text).0 == Bad;
        if NextHeader([], segs).Got? && Execute(Start, text).0 != Done {
          GotTakes([], more);
        }
      }
    }
  }

  lemma {:induction false} WholeInSegment(seg: seq<byte>, more: seq<seq<byte>>, d: seq<byte>, tail: seq<byte>)
    requires AllHex(d) && d != [] && HexValue(0, d) < INT32_BOUND
    requires seg + Concat(more) == d + CRLF + tail && |seg| >= |d| + 2
    ensures var h := NextHeader([], [seg] + more);
      h.Got? && h.len == HexValue(0, d) && Remaining(h) == tail && h.segs == more
  {
    var segs, line := [seg] + more, d + CRLF;
    assert segs[1..] == more && [] + line == line;
    PlainIsHeader(d, HexValue(0, d));
    var msg' := HeaderStep([], segs, true, line, HexValue(0, d), tail);
  }

  lemma {:induction false} DigitsInSegment(seg: seq<byte>, more: seq<seq<byte>>, d: seq<byte>, tail: seq<byte>)
    requires AllHex(d) && seg + Concat(more) == d + CRLF + tail && 0 < |seg| <= |d|
    ensures NextHeader([], [seg] + more) == NextHeader([], more) && Concat(more) == d[|seg|..] + CRLF + tail
  {
    var segs := [seg] + more;
    SplitWithin(seg, Concat(more), d + CRLF, tail);
    assert seg == d[..|seg|] && (d + CRLF)[|seg|..] == d[|seg|..] + CRLF;
    assert [] + seg == seg && StripCRLF(seg) == seg && segs[1..] == more;
    DigitsAreDropped(seg);
  }

  lemma {:induction false} CRInSegment(seg: seq<byte>, more: seq<seq<byte>>, d: seq<byte>, tail: seq<byte>)
    requires NoneEmpty(more) && AllHex(d) && d != []
    requires seg + Concat(more) == d + CRLF + tail && |seg| == |d| + 1
    ensures NextHeader([], [seg] + more) == NoHeader
  {
    var segs := [seg] + more;
    SplitWithin(seg, Concat(more), d + CRLF, tail);
    assert seg == d + [CR] && (d + CRLF)[|seg|..] == [LF];
    assert [] + seg == seg && StripCRLF(seg) == seg && segs[1..] == more;
    DigitsAndCR(d);
    assert [] + Concat(more) == Concat(more) && Concat(more)[0] == LF;
    NoHeaderHere([], more);
  }

  /** A search that begins inside the line, at the digits `d`: it finds some last digits of
      the line, or something behind the line, or nothing. */
  lemma {:induction false} AfterDrop(segs: seq<seq<byte>>, d: seq<byte>, tail: seq<byte>) returns (k: nat)
    requires NoneEmpty(segs) && AllHex(d) && HexValue(0, d) < INT32_BOUND && Concat(segs) == d + CRLF + tail
    ensures var h := NextHeader([], segs); h.Got? ==>
      || (|Remaining(h)| < |tail| && IsHex(tail[0]))
      || (k < |d| && h.len == HexValue(0, d[k..]) && Remaining(h) == tail && NoneEmpty(h.segs))
    ensures |segs[0]| < |d| + 2 ==> k > 0
    decreases |segs|
  {
    var seg, more := segs[0], segs[1..];
    assert segs == [seg] + more;
    k := 0;
    if |seg| >= |d| + 2 && d != [] {
      WholeInSegment(seg, more, d, tail);
      assert d[0..] == d;
    } else if d == [] {
      assert d + CRLF == CRLF;
      LineEndLeft(segs, tail);
      k := 1;
    } else if |seg| <= |d| {
      DigitsInSegment(seg, more, d, tail);
      SuffixAtMost(d, |seg|);
      var k' := AfterDrop(more, d[|seg|..], tail);
      k := |seg| + k';
      if k' < |d[|seg|..]| {
        assert d[|seg|..][k'..] == d[k..];
      }
    } else {
      CRInSegment(seg, more, d, tail);
      k := 1;
    }
  }

  /** A header line that is not in sight is not found: what is found instead is some last
      digits of it, which are a smaller number, or lies behind it. */
  lemma {:induction false} Missed(msg: seq<byte>, segs: seq<seq<byte>>, first: bool, digits: seq<byte>, n: nat, tail: seq<byte>)
    requires NoneEmpty(segs) && Plain(digits, n)
    requires msg + Concat(segs) == Opening(first) + (digits + CRLF) + tail
    requires Sight(|msg|, segs) < |Opening(first)| + |digits| + 2
    ensures var h := NextHeader(msg, segs); h.Got? ==>
      || (|Remaining(h)| < |tail| && IsHex(tail[0]))
      || (0 <= h.len < n && Remaining(h) == tail && NoneEmpty(h.segs))
  {
    var open, line := Opening(first), digits + CRLF;
    var x, more := if segs == [] then msg else msg + segs[0], Rest(segs);
    PullOne(msg, segs);
    SplitWithin(x, Concat(more), open + line, tail);
    if first {
      assert open + line == line;
      MissedDigits(msg, segs, digits, n, tail);
    } else if |x| == 1 {
      assert x == [CR];
      assert Execute(Start, x).0 == Bad;
    } else if |x| == 2 {
      assert x == CRLF;
    } else {
      CutBehind(open, line, |x| - 2);
      assert x[2..] == line[..|x| - 2];
      MissedBehindCRLF(msg, segs, x[2..], digits, n, tail);
    }
  }

  lemma {:induction false} MissedBehindCRLF(msg: seq<byte>, segs: seq<seq<byte>>, text: seq<byte>, digits: seq<byte>, n: nat, tail: seq<byte>)
    requires segs != [] && NoneEmpty(segs) && Plain(digits, n) && 0 < |text| < |digits| + 2
    requires msg + segs[0] == CRLF + text && text == (digits + CRLF)[..|text|]
    requires Concat(Rest(segs)) == (digits + CRLF)[|text|..] + tail
    ensures var h := NextHeader(msg, segs); h.Got? ==>
      || (|Remaining(h)| < |tail| && IsHex(tail[0]))
      || (0 <= h.len < n && Remaining(h) == tail && NoneEmpty(h.segs))
  {
    assert (CRLF + text)[2..] == text;
    MissedText(text, Rest(segs), digits, n, tail);
    SameSearch(msg, segs, text, Rest(segs));
  }

  lemma {:induction false} CutBehind(a: seq<byte>, b: seq<byte>, n: nat)
    requires n <= |b|
    ensures (a + b)[..|a| + n][|a|..] == b[..n] && (a + b)[|a| + n..] == b[n..]
  {
  }

  /** The search depends only on the text pulled together and what follows. */
  lemma {:induction false} SameSearch(msg: seq<byte>, segs: seq<seq<byte>>, text: seq<byte>, more: seq<seq<byte>>)
    requires more == Rest(segs) && text != [] && segs != []
    requires StripCRLF(msg + segs[0]) == StripCRLF(text) == text
    ensures NextHeader(msg, segs) == NextHeader([], [text] + more)
  {
    assert ([text] + more)[1..] == more && [] + text == text;
  }

  lemma {:induction false} MissedDigits(msg: seq<byte>, segs: seq<seq<byte>>, digits: seq<byte>, n: nat, tail: seq<byte>)
    requires NoneEmpty(segs) && Plain(digits, n)
    requires msg + Concat(segs) == digits + CRLF + tail && Sight(|msg|, segs) < |digits| + 2
    ensures var h := NextHeader(msg, segs); h.Got? ==>
      || (|Remaining(h)| < |tail| && IsHex(tail[0]))
      || (0 <= h.len < n && Remaining(h) == tail && NoneEmpty(h.segs))
  {
    assert segs != [];
    var x, more := msg + segs[0], Rest(segs);
    PullOne(msg, segs);
    SplitWithin(x, Concat(more), digits + CRLF, tail);
    assert x != [] && x[0] == digits[0] && StripCRLF(x) == x;
    MissedText(x, more, digits, n, tail);
    SameSearch(msg, segs, x, more);
  }

  lemma {:induction false} MissedText(text: seq<byte>, more: seq<seq<byte>>, digits: seq<byte>, n: nat, tail: seq<byte>)
    requires NoneEmpty(more) && Plain(digits, n) && 0 < |text| < |digits| + 2
    requires text == (digits + CRLF)[..|text|] && Concat(more) == (digits + CRLF)[|text|..] + tail
    ensures StripCRLF(text) == text
    ensures var h := NextHeader([], [text] + more); h.Got? ==>
      || (|Remaining(h)| < |tail| && IsHex(tail[0]))
      || (0 <= h.len < n && Remaining(h) == tail && NoneEmpty(h.segs))
  {
    var segs, line := [text] + more, digits + CRLF;
    assert text[0] == digits[0] && segs[1..] == more;
    AppendAssoc(text, line[|text|..], tail);
    assert text + line[|text|..] == line;
    var k := AfterDrop(segs, digits, tail);
    if k < |digits| {
      SuffixIsSmaller(digits, n, k);
    }
  }

  /** Exactly when a printed header line is found: the search gives its number and leaves what
      follows it if and only if the line, with the CRLF before it, is whole by the time one
      more segment has been received. */
  lemma {:induction false} FoundWhenInSight(msg: seq<byte>, segs: seq<seq<byte>>, first: bool, digits: seq<byte>, n: nat, tail: seq<byte>)
    requires NoneEmpty(segs) && Plain(digits, n)
    requires msg + Concat(segs) == Opening(first) + (digits + CRLF) + tail
    ensures var h := NextHeader(msg, segs);
      (h.Got? && h.len == n && Remaining(h) == tail) <==> |Opening(first)| + |digits| + 2 <= Sight(|msg|, segs)
  {
    if |Opening(first)| + |digits| + 2 <= Sight(|msg|, segs) {
      PlainIsHeader(digits, n);
      var msg' := HeaderStep(msg, segs, first, digits + CRLF, n, tail);
    } else {
      Missed(msg, segs, first, digits, n, tail);
    }
  }

  // ---- the whole body -------------------------------------------------------

  predicate PlainLine(line: seq<byte>, n: nat) {
    |line| > 2 && line[|line| - 2..] == CRLF && Plain(line[..|line| - 2], n)
  }

  /** Bytes that no search for a header takes for one. */
  predicate Inert(data: seq<byte>) {
    forall i :: 0 <= i < |data| ==> !IsHex(data[i]) && data[i] != CR
  }

  predicate PlainChunk(c: Chunk) {
    c.data != [] && PlainLine(c.line, |c.data|) && Inert(c.data)
  }

  predicate PlainChunks(chunks: seq<Chunk>) {
    chunks == []
    || (PlainChunk(chunks[0]) && PlainChunks(chunks[1..]))
  }

  lemma {:induction false} PlainLineParts(line: seq<byte>, n: nat)
    requires PlainLine(line, n)
    ensures line == line[..|line| - 2] + CRLF && IsHeaderLine(line, n)
  {
    PlainIsHeader(line[..|line| - 2], n);
    assert line == line[..|line| - 2] + CRLF;
  }

  lemma {:induction false} PlainChunksAreOk(chunks: seq<Chunk>)
    requires PlainChunks(chunks)
    ensures ChunksOk(chunks)
  {
    if chunks != [] {
      PlainLineParts(chunks[0].line, |chunks[0].data|);
      PlainChunksAreOk(chunks[1..]);
    }
  }

  /** A chunk taken for a shorter one ends the body early or the response with null. */
  lemma {:induction false} TakenShort(body: seq<byte>, msg: seq<byte>, segs: seq<seq<byte>>, h: Header, data: seq<byte>, more: seq<byte>)
    requires NextHeader(msg, segs) == h && h.Got? && 0 <= h.len < |data| < INT32_BOUND && Inert(data)
    requires Remaining(h) == data + more && |Remaining(h)| < INT32_BOUND && NoneEmpty(h.segs)
    ensures ReadBody(body, msg, segs) == if h.len == 0 then Body(body) else Null
  {
    var m := h.len;
    var a, b := data[..m], data[m..];
    assert data == a + b;
    AppendAssoc(a, b, more);
    var msg', segs' := DataStep(body, a, h.msg, h.segs, b + more);
    if m == 0 {
      assert body + a == body;
    } else {
      assert (b + more)[0] == data[m];
      AfterDataKeeps(m, |h.msg|, h.segs);
      ReadOne(body, msg, segs, m, h.msg, h.segs, body + a, msg', segs');
      NoHeaderHere(msg', segs');
    }
  }

  lemma {:induction false} AdvanceKeeps(k: nat, segs: seq<seq<byte>>)
    requires NoneEmpty(segs)
    ensures NoneEmpty(Advance(k, segs).1)
    decreases |segs|
  {
    if k > 0 && segs != [] && k >= |segs[0]| {
      AdvanceKeeps(k - |segs[0]|, segs[1..]);
    }
  }

  lemma {:induction false} AfterDataKeeps(k: nat, m: nat, segs: seq<seq<byte>>)
    requires NoneEmpty(segs)
    ensures NoneEmpty(AfterData(k, m, segs).1)
  {
    if k > m {
      AdvanceKeeps(k - m, segs);
    }
  }

  /** A header line out of sight spoils the body. */
  lemma {:induction false} MissedSpoils(body: seq<byte>, msg: seq<byte>, segs: seq<seq<byte>>, first: bool, c: Chunk, more: seq<byte>)
    requires NoneEmpty(segs) && PlainChunk(c)
    requires msg + Concat(segs) == Opening(first) + c.line + (c.data + more) && |msg + Concat(segs)| < INT32_BOUND
    requires Sight(|msg|, segs) < |Opening(first)| + |c.line|
    ensures var o := ReadBody(body, msg, segs); o.Body? ==> o.bytes == body
  {
    PlainLineParts(c.line, |c.data|);
    assert (c.data + more)[0] == c.data[0];
    Missed(msg, segs, first, c.line[..|c.line| - 2], |c.data|, c.data + more);
    var h := NextHeader(msg, segs);
    if h.Got? {
      TakenShort(body, msg, segs, h, c.data, more);
    }
  }

  lemma {:induction false} MissedLast(body: seq<byte>, msg: seq<byte>, segs: seq<seq<byte>>, first: bool, last: seq<byte>)
    requires NoneEmpty(segs) && PlainLine(last, 0)
    requires msg + Concat(segs) == Opening(first) + last + CRLF && Sight(|msg|, segs) < |Opening(first)| + |last|
    ensures !ReadBody(body, msg, segs).Body?
  {
    PlainLineParts(last, 0);
    Missed(msg, segs, first, last[..|last| - 2], 0, CRLF);
  }

  /** And the condition is exact: where no data byte is a hexadecimal digit or a carriage
      return, the body is put together right if and only if every header line is whole by the
      time one more segment has been received. */
  lemma {:induction false} ConditionIsExact(begin: seq<byte>, segs: seq<seq<byte>>, chunks: seq<Chunk>, last: seq<byte>)
    requires PlainChunks(chunks) && PlainLine(last, 0) && NoneEmpty(segs)
    requires begin + Concat(segs) == Wire(true, chunks, last, CRLF) && |begin + Concat(segs)| < INT32_BOUND
    ensures ReadBody([], begin, segs) == Body(AllData(chunks)) <==> Uncut(|begin|, segs, true, chunks, last)
  {
    if Uncut(|begin|, segs, true, chunks, last) {
      PlainChunksAreOk(chunks);
      PlainLineParts(last, 0);
      Reassembled(begin, segs, chunks, last, CRLF);
    } else {
      assert AllData(chunks) == [] + AllData(chunks);
      CutIsWrong([], begin, segs, true, chunks, last, AllData(chunks));
    }
  }

  lemma {:induction false} CutIsWrong(body: seq<byte>, msg: seq<byte>, segs: seq<seq<byte>>, first: bool, chunks: seq<Chunk>,
      last: seq<byte>, whole: seq<byte>)
    requires PlainChunks(chunks) && PlainLine(last, 0) && NoneEmpty(segs) && whole == body + AllData(chunks)
    requires msg + Concat(segs) == Wire(first, chunks, last, CRLF) && |msg + Concat(segs)| < INT32_BOUND
    requires !Uncut(|msg|, segs, first, chunks, last)
    ensures !Gives(body, msg, segs, Body(whole))
    decreases |chunks|
  {
    if chunks == [] {
      MissedLast(body, msg, segs, first, last);
    } else {
      var c, more := chunks[0], Wire(false, chunks[1..], last, CRLF);
      FirstOf(body, msg, segs, first, chunks, last, whole);
      if |Opening(first)| + |c.line| > Sight(|msg|, segs) {
        SpoiltIsWrong(body, msg, segs, first, c, more, whole);
      } else {
        var msg', segs' := CutGoesOn(body, msg, segs, first, chunks, last, more);
        CutIsWrong(body + c.data, msg', segs', false, chunks[1..], last, whole);
      }
    }
  }

  lemma {:induction false} FirstOf(body: seq<byte>, msg: seq<byte>, segs: seq<seq<byte>>, first: bool, chunks: seq<Chunk>,
      last: seq<byte>, whole: seq<byte>)
    requires chunks != [] && PlainChunks(chunks) && whole == body + AllData(chunks)
    requires msg + Concat(segs) == Wire(first, chunks, last, CRLF)
    ensures var c := chunks[0];
      && PlainChunk(c) && PlainChunks(chunks[1..]) && |whole| > |body|
      && whole == body + c.data + AllData(chunks[1..])
      && msg + Concat(segs) == Opening(first) + c.line + (c.data + Wire(false, chunks[1..], last, CRLF))
  {
    AppendAssoc(body, chunks[0].data, AllData(chunks[1..]));
  }

  lemma {:induction false} SpoiltIsWrong(body: seq<byte>, msg: seq<byte>, segs: seq<seq<byte>>, first: bool, c: Chunk,
      more: seq<byte>, whole: seq<byte>)
    requires NoneEmpty(segs) && PlainChunk(c) && |whole| > |body|
    requires msg + Concat(segs) == Opening(first) + c.line + (c.data + more) && |msg + Concat(segs)| < INT32_BOUND
    requires Sight(|msg|, segs) < |Opening(first)| + |c.line|
    ensures !Gives(body, msg, segs, Body(whole))
  {
    MissedSpoils(body, msg, segs, first, c, more);
  }

  lemma {:induction false} UncutStep(m: nat, segs: seq<seq<byte>>, first: bool, chunks: seq<Chunk>, last: seq<byte>,
      m': nat, segs': seq<seq<byte>>)
    requires chunks != [] && |Opening(first)| + |chunks[0].line| <= Sight(m, segs)
    requires (m', segs') == AfterData(|chunks[0].data|, Sight(m, segs) - |Opening(first)| - |chunks[0].line|, Rest(segs))
    ensures Uncut(m, segs, first, chunks, last) <==> Uncut(m', segs', false, chunks[1..], last)
  {
  }

  /** Where the cut is not in the first header line it is in a later one. */
  lemma {:induction false} CutGoesOn(body: seq<byte>, msg: seq<byte>, segs: seq<seq<byte>>, first: bool, chunks: seq<Chunk>,
      last: seq<byte>, more: seq<byte>)
    returns (msg': seq<byte>, segs': seq<seq<byte>>)
    requires chunks != [] && NoneEmpty(segs) && PlainChunk(chunks[0]) && !Uncut(|msg|, segs, first, chunks, last)
    requires msg + Concat(segs) == Opening(first) + chunks[0].line + (chunks[0].data + more) && |msg + Concat(segs)| < INT32_BOUND
    requires |Opening(first)| + |chunks[0].line| <= Sight(|msg|, segs)
    ensures Alike(body, msg, segs, body + chunks[0].data, msg', segs')
    ensures msg' + Concat(segs') == more && |more| < INT32_BOUND && NoneEmpty(segs')
    ensures !Uncut(|msg'|, segs', false, chunks[1..], last)
  {
    msg', segs' := FoundGoesOn(body, msg, segs, first, chunks[0], more);
    UncutStep(|msg|, segs, first, chunks, last, |msg'|, segs');
  }

  /** A chunk whose header line is in sight is taken whole. */
  lemma {:induction false} FoundGoesOn(body: seq<byte>, msg: seq<byte>, segs: seq<seq<byte>>, first: bool, c: Chunk, more: seq<byte>)
    returns (msg': seq<byte>, segs': seq<seq<byte>>)
    requires NoneEmpty(segs) && PlainChunk(c)
    requires msg + Concat(segs) == Opening(first) + c.line + (c.data + more) && |msg + Concat(segs)| < INT32_BOUND
    requires |Opening(first)| + |c.line| <= Sight(|msg|, segs)
    ensures Alike(body, msg, segs, body + c.data, msg', segs')
    ensures msg' + Concat(segs') == more && |more| < INT32_BOUND && NoneEmpty(segs')
    ensures (|msg'|, segs') == AfterData(|c.data|, Sight(|msg|, segs) - |Opening(first)| - |c.line|, Rest(segs))
  {
    PlainLineParts(c.line, |c.data|);
    msg', segs' := ChunkStep(body, msg, segs, first, c, more);
    AfterDataKeeps(|c.data|, Sight(|msg|, segs) - |Opening(first)| - |c.line|, Rest(segs));
  }

  /** The last chunk in two segments behind `msg` left over: found exactly when its three
      bytes have arrived with the first of them. */
  lemma {:induction false} LastChunkCut(msg: seq<byte>, a: seq<byte>, b: seq<byte>)
    requires a != [] && b != [] && msg + (a + b) == [48, CR, LF, CR, LF]
    ensures ReadBody([], msg, [a, b]) == Body([]) <==> 3 <= |msg| + |a|
  {
    var line: seq<byte> := [48] + CRLF;
    assert line[..1] == [48] && line[1..] == CRLF;
    assert HexValue(0, [48]) == 0 by { assert [48][1..] == []; }
    assert Opening(true) + line + CRLF == [48, CR, LF, CR, LF];
    assert Concat([a, b]) == a + b && NoneEmpty([a, b]) by {
      assert [a, b][1..] == [b] && [b][1..] == [];
      assert Concat([b]) == b + [] == b;
    }
    ConditionIsExact(msg, [a, b], [], line);
  }

  /** The same bytes: the header line begun in what was left over is found, the one that
      begins in the next segment and goes on behind it is lost. */
  lemma {:induction false} CutHeaderIsLost()
    ensures ReadBody([], [48], [[CR, LF], [CR, LF]]) == Body([])
    ensures ReadBody([], [], [[48], [CR, LF, CR, LF]]) != Body([])
  {
    LastChunkCut([48], [CR, LF], [CR, LF]);
    LastChunkCut([], [48], [CR, LF, CR, LF]);
  }
}
