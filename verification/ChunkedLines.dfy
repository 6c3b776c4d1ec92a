/** Chunk-header lines as they are written: a size in hexadecimal digits of either case, perhaps
    extensions, and the line end. */
module ChunkedLines {
  import opened Bytes
  import opened Chunked

  /** The byte stands for the digit. */
  predicate Spells(b: byte, digit: nat) {
    || (digit < 10 && b as nat == '0' as nat + digit)
    || (10 <= digit < 16 && (b as nat == 'A' as nat + digit - 10 || b as nat == 'a' as nat + digit - 10))
  }

  predicate AllSpell(text: seq<byte>, digits: seq<nat>) {
    |text| == |digits| && forall i :: 0 <= i < |text| ==> Spells(text[i], digits[i])
  }

  /** What digits are worth in base 16. */
  function Worth(digits: seq<nat>): nat {
    if digits == [] then 0 else digits[0] * Power(16, |digits| - 1) + Worth(digits[1..])
  }

  lemma {:induction false} SpelledDigit(b: byte, digit: nat)
    requires Spells(b, digit)
    ensures IsHex(b) && HexDigit(b) == digit
  {
  }

  lemma {:induction false} SpelledValue(acc: nat, text: seq<byte>, digits: seq<nat>, more: seq<byte>)
    requires AllSpell(text, digits) && (more != [] ==> !IsHex(more[0]))
    ensures HexValue(acc, text + more) == acc * Power(16, |text|) + Worth(digits)
    decreases |text|
  {
    if text == [] {
      assert text + more == more;
    } else {
      SpelledDigit(text[0], digits[0]);
      assert (text + more)[0] == text[0] && (text + more)[1..] == text[1..] + more;
      SpelledValue(16 * acc + digits[0], text[1..], digits[1..], more);
      Horner(acc, digits[0], Power(16, |text| - 1));
    }
  }

  lemma {:induction false} Horner(acc: nat, digit: nat, p: nat)
    ensures (16 * acc + digit) * p == acc * (16 * p) + digit * p
  {
  }

  lemma {:induction false} SpelledRuns(st: Scan, text: seq<byte>, digits: seq<nat>, more: seq<byte>)
    requires AllSpell(text, digits) && (st == Size || (st == Start && text != []))
    requires Execute(Size, more) == (Done, |more|)
    ensures Execute(st, text + more) == (Done, |text + more|)
    decreases |text|
  {
    if text == [] {
      assert text + more == more;
    } else {
      SpelledDigit(text[0], digits[0]);
      assert (text + more)[0] == text[0] && (text + more)[1..] == text[1..] + more;
      SpelledRuns(Size, text[1..], digits[1..], more);
    }
  }

  /** Every spelling of a size below 2^31, in front of whatever ends the line, announces it. */
  lemma {:induction false} SpelledLine(text: seq<byte>, digits: seq<nat>, end: seq<byte>)
    requires text != [] && AllSpell(text, digits) && Worth(digits) < 0x8000_0000
    requires Execute(Size, end) == (Done, |end|) && (end != [] ==> !IsHex(end[0]))
    ensures IsHeaderLine(text + end, Worth(digits))
  {
    SpelledRuns(Start, text, digits, end);
    SpelledValue(0, text, digits, end);
  }

  /** The line may end in a line feed, with or without a carriage return. */
  lemma {:induction false} SpelledIsHeader(text: seq<byte>, digits: seq<nat>, end: seq<byte>)
    requires text != [] && AllSpell(text, digits) && Worth(digits) < 0x8000_0000 && (end == [13, 10] || end == [10])
    ensures IsHeaderLine(text + end, Worth(digits))
  {
    if end == [10] {
      assert end[1..] == [] && Execute(Done, []) == (Done, 0);
    } else {
      CRLFRuns(Size);
    }
    SpelledLine(text, digits, end);
  }

  /** An int keeps the low 32 bits, read as a signed number. */
  lemma {:induction false} Int32IsLow(v: int)
    ensures -0x8000_0000 <= Int32(v) < 0x8000_0000 && (Int32(v) - v) % 0x1_0000_0000 == 0
  {
  }

  /** A size of any length: strtol saturates, and the int keeps the low bits. */
  lemma {:induction false} SpelledSize(text: seq<byte>, digits: seq<nat>, end: seq<byte>)
    requires AllSpell(text, digits) && (end != [] ==> !IsHex(end[0]))
    ensures ContentLen(text + end) == Int32(Min(Worth(digits), 0x7FFF_FFFF_FFFF_FFFF))
  {
    SpelledValue(0, text, digits, end);
  }

  /** So a size of 2^63 - 1 or more reads as -1. */
  lemma {:induction false} HugeSize(text: seq<byte>, digits: seq<nat>, end: seq<byte>)
    requires AllSpell(text, digits) && (end != [] ==> !IsHex(end[0])) && Worth(digits) >= 0x7FFF_FFFF_FFFF_FFFF
    ensures ContentLen(text + end) == -1
  {
    SpelledSize(text, digits, end);
  }

  predicate AllTokens(s: seq<byte>) {
    forall i :: 0 <= i < |s| ==> IsToken(s[i])
  }

  lemma {:induction false} TokenRuns(st: Scan, token: seq<byte>, more: seq<byte>)
    requires AllTokens(token) && (st == Name || st == Value)
    ensures Execute(st, token + more) == (Execute(st, more).0, |token| + Execute(st, more).1)
    decreases |token|
  {
    if token == [] {
      assert token + more == more;
    } else {
      assert (token + more)[0] == token[0] && (token + more)[1..] == token[1..] + more;
      TokenRuns(st, token[1..], more);
    }
  }

  /** One byte that leads from a state to the next, before a token. */
  lemma {:induction false} ByteThenToken(st: Scan, b: byte, next: Scan, token: seq<byte>, more: seq<byte>)
    requires Step(st, b) == next && st != Done && st != Bad && token != [] && AllTokens(token)
    requires next == NameStart || next == ValueStart
    ensures var run := if next == NameStart then Name else Value;
      Execute(st, [b] + (token + more)) == (Execute(run, more).0, 1 + |token| + Execute(run, more).1)
  {
    var run := if next == NameStart then Name else Value;
    var s := token + more;
    assert ([b] + s)[0] == b && ([b] + s)[1..] == s;
    assert s[0] == token[0] && s[1..] == token[1..] + more;
    TokenRuns(run, token[1..], more);
    assert Execute(next, s) == (Execute(run, s[1..]).0, 1 + Execute(run, s[1..]).1);
  }

  lemma {:induction false} CRLFRuns(st: Scan)
    requires st == Size || st == Name || st == Value
    ensures Execute(st, [13, 10]) == (Done, 2)
  {
    var end: seq<byte> := [13, 10];
    assert end[1..] == [10] && [10][1..] == [];
    assert Execute(Done, []) == (Done, 0);
    assert Execute(GotCR, [10]) == (Done, 1);
  }

  /** An extension `;name=value` changes nothing. */
  lemma {:induction false} ExtendedIsHeader(text: seq<byte>, digits: seq<nat>, name: seq<byte>, value: seq<byte>)
    requires text != [] && AllSpell(text, digits) && Worth(digits) < 0x8000_0000
    requires name != [] && value != [] && AllTokens(name) && AllTokens(value)
    ensures IsHeaderLine(text + ([59] + (name + ([61] + (value + [13, 10])))), Worth(digits))
  {
    CRLFRuns(Value);
    ByteThenToken(Name, 61, ValueStart, value, [13, 10]);
    ByteThenToken(Size, 59, NameStart, name, [61] + (value + [13, 10]));
    SpelledLine(text, digits, [59] + (name + ([61] + (value + [13, 10]))));
  }

  lemma {:induction false} UpperCaseLine()
    ensures IsHeaderLine([65, 13, 10], 10)
  {
    assert Worth([10]) == 10 by { assert Power(16, 0) == 1 && [10][1..] == []; }
    assert [65] + [13, 10] == [65 as byte, 13, 10];
    SpelledIsHeader([65], [10], [13, 10]);
  }

  /** For example a chunk of size A: ten bytes, whatever they are. */
  lemma {:induction false} UpperCaseChunk(data: seq<byte>, wire: seq<byte>)
    requires |data| == 10 && wire == [65, 13, 10] + (data + ([13, 10] + [48, 13, 10] + [13, 10]))
    ensures ReadBody([], wire, []) == Body(data)
  {
    var c := Chunk([65, 13, 10], data);
    UpperCaseLine();
    assert IsHeaderLine([48, 13, 10], 0) by {
      assert Worth([0]) == 0 by { assert [0][1..] == []; }
      assert [48] + [13, 10] == [48 as byte, 13, 10];
      SpelledIsHeader([48], [0], [13, 10]);
    }
    OneChunk(c, [48, 13, 10], wire);
  }

  lemma {:induction false} OneChunk(c: Chunk, last: seq<byte>, wire: seq<byte>)
    requires c.data != [] && IsHeaderLine(c.line, |c.data|) && IsHeaderLine(last, 0) && |wire| < INT32_BOUND
    requires wire == c.line + (c.data + ([13, 10] + last + [13, 10]))
    ensures ReadBody([], wire, []) == Body(c.data)
  {
    var chunks := [c];
    assert chunks[1..] == [] && ChunksOk([]) && AllData(chunks) == c.data + [] == c.data;
    assert Wire(true, chunks, last, [13, 10]) == [] + c.line + (c.data + Wire(false, [], last, [13, 10]));
    assert [] + c.line == c.line && wire + Concat([]) == wire;
    Reassembled(wire, [], chunks, last, [13, 10]);
  }

  /** The body is the data of the chunks, in their order. */
  lemma {:induction false} DataInOrder(a: seq<Chunk>, c: Chunk, b: seq<Chunk>)
    ensures AllData(a + [c] + b) == AllData(a) + c.data + AllData(b)
  {
    if a == [] {
      assert [] + [c] + b == [c] + b && ([c] + b)[1..] == b && [] + c.data == c.data;
    } else {
      assert (a + [c] + b)[0] == a[0] && (a + [c] + b)[1..] == a[1..] + [c] + b;
      DataInOrder(a[1..], c, b);
      AppendAssoc(a[0].data, AllData(a[1..]), c.data);
      AppendAssoc(a[0].data, AllData(a[1..]) + c.data, AllData(b));
    }
  }
}
