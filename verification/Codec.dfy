/** What the integer members of Buffer write and read, as functions on byte queues. */
module Codec {
  import opened Bytes

  /** The integer forms a Buffer can hold: `width` bytes big-endian, or a varint of
      `bits` bits, plain or zigzag. */
  datatype Kind =
    | Fixed(width: nat, signed: bool)
    | VarUint(bits: nat)
    | VarInt(bits: nat)
  {
    predicate Legal() {
      match this
      case Fixed(w, _) => w == 1 || w == 2 || w == 4 || w == 8
      case VarUint(bits) => bits == 32 || bits == 64
      case VarInt(bits) => bits == 32 || bits == 64
    }

    predicate Fits(v: int)
      requires Legal()
    {
      match this
      case Fixed(w, signed) => if signed then FitsSigned(8 * w, v) else 0 <= v < Pow2(8 * w)
      case VarUint(bits) => 0 <= v < Pow2(bits)
      case VarInt(bits) => FitsSigned(bits, v)
    }

    /** The most bytes a value of this kind takes. */
    function MaxBytes(): nat
      requires Legal()
    {
      match this
      case Fixed(w, _) => w
      case VarUint(bits) => if bits == 32 then 5 else 10
      case VarInt(bits) => if bits == 32 then 5 else 10
    }
  }

  predicate FitsSigned(bits: nat, v: int)
    requires bits > 0
  {
    0 <= v + Pow2(bits - 1) < Pow2(bits)
  }

  /** The low `bits` binary digits of `v` in two's complement: what is left of `v`
      after it is stored in an unsigned integer of that width. */
  function ToBits(bits: nat, v: int): nat {
    if bits == 0 then 0 else v % 2 + 2 * ToBits(bits - 1, v / 2)
  }

  function ToSigned(bits: nat, u: nat): int {
    if bits == 0 || u < Pow2(bits - 1) then u else u - Pow2(bits)
  }

  lemma {:induction false} ToBitsInRange(bits: nat, v: int)
    requires 0 <= v + Pow2(bits) && v < Pow2(bits)
    ensures ToBits(bits, v) == if v >= 0 then v else v + Pow2(bits)
  {
    if bits > 0 {
      ToBitsInRange(bits - 1, v / 2);
    }
  }

  lemma {:induction false} ToBitsIsModulo(bits: nat, v: int)
    ensures ToBits(bits, v) == v % Pow2(bits)
  {
    if bits > 0 {
      ToBitsIsModulo(bits - 1, v / 2);
      ModTwice(v, Pow2(bits - 1));
    }
  }

  lemma {:induction false} ModTwice(v: int, p: nat)
    requires p > 0
    ensures v % (2 * p) == v % 2 + 2 * ((v / 2) % p)
  {
    var q := v / 2 / p;
    assert v / 2 == p * q + (v / 2) % p;
    assert v == (2 * p) * q + (v % 2 + 2 * ((v / 2) % p));
    QuotientUnique(2 * p, v / (2 * p), v % (2 * p), q, v % 2 + 2 * ((v / 2) % p));
  }

  lemma {:induction false} TwosComplementRoundTrip(bits: nat, v: int)
    requires bits > 0 && FitsSigned(bits, v)
    ensures ToBits(bits, v) < Pow2(bits)
    ensures ToSigned(bits, ToBits(bits, v)) == v
  {
    ToBitsInRange(bits, v);
  }

  // ---- zigzag -------------------------------------------------------------

  /** Unsigned and signed arithmetic wrap at `bits` bits, also for the most negative number. */
  function EncodeZigzag(bits: nat, v: int): nat {
    if v < 0 then ToBits(bits, ToBits(bits, -v) * 2 - 1) else ToBits(bits, v * 2)
  }

  function DecodeZigzag(bits: nat, u: nat): int {
    ToSigned(bits, Xor(u / 2, ToBits(bits, -(u % 2))))
  }

  lemma {:induction false} ZigzagEncodes(bits: nat, v: int)
    requires bits > 0 && FitsSigned(bits, v)
    ensures EncodeZigzag(bits, v) == (if v < 0 then -2 * v - 1 else 2 * v) < Pow2(bits)
  {
    var m := Pow2(bits);
    assert -m <= 2 * v < m;
    if v < 0 {
      assert ToBits(bits, -v) == -v by { ToBitsInRange(bits, -v); }
      assert ToBits(bits, -2 * v - 1) == -2 * v - 1 by { ToBitsInRange(bits, -2 * v - 1); }
    } else {
      assert ToBits(bits, 2 * v) == 2 * v by { ToBitsInRange(bits, 2 * v); }
    }
  }

  lemma {:induction false} ZigzagDecodes(bits: nat, u: nat)
    requires bits > 0 && u < Pow2(bits)
    ensures DecodeZigzag(bits, u) == if u % 2 == 1 then -(u / 2) - 1 else u / 2
  {
    if u % 2 == 1 {
      ToBitsInRange(bits, -1);
      XorOnes(u / 2, bits);
    } else {
      ToBitsInRange(bits, 0);
      XorZero(u / 2);
    }
  }

  /** Zigzag maps the signed range one to one onto the unsigned one, alternating signs,
      the most negative number included. */
  lemma {:induction false} ZigzagRoundTrip(bits: nat, v: int)
    requires bits > 0 && FitsSigned(bits, v)
    ensures EncodeZigzag(bits, v) < Pow2(bits)
    ensures DecodeZigzag(bits, EncodeZigzag(bits, v)) == v
  {
    ZigzagEncodes(bits, v);
    var u := if v < 0 then -2 * v - 1 else 2 * v;
    assert DecodeZigzag(bits, u) == v by {
      ZigzagDecodes(bits, u);
    }
  }

  // ---- varint -------------------------------------------------------------

  function EncodeVar(v: nat): (s: seq<byte>)
    ensures |s| >= 1
  {
    if v < 0x80 then [v as byte] else [(v % 0x80 + 0x80) as byte] + EncodeVar(v / 0x80)
  }

  /** Least significant group first, seven bits a byte, and the top bit set on all but the last. */
  lemma {:induction false} EncodeVarAt(v: nat, i: nat)
    requires i < |EncodeVar(v)|
    ensures EncodeVar(v)[i] as nat % 128 == DigitOf(v, 128, i)
    ensures EncodeVar(v)[i] >= 128 <==> i + 1 < |EncodeVar(v)|
    decreases i
  {
    DigitStep(v, 128, i);
    if i > 0 {
      EncodeVarAt(v / 128, i - 1);
    }
  }

  /** One unsigned byte, or 0 with nothing consumed when the queue is empty. */
  function ReadByte(s: seq<byte>): (nat, seq<byte>) {
    if s == [] then (0, []) else (s[0] as nat, s[1..])
  }

  /** The reading loop: `acc` holds the bits below `i`; bits shifted past the width are lost. */
  function DecodeVar(acc: nat, i: nat, s: seq<byte>, bits: nat): (nat, seq<byte>)
    decreases bits - i
  {
    if i >= bits then (acc, s)
    else
      var (x, rest) := ReadByte(s);
      var acc' := Or(acc, ToBits(bits, Shl(x % 0x80, i)));
      if x < 0x80 then (acc', rest) else DecodeVar(acc', i + 7, rest, bits)
  }

  lemma {:induction false} EncodeVarLength(v: nat, k: nat)
    requires k >= 1 && v < Pow2(7 * k)
    ensures |EncodeVar(v)| <= k
  {
    if v >= 0x80 {
      assert Pow2(7) == 0x80;
      Pow2Add(7, 7 * (k - 1));
      if k == 1 {
        assert false;
      }
      EncodeVarLength(v / 0x80, k - 1);
    }
  }

  lemma {:induction false} VarRoundTrip(acc: nat, i: nat, v: nat, rest: seq<byte>, bits: nat)
    requires i < bits && acc < Pow2(i) && v < Pow2(bits - i)
    ensures DecodeVar(acc, i, EncodeVar(v) + rest, bits) == (acc + Shl(v, i), rest)
    decreases v
  {
    var s := EncodeVar(v) + rest;
    var low := v % 0x80;
    assert s[0] as nat % 0x80 == low;
    OrShifted(acc, i, low, bits);
    if v < 0x80 {
      assert s[1..] == rest;
    } else {
      assert s[1..] == EncodeVar(v / 0x80) + rest;
      VarStep(acc, i, v, bits);
      VarRoundTrip(acc + Shl(low, i), i + 7, v / 0x80, rest, bits);
    }
  }

  /** One group of bits lands, unclipped, above the bits read so far. */
  lemma {:induction false} OrShifted(acc: nat, i: nat, low: nat, bits: nat)
    requires i < bits && acc < Pow2(i) && low < Pow2(bits - i)
    ensures Or(acc, ToBits(bits, Shl(low, i))) == acc + Shl(low, i)
  {
    ShlBound(low, bits - i, i);
    ToBitsInRange(bits, Shl(low, i));
    OrDisjoint(acc, low, i);
  }

  /** The remaining groups fit above the group just read, and add up to the whole. */
  lemma {:induction false} VarStep(acc: nat, i: nat, v: nat, bits: nat)
    requires i < bits && acc < Pow2(i) && 0x80 <= v < Pow2(bits - i)
    ensures i + 7 < bits && v / 0x80 < Pow2(bits - i - 7)
    ensures acc + Shl(v % 0x80, i) < Pow2(i + 7)
    ensures Shl(v % 0x80, i) + Shl(v / 0x80, i + 7) == Shl(v, i)
  {
    var low, high := v % 0x80, v / 0x80;
    assert Pow2(7) == 0x80;
    if bits - i <= 7 {
      Pow2Monotone(bits - i, 7);
      assert false;
    }
    Pow2Add(7, bits - i - 7);
    ShlBound(low, 7, i);
    ShlSeven(high);
    ShlShl(high, 7, i);
    ShlAdd(low, Shl(high, 7), i);
  }

  lemma {:induction false} ShlSeven(x: nat)
    ensures Shl(x, 7) == 0x80 * x
  {
    assert Shl(x, 1) == 2 * x;
    assert Shl(x, 2) == 4 * x;
    assert Shl(x, 3) == 8 * x;
    assert Shl(x, 4) == 16 * x;
    assert Shl(x, 5) == 32 * x;
    assert Shl(x, 6) == 64 * x;
  }

  lemma {:induction false} Pow2Monotone(a: nat, b: nat)
    requires a <= b
    ensures Pow2(a) <= Pow2(b)
  {
    if a < b {
      Pow2Monotone(a, b - 1);
    }
  }

  /** For any input whatsoever a varint read takes a prefix of the queue, of at most
      one byte for every seven bits begun. */
  lemma {:induction false} DecodeVarConsumes(acc: nat, i: nat, s: seq<byte>, bits: nat, k: nat)
    requires bits <= i + 7 * k
    ensures var rest := DecodeVar(acc, i, s, bits).1;
      |rest| <= |s| <= |rest| + k && rest == s[|s| - |rest|..]
    decreases k
  {
    if i < bits {
      var (x, rest) := ReadByte(s);
      if x >= 0x80 {
        DecodeVarConsumes(Or(acc, ToBits(bits, Shl(x % 0x80, i))), i + 7, rest, bits, k - 1);
      }
    }
  }

  /** The number spelt by the bytes up to the first without the top bit. */
  function Groups(s: seq<byte>): nat {
    if s == [] then 0
    else if s[0] < 128 then s[0] as nat
    else s[0] as nat % 128 + 128 * Groups(s[1..])
  }

  /** On any bytes, truncated and over-long ones included, a varint read gives that number
      modulo 2^bits. */
  lemma {:induction false} DecodeVarValue(s: seq<byte>, bits: nat)
    requires bits > 0
    ensures DecodeVar(0, 0, s, bits).0 == Groups(s) % Pow2(bits)
  {
    DecodeVarFrom(0, 0, s, bits);
    ToBitsIsModulo(bits, Groups(s));
  }

  predicate ReadsGroups(acc: nat, i: nat, s: seq<byte>, bits: nat)
    requires i < bits
  {
    DecodeVar(acc, i, s, bits).0 == acc + Shl(ToBits(bits - i, Groups(s)), i)
  }

  lemma {:induction false} DecodeVarFrom(acc: nat, i: nat, s: seq<byte>, bits: nat)
    requires i < bits && acc < Pow2(i)
    ensures ReadsGroups(acc, i, s, bits)
    decreases |s|
  {
    if s == [] || s[0] < 0x80 {
      LastGroup(acc, i, s, bits);
    } else if i + 7 >= bits {
      ClippedGroup(acc, i, s, bits);
    } else {
      var acc' := GroupAdded(acc, i, s[0] as nat % 0x80);
      DecodeVarFrom(acc', i + 7, s[1..], bits);
      GroupGoesOn(acc, i, s, bits, acc');
    }
  }

  lemma {:induction false} GroupAdded(acc: nat, i: nat, low: nat) returns (acc': nat)
    requires acc < Pow2(i) && low < 128
    ensures acc' == acc + Shl(low, i) < Pow2(i + 7)
  {
    assert Pow2(7) == 128;
    ShlBound(low, 7, i);
    acc' := acc + Shl(low, i);
  }

  lemma {:induction false} GroupsSplit(s: seq<byte>, low: nat)
    requires s != [] && s[0] >= 0x80 && low == s[0] as nat % 0x80
    ensures low < Pow2(7) && Groups(s) == low + Shl(Groups(s[1..]), 7)
  {
    assert Pow2(7) == 128;
    ShlSeven(Groups(s[1..]));
  }

  lemma {:induction false} LastGroup(acc: nat, i: nat, s: seq<byte>, bits: nat)
    requires i < bits && acc < Pow2(i) && (s == [] || s[0] < 0x80)
    ensures ReadsGroups(acc, i, s, bits)
  {
    var x := ReadByte(s).0;
    assert x % 0x80 == x == Groups(s);
    OrClipped(acc, i, x, bits);
  }

  lemma {:induction false} ClippedGroup(acc: nat, i: nat, s: seq<byte>, bits: nat)
    requires i < bits <= i + 7 && acc < Pow2(i) && s != [] && s[0] >= 0x80
    ensures ReadsGroups(acc, i, s, bits)
  {
    var low := s[0] as nat % 0x80;
    GroupsSplit(s, low);
    OrClipped(acc, i, low, bits);
    ToBitsLow(bits - i, 7, low, Groups(s[1..]));
  }

  lemma {:induction false} GroupGoesOn(acc: nat, i: nat, s: seq<byte>, bits: nat, acc': nat)
    requires i + 7 < bits && acc < Pow2(i) && s != [] && s[0] >= 0x80 && acc' == acc + Shl(s[0] as nat % 0x80, i)
    requires ReadsGroups(acc', i + 7, s[1..], bits)
    ensures ReadsGroups(acc, i, s, bits)
  {
    var low := s[0] as nat % 0x80;
    GroupsSplit(s, low);
    NextGroup(acc, i, low, Groups(s[1..]), bits);
    OrClipped(acc, i, low, bits);
  }

  lemma {:induction false} OrClipped(acc: nat, i: nat, low: nat, bits: nat)
    requires i < bits && acc < Pow2(i)
    ensures Or(acc, ToBits(bits, Shl(low, i))) == acc + Shl(ToBits(bits - i, low), i)
  {
    ToBitsShl(bits, low, i);
    OrDisjoint(acc, ToBits(bits - i, low), i);
  }

  lemma {:induction false} ToBitsShl(bits: nat, v: nat, i: nat)
    requires i <= bits
    ensures ToBits(bits, Shl(v, i)) == Shl(ToBits(bits - i, v), i)
    decreases i
  {
    if i > 0 {
      assert Shl(v, i) % 2 == 0 && Shl(v, i) / 2 == Shl(v, i - 1);
      ToBitsShl(bits - 1, v, i - 1);
    }
  }

  /** Bits shifted past the width do not count. */
  lemma {:induction false} ToBitsLow(bits: nat, k: nat, low: nat, high: nat)
    requires bits <= k
    ensures ToBits(bits, low + Shl(high, k)) == ToBits(bits, low)
    decreases bits
  {
    if bits > 0 {
      Halves(Shl(high, k - 1), low);
      ToBitsLow(bits - 1, k - 1, low / 2, high);
    }
  }

  lemma {:induction false} ToBitsSplit(bits: nat, k: nat, low: nat, high: nat)
    requires k <= bits && low < Pow2(k)
    ensures ToBits(bits, low + Shl(high, k)) == low + Shl(ToBits(bits - k, high), k)
    decreases k
  {
    if k > 0 {
      Halves(Shl(high, k - 1), low);
      ToBitsSplit(bits - 1, k - 1, low / 2, high);
    }
  }

  lemma {:induction false} NextGroup(acc: nat, i: nat, low: nat, high: nat, bits: nat)
    requires i + 7 < bits && acc < Pow2(i) && low < Pow2(7)
    ensures ToBits(bits - i, low) == low
    ensures acc + Shl(ToBits(bits - i, low + Shl(high, 7)), i)
         == acc + Shl(low, i) + Shl(ToBits(bits - i - 7, high), i + 7)
  {
    var t := ToBits(bits - i - 7, high);
    Pow2Monotone(7, bits - i);
    ToBitsInRange(bits - i, low);
    ToBitsSplit(bits - i, 7, low, high);
    ShlAdd(low, Shl(t, 7), i);
    ShlShl(t, 7, i);
  }

  // ---- mixed sequences ----------------------------------------------------

  function Encode(k: Kind, v: int): seq<byte> {
    match k
    case Fixed(w, _) => BigEndian(ToBits(8 * w, v), w)
    case VarUint(_) => if v < 0 then [] else EncodeVar(v)
    case VarInt(bits) => EncodeVar(EncodeZigzag(bits, v))
  }

  /** A fixed-width read of a queue that is too short gives 0 and takes nothing. */
  function Decode(k: Kind, s: seq<byte>): (int, seq<byte>) {
    match k
    case Fixed(w, signed) =>
      if |s| < w then (0, s)
      else
        var u := FromBigEndian(s[..w]);
        (if signed then ToSigned(8 * w, u) else u, s[w..])
    case VarUint(bits) => DecodeVar(0, 0, s, bits)
    case VarInt(bits) =>
      var (u, rest) := DecodeVar(0, 0, s, bits);
      (DecodeZigzag(bits, u), rest)
  }

  lemma {:induction false} EncodeFitsTemporary(k: Kind, v: int)
    requires k.Legal() && k.Fits(v)
    ensures 1 <= |Encode(k, v)| <= k.MaxBytes()
  {
    match k
    case Fixed(_, _) =>
    case VarUint(bits) => VarLength(v, bits);
    case VarInt(bits) => ZigzagRoundTrip(bits, v); VarLength(EncodeZigzag(bits, v), bits);
  }

  lemma {:induction false} VarLength(v: nat, bits: nat)
    requires (bits == 32 || bits == 64) && v < Pow2(bits)
    ensures |EncodeVar(v)| <= if bits == 32 then 5 else 10
  {
    var k := if bits == 32 then 5 else 10;
    Pow2Monotone(bits, 7 * k);
    EncodeVarLength(v, k);
  }

  lemma {:induction false} RoundTrip(k: Kind, v: int, rest: seq<byte>)
    requires k.Legal() && k.Fits(v)
    ensures Decode(k, Encode(k, v) + rest) == (v, rest)
  {
    match k
    case Fixed(w, signed) =>
      FixedRoundTrip(w, signed, v, rest);
    case VarUint(bits) =>
      WholeVarRoundTrip(v, rest, bits);
    case VarInt(bits) =>
      ZigzagRoundTrip(bits, v);
      WholeVarRoundTrip(EncodeZigzag(bits, v), rest, bits);
  }

  lemma {:induction false} WholeVarRoundTrip(v: nat, rest: seq<byte>, bits: nat)
    requires 0 < bits && v < Pow2(bits)
    ensures DecodeVar(0, 0, EncodeVar(v) + rest, bits) == (v, rest)
  {
    VarRoundTrip(0, 0, v, rest, bits);
  }

  lemma {:induction false} FixedRoundTrip(w: nat, signed: bool, v: int, rest: seq<byte>)
    requires Fixed(w, signed).Legal() && Fixed(w, signed).Fits(v)
    ensures Decode(Fixed(w, signed), BigEndian(ToBits(8 * w, v), w) + rest) == (v, rest)
  {
    var bits := 8 * w;
    var u := ToBits(bits, v);
    assert u < Pow2(bits) && v == if signed then ToSigned(bits, u) else u by {
      ToBitsInRange(bits, v);
    }
    BigEndianRoundTrip(u, w);
    var s := BigEndian(u, w) + rest;
    assert s[..w] == BigEndian(u, w) && s[w..] == rest;
  }

  datatype Item = Item(kind: Kind, value: int) {
    predicate Ok() {
      kind.Legal() && kind.Fits(value)
    }
  }

  predicate AllOk(items: seq<Item>) {
    items == [] || (items[0].Ok() && AllOk(items[1..]))
  }

  function Kinds(items: seq<Item>): seq<Kind> {
    if items == [] then [] else [items[0].kind] + Kinds(items[1..])
  }

  function Values(items: seq<Item>): seq<int> {
    if items == [] then [] else [items[0].value] + Values(items[1..])
  }

  function EncodeAll(items: seq<Item>): seq<byte> {
    if items == [] then []
    else Encode(items[0].kind, items[0].value) + EncodeAll(items[1..])
  }

  /** Reads one value of each kind in turn. */
  function DecodeAll(kinds: seq<Kind>, s: seq<byte>): (seq<int>, seq<byte>) {
    if kinds == [] then ([], s)
    else
      var (v, rest) := Decode(kinds[0], s);
      var (vs, rest') := DecodeAll(kinds[1..], rest);
      ([v] + vs, rest')
  }

  lemma {:induction false} FirstItem(it: Item, kinds: seq<Kind>, more: seq<byte>)
    requires it.Ok()
    ensures var (vs, rest) := DecodeAll(kinds, more);
      DecodeAll([it.kind] + kinds, Encode(it.kind, it.value) + more) == ([it.value] + vs, rest)
  {
    assert ([it.kind] + kinds)[1..] == kinds;
    RoundTrip(it.kind, it.value, more);
  }

  /** Writing any mixed sequence of integers and reading it back gives the same integers
      and leaves what followed. */
  lemma {:induction false} MixedRoundTrip(items: seq<Item>, rest: seq<byte>)
    requires AllOk(items)
    ensures DecodeAll(Kinds(items), EncodeAll(items) + rest) == (Values(items), rest)
  {
    if items == [] {
      assert EncodeAll(items) + rest == rest;
    } else {
      var it, tail := items[0], items[1..];
      var more := EncodeAll(tail) + rest;
      MixedRoundTrip(tail, rest);
      FirstItem(it, Kinds(tail), more);
      AppendAssoc(Encode(it.kind, it.value), EncodeAll(tail), rest);
    }
  }
}
