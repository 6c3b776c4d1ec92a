/** Bytes, the bit operators the library uses on them, and big-endian layout.
    The bit operators are written on unbounded naturals, one binary digit at a time,
    so the same definition serves the 8-bit mask and the 32- and 64-bit integer codecs. */
module Bytes {

  newtype byte = x: int | 0 <= x < 256

  datatype Option<+T> = None | Some(value: T)

  lemma {:induction false} AppendAssoc<T>(a: seq<T>, b: seq<T>, c: seq<T>)
    ensures a + b + c == a + (b + c)
  {
  }

  lemma {:induction false} TakeAppend<T>(a: seq<T>, b: seq<T>, n: nat)
    requires n <= |a| + |b|
    ensures (a + b)[..n] == if n < |a| then a[..n] else a + b[..n - |a|]
  {
  }

  lemma {:induction false} CutAt<T>(a: seq<T>, x: T, b: seq<T>)
    ensures var s := a + [x] + b; s[..|a|] == a && s[|a|] == x && s[|a| + 1..] == b
  {
  }

  /** A sequence that begins with `head`, in two parts of which the first holds `head`. */
  lemma {:induction false} SplitHead<T>(a: seq<T>, b: seq<T>, head: seq<T>, more: seq<T>)
    requires a + b == head + more && |head| <= |a|
    ensures a == head + a[|head|..] && a[|head|..] + b == more
  {
    assert a[..|head|] == (a + b)[..|head|] == (head + more)[..|head|] == head;
    assert a[|head|..] + b == (a + b)[|head|..] == (head + more)[|head|..] == more;
  }

  /** And in two parts of which the first does not reach beyond `head`. */
  lemma {:induction false} SplitWithin<T>(a: seq<T>, b: seq<T>, head: seq<T>, more: seq<T>)
    requires a + b == head + more && |a| <= |head|
    ensures a == head[..|a|] && b == head[|a|..] + more
  {
    assert a == (a + b)[..|a|] == (head + more)[..|a|] == head[..|a|];
    assert b == (a + b)[|a|..] == (head + more)[|a|..] == head[|a|..] + more;
  }

  /** The pieces put together. */
  function Concat(pieces: seq<seq<byte>>): seq<byte> {
    if pieces == [] then [] else pieces[0] + Concat(pieces[1..])
  }

  function Power(b: nat, k: nat): (p: nat)
    ensures b > 0 ==> p > 0
  {
    if k == 0 then 1 else b * Power(b, k - 1)
  }

  /** The digit of `v` in base `b` that is worth b^k. */
  function DigitOf(v: nat, b: nat, k: nat): nat
    requires b > 0
  {
    v / Power(b, k) % b
  }

  lemma {:induction false} DivDiv(v: nat, a: nat, b: nat)
    requires a > 0 && b > 0
    ensures v / a / b == v / (a * b)
  {
    var q, r := v / a / b, v / a % b;
    Regroup(v, a, b, q, r, v % a);
    RemainderFits(a, b, r, v % a);
    DivUnique(v, a * b, q, a * r + v % a);
  }

  lemma {:induction false} Regroup(v: nat, a: nat, b: nat, q: nat, r: nat, low: nat)
    requires v == a * (b * q + r) + low
    ensures v == (a * b) * q + (a * r + low)
  {
    assert a * (b * q + r) == a * (b * q) + a * r;
    assert a * (b * q) == (a * b) * q;
  }

  lemma {:induction false} RemainderFits(a: nat, b: nat, r: nat, low: nat)
    requires low < a && r < b
    ensures a * r + low < a * b
  {
    assert a * (r + 1) <= a * b;
  }

  lemma {:induction false} DivUnique(v: nat, d: nat, q: nat, r: nat)
    requires v == d * q + r && r < d
    ensures v / d == q
  {
    QuotientUnique(d, v / d, v % d, q, r);
  }

  lemma {:induction false} QuotientUnique(d: nat, q: int, r: nat, q': int, r': nat)
    requires d * q + r == d * q' + r' && r < d && r' < d
    ensures q == q' && r == r'
  {
    assert d * (q - q') == r' - r;
    MultiplesApart(d, q - q');
  }

  lemma {:induction false} MultiplesApart(d: nat, k: int)
    ensures k >= 1 ==> d * k >= d
    ensures k <= -1 ==> d * k + d <= 0
  {
  }

  lemma {:induction false} DigitStep(v: nat, b: nat, k: nat)
    requires b > 0
    ensures DigitOf(v, b, k) == if k == 0 then v % b else DigitOf(v / b, b, k - 1)
  {
    if k > 0 {
      DivDiv(v, b, Power(b, k - 1));
    }
  }

  function Pow2(k: nat): (p: nat)
    ensures p >= 1
  {
    if k == 0 then 1 else 2 * Pow2(k - 1)
  }

  function Min(a: int, b: int): int {
    if a <= b then a else b
  }

  /** Bitwise exclusive or. */
  function Xor(a: nat, b: nat): nat
    decreases a + b
  {
    if a == 0 && b == 0 then 0 else (a + b) % 2 + 2 * Xor(a / 2, b / 2)
  }

  /** Bitwise or. */
  function Or(a: nat, b: nat): nat
    decreases a + b
  {
    if a == 0 && b == 0 then 0
    else (if a % 2 == 1 || b % 2 == 1 then 1 else 0) + 2 * Or(a / 2, b / 2)
  }

  lemma {:induction false} XorBound(a: nat, b: nat, k: nat)
    requires a < Pow2(k) && b < Pow2(k)
    ensures Xor(a, b) < Pow2(k)
  {
    if k > 0 && (a != 0 || b != 0) {
      XorBound(a / 2, b / 2, k - 1);
    }
  }

  /** Xor works digit by digit. */
  lemma {:induction false} XorSplit(a: nat, p: nat, b: nat, q: nat)
    requires p < 2 && q < 2
    ensures Xor(2 * a + p, 2 * b + q) == 2 * Xor(a, b) + if p == q then 0 else 1
  {
    var x, y := 2 * a + p, 2 * b + q;
    assert x / 2 == a && y / 2 == b;
    assert (x + y) % 2 == if p == q then 0 else 1 by {
      assert x + y == 2 * (a + b) + (p + q);
    }
  }

  lemma {:induction false} XorHalves(a: nat, b: nat)
    ensures Xor(a, b) % 2 == (if a % 2 == b % 2 then 0 else 1) && Xor(a, b) / 2 == Xor(a / 2, b / 2)
  {
    XorSplit(a / 2, a % 2, b / 2, b % 2);
    Halves(Xor(a / 2, b / 2), if a % 2 == b % 2 then 0 else 1);
  }

  lemma {:induction false} Halves(high: nat, low: nat)
    ensures (2 * high + low) % 2 == low % 2 && (2 * high + low) / 2 == high + low / 2
  {
  }

  /** Bit by bit: 1 exactly where the two differ. */
  lemma {:induction false} XorDigit(a: nat, b: nat, k: nat)
    ensures DigitOf(Xor(a, b), 2, k) == if DigitOf(a, 2, k) == DigitOf(b, 2, k) then 0 else 1
    decreases k
  {
    XorHalves(a, b);
    DigitStep(a, 2, k);
    DigitStep(b, 2, k);
    DigitStep(Xor(a, b), 2, k);
    if k > 0 {
      XorDigit(a / 2, b / 2, k - 1);
    }
  }

  lemma {:induction false} XorTwice(a: nat, b: nat)
    ensures Xor(Xor(a, b), b) == a
    decreases a + b
  {
    if a != 0 || b != 0 {
      XorTwice(a / 2, b / 2);
      XorHalves(a, b);
      XorHalves(Xor(a, b), b);
    }
  }

  /** Exclusive or with all ones is complement. */
  lemma {:induction false} XorOnes(a: nat, k: nat)
    requires a < Pow2(k)
    ensures Xor(a, Pow2(k) - 1) == Pow2(k) - 1 - a
  {
    if k > 0 {
      var a', ones := a / 2, Pow2(k - 1) - 1;
      XorOnes(a', k - 1);
      XorSplit(a', a % 2, ones, 1);
      assert Pow2(k) - 1 == 2 * ones + 1 && a == 2 * a' + a % 2;
    }
  }

  lemma {:induction false} XorZero(a: nat)
    ensures Xor(a, 0) == a
  {
    if a > 0 {
      XorZero(a / 2);
    }
  }

  lemma {:induction false} OrZero(a: nat)
    ensures Or(0, a) == a
  {
    if a > 0 {
      OrZero(a / 2);
    }
  }

  /** `x << k`. */
  function Shl(x: nat, k: nat): nat {
    if k == 0 then x else 2 * Shl(x, k - 1)
  }

  /** Or-ing a number into bits that are still zero adds it. */
  lemma {:induction false} OrDisjoint(a: nat, b: nat, k: nat)
    requires a < Pow2(k)
    ensures Or(a, Shl(b, k)) == a + Shl(b, k)
  {
    if k == 0 {
      OrZero(b);
    } else {
      OrDisjoint(a / 2, b, k - 1);
      assert Shl(b, k) / 2 == Shl(b, k - 1) && Shl(b, k) % 2 == 0;
      OrDigits(a, Shl(b, k));
    }
  }

  lemma {:induction false} OrDigits(a: nat, b: nat)
    requires b % 2 == 0
    ensures Or(a, b) == a % 2 + 2 * Or(a / 2, b / 2)
  {
  }

  lemma {:induction false} ShlAdd(x: nat, y: nat, k: nat)
    ensures Shl(x + y, k) == Shl(x, k) + Shl(y, k)
  {
    if k > 0 {
      ShlAdd(x, y, k - 1);
    }
  }

  lemma {:induction false} ShlShl(x: nat, j: nat, k: nat)
    ensures Shl(Shl(x, j), k) == Shl(x, j + k)
  {
    if k > 0 {
      ShlShl(x, j, k - 1);
    }
  }

  /** A number of `n` bits shifted left by `k` has n + k bits. */
  lemma {:induction false} ShlBound(x: nat, n: nat, k: nat)
    requires x < Pow2(n)
    ensures Shl(x, k) <= Pow2(n + k) - Pow2(k)
  {
    if k > 0 {
      ShlBound(x, n, k - 1);
    }
  }

  function XorByte(a: byte, b: byte): byte {
    assert Pow2(8) == 256;
    XorBound(a as nat, b as nat, 8);
    Xor(a as nat, b as nat) as byte
  }

  lemma {:induction false} XorByteDigit(a: byte, b: byte, k: nat)
    ensures DigitOf(XorByte(a, b) as nat, 2, k) == if DigitOf(a as nat, 2, k) == DigitOf(b as nat, 2, k) then 0 else 1
  {
    XorDigit(a as nat, b as nat, k);
  }

  lemma XorByteTwice(a: byte, b: byte)
    ensures XorByte(XorByte(a, b), b) == a
  {
    XorTwice(a as nat, b as nat);
  }

  /** The low `w` bytes of `v`, most significant first. */
  function BigEndian(v: nat, w: nat): (s: seq<byte>)
    ensures |s| == w
  {
    if w == 0 then [] else BigEndian(v / 256, w - 1) + [(v % 256) as byte]
  }

  /** The byte at `i` is the one worth 256^(w-1-i). */
  lemma {:induction false} BigEndianAt(v: nat, w: nat, i: nat)
    requires i < w
    ensures BigEndian(v, w)[i] as nat == DigitOf(v, 256, w - 1 - i)
  {
    DigitStep(v, 256, w - 1 - i);
    if i < w - 1 {
      BigEndianAt(v / 256, w - 1, i);
    }
  }

  function FromBigEndian(s: seq<byte>): nat {
    if s == [] then 0 else 256 * FromBigEndian(s[..|s| - 1]) + s[|s| - 1] as nat
  }

  lemma {:induction false} BigEndianRoundTrip(v: nat, w: nat)
    requires v < Pow2(8 * w)
    ensures FromBigEndian(BigEndian(v, w)) == v
  {
    if w > 0 {
      assert Pow2(8 * w) == 256 * Pow2(8 * (w - 1)) by { Pow2Add(8, 8 * (w - 1)); assert Pow2(8) == 256; }
      BigEndianRoundTrip(v / 256, w - 1);
      assert BigEndian(v, w)[..w - 1] == BigEndian(v / 256, w - 1);
    }
  }

  lemma {:induction false} Pow2Add(a: nat, b: nat)
    ensures Pow2(a + b) == Pow2(a) * Pow2(b)
  {
    if a > 0 {
      Pow2Add(a - 1, b);
    }
  }
}
