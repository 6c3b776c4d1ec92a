/** The websocket format byte by byte: what stands where in a frame, and what a message is made
    of, in terms of single bits, bytes and fragments. */
module WebSocketWire {
  import opened Bytes
  import opened WebSocket
  import WebSocketCuts

  // ---- a frame --------------------------------------------------------------

  /** Where the mask begins. */
  function MaskAt(size: nat): nat {
    2 + if size < 126 then 0 else if size < 65536 then 2 else 8
  }

  lemma {:induction false} FrameLayout(f: Fragment, fin: bool)
    ensures var w, n := EncodeFrame(f, fin), MaskAt(|f.data|);
      && |w| == n + 32 + |f.data|
      && w[..2] == HeadBytes(HeadOf(f, fin)) && w[2..n] == LengthBytes(|f.data|)
      && w[n..n + 32] == f.mask && w[n + 32..] == Masked(f.data, f.mask)
  {
    Layout(HeadBytes(HeadOf(f, fin)), LengthBytes(|f.data|), f.mask, Masked(f.data, f.mask));
  }

  lemma {:induction false} Layout(a: seq<byte>, b: seq<byte>, c: seq<byte>, d: seq<byte>)
    ensures var w := a + b + c + d;
      && w[..|a|] == a && w[|a|..|a| + |b|] == b
      && w[|a| + |b|..|a| + |b| + |c|] == c && w[|a| + |b| + |c|..] == d
  {
  }

  /** fin and opcode in the first byte; in the second the mask bit, always set, and the size or
      the code of the length form. */
  lemma {:induction false} HeadOnTheWire(f: Fragment, fin: bool)
    requires f.opcode < 16
    ensures var w, size := EncodeFrame(f, fin), |f.data|;
      && w[0] as nat == (if fin then 1 else 0) + 16 * f.opcode
      && w[1] as nat == 1 + 2 * (if size < 126 then size else if size < 65536 then 126 else 127)
  {
    FrameLayout(f, fin);
    var w := EncodeFrame(f, fin);
    assert w[0] == w[..2][0] && w[1] == w[..2][1];
  }

  /** The length form is the size, most significant byte first. */
  lemma {:induction false} LengthOnTheWire(f: Fragment, fin: bool, i: nat)
    requires 2 <= i < MaskAt(|f.data|)
    ensures EncodeFrame(f, fin)[i] as nat == DigitOf(|f.data|, 256, MaskAt(|f.data|) - 1 - i)
  {
    FrameLayout(f, fin);
    var n := MaskAt(|f.data|);
    assert EncodeFrame(f, fin)[i] == EncodeFrame(f, fin)[2..n][i - 2];
    BigEndianAt(|f.data|, n - 2, i - 2);
  }

  lemma {:induction false} MaskedDigit(data: seq<byte>, mask: seq<byte>, i: nat, k: nat)
    requires |mask| == 32 && i < |data|
    ensures DigitOf(Masked(data, mask)[i] as nat, 2, k)
         == if DigitOf(data[i] as nat, 2, k) == DigitOf(mask[i % 32] as nat, 2, k) then 0 else 1
  {
    XorByteDigit(data[i], mask[i % 32], k);
  }

  /** The mask stands behind the length, and each payload byte has exactly the bits in which the
      data byte and its mask byte, taken cyclically, differ. */
  lemma {:induction false} PayloadOnTheWire(f: Fragment, fin: bool, i: nat, k: nat)
    requires i < |f.data|
    ensures var w, n := EncodeFrame(f, fin), MaskAt(|f.data|);
      && |w| == n + 32 + |f.data| && w[n..n + 32] == f.mask
      && DigitOf(w[n + 32 + i] as nat, 2, k)
         == if DigitOf(f.data[i] as nat, 2, k) == DigitOf(f.mask[i % 32] as nat, 2, k) then 0 else 1
  {
    FrameLayout(f, fin);
    var w, n := EncodeFrame(f, fin), MaskAt(|f.data|);
    assert w[n + 32 + i] == w[n + 32..][i];
    MaskedDigit(f.data, f.mask, i, k);
  }

  /** A head is passed over exactly when its opcode is none of the three. */
  lemma {:induction false} OtherOpcodesAreSkipped(s: seq<byte>)
    requires |s| >= 2
    ensures ReadFrame(s).Skipped? <==> s[0] / 16 != 1 && s[0] / 16 != 2 && s[0] / 16 != 3
    ensures ReadFrame(s).Frame? ==> s[1] % 2 == 1
  {
  }

  // ---- a message ------------------------------------------------------------

  /** The opcode reported is that of the first fragment whose opcode is not 1 (nor 0, which no
      data frame has); 0 when there is none. */
  lemma {:induction false} FirstOpcodeIsReported(fs: seq<Fragment>, i: nat)
    requires i <= |fs| && forall j :: 0 <= j < i ==> fs[j].opcode == 1
    requires i < |fs| ==> fs[i].opcode > 1
    ensures ReportedOpcode(0, fs) == if i < |fs| then fs[i].opcode else 0
    decreases |fs|
  {
    if i > 0 {
      FirstOpcodeIsReported(fs[1..], i - 1);
    } else if fs != [] {
      OpcodeStays(fs[0].opcode, fs[1..]);
    }
  }

  lemma {:induction false} OpcodeStays(opcode: nat, fs: seq<Fragment>)
    requires opcode > 0
    ensures ReportedOpcode(opcode, fs) == opcode
    decreases |fs|
  {
    if fs != [] {
      OpcodeStays(opcode, fs[1..]);
    }
  }

  /** The data are those of the fragments, in their order. */
  lemma {:induction false} JoinedInOrder(a: seq<Fragment>, f: Fragment, b: seq<Fragment>)
    ensures Joined(a + [f] + b) == Joined(a) + f.data + Joined(b)
  {
    if a == [] {
      assert [] + [f] + b == [f] + b && ([f] + b)[1..] == b && [] + f.data == f.data;
    } else {
      assert (a + [f] + b)[0] == a[0] && (a + [f] + b)[1..] == a[1..] + [f] + b;
      JoinedInOrder(a[1..], f, b);
      AppendAssoc(a[0].data, Joined(a[1..]), f.data);
      AppendAssoc(a[0].data, Joined(a[1..]) + f.data, Joined(b));
    }
  }

  // ---- a stream -------------------------------------------------------------

  lemma {:induction false} WholesInOrder(msgs: seq<seq<Fragment>>, i: nat)
    requires i < |msgs|
    ensures |Wholes(msgs)| == |msgs| && Wholes(msgs)[i] == Whole(msgs[i])
    decreases |msgs|
  {
    if i > 0 {
      WholesInOrder(msgs[1..], i - 1);
    } else if |msgs| > 1 {
      WholesInOrder(msgs[1..], 0);
    } else {
      assert Wholes(msgs[1..]) == [];
    }
  }

  /** The messages counted as whole are those that end within the first `n` bytes, and the
      overhang is what is left of the bytes. */
  lemma {:induction false} CompleteExactly(msgs: seq<seq<Fragment>>, n: nat)
    ensures var k := Complete(msgs, n);
      && n == |EncodeStream(msgs[..k])| + WebSocketCuts.Overhang(msgs, n)
      && (k < |msgs| ==> n < |EncodeStream(msgs[..k + 1])|)
    decreases |msgs|
  {
    var k := Complete(msgs, n);
    if k == 0 {
      assert msgs[..0] == [];
      if msgs != [] {
        assert msgs[..1][0] == msgs[0] && msgs[..1][1..] == [];
      }
    } else {
      CompleteExactly(msgs[1..], n - |EncodeFragments(msgs[0])|);
      assert msgs[..k][0] == msgs[0] && msgs[..k][1..] == msgs[1..][..k - 1];
      if k < |msgs| {
        assert msgs[..k + 1][0] == msgs[0] && msgs[..k + 1][1..] == msgs[1..][..k];
      }
    }
  }
}
