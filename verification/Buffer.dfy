/** The growable byte buffer under every connection: an array with a read and a write
    index, refined to the byte queue `Contents()`. */
module Buffers {
  import opened Bytes
  import opened Codec

  const FREE_PREPEND: nat := 8
  const INITIAL_SIZE: nat := 1024
  const STACK_BYTES: nat := 65536
  const SIZE_MAX: nat := 0xFFFF_FFFF_FFFF_FFFF

  /** What the kernel answers to a readv or a write. */
  datatype ReadAnswer = ReadFailed | Received(bytes: seq<byte>)
  datatype WriteAnswer = WriteFailed | Accepted(n: nat)

  const CR: byte := 13
  const LF: byte := 10

  predicate CRLFAt(s: seq<byte>, i: nat) {
    i + 1 < |s| && s[i] == CR && s[i + 1] == LF
  }

  /** Where the first CRLF starts, or None. */
  function FindCRLF(s: seq<byte>): (r: Option<nat>)
    ensures r.Some? ==> CRLFAt(s, r.value) && forall j :: 0 <= j < r.value ==> !CRLFAt(s, j)
    ensures r.None? ==> forall j :: 0 <= j ==> !CRLFAt(s, j)
  {
    FindCRLFFrom(s, 0)
  }

  function FindCRLFFrom(s: seq<byte>, i: nat): (r: Option<nat>)
    ensures r.Some? ==> i <= r.value && CRLFAt(s, r.value) && forall j :: i <= j < r.value ==> !CRLFAt(s, j)
    ensures r.None? ==> forall j :: i <= j ==> !CRLFAt(s, j)
    decreases |s| - i
  {
    if i + 1 >= |s| then None
    else if CRLFAt(s, i) then Some(i)
    else FindCRLFFrom(s, i + 1)
  }

  class Buffer {
    var data: array<byte>
    var readIndex: nat
    var writeIndex: nat

    ghost predicate Valid()
      reads this
    {
      FREE_PREPEND <= readIndex <= writeIndex <= data.Length
    }

    ghost function Contents(): seq<byte>
      requires Valid()
      reads this, data
    {
      data[readIndex..writeIndex]
    }

    constructor (initialSize: nat)
      ensures Valid() && fresh(data) && Contents() == []
      ensures data.Length == FREE_PREPEND + initialSize
    {
      data := new byte[FREE_PREPEND + initialSize](_ => 0);
      readIndex := FREE_PREPEND;
      writeIndex := FREE_PREPEND;
    }

    function ReadableBytes(): (n: nat)
      requires Valid()
      reads this, data
      ensures n == |Contents()|
    {
      writeIndex - readIndex
    }

    function WriteableBytes(): nat
      requires Valid()
      reads this
    {
      data.Length - writeIndex
    }

    /** The search for CRLF: an offset into the contents. */
    method SearchCRLF() returns (r: Option<nat>)
      requires Valid()
      ensures r == FindCRLF(Contents())
    {
      var n, i := ReadableBytes(), 0;
      while i + 1 < n
        invariant 0 <= i && FindCRLF(Contents()) == FindCRLFFrom(Contents(), i)
      {
        if data[readIndex + i] == CR && data[readIndex + i + 1] == LF {
          return Some(i);
        }
        i := i + 1;
      }
      r := None;
    }

    /** The first `len` bytes, left in place. */
    function Peek(len: nat): (s: seq<byte>)
      requires Valid() && len <= ReadableBytes()
      reads this, data
      ensures s == Contents()[..len]
    {
      data[readIndex..readIndex + len]
    }

    /** Makes room for `len` more bytes, by moving the contents down when that is enough
        and by growing the vector otherwise. */
    method EnsureWriteableBytes(len: nat)
      requires Valid()
      modifies this, data
      ensures Valid() && (data == old(data) || fresh(data))
      ensures Contents() == old(Contents()) && len <= WriteableBytes()
    {
      if WriteableBytes() < len {
        ResizeBuffer(len);
      }
    }

    method ResizeBuffer(len: nat)
      requires Valid() && WriteableBytes() < len
      modifies this, data
      ensures Valid() && (data == old(data) || fresh(data))
      ensures Contents() == old(Contents()) && len <= WriteableBytes()
      ensures data == old(data) <==> old(WriteableBytes() + readIndex >= len + FREE_PREPEND)
      ensures data == old(data) ==> readIndex == FREE_PREPEND < old(readIndex)
    {
      if WriteableBytes() + readIndex < len + FREE_PREPEND {
        var grown := new byte[writeIndex + len](_ => 0);
        forall i | 0 <= i < data.Length {
          grown[i] := data[i];
        }
        assert forall i :: readIndex <= i < writeIndex ==> grown[i] == data[i];
        data := grown;
      } else {
        // A forward copy onto itself is sound only towards lower addresses.
        assert FREE_PREPEND < readIndex;
        var readable, shift := writeIndex - readIndex, readIndex - FREE_PREPEND;
        ghost var was := data[..];
        var to := FREE_PREPEND;
        while to < FREE_PREPEND + readable
          modifies data
          invariant FREE_PREPEND <= to <= FREE_PREPEND + readable
          invariant forall k :: FREE_PREPEND <= k < to ==> data[k] == was[k + shift]
          invariant forall k :: to <= k < data.Length ==> data[k] == was[k]
        {
          data[to] := data[to + shift];
          to := to + 1;
        }
        assert data[FREE_PREPEND..FREE_PREPEND + readable] == was[readIndex..writeIndex];
        readIndex := FREE_PREPEND;
        writeIndex := readIndex + readable;
        assert Contents() == old(Contents());
      }
    }

    method WriteLen(s: seq<byte>)
      requires Valid()
      modifies this, data
      ensures Valid() && (data == old(data) || fresh(data))
      ensures Contents() == old(Contents()) + s
    {
      EnsureWriteableBytes(|s|);
      Store(s);
      writeIndex := writeIndex + |s|;
    }

    /** memcpy to the write index. */
    method Store(s: seq<byte>)
      requires Valid() && |s| <= WriteableBytes()
      modifies data
      ensures data[readIndex..writeIndex + |s|] == old(Contents()) + s
    {
      var i := 0;
      while i < |s|
        modifies data
        invariant i <= |s|
        invariant forall k :: readIndex <= k < writeIndex ==> data[k] == old(data[k])
        invariant data[writeIndex..writeIndex + i] == s[..i]
      {
        data[writeIndex + i] := s[i];
        i := i + 1;
      }
      assert data[readIndex..writeIndex] == old(Contents());
      assert data[readIndex..writeIndex + |s|] == data[readIndex..writeIndex] + data[writeIndex..writeIndex + |s|];
    }

    /** Drops `len` bytes; asking for more than there is empties the buffer. */
    method Retrieve(len: nat)
      requires Valid()
      modifies `readIndex, `writeIndex
      ensures Valid()
      ensures Contents() == if len <= old(|Contents()|) then old(Contents())[len..] else []
    {
      if ReadableBytes() < len {
        RetrieveAll();
      } else {
        readIndex := readIndex + len;
      }
    }

    method RetrieveAll()
      requires Valid()
      modifies `readIndex, `writeIndex
      ensures Valid() && Contents() == []
    {
      readIndex := FREE_PREPEND;
      writeIndex := FREE_PREPEND;
    }

    /** Copies out the first `len` bytes and drops them. */
    method ReadLen(len: nat) returns (s: seq<byte>)
      requires Valid() && len <= ReadableBytes()
      modifies `readIndex, `writeIndex
      ensures Valid()
      ensures s == old(Contents())[..len] && Contents() == old(Contents())[len..]
    {
      s := data[readIndex..readIndex + len];
      Retrieve(len);
    }

    method RetrieveAllAsString() returns (s: seq<byte>)
      requires Valid()
      modifies `readIndex, `writeIndex
      ensures Valid()
      ensures s == old(Contents()) && Contents() == []
    {
      s := ReadLen(ReadableBytes());
    }

    /** How many bytes one readv may deliver: the free space, and a 64 KiB block on the
        stack when the free space is smaller than that block. */
    function ReadvCapacity(): nat
      requires Valid()
      reads this
    {
      if WriteableBytes() < STACK_BYTES then WriteableBytes() + STACK_BYTES else WriteableBytes()
    }

    /** Scatter read: what the kernel delivers is appended whole, whether or not it spilt
        into the second block. The result is a `size_t`, so a failure reads as SIZE_MAX. */
    method ReadFd(answer: ReadAnswer) returns (n: nat)
      requires Valid()
      requires answer.Received? ==> |answer.bytes| <= ReadvCapacity()
      modifies this, data
      ensures Valid() && (data == old(data) || fresh(data))
      ensures answer.ReadFailed? ==> n == SIZE_MAX && Contents() == old(Contents())
      ensures answer.Received? ==> n == |answer.bytes| && Contents() == old(Contents()) + answer.bytes
    {
      var writable := WriteableBytes();
      match answer
      case ReadFailed =>
        n := SIZE_MAX;
      case Received(bytes) =>
        n := |bytes|;
        if n <= writable {
          Store(bytes);
          writeIndex := writeIndex + n;
        } else {
          Spill(bytes, writable);
        }
    }

    /** The free space is full, and what lies in the second block is appended. */
    method Spill(bytes: seq<byte>, writable: nat)
      requires Valid() && writable == WriteableBytes() <= |bytes|
      modifies this, data
      ensures Valid() && (data == old(data) || fresh(data))
      ensures Contents() == old(Contents()) + bytes
    {
      Store(bytes[..writable]);
      writeIndex := data.Length;
      WriteLen(bytes[writable..]);
      AppendAssoc(old(Contents()), bytes[..writable], bytes[writable..]);
      assert bytes[..writable] + bytes[writable..] == bytes;
    }

    /** Hands the readable bytes to the kernel without dropping them. A failure reads as more
        than the buffer holds, so that retrieving the result empties it. */
    method WriteFd(answer: WriteAnswer) returns (n: nat)
      requires Valid()
      requires answer.Accepted? ==> answer.n <= ReadableBytes()
      ensures ReadableBytes() < SIZE_MAX ==> (n <= ReadableBytes() <==> answer.Accepted?)
      ensures answer.Accepted? ==> n == answer.n
    {
      n := if answer.Accepted? then answer.n else SIZE_MAX;
    }

    // ---- integers ---------------------------------------------------------

    method WriteFixed(width: nat, signed: bool, v: int)
      requires Valid() && Fixed(width, signed).Legal() && Fixed(width, signed).Fits(v)
      modifies this, data
      ensures Valid() && (data == old(data) || fresh(data))
      ensures Contents() == old(Contents()) + Encode(Fixed(width, signed), v)
    {
      WriteLen(BigEndian(ToBits(8 * width, v), width));
    }

    method ReadFixed(width: nat, signed: bool) returns (v: int)
      requires Valid() && Fixed(width, signed).Legal()
      modifies `readIndex, `writeIndex
      ensures Valid()
      ensures (v, Contents()) == Decode(Fixed(width, signed), old(Contents()))
    {
      if ReadableBytes() < width {
        return 0;
      }
      var nw := ReadLen(width);
      var host := FromBigEndian(nw);
      v := if signed then ToSigned(8 * width, host) else host;
    }

    /** `tmp` is the stack array of 5 or 10 bytes; the loop never writes past it. */
    method WriteVarUint(bits: nat, value: nat)
      requires Valid() && VarUint(bits).Legal() && VarUint(bits).Fits(value)
      modifies this, data
      ensures Valid() && (data == old(data) || fresh(data))
      ensures Contents() == old(Contents()) + Encode(VarUint(bits), value)
    {
      var tmp := new byte[if bits == 32 then 5 else 10](_ => 0);
      VarLength(value, bits);
      var i := Fill(tmp, value);
      WriteLen(tmp[..i]);
    }

    static method Fill(tmp: array<byte>, value: nat) returns (i: nat)
      requires |EncodeVar(value)| <= tmp.Length
      modifies tmp
      ensures i <= tmp.Length && tmp[..i] == EncodeVar(value)
    {
      ghost var whole := EncodeVar(value);
      var v := value;
      i := 0;
      while v >= 0x80
        modifies tmp
        invariant 0 <= i <= |whole| <= tmp.Length && tmp[..i] == whole[..i]
        invariant whole[i..] == EncodeVar(v)
      {
        tmp[i] := (v % 0x80 + 0x80) as byte;
        i := i + 1;
        v := v / 0x80;
        assert whole[i..] == whole[i - 1..][1..];
      }
      tmp[i] := v as byte;
      i := i + 1;
    }

    method WriteVarInt(bits: nat, v: int)
      requires Valid() && VarInt(bits).Legal() && VarInt(bits).Fits(v)
      modifies this, data
      ensures Valid() && (data == old(data) || fresh(data))
      ensures Contents() == old(Contents()) + Encode(VarInt(bits), v)
    {
      ZigzagRoundTrip(bits, v);
      WriteVarUint(bits, EncodeZigzag(bits, v));
    }

    method ReadVarUint(bits: nat) returns (result: nat)
      requires Valid() && VarUint(bits).Legal()
      modifies `readIndex, `writeIndex
      ensures Valid()
      ensures (result, Contents()) == Decode(VarUint(bits), old(Contents()))
    {
      result := 0;
      var i := 0;
      while i < bits
        invariant Valid()
        invariant DecodeVar(result, i, Contents(), bits) == old(DecodeVar(0, 0, Contents(), bits))
        decreases bits - i
      {
        ghost var before := Contents();
        var x := ReadFixed(1, false);
        assert (x, Contents()) == ReadByte(before) by {
          assert before != [] ==> FromBigEndian(before[..1]) == before[0] as nat;
        }
        result := Or(result, ToBits(bits, Shl(x % 0x80, i)));
        if x < 0x80 {
          return;
        }
        i := i + 7;
      }
    }

    method ReadVarInt(bits: nat) returns (v: int)
      requires Valid() && VarInt(bits).Legal()
      modifies `readIndex, `writeIndex
      ensures Valid()
      ensures (v, Contents()) == Decode(VarInt(bits), old(Contents()))
    {
      var u := ReadVarUint(bits);
      v := DecodeZigzag(bits, u);
    }
  }
}
