/** The bit-level writer and reader of the block bitstream (barch.cpp:54-122).
    Both keep a byte index and a bit cursor running from the most significant bit
    (cursor 0) to the least significant (cursor 7). */
module BitStream {
  import opened BitMath
  import opened Results

  /** `BitWriter` (barch.cpp:56-88): accumulates bits MSB-first into `cur` and moves
      each completed byte to `out`. `Bits` is every bit put so far. */
  class BitWriter {
    var out: seq<byte>
    var cur: byte
    var bitpos: nat
    ghost var Bits: seq<bit>

    ghost predicate Valid()
      reads this
    {
      Packed(out, cur, bitpos, Bits)
    }

    constructor ()
      ensures Valid() && Bits == []
    {
      out, cur, bitpos := [], 0, 0;
      Bits := [];
      new;
      ValueOfZeros(8);
      assert Bits[0..] + Zeros(8) == Zeros(8);
    }

    /** `putBit`: sets bit `7 - bitpos` of `cur`; a full byte is moved to `out`. */
    method PutBit(b: bit)
      requires Valid()
      modifies this
      ensures Valid() && Bits == old(Bits) + [b]
    {
      SetBit(out, cur, bitpos, Bits, b);
      // `cur |= (b & 1) << (kMSBIndex - bitpos)`: that bit of `cur` is still clear,
      // so the or is an addition.
      var c: byte := cur + (if b == 1 then Pow2(7 - bitpos) else 0);
      if bitpos + 1 == 8 {
        ByteStep(out, c, Bits, b);
        out, cur, bitpos := out + [c], 0, 0;
      } else {
        PendingStep(out, c, bitpos, Bits, b);
        cur, bitpos := c, bitpos + 1;
      }
      Bits := Bits + [b];
    }

    /** `putBits(v, n)`: the low `n` bits of `v`, most significant first. */
    method PutBits(v: u32, n: nat)
      requires Valid()
      requires n <= 32
      modifies this
      ensures Valid() && Bits == old(Bits) + BitsOf(v, n)
    {
      var i: int := n - 1;
      while i >= 0
        invariant -1 <= i < n && Valid()
        invariant Bits == old(Bits) + BitsOf(v, n)[..n - 1 - i]
      {
        BitsOfPrefix(v, n, n - 1 - i);
        PutBit(BitAt(v, i));  // putBit((v >> i) & 1)
        i := i - 1;
      }
    }

    /** `putByte(b)`: the 8 bits of `b`, most significant first. */
    method PutByte(b: byte)
      requires Valid()
      modifies this
      ensures Valid() && Bits == old(Bits) + BitsOf(b, 8)
    {
      var i: int := 7;
      while i >= 0
        invariant -1 <= i < 8 && Valid()
        invariant Bits == old(Bits) + BitsOf(b, 8)[..7 - i]
      {
        BitsOfPrefix(b, 8, 7 - i);
        PutBit(BitAt(b, i));  // putBit((b >> i) & 1)
        i := i - 1;
      }
    }

    /** `finish()`: the completed bytes, plus the partial byte when one is pending.
        The result is `Bits` packed MSB-first: ceil(|Bits| / 8) bytes, and the
        bits after `Bits` in the last byte are zero. */
    method Finish() returns (bytes: seq<byte>)
      requires Valid()
      ensures bytes == Pack(Bits)
      ensures |bytes| == CeilDiv(|Bits|, 8)
      ensures Unpack(bytes) == Bits + Zeros(PadLen(|Bits|))
    {
      if bitpos != 0 {
        bytes := out + [cur];
      } else {
        bytes := out;
      }
      FlushedBytes(out, Bits, cur);
      PackLayout(Bits);
    }
  }

  /** `out` holds the completed bytes of `bits`; `cur` holds the remaining
      `bitpos` bits in its high end and zero below them. */
  ghost predicate Packed(out: seq<byte>, cur: byte, bitpos: nat, bits: seq<bit>)
  {
    && bitpos < 8
    && |bits| == 8 * |out| + bitpos
    && bits[..8 * |out|] == Unpack(out)
    && cur == ValueOf(bits[8 * |out|..] + Zeros(8 - bitpos))
  }

  /** The partial byte with bit `7 - bitpos` set to `b` is still a byte: the
      value of the pending bits, then `b`, then zeros. */
  lemma {:induction false} SetBit(out: seq<byte>, cur: byte, bitpos: nat, bits: seq<bit>, b: bit)
    requires Packed(out, cur, bitpos, bits)
    ensures cur + (if b == 1 then Pow2(7 - bitpos) else 0) < 256
    ensures cur + (if b == 1 then Pow2(7 - bitpos) else 0) == ValueOf(bits[8 * |out|..] + [b] + Zeros(7 - bitpos))
  {
    PendingBit(bits[8 * |out|..], b);
    Pow2Byte();
  }

  /** A bit that leaves the partial byte incomplete. */
  lemma {:induction false} PendingStep(out: seq<byte>, c: byte, bitpos: nat, bits: seq<bit>, b: bit)
    requires bitpos < 7 && |bits| == 8 * |out| + bitpos && bits[..8 * |out|] == Unpack(out)
    requires c == ValueOf(bits[8 * |out|..] + [b] + Zeros(7 - bitpos))
    ensures Packed(out, c, bitpos + 1, bits + [b])
  {
    var bits' := bits + [b];
    assert bits'[8 * |out|..] == bits[8 * |out|..] + [b];
    assert bits'[..8 * |out|] == bits[..8 * |out|];
  }

  /** The eighth bit completes the partial byte, which moves to the output. */
  lemma {:induction false} ByteStep(out: seq<byte>, c: byte, bits: seq<bit>, b: bit)
    requires |bits| == 8 * |out| + 7 && bits[..8 * |out|] == Unpack(out)
    requires c == ValueOf(bits[8 * |out|..] + [b] + Zeros(0))
    ensures Packed(out + [c], 0, 0, bits + [b])
  {
    var bits' := bits + [b];
    assert bits' == Unpack(out + [c]) by {
      assert bits'[8 * |out|..] == bits[8 * |out|..] + [b];
      assert bits'[..8 * |out|] == bits[..8 * |out|];
      CompletedByte(out, bits', c);
    }
    assert 0 == ValueOf(bits'[8 * |out + [c]|..] + Zeros(8)) by {
      EmptyPending(bits', |out + [c]|);
    }
    assert bits'[..8 * |out + [c]|] == bits';
  }

  /** The completed bytes, plus the partial byte when bits are pending, are the
      packing of all bits put. */
  lemma {:induction false} FlushedBytes(out: seq<byte>, bits: seq<bit>, c: byte)
    requires 8 * |out| <= |bits| < 8 * |out| + 8 && bits[..8 * |out|] == Unpack(out)
    requires c == ValueOf(bits[8 * |out|..] + Zeros(8 * |out| + 8 - |bits|))
    ensures Pack(bits) == if |bits| > 8 * |out| then out + [c] else out
  {
    var k := |bits| - 8 * |out|;
    var pending := bits[8 * |out|..];
    assert bits == Unpack(out) + pending;
    PadLenOf(|out|, k);
    if k != 0 {
      assert bits + Zeros(8 - k) == Unpack(out) + (pending + Zeros(8 - k));
      PartialByte(out, pending, c);
    } else {
      assert bits + Zeros(0) == Unpack(out);
      PackBytesUnpack(out);
    }
  }

  /** The padding after `8m + k` bits. */
  lemma {:induction false} PadLenOf(m: nat, k: nat)
    requires k < 8
    ensures PadLen(8 * m + k) == if k == 0 then 0 else 8 - k
  {
    assert (8 * m + k) % 8 == k;
  }

  /** Completed bytes followed by a zero-padded partial byte pack to those bytes
      and the partial byte. */
  lemma {:induction false} PartialByte(out: seq<byte>, pending: seq<bit>, c: byte)
    requires 0 < |pending| < 8 && c == ValueOf(pending + Zeros(8 - |pending|))
    ensures PackBytes(Unpack(out) + (pending + Zeros(8 - |pending|))) == out + [c]
  {
    var last := pending + Zeros(8 - |pending|);
    PackBytesAppend(Unpack(out), last);
    PackBytesUnpack(out);
    assert PackBytes(last) == [c] + PackBytes([]) by {
      assert last[..8] == last;
      assert last[8..] == [];
    }
  }

  /** Eight pending bits, once their byte is complete, extend the unpacked output. */
  lemma {:induction false} CompletedByte(out: seq<byte>, bits: seq<bit>, c: byte)
    requires |bits| == 8 * |out| + 8 && bits[..8 * |out|] == Unpack(out)
    requires c == ValueOf(bits[8 * |out|..] + Zeros(0))
    ensures bits == Unpack(out + [c])
  {
    var last := bits[8 * |out|..];
    assert bits == Unpack(out) + last by {
      assert bits == bits[..8 * |out|] + last;
    }
    assert Unpack([c]) == last by {
      assert last + Zeros(0) == last;
      BitsOfValueOf(last);
      assert Unpack([c]) == BitsOf(c, 8) + Unpack([]);
    }
    UnpackAppend(out, [c]);
  }

  /** With no pending bits, the partial byte is zero. */
  lemma {:induction false} EmptyPending(bits: seq<bit>, n: nat)
    requires |bits| == 8 * n
    ensures 0 == ValueOf(bits[8 * n..] + Zeros(8))
  {
    assert bits[8 * n..] + Zeros(8) == Zeros(8);
    ValueOfZeros(8);
  }

  /** Setting the next pending bit of the partial byte adds its place value. */
  lemma {:induction false} PendingBit(pending: seq<bit>, b: bit)
    requires |pending| < 8
    ensures ValueOf(pending + [b] + Zeros(7 - |pending|))
         == ValueOf(pending + Zeros(8 - |pending|)) + (if b == 1 then Pow2(7 - |pending|) else 0)
  {
    var m := 7 - |pending|;
    var p := Pow2(m);
    var v := ValueOf(pending);
    assert ValueOf(pending + [b]) == 2 * v + b by {
      assert (pending + [b])[..|pending|] == pending;
    }
    assert ValueOf(pending + [b] + Zeros(m)) == (2 * v + b) * p by {
      ValueOfAppend(pending + [b], Zeros(m));
      ValueOfZeros(m);
    }
    assert ValueOf(pending + Zeros(m + 1)) == v * (2 * p) by {
      ValueOfAppend(pending, Zeros(m + 1));
      ValueOfZeros(m + 1);
    }
    PlaceValue(v, b, p);
  }

  lemma {:induction false} PlaceValue(v: int, b: bit, p: int)
    ensures (2 * v + b) * p == v * (2 * p) + (if b == 1 then p else 0)
  {
    if b == 1 {
      assert (2 * v + 1) * p == 2 * v * p + p;
    }
  }

  /** `BitReader` (barch.cpp:90-122) over the `n` bytes at `p`. */
  class BitReader {
    const data: seq<byte>
    var idx: nat
    var bitpos: nat

    ghost predicate Valid()
      reads this
    {
      bitpos < 8 && (idx < |data| || (idx == |data| && bitpos == 0))
    }

    /** Number of bits consumed so far. */
    ghost function Pos(): nat
      reads this
    {
      8 * idx + bitpos
    }

    constructor (p: seq<byte>)
      ensures Valid() && data == p && Pos() == 0
    {
      data := p;
      idx, bitpos := 0, 0;
    }

    /** `getBit`: fails with "Unexpected end of bitstream" exactly when every byte
        has been consumed (`idx >= n`); otherwise returns the next bit and advances
        by one. */
    method GetBit() returns (r: Result<bit>)
      requires Valid()
      modifies this
      ensures Valid()
      ensures r.Err? <==> old(idx) >= |data|
      ensures old(Pos()) < 8 * |data| ==> r == Ok(Unpack(data)[old(Pos())]) && Pos() == old(Pos()) + 1
      ensures old(Pos()) >= 8 * |data| ==> r == Err(EndOfBitstream) && Pos() == old(Pos())
    {
      if idx >= |data| {
        return Err(EndOfBitstream);
      }
      UnpackAt(data, idx, bitpos);
      var b := BitAt(data[idx], 7 - bitpos);  // (p[idx] >> (kMSBIndex - bitpos)) & 1
      bitpos := bitpos + 1;
      if bitpos == 8 {
        bitpos := 0;
        idx := idx + 1;
      }
      return Ok(b);
    }

    /** `getBits(k)`: the next `k` bits as a number, first bit most significant. */
    method GetBits(k: nat) returns (r: Result<nat>)
      requires Valid()
      requires k <= 32
      modifies this
      ensures Valid()
      ensures old(Pos()) + k <= 8 * |data| ==>
        r == Ok(ValueOf(Unpack(data)[old(Pos())..old(Pos()) + k])) && Pos() == old(Pos()) + k
      ensures old(Pos()) + k > 8 * |data| ==> r == Err(EndOfBitstream)
    {
      var v: nat := 0;
      for i := 0 to k
        invariant Valid() && Pos() == old(Pos()) + i <= 8 * |data|
        invariant v == ValueOf(Unpack(data)[old(Pos())..old(Pos()) + i])
      {
        var b := GetBit();
        if b.Err? {
          return Err(b.error);
        }
        ghost var s := Unpack(data)[old(Pos())..old(Pos()) + i + 1];
        assert s[..i] == Unpack(data)[old(Pos())..old(Pos()) + i];
        // `v = (v << 1) | bit`: the shifted value has a clear lowest bit, so the or adds.
        v := 2 * v + b.value;
      }
      return Ok(v);
    }

    /** `getByte()`: the next 8 bits as a byte. */
    method GetByte() returns (r: Result<byte>)
      requires Valid()
      modifies this
      ensures Valid()
      ensures old(Pos()) + 8 <= 8 * |data| ==>
        r == Ok(ValueOf(Unpack(data)[old(Pos())..old(Pos()) + 8])) && Pos() == old(Pos()) + 8
      ensures old(Pos()) + 8 > 8 * |data| ==> r == Err(EndOfBitstream)
    {
      var v := GetBits(8);
      if v.Err? {
        return Err(v.error);
      }
      Pow2Byte();
      return Ok(v.value);
    }
  }
}
