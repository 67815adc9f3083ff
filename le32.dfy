/** Little-endian 32-bit fields of the container header (`writeLE32` and
    `readLE32`, barch.cpp:33-44). */
module LittleEndian {
  import opened BitMath

  /** The four bytes `writeLE32` appends for `v`: byte `i` is `(v >> 8*i) & 0xFF`. */
  function LE32Bytes(v: u32): (r: seq<byte>)
    ensures |r| == 4
  {
    seq(4, i requires 0 <= i < 4 => Shr(v, 8 * i) % 256)
  }

  /** The value of a byte string whose first byte is the least significant. */
  function LEValue(s: seq<byte>): nat
  {
    if s == [] then 0 else s[0] + 256 * LEValue(s[1..])
  }

  /** `writeLE32(buf, v)`: appends the four bytes of `v`, lowest first. */
  method WriteLE32(buf: seq<byte>, v: u32) returns (res: seq<byte>)
    ensures res == buf + LE32Bytes(v)
    ensures LEValue(res[|buf|..]) == v
  {
    res := buf;
    for i := 0 to 4
      invariant res == buf + LE32Bytes(v)[..i]
    {
      // static_cast<uint8_t>(v >> (i * CHAR_BIT))
      res := res + [Shr(v, i * 8) % 256];
    }
    assert res[|buf|..] == LE32Bytes(v);
    LE32RoundTrip(v);
  }

  /** `readLE32(p + off)`: assembles four bytes, lowest first. */
  method ReadLE32(p: seq<byte>, off: nat) returns (v: u32)
    requires off + 4 <= |p|
    ensures v == LEValue(p[off..off + 4])
    ensures LE32Bytes(v) == p[off..off + 4]
  {
    var acc: nat := 0;
    for i := 0 to 4
      invariant acc == LEValue(p[off..off + i]) && acc < Pow2(8 * i)
    {
      assert p[off..off + i + 1] == p[off..off + i] + [p[off + i]];
      LEValueSnoc(p[off..off + i], p[off + i]);
      Pow2Plus8(8 * i);
      ShiftedByteBound(acc, p[off + i], Pow2(8 * i));
      // `v |= p[i] << (i * CHAR_BIT)`: every set bit of the shifted byte lies above
      // every set bit of the accumulator, so the or is an addition.
      acc := acc + p[off + i] * Pow2(8 * i);
    }
    Pow2Byte(); Pow2Plus8(8); Pow2Plus8(16); Pow2Plus8(24);
    v := acc;
    LE32OfValue(p[off..off + 4]);
  }

  // ---------------------------------------------------------------------------
  // Lemmas

  lemma {:induction false} Pow2Plus8(k: nat)
    ensures Pow2(k + 8) == 256 * Pow2(k)
  {
    if k > 0 {
      Pow2Plus8(k - 1);
    } else {
      Pow2Byte();
    }
  }

  lemma {:induction false} ShiftedByteBound(acc: nat, b: byte, p: nat)
    requires acc < p
    ensures acc + b * p < 256 * p
  {
    assert 255 * p - b * p == (255 - b) * p;
    assert (255 - b) * p >= 0;
  }

  lemma {:induction false} LEValueSnoc(s: seq<byte>, b: byte)
    ensures LEValue(s + [b]) == LEValue(s) + b * Pow2(8 * |s|)
  {
    if s == [] {
      assert LEValue([b]) == b + 256 * LEValue([]);
    } else {
      assert (s + [b])[1..] == s[1..] + [b];
      LEValueSnoc(s[1..], b);
      Pow2Plus8(8 * (|s| - 1));
      var p := Pow2(8 * (|s| - 1));
      assert 256 * (b * p) == b * (256 * p);
    }
  }

  lemma {:induction false} ShrAdd(v: nat, a: nat, b: nat)
    ensures Shr(v, a + b) == Shr(Shr(v, a), b)
  {
    if a > 0 {
      ShrAdd(v / 2, a - 1, b);
    }
  }

  /** Shifting right by a byte divides by 256. */
  lemma {:induction false} ShrByte(v: nat)
    ensures Shr(v, 8) == v / 256
  {
    var h1 := v / 2; var h2 := h1 / 2; var h3 := h2 / 2; var h4 := h3 / 2;
    var h5 := h4 / 2; var h6 := h5 / 2; var h7 := h6 / 2; var h8 := h7 / 2;
    assert Shr(v, 8) == Shr(h1, 7) == Shr(h2, 6) == Shr(h3, 5) == Shr(h4, 4)
        == Shr(h5, 3) == Shr(h6, 2) == Shr(h7, 1) == h8;
    assert h4 == v / 16;
    assert h8 == h4 / 16;
  }

  /** The four bytes of `v` as quotients by powers of 256. */
  lemma {:induction false} LE32BytesDiv(v: u32)
    ensures LE32Bytes(v) == [v % 256, v / 256 % 256, v / 256 / 256 % 256, v / 256 / 256 / 256 % 256]
  {
    ShrByte(v);
    ShrAdd(v, 8, 8);
    ShrByte(Shr(v, 8));
    ShrAdd(v, 16, 8);
    ShrByte(Shr(v, 16));
  }

  /** The value of four bytes, written out. */
  lemma {:induction false} LEValue4(s: seq<byte>)
    requires |s| == 4
    ensures LEValue(s) == s[0] as int + 256 * (s[1] as int + 256 * (s[2] as int + 256 * s[3] as int))
  {
    assert LEValue(s[3..]) == s[3] by { assert s[3..][1..] == []; }
    assert LEValue(s[2..]) == s[2] + 256 * LEValue(s[3..]) by { assert s[2..][1..] == s[3..]; }
    assert LEValue(s[1..]) == s[1] + 256 * LEValue(s[2..]) by { assert s[1..][1..] == s[2..]; }
  }

  /** `readLE32` of the bytes `writeLE32` appended gives back the value. */
  lemma {:induction false} LE32RoundTrip(v: u32)
    ensures LEValue(LE32Bytes(v)) == v
  {
    LE32BytesDiv(v);
    LEValue4(LE32Bytes(v));
  }

  /** Any four bytes are the `writeLE32` image of their `readLE32` value. */
  lemma {:induction false} LE32OfValue(s: seq<byte>)
    requires |s| == 4
    ensures LEValue(s) < 0x1_0000_0000
    ensures LE32Bytes(LEValue(s)) == s
  {
    LEValue4(s);
    var v := LEValue(s);
    var q1: int := s[1] as int + 256 * (s[2] as int + 256 * s[3] as int);
    var q2: int := s[2] as int + 256 * s[3] as int;
    assert v % 256 == s[0] && v / 256 == q1;
    assert q1 % 256 == s[1] && q1 / 256 == q2;
    assert q2 % 256 == s[2] && q2 / 256 == s[3];
    LE32BytesDiv(v);
  }
}
