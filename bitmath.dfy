/** Bit-level vocabulary shared by the BARCH codec: bytes, shifts, MSB-first bit
    strings and their packing into bytes. Every operator here is the unbounded-integer
    reading of the C++ operator it names. */
module BitMath {

  type bit = b: int | 0 <= b < 2
  type byte = b: int | 0 <= b < 256
  type u32 = v: int | 0 <= v < 0x1_0000_0000

  function Pow2(k: nat): (r: nat)
    ensures r > 0
  {
    if k == 0 then 1 else 2 * Pow2(k - 1)
  }

  lemma {:induction false} Pow2Byte()
    ensures Pow2(8) == 256
  {
  }

  /** `v >> k` on an unsigned value: k halvings. */
  function Shr(v: nat, k: nat): nat
  {
    if k == 0 then v else Shr(v / 2, k - 1)
  }

  /** `(v >> k) & 1`. */
  function BitAt(v: nat, k: nat): bit
  {
    Shr(v, k) % 2
  }

  /** `ceilDiv(a, b)` at barch.cpp:31, for the non-negative arguments it is used with. */
  function CeilDiv(a: nat, b: nat): (r: nat)
    requires b > 0
    ensures r * b >= a && (r == 0 || (r - 1) * b < a)
  {
    (a + b - 1) / b
  }

  function Min(a: int, b: int): int
  {
    if a <= b then a else b
  }

  function Zeros(m: nat): (r: seq<bit>)
    ensures |r| == m && forall i :: 0 <= i < m ==> r[i] == 0
  {
    seq(m, _ => 0)
  }

  /** The low `n` bits of `v`, most significant first. */
  function BitsOf(v: nat, n: nat): (r: seq<bit>)
    ensures |r| == n
  {
    if n == 0 then [] else BitsOf(v / 2, n - 1) + [v % 2]
  }

  /** The value of a bit string read most significant bit first. */
  function ValueOf(bs: seq<bit>): (r: nat)
    ensures r < Pow2(|bs|)
  {
    if bs == [] then 0 else 2 * ValueOf(bs[..|bs| - 1]) + bs[|bs| - 1]
  }

  /** Each byte as 8 bits, most significant first, in byte order. */
  function Unpack(s: seq<byte>): (r: seq<bit>)
    ensures |r| == 8 * |s|
  {
    if s == [] then [] else BitsOf(s[0], 8) + Unpack(s[1..])
  }

  /** Groups of 8 bits turned back into bytes. */
  function PackBytes(bs: seq<bit>): (r: seq<byte>)
    requires |bs| % 8 == 0
    ensures |r| == |bs| / 8
  {
    if bs == [] then []
    else
      Pow2Byte();
      [ValueOf(bs[..8])] + PackBytes(bs[8..])
  }

  /** Number of zero bits that complete the last byte of an `n`-bit string. */
  function PadLen(n: nat): nat
  {
    (8 - n % 8) % 8
  }

  /** A bit string packed MSB-first into bytes, the last byte zero-padded. */
  function Pack(bs: seq<bit>): seq<byte>
  {
    PackBytes(bs + Zeros(PadLen(|bs|)))
  }

  function Flatten<T>(ss: seq<seq<T>>): seq<T>
  {
    if ss == [] then [] else ss[0] + Flatten(ss[1..])
  }

  // ---------------------------------------------------------------------------
  // Lemmas

  lemma {:induction false} ValueOfBitsOf(v: nat, n: nat)
    requires v < Pow2(n)
    ensures ValueOf(BitsOf(v, n)) == v
  {
    if n > 0 {
      var bs := BitsOf(v, n);
      assert bs[..n - 1] == BitsOf(v / 2, n - 1);
      ValueOfBitsOf(v / 2, n - 1);
    }
  }

  lemma {:induction false} BitsOfValueOf(bs: seq<bit>)
    ensures BitsOf(ValueOf(bs), |bs|) == bs
  {
    if bs != [] {
      var n := |bs|;
      BitsOfValueOf(bs[..n - 1]);
      assert ValueOf(bs) / 2 == ValueOf(bs[..n - 1]);
      assert bs == bs[..n - 1] + [bs[n - 1]];
    }
  }

  /** Bit `k` of `BitsOf(v, n)` is bit `n - 1 - k` of `v`. */
  lemma {:induction false} BitsOfAt(v: nat, n: nat, k: nat)
    requires k < n
    ensures BitsOf(v, n)[k] == BitAt(v, n - 1 - k)
  {
    if k < n - 1 {
      BitsOfAt(v / 2, n - 1, k);
    }
  }

  /** The first `k + 1` bits of `BitsOf(v, n)` extend the first `k` by bit `n - 1 - k` of `v`. */
  lemma BitsOfPrefix(v: nat, n: nat, k: nat)
    requires k < n
    ensures BitsOf(v, n)[..k + 1] == BitsOf(v, n)[..k] + [BitAt(v, n - 1 - k)]
  {
    BitsOfAt(v, n, k);
  }

  lemma {:induction false} ValueOfAppend(a: seq<bit>, b: seq<bit>)
    ensures ValueOf(a + b) == ValueOf(a) * Pow2(|b|) + ValueOf(b)
  {
    if b == [] {
      assert a + b == a;
    } else {
      var n := |b|;
      var init, last := b[..n - 1], b[n - 1];
      assert (a + b)[..|a + b| - 1] == a + init;
      ValueOfAppend(a, init);
      ShiftIn(ValueOf(a), ValueOf(init), Pow2(n - 1), last);
    }
  }

  /** Shifting one more bit in below `va * p + vb`. */
  lemma {:induction false} ShiftIn(va: int, vb: int, p: int, b: int)
    ensures 2 * (va * p + vb) + b == va * (2 * p) + (2 * vb + b)
  {
    MulTwice(va, p);
  }

  lemma {:induction false} MulTwice(x: int, y: int)
    ensures 2 * (x * y) == x * (2 * y)
  {
  }

  lemma {:induction false} ValueOfZeros(m: nat)
    ensures ValueOf(Zeros(m)) == 0
  {
    if m > 0 {
      assert Zeros(m)[..m - 1] == Zeros(m - 1);
      ValueOfZeros(m - 1);
    }
  }

  lemma {:induction false} UnpackAppend(a: seq<byte>, b: seq<byte>)
    ensures Unpack(a + b) == Unpack(a) + Unpack(b)
  {
    if a != [] {
      assert (a + b)[1..] == a[1..] + b;
      UnpackAppend(a[1..], b);
    } else {
      assert a + b == b;
    }
  }

  /** The 8 bits of byte `i` of `s` are `BitsOf(s[i], 8)`. */
  lemma {:induction false} UnpackSlice(s: seq<byte>, i: nat)
    requires i < |s|
    ensures Unpack(s)[8 * i..8 * i + 8] == BitsOf(s[i], 8)
  {
    if i > 0 {
      UnpackSlice(s[1..], i - 1);
    }
  }

  /** Bit `k` (from the most significant end) of byte `i`. */
  lemma {:induction false} UnpackAt(s: seq<byte>, i: nat, k: nat)
    requires i < |s| && k < 8
    ensures Unpack(s)[8 * i + k] == BitAt(s[i], 7 - k)
  {
    var u, j := Unpack(s), 8 * i;
    assert u[j + k] == BitsOf(s[i], 8)[k] by {
      UnpackSlice(s, i);
      assert u[j + k] == u[j..j + 8][k];
    }
    BitsOfAt(s[i], 8, k);
  }

  lemma {:induction false} UnpackPackBytes(bs: seq<bit>)
    requires |bs| % 8 == 0
    ensures Unpack(PackBytes(bs)) == bs
  {
    if bs != [] {
      Pow2Byte();
      UnpackPackBytes(bs[8..]);
      BitsOfValueOf(bs[..8]);
      assert bs == bs[..8] + bs[8..];
    }
  }

  lemma {:induction false} PackBytesUnpack(s: seq<byte>)
    ensures PackBytes(Unpack(s)) == s
  {
    if s != [] {
      var u := Unpack(s);
      assert u[..8] == BitsOf(s[0], 8);
      assert u[8..] == Unpack(s[1..]);
      Pow2Byte();
      ValueOfBitsOf(s[0], 8);
      PackBytesUnpack(s[1..]);
    }
  }

  lemma {:induction false} PackBytesAppend(a: seq<bit>, b: seq<bit>)
    requires |a| % 8 == 0 && |b| % 8 == 0
    ensures PackBytes(a + b) == PackBytes(a) + PackBytes(b)
  {
    if a != [] {
      assert (a + b)[..8] == a[..8];
      assert (a + b)[8..] == a[8..] + b;
      PackBytesAppend(a[8..], b);
    } else {
      assert a + b == b;
    }
  }

  /** `Pack` yields ceil(|bs|/8) bytes whose bits are `bs` followed by zero padding. */
  lemma {:induction false} PackLayout(bs: seq<bit>)
    ensures |Pack(bs)| == CeilDiv(|bs|, 8)
    ensures Unpack(Pack(bs)) == bs + Zeros(PadLen(|bs|))
  {
    UnpackPackBytes(bs + Zeros(PadLen(|bs|)));
  }

  lemma {:induction false} FlattenAppend<T>(a: seq<seq<T>>, b: seq<seq<T>>)
    ensures Flatten(a + b) == Flatten(a) + Flatten(b)
  {
    if a != [] {
      assert (a + b)[1..] == a[1..] + b;
      FlattenAppend(a[1..], b);
    } else {
      assert a + b == b;
    }
  }

  /** Extending the list of pieces by one extends the flattening by that piece. */
  lemma {:induction false} FlattenSnoc<T>(ss: seq<seq<T>>, i: nat)
    requires i < |ss|
    ensures Flatten(ss[..i + 1]) == Flatten(ss[..i]) + ss[i]
  {
    assert ss[..i + 1] == ss[..i] + [ss[i]];
    FlattenAppend(ss[..i], [ss[i]]);
  }

  /** The flattening of a suffix starts with its first piece. */
  lemma {:induction false} FlattenCons<T>(ss: seq<seq<T>>, i: nat)
    requires i < |ss|
    ensures Flatten(ss[i..]) == ss[i] + Flatten(ss[i + 1..])
  {
    assert ss[i..][1..] == ss[i + 1..];
  }
}
