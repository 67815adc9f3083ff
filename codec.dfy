/** `barch::encode` and `barch::decode` (barch.cpp:46-52, 129-289) as the loops the
    source runs, each proved to compute the function of module Format that
    specifies it. */
module Codec {
  import opened BitMath
  import opened LittleEndian
  import opened Results
  import opened BitStream
  import opened Format

  /** `isRowEmpty(row, width)`: are all pixels of the row white? */
  method IsRowEmpty(row: seq<byte>) returns (empty: bool)
    ensures empty == IsWhiteRow(row)
  {
    for i := 0 to |row|
      invariant IsWhiteRow(row[..i])
    {
      if row[i] != WHITE {
        return false;
      }
      assert row[..i + 1] == row[..i] + [row[i]];
    }
    assert row[..|row|] == row;
    return true;
  }

  // ---------------------------------------------------------------------------
  // Encoding

  /** The block loop of one non-empty row (barch.cpp:155-179): appends the code of
      every group of the row to the writer. */
  method EncodeRow(bw: BitWriter, row: seq<byte>)
    requires bw.Valid()
    modifies bw
    ensures bw.Valid() && bw.Bits == old(bw.Bits) + Flatten(RowCodes(row))
  {
    var groups := CeilDiv(|row|, PIXELS_PER_BLOCK);
    ghost var codes := RowCodes(row);
    for g := 0 to groups
      invariant bw.Valid() && bw.Bits == old(bw.Bits) + Flatten(codes[..g])
    {
      var px := GatherGroup(row, g);
      EncodeGroup(bw, px);
      FlattenSnoc(codes, g);
      AppendAssoc(old(bw.Bits), Flatten(codes[..g]), codes[g]);
    }
    assert codes[..groups] == codes;
  }

  lemma {:induction false} AppendAssoc(a: seq<bit>, b: seq<bit>, c: seq<bit>)
    ensures a + b + c == a + (b + c)
  {
  }

  /** The pixels of group `g` (barch.cpp:161-166), white past the end of the row. */
  method GatherGroup(row: seq<byte>, g: nat) returns (px: seq<byte>)
    ensures px == GroupAt(row, g)
  {
    var a := new byte[PIXELS_PER_BLOCK];
    for k := 0 to PIXELS_PER_BLOCK
      invariant a[..k] == GroupAt(row, g)[..k]
    {
      var x := g * PIXELS_PER_BLOCK + k;
      a[k] := if x < |row| then row[x] else WHITE;  // kPadPixelForCoding
    }
    px := a[..];
    assert px == a[..PIXELS_PER_BLOCK];
  }

  /** One group (barch.cpp:167-177): a 1-bit white tag, a 2-bit black tag, or a
      2-bit literal tag followed by the four pixels. */
  method EncodeGroup(bw: BitWriter, px: seq<byte>)
    requires bw.Valid() && |px| == PIXELS_PER_BLOCK
    modifies bw
    ensures bw.Valid() && bw.Bits == old(bw.Bits) + GroupCode(px)
  {
    var allWhite := px[0] == WHITE && px[1] == WHITE && px[2] == WHITE && px[3] == WHITE;
    var allBlack := px[0] == BLACK && px[1] == BLACK && px[2] == BLACK && px[3] == BLACK;
    ghost var start := bw.Bits;
    if allWhite {
      assert GroupCode(px) == TagCode(WhiteTag);
      bw.PutBits(TagVal(WhiteTag), TagLen(WhiteTag));
    } else if allBlack {
      assert GroupCode(px) == TagCode(BlackTag);
      bw.PutBits(TagVal(BlackTag), TagLen(BlackTag));
    } else {
      LiteralCode(px);
      bw.PutBits(TagVal(LiteralTag), TagLen(LiteralTag));
      ghost var tagged := bw.Bits;
      ghost var b0, b1, b2, b3 := BitsOf(px[0], 8), BitsOf(px[1], 8), BitsOf(px[2], 8), BitsOf(px[3], 8);
      bw.PutByte(px[0]);
      bw.PutByte(px[1]);
      bw.PutByte(px[2]);
      bw.PutByte(px[3]);
      AppendSix(start, TagCode(LiteralTag), b0, b1, b2, b3);
    }
  }

  lemma {:induction false} AppendSix(s: seq<bit>, t: seq<bit>, b0: seq<bit>, b1: seq<bit>, b2: seq<bit>, b3: seq<bit>)
    ensures s + t + b0 + b1 + b2 + b3 == s + (t + (b0 + b1 + b2 + b3))
  {
  }

  /** The code of a literal group: the `11` tag, then the four pixels. */
  lemma {:induction false} LiteralCode(px: seq<byte>)
    requires |px| == 4 && Classify(px) == LiteralTag
    ensures GroupCode(px) == TagCode(LiteralTag) + (BitsOf(px[0], 8) + BitsOf(px[1], 8) + BitsOf(px[2], 8) + BitsOf(px[3], 8))
  {
    UnpackFour(px);
  }

  /** The bits of four bytes, one byte after another. */
  lemma {:induction false} UnpackFour(px: seq<byte>)
    requires |px| == 4
    ensures Unpack(px) == BitsOf(px[0], 8) + BitsOf(px[1], 8) + BitsOf(px[2], 8) + BitsOf(px[3], 8)
  {
    assert Unpack(px[3..]) == BitsOf(px[3], 8) by {
      assert px[3..][1..] == [];
      assert Unpack(px[3..]) == BitsOf(px[3..][0], 8) + Unpack([]);
    }
    assert Unpack(px[2..]) == BitsOf(px[2], 8) + Unpack(px[3..]) by {
      assert px[2..][1..] == px[3..];
    }
    assert Unpack(px[1..]) == BitsOf(px[1], 8) + Unpack(px[2..]) by {
      assert px[1..][1..] == px[2..];
    }
  }

  /** The emptiness pass (barch.cpp:139-150): the row index, and which rows are to
      be encoded. */
  method ClassifyRows(data: seq<byte>, w: nat, h: nat) returns (index: seq<byte>, nonEmpty: seq<bool>)
    requires w * h <= |data|
    ensures index == RowIndex(EmptyFlags(data, w, h))
    ensures |nonEmpty| == h && forall y :: 0 <= y < h ==> nonEmpty[y] == !EmptyFlags(data, w, h)[y]
  {
    ghost var flags := EmptyFlags(data, w, h);
    var rowIndexBytes := CeilDiv(h, 8);
    var rowIndex: seq<byte> := seq(rowIndexBytes, _ => 0);
    var rows: seq<bool> := seq(h, _ => false);
    forall j | 0 <= j < rowIndexBytes
      ensures IndexByte(flags, 0, j) == 0
    {
      LSBValueClear(Chunk(flags, 0, j));
    }
    var y := 0;
    while y < h
      invariant y <= h && |rowIndex| == rowIndexBytes && |rows| == h
      invariant forall j :: 0 <= j < rowIndexBytes ==> rowIndex[j] == IndexByte(flags, y, j)
      invariant forall i :: 0 <= i < h ==> rows[i] == (i < y && !flags[i])
    {
      var empty := IsRowEmpty(RowOf(data, w, h, y));
      assert empty == flags[y];
      var nextY := y + 1;
      IndexByteStep(flags, y, nextY);
      if empty {
        // `rowIndex[y / 8] |= 1u << (y % 8)`: that bit is still clear, so the or adds.
        rowIndex := rowIndex[y / 8 := rowIndex[y / 8] + Pow2(y % 8)];
      } else {
        rows := rows[y := true];
      }
      y := nextY;
    }
    index := rowIndex;
    nonEmpty := rows;
  }

  /** Row `y + 1` starts `w` pixels after row `y`, and row `y` lies inside the image. */
  lemma {:induction false} RowStep(y: nat, w: nat, h: nat)
    requires y < h
    ensures (y + 1) * w == y * w + w && y * w + w <= w * h
  {
    RowFits(y, w, h);
  }

  /** The block pass (barch.cpp:152-181): the codes of the non-empty rows, packed. */
  method EncodeBitstream(data: seq<byte>, w: nat, h: nat, nonEmpty: seq<bool>) returns (bitstream: seq<byte>)
    requires w * h <= |data|
    requires |nonEmpty| == h && forall y :: 0 <= y < h ==> nonEmpty[y] == !EmptyFlags(data, w, h)[y]
    ensures bitstream == Pack(ImageBits(data, w, h))
  {
    ghost var codes := ImageCodes(data, w, h);
    var bw := new BitWriter();
    for y := 0 to h
      invariant bw.Valid() && bw.Bits == Flatten(codes[..y])
    {
      if nonEmpty[y] {
        EncodeRow(bw, RowOf(data, w, h, y));
      }
      FlattenSnoc(codes, y);
    }
    assert codes[..h] == codes;
    bitstream := bw.Finish();
  }

  /** The framing (barch.cpp:182-204): magic, version, the four size fields, the
      row index and the bitstream. */
  method Frame(w: u32, h: u32, index: seq<byte>, bitstream: seq<byte>) returns (file: seq<byte>)
    ensures file == Header(w, h, U32(|index|), U32(|bitstream|)) + index + bitstream
  {
    file := [MAGIC_0, MAGIC_1, FILE_VERSION];
    file := WriteLE32(file, w);
    file := WriteLE32(file, h);
    file := WriteLE32(file, U32(|index|));
    file := WriteLE32(file, U32(|bitstream|));
    file := file + index;
    file := file + bitstream;
  }

  /** `barch::encode`: the argument checks, then the three passes; equal to
      `EncodeSpec`. */
  method Encode(img: RawImage) returns (r: Result<seq<byte>>)
    requires Readable(img)
    ensures r == EncodeSpec(img)
  {
    if img.data.None? || img.width <= 0 || img.height <= 0 {
      return Err(InvalidInput);
    }
    var w, h, data := img.width as nat, img.height as nat, img.data.value;
    var index, nonEmpty := ClassifyRows(data, w, h);
    var bitstream := EncodeBitstream(data, w, h, nonEmpty);
    var file := Frame(w, h, index, bitstream);
    return Ok(file);
  }

  // ---------------------------------------------------------------------------
  // Decoding

  /** `std::memset(a + from, v, n)`. */
  method Memset(a: array<byte>, from: nat, v: byte, n: nat)
    requires from + n <= a.Length
    modifies a
    ensures a[..] == old(a[..from]) + seq(n, _ => v) + old(a[from + n..])
  {
    for i := from to from + n
      invariant a[..] == old(a[..from]) + seq(i - from, _ => v) + old(a[i..])
    {
      a[i] := v;
      assert seq(i + 1 - from, _ => v) == seq(i - from, _ => v) + [v];
    }
  }

  /** `std::memcpy(a + from, p, n)`. */
  method Memcpy(a: array<byte>, from: nat, p: seq<byte>, n: nat)
    requires from + n <= a.Length && n <= |p|
    modifies a
    ensures a[..] == old(a[..from]) + p[..n] + old(a[from + n..])
  {
    for i := from to from + n
      invariant a[..] == old(a[..from]) + p[..i - from] + old(a[i..])
    {
      a[i] := p[i - from];
      assert p[..i + 1 - from] == p[..i - from] + [p[i - from]];
    }
  }

  /** Prefixes `done` to the pixels of a successful row decode. */
  ghost function GlueGroups(done: seq<byte>, r: Result<(seq<byte>, nat)>): Result<(seq<byte>, nat)>
  {
    if r.Ok? then Ok((done + r.value.0, r.value.1)) else r
  }

  lemma {:induction false} GlueGroupsAppend(a: seq<byte>, b: seq<byte>, r: Result<(seq<byte>, nat)>)
    ensures GlueGroups(a, GlueGroups(b, r)) == GlueGroups(a + b, r)
  {
    if r.Ok? {
      assert a + (b + r.value.0) == (a + b) + r.value.0;
    }
  }

  /** One block of `DecodeGroups` under pixels already decoded: a failed block fails
      the row; a decoded block joins the pixels before it. */
  lemma {:induction false} GroupsJoin(bits: seq<bit>, pos: nat, w: nat, written: nat, written': nat, n: nat,
                                      before: seq<byte>, spec: Result<(seq<byte>, nat)>)
    requires written < w && n == Min(PIXELS_PER_BLOCK, w - written) && written' == written + n
    requires spec == GlueGroups(before, DecodeGroups(bits, pos, w, written))
    ensures DecodeBlock(bits, pos, n).Err? ==> spec == Err(DecodeBlock(bits, pos, n).error)
    ensures DecodeBlock(bits, pos, n).Ok? ==>
      spec == GlueGroups(before + DecodeBlock(bits, pos, n).value.0,
                         DecodeGroups(bits, DecodeBlock(bits, pos, n).value.1, w, written'))
  {
    var b := DecodeBlock(bits, pos, n);
    if b.Ok? {
      GlueGroupsAppend(before, b.value.0, DecodeGroups(bits, b.value.1, w, written'));
    }
  }

  lemma {:induction false} GlueGroupsNil(r: Result<(seq<byte>, nat)>)
    ensures GlueGroups([], r) == r
  {
    if r.Ok? {
      assert [] + r.value.0 == r.value.0;
    }
  }

  /** Prefixes `done` to the pixels of a successful decode of the remaining rows. */
  ghost function GlueRows(done: seq<byte>, r: Result<seq<byte>>): Result<seq<byte>>
  {
    if r.Ok? then Ok(done + r.value) else r
  }

  /** The tag read at the top of the tag loop (barch.cpp:263-264): one bit, and a
      second one when the first is set. */
  method ReadCode(br: BitReader, ghost bits: seq<bit>) returns (r: Result<Tag>)
    requires br.Valid() && bits == Unpack(br.data)
    modifies br
    ensures br.Valid()
    ensures r.Ok? ==> ReadTag(bits, old(br.Pos())) == Ok((r.value, br.Pos()))
    ensures r.Err? ==> ReadTag(bits, old(br.Pos())) == Err(r.error)
  {
    var b0 := br.GetBit();
    if b0.Err? {
      return Err(b0.error);
    }
    if b0.value == 0 {
      return Ok(WhiteTag);  // code 0
    }
    var b1 := br.GetBit();
    if b1.Err? {
      return Err(b1.error);
    }
    // code `2 | b1`: 2 is black, 3 is a literal
    return if b1.value == 0 then Ok(BlackTag) else Ok(LiteralTag);
  }

  /** The four `getByte` calls of a literal (barch.cpp:273). */
  method ReadLiteralBytes(br: BitReader, ghost bits: seq<bit>) returns (r: Result<seq<byte>>)
    requires br.Valid() && bits == Unpack(br.data)
    modifies br
    ensures br.Valid()
    ensures r == ReadLiteral(bits, old(br.Pos()))
    ensures r.Ok? ==> br.Pos() == old(br.Pos()) + 32
  {
    ghost var pos := br.Pos();
    var p0 := br.GetByte();
    if p0.Err? {
      return Err(p0.error);
    }
    var p1 := br.GetByte();
    if p1.Err? {
      return Err(p1.error);
    }
    var p2 := br.GetByte();
    if p2.Err? {
      return Err(p2.error);
    }
    var p3 := br.GetByte();
    if p3.Err? {
      return Err(p3.error);
    }
    r := Ok([p0.value, p1.value, p2.value, p3.value]);
    LiteralBytes(bits, pos);
  }

  /** The four bytes of a literal that fits in the stream. */
  lemma {:induction false} LiteralBytes(bits: seq<bit>, pos: nat)
    requires pos + 32 <= |bits|
    ensures ReadLiteral(bits, pos)
         == Ok([ByteAt(bits, pos), ByteAt(bits, pos + 8), ByteAt(bits, pos + 16), ByteAt(bits, pos + 24)])
  {
    var lit := seq(4, i requires 0 <= i < 4 => ByteAt(bits, pos + 8 * i));
    assert lit[0] == ByteAt(bits, pos) && lit[1] == ByteAt(bits, pos + 8);
    assert lit[2] == ByteAt(bits, pos + 16) && lit[3] == ByteAt(bits, pos + 24);
    assert lit == [ByteAt(bits, pos), ByteAt(bits, pos + 8), ByteAt(bits, pos + 16), ByteAt(bits, pos + 24)];
  }

  /** One block of the tag loop (barch.cpp:263-280): reads a tag and fills the `n`
      pixels at `at`. */
  method ReadBlock(br: BitReader, out: array<byte>, at: nat, n: nat, ghost bits: seq<bit>)
    returns (res: Outcome)
    requires br.Valid() && bits == Unpack(br.data) && at + n <= out.Length && n <= PIXELS_PER_BLOCK
    modifies br, out
    ensures br.Valid()
    ensures res.Pass? ==>
      && DecodeBlock(bits, old(br.Pos()), n).Ok?
      && out[..] == old(out[..at]) + DecodeBlock(bits, old(br.Pos()), n).value.0 + old(out[at + n..])
      && br.Pos() == DecodeBlock(bits, old(br.Pos()), n).value.1
    ensures res.Fail? ==> DecodeBlock(bits, old(br.Pos()), n) == Err(res.error)
  {
    var tag := ReadCode(br, bits);
    if tag.Err? {
      return Fail(tag.error);
    }
    match tag.value {
      case WhiteTag =>
        Memset(out, at, WHITE, n);
      case BlackTag =>
        Memset(out, at, BLACK, n);
      case LiteralTag =>
        var p := ReadLiteralBytes(br, bits);
        if p.Err? {
          return Fail(p.error);
        }
        Memcpy(out, at, p.value, n);
    }
    return Pass;
  }

  /** Writing `mid` over `a[from..to]` leaves the rest of `a` as it was. */
  lemma {:induction false} Splice(a: seq<byte>, b: seq<byte>, lo: nat, from: nat, mid: seq<byte>, n: nat, to: nat, hi: nat)
    requires lo <= from && from + n == to <= hi <= |a| == |b|
    requires b == a[..from] + mid + a[from + n..]
    ensures b[..lo] == a[..lo] && b[hi..] == a[hi..]
    ensures b[lo..to] == a[lo..from] + mid
  {
  }

  /** One pass of the tag loop (barch.cpp:261-280) at pixel `written` of a row:
      one more block of `DecodeGroups`, written after the pixels already decoded;
      nothing outside the row changes. */
  method ReadGroup(br: BitReader, out: array<byte>, base: nat, w: nat, written: nat, ghost bits: seq<bit>,
                   ghost spec: Result<(seq<byte>, nat)>) returns (res: Outcome, next: nat)
    requires br.Valid() && bits == Unpack(br.data) && base + w <= out.Length && written < w
    requires spec == GlueGroups(out[base..base + written], DecodeGroups(bits, br.Pos(), w, written))
    modifies br, out
    ensures br.Valid()
    ensures res.Fail? ==> spec == Err(res.error)
    ensures res.Pass? ==>
      && written < next <= w
      && out[..base] == old(out[..base]) && out[base + w..] == old(out[base + w..])
      && spec == GlueGroups(out[base..base + next], DecodeGroups(bits, br.Pos(), w, next))
  {
    var n := Min(PIXELS_PER_BLOCK, w - written);
    next := written + n;
    ghost var prev := out[..];
    ghost var pos := br.Pos();
    GroupsJoin(bits, pos, w, written, next, n, prev[base..base + written], spec);
    res := ReadBlock(br, out, base + written, n, bits);
    if res.Pass? {
      Splice(prev, out[..], base, base + written, DecodeBlock(bits, pos, n).value.0, n, base + next, base + w);
    }
  }

  /** The tag loop of one non-empty row (barch.cpp:260-281): fills the `w` pixels at
      `base` from the reader; stops at the first failed read. */
  method DecodeRowGroups(br: BitReader, out: array<byte>, base: nat, w: nat, ghost bits: seq<bit>)
    returns (res: Outcome)
    requires br.Valid() && bits == Unpack(br.data) && base + w <= out.Length
    modifies br, out
    ensures br.Valid()
    ensures res.Pass? ==>
      && DecodeGroups(bits, old(br.Pos()), w, 0).Ok?
      && out[..] == old(out[..base]) + DecodeGroups(bits, old(br.Pos()), w, 0).value.0 + old(out[base + w..])
      && br.Pos() == DecodeGroups(bits, old(br.Pos()), w, 0).value.1
    ensures res.Fail? ==> DecodeGroups(bits, old(br.Pos()), w, 0) == Err(res.error)
  {
    ghost var spec := DecodeGroups(bits, br.Pos(), w, 0);
    var written := 0;
    assert out[base..base + written] == [];
    GlueGroupsNil(spec);
    while written < w
      invariant br.Valid() && written <= w
      invariant out[..base] == old(out[..base]) && out[base + w..] == old(out[base + w..])
      invariant spec == GlueGroups(out[base..base + written], DecodeGroups(bits, br.Pos(), w, written))
      decreases w - written
    {
      var r, next := ReadGroup(br, out, base, w, written, bits, spec);
      if r.Fail? {
        return Fail(r.error);
      }
      written := next;
    }
    assert out[..] == out[..base] + out[base..base + w] + out[base + w..];
    return Pass;
  }

  /** Rows decoded so far, one more row, then the rows after it. */
  lemma {:induction false} RowsJoin(bytes: seq<byte>, bits: seq<bit>, w: nat, h: nat, y: nat, y': nat, pos: nat,
                                    before: seq<byte>, row: seq<byte>, spec: Result<seq<byte>>)
    requires FlagsInside(bytes, h) && y' == y + 1
    requires spec == GlueRows(before, GlueRows(row, DecodeRows(bytes, bits, w, h, y + 1, pos)))
    ensures spec == GlueRows(before + row, DecodeRows(bytes, bits, w, h, y', pos))
  {
    GlueRowsAppend(before, row, DecodeRows(bytes, bits, w, h, y', pos));
  }

  lemma {:induction false} GlueRowsAppend(a: seq<byte>, b: seq<byte>, r: Result<seq<byte>>)
    ensures GlueRows(a, GlueRows(b, r)) == GlueRows(a + b, r)
  {
    if r.Ok? {
      assert a + (b + r.value) == (a + b) + r.value;
    }
  }

  /** One pass of the row loop (barch.cpp:254-281): a row flagged empty is filled
      with white and no bit is read; any other row is read block by block. This
      is one step of `DecodeRows`; nothing outside the row changes. */
  method DecodeRowInto(bytes: seq<byte>, w: nat, h: nat, y: nat, br: BitReader, out: array<byte>,
                       base: nat, ghost bits: seq<bit>) returns (res: Outcome)
    requires FlagsInside(bytes, h) && y < h && base + w <= out.Length
    requires br.Valid() && bits == Unpack(br.data)
    modifies br, out
    ensures br.Valid()
    ensures res.Pass? ==>
      && DecodeRows(bytes, bits, w, h, y, old(br.Pos()))
         == GlueRows(out[base..base + w], DecodeRows(bytes, bits, w, h, y + 1, br.Pos()))
      && out[..base] == old(out[..base]) && out[base + w..] == old(out[base + w..])
    ensures res.Fail? ==> DecodeRows(bytes, bits, w, h, y, old(br.Pos())) == Err(res.error)
    ensures RowFlag(bytes, y) ==>
      res.Pass? && br.Pos() == old(br.Pos()) && out[base..base + w] == seq(w, _ => WHITE)
    ensures !RowFlag(bytes, y) && res.Pass? ==>
      DecodeGroups(bits, old(br.Pos()), w, 0) == Ok((out[base..base + w], br.Pos()))
  {
    var empty := BitAt(bytes[HEADER_SIZE + y / 8], y % 8) == 1;
    if empty {
      ghost var prev := out[..];
      Memset(out, base, WHITE, w);
      Splice(prev, out[..], base, base, seq(w, _ => WHITE), w, base + w, base + w);
      return Pass;
    }
    ghost var before := out[..];
    res := DecodeRowGroups(br, out, base, w, bits);
    if res.Pass? {
      Splice(before, out[..], base, base, DecodeGroups(bits, old(br.Pos()), w, 0).value.0, w, base + w, base + w);
    }
  }

  /** The number of pixels in `n` rows of width `w`, counted row by row. */
  ghost function RowsLength(n: nat, w: nat): nat
  {
    if n == 0 then 0 else RowsLength(n - 1, w) + w
  }

  lemma {:induction false} RowsLengthNext(n: nat, m: nat, w: nat)
    requires n == m + 1
    ensures RowsLength(n, w) == RowsLength(m, w) + w
  {
  }

  lemma {:induction false} RowsLengthMul(n: nat, w: nat)
    ensures RowsLength(n, w) == n * w
  {
    if n > 0 {
      RowsLengthMul(n - 1, w);
    }
  }

  /** The row loop (barch.cpp:249-282) with the `continue` taken only for rows
      flagged empty: fills `out` row by row. */
  method DecodeRowsInto(bytes: seq<byte>, w: nat, h: nat, br: BitReader, out: array<byte>,
                        ghost bits: seq<bit>) returns (res: Outcome)
    requires FlagsInside(bytes, h) && out.Length == RowsLength(h, w)
    requires br.Valid() && bits == Unpack(br.data)
    modifies br, out
    ensures res.Pass? ==> DecodeRows(bytes, bits, w, h, 0, old(br.Pos())) == Ok(out[..])
    ensures res.Fail? ==> DecodeRows(bytes, bits, w, h, 0, old(br.Pos())) == Err(res.error)
  {
    ghost var spec := DecodeRows(bytes, bits, w, h, 0, br.Pos());
    var base: nat := 0;
    assert out[..base] == [];
    assert spec == GlueRows(out[..base], spec) by {
      if spec.Ok? {
        assert [] + spec.value == spec.value;
      }
    }
    ghost var rest: nat := h;
    var y := 0;
    while y < h
      invariant y <= h && rest == h - y && base + RowsLength(rest, w) == out.Length && br.Valid()
      invariant spec == GlueRows(out[..base], DecodeRows(bytes, bits, w, h, y, br.Pos()))
    {
      ghost var before := out[..base];
      var r := DecodeRowInto(bytes, w, h, y, br, out, base, bits);
      if r.Fail? {
        return Fail(r.error);
      }
      // Each updated variable gets a name of its own, so that the facts below are
      // stated about exactly the values the invariant is checked on.
      var next, nextY := base + w, y + 1;
      ghost var nextRest := rest - 1;
      RowsLengthNext(rest, nextRest, w);
      assert out[..next] == before + out[base..base + w];
      RowsJoin(bytes, bits, w, h, y, nextY, br.Pos(), before, out[base..base + w], spec);
      y, base, rest := nextY, next, nextRest;
    }
    assert out[..] == out[..base] + [];
    return Pass;
  }

  /** The header checks of `barch::decode` (barch.cpp:218-244). */
  method ReadHeader(bytes: seq<byte>) returns (r: Result<HeaderFields>)
    ensures r == ParseHeader(bytes)
  {
    if |bytes| < HEADER_SIZE {
      return Err(TooSmall);
    }
    if bytes[0] != MAGIC_0 || bytes[1] != MAGIC_1 {
      return Err(BadMagic);
    }
    if bytes[2] != FILE_VERSION {
      return Err(UnsupportedVersion);
    }
    var w := ReadLE32(bytes, OFF_WIDTH);
    var h := ReadLE32(bytes, OFF_HEIGHT);
    var indexSize := ReadLE32(bytes, OFF_ROW_INDEX_SIZE);
    var dataSize := ReadLE32(bytes, OFF_DATA_SIZE);
    // `size_t need`: with a 64-bit `size_t`, the sum of a small constant and two
    // 32-bit values does not wrap.
    if |bytes| < HEADER_SIZE + indexSize + dataSize {
      return Err(Truncated);
    }
    if indexSize < CeilDiv(h, 8) {
      return Err(RowIndexOutOfRange);
    }
    return Ok(HeaderFields(w, h, indexSize, dataSize));
  }

  /** `barch::decode`: the header checks, then the row loop; equal to `DecodeSpec`. */
  method Decode(bytes: seq<byte>) returns (r: Result<RawImage>)
    ensures r == DecodeSpec(bytes)
  {
    var header := ReadHeader(bytes);
    if header.Err? {
      return Err(header.error);
    }
    var hd := header.value;
    DecodeAccepted(bytes, hd);
    var w: nat, h: nat := hd.width, hd.height;
    var start := HEADER_SIZE + hd.indexSize;
    var out := new byte[w * h];
    assert out.Length == RowsLength(h, w) by {
      RowsLengthMul(h, w);
    }
    var br := new BitReader(bytes[start..start + hd.dataSize]);
    var res := DecodeRowsInto(bytes, w, h, br, out, StreamBits(bytes, hd));
    if res.Fail? {
      return Err(res.error);
    }
    return Ok(RawImage(ToInt32(hd.width), ToInt32(hd.height), Some(out[..])));
  }
}
