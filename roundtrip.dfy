/** Decoding what the encoder produced gives the image back: the row index, the
    block code and the framing of module Format are each undone by the decoder. */
module RoundTrip {
  import opened BitMath
  import opened LittleEndian
  import opened Results
  import opened Format

  // ---------------------------------------------------------------------------
  // The row index

  /** Bit `k` of a packed flag byte is flag `k`. */
  lemma {:induction false} LSBValueBit(fs: seq<bool>, k: nat)
    requires k < |fs|
    ensures BitAt(LSBValue(fs), k) == if fs[k] then 1 else 0
  {
    var v := LSBValue(fs);
    assert v / 2 == LSBValue(fs[1..]) && v % 2 == (if fs[0] then 1 else 0);
    if k > 0 {
      LSBValueBit(fs[1..], k - 1);
    }
  }

  /** Bit `y % 8` of byte `y / 8` of the row index is set exactly when row `y` is
      empty. */
  lemma {:induction false} RowIndexBit(flags: seq<bool>, y: nat)
    requires y < |flags|
    ensures y / 8 < |RowIndex(flags)|
    ensures BitAt(RowIndex(flags)[y / 8], y % 8) == if flags[y] then 1 else 0
  {
    var c := Chunk(flags, |flags|, y / 8);
    assert c[y % 8] == flags[y];
    LSBValueBit(c, y % 8);
  }

  /** The bits of the last index byte past row H-1 stay clear. */
  lemma {:induction false} RowIndexPadding(flags: seq<bool>, y: nat)
    requires |flags| <= y < 8 * |RowIndex(flags)|
    ensures BitAt(RowIndex(flags)[y / 8], y % 8) == 0
  {
    var c := Chunk(flags, |flags|, y / 8);
    assert !c[y % 8];
    LSBValueBit(c, y % 8);
  }

  // ---------------------------------------------------------------------------
  // The header

  /** The header fields read back from a file that starts with `Header(...)`. */
  lemma {:induction false} HeaderFieldsOf(w: u32, h: u32, a: u32, b: u32, rest: seq<byte>)
    ensures var f := Header(w, h, a, b) + rest;
      && |f| == HEADER_SIZE + |rest|
      && f[0] == MAGIC_0 && f[1] == MAGIC_1 && f[2] == FILE_VERSION
      && Field(f, OFF_WIDTH) == w && Field(f, OFF_HEIGHT) == h
      && Field(f, OFF_ROW_INDEX_SIZE) == a && Field(f, OFF_DATA_SIZE) == b
      && f[HEADER_SIZE..] == rest
  {
    var f := Header(w, h, a, b) + rest;
    assert f[3..7] == LE32Bytes(w);
    assert f[7..11] == LE32Bytes(h);
    assert f[11..15] == LE32Bytes(a);
    assert f[15..19] == LE32Bytes(b);
    LE32RoundTrip(w);
    LE32RoundTrip(h);
    LE32RoundTrip(a);
    LE32RoundTrip(b);
  }

  // ---------------------------------------------------------------------------
  // The block code

  /** `x` occurs in `s` at position `pos`. */
  ghost predicate At(s: seq<bit>, pos: nat, x: seq<bit>)
  {
    pos + |x| <= |s| && s[pos..pos + |x|] == x
  }

  lemma {:induction false} AtSplit(s: seq<bit>, pos: nat, a: seq<bit>, b: seq<bit>)
    requires At(s, pos, a + b)
    ensures At(s, pos, a) && At(s, pos + |a|, b)
  {
    assert s[pos..pos + |a|] == (a + b)[..|a|];
    assert s[pos + |a|..pos + |a| + |b|] == (a + b)[|a|..];
  }

  /** The tag read back from its own code, whatever follows it. */
  lemma {:induction false} TagRoundTrip(bits: seq<bit>, pos: nat, t: Tag)
    requires At(bits, pos, TagCode(t))
    ensures ReadTag(bits, pos) == Ok((t, pos + |TagCode(t)|))
  {
    TagCodes();
    assert bits[pos] == TagCode(t)[0];
    if t != WhiteTag {
      assert bits[pos + 1] == TagCode(t)[1];
    }
  }

  /** The code of a group decodes to its first `n` pixels: padding pixels are coded
      but not written back. */
  lemma {:induction false} BlockRoundTrip(bits: seq<bit>, pos: nat, px: seq<byte>, n: nat)
    requires |px| == 4 && 0 < n <= 4 && At(bits, pos, GroupCode(px))
    ensures DecodeBlock(bits, pos, n) == Ok((px[..n], pos + |GroupCode(px)|))
  {
    var t := Classify(px);
    AtSplit(bits, pos, TagCode(t), if t == LiteralTag then Unpack(px) else []);
    TagRoundTrip(bits, pos, t);
    TagCodes();
    var p1 := pos + |TagCode(t)|;
    match t
    case WhiteTag =>
      assert seq(n, _ => WHITE) == px[..n];
    case BlackTag =>
      assert seq(n, _ => BLACK) == px[..n];
    case LiteralTag =>
      LiteralRoundTrip(bits, p1, px);
  }

  /** Four bytes read back from their bits. */
  lemma {:induction false} LiteralRoundTrip(bits: seq<bit>, pos: nat, px: seq<byte>)
    requires |px| == 4 && At(bits, pos, Unpack(px))
    ensures ReadLiteral(bits, pos) == Ok(px)
  {
    forall i | 0 <= i < 4
      ensures ByteAt(bits, pos + 8 * i) == px[i]
    {
      LiteralByte(bits, pos, px, i);
    }
    assert seq(4, i requires 0 <= i < 4 => ByteAt(bits, pos + 8 * i)) == px;
  }

  /** Byte `i` of a literal read back from its 8 bits. */
  lemma {:induction false} LiteralByte(bits: seq<bit>, pos: nat, px: seq<byte>, i: nat)
    requires |px| == 4 && At(bits, pos, Unpack(px)) && i < 4
    ensures pos + 8 * i + 8 <= |bits| && ByteAt(bits, pos + 8 * i) == px[i]
  {
    UnpackSlice(px, i);
    SliceOfSlice(bits, pos, pos + 32, 8 * i, 8 * i + 8);
    ValueOfBitsOf(px[i], 8);
  }

  /** Every group code of a row, wherever it occurs in `bits`, decodes to the pixels
      of its group that exist. */
  lemma {:induction false} BlocksOfRow(bits: seq<bit>, row: seq<byte>)
    ensures CodesDecode(bits, row, RowCodes(row))
  {
    var codes := RowCodes(row);
    forall k, p: nat | 0 <= k < |codes| && At(bits, p, codes[k])
      ensures BlockDecodes(bits, p, row, k, codes[k])
    {
      GroupOfRow(bits, p, row, k);
    }
  }

  /** The code of group `k` of `row` at bit `p` decodes to that group's pixels. */
  lemma {:induction false} GroupOfRow(bits: seq<bit>, p: nat, row: seq<byte>, k: nat)
    requires k < CeilDiv(|row|, PIXELS_PER_BLOCK) && At(bits, p, GroupCode(GroupAt(row, k)))
    ensures BlockDecodes(bits, p, row, k, GroupCode(GroupAt(row, k)))
  {
    var written := PIXELS_PER_BLOCK * k;
    var n := Min(PIXELS_PER_BLOCK, |row| - written);
    var px := GroupAt(row, k);
    BlockRoundTrip(bits, p, px, n);
    assert px[..n] == row[written..written + n];
  }

  lemma {:induction false} SliceOfSlice<T>(s: seq<T>, a: nat, b: nat, c: nat, d: nat)
    requires a <= b <= |s| && c <= d <= b - a
    ensures s[a..b][c..d] == s[a + c..a + d]
  {
    forall i | 0 <= i < d - c
      ensures s[a..b][c..d][i] == s[a + c..a + d][i]
    {
      assert s[a..b][c..d][i] == s[a..b][c + i] == s[a + c + i];
    }
  }

  /** Group `k` of `row` starts at pixel `4k`, and `code` at bit `p` decodes to
      its pixels that exist. */
  ghost predicate BlockDecodes(bits: seq<bit>, p: nat, row: seq<byte>, k: nat, code: seq<bit>)
  {
    && PIXELS_PER_BLOCK * k < |row|
    && var n := Min(PIXELS_PER_BLOCK, |row| - PIXELS_PER_BLOCK * k);
       DecodeBlock(bits, p, n) == Ok((row[PIXELS_PER_BLOCK * k..PIXELS_PER_BLOCK * k + n], p + |code|))
  }

  /** Each of `codes`, wherever it occurs in `bits`, decodes to its group of `row`. */
  ghost predicate CodesDecode(bits: seq<bit>, row: seq<byte>, codes: seq<seq<bit>>)
  {
    forall k, p: nat :: 0 <= k < |codes| && At(bits, p, codes[k]) ==> BlockDecodes(bits, p, row, k, codes[k])
  }

  /** The tag loop, started at pixel `written` and bit `pos`, yields the rest of
      `row` and stops at bit `end`. */
  ghost predicate GroupsDecodeTo(bits: seq<bit>, pos: nat, row: seq<byte>, written: nat, end: nat)
    requires written <= |row|
  {
    DecodeGroups(bits, pos, |row|, written) == Ok((row[written..], end))
  }

  /** The codes of groups `g` onwards decode to the pixels from `written` (that is,
      `4g`) onwards, for any list of codes each of which decodes to its group. */
  lemma {:induction false} GroupsRoundTrip(bits: seq<bit>, pos: nat, row: seq<byte>, codes: seq<seq<bit>>,
                                           g: nat, written: nat)
    requires |codes| == CeilDiv(|row|, PIXELS_PER_BLOCK) && g <= |codes|
    requires written == Min(PIXELS_PER_BLOCK * g, |row|)
    requires CodesDecode(bits, row, codes)
    requires At(bits, pos, Flatten(codes[g..]))
    ensures written <= |row| && GroupsDecodeTo(bits, pos, row, written, pos + |Flatten(codes[g..])|)
    decreases |codes| - g
  {
    if g == |codes| {
      assert Flatten(codes[g..]) == [] by { assert codes[g..] == []; }
      GroupsEnd(bits, pos, row, g, written);
    } else {
      GroupsSplit(bits, pos, codes, g);
      var p2 := pos + |codes[g]|;
      var next := Min(PIXELS_PER_BLOCK * (g + 1), |row|);
      GroupsRoundTrip(bits, p2, row, codes, g + 1, next);
      GroupsUnfold(bits, pos, row, codes, g, written, next, p2 + |Flatten(codes[g + 1..])|);
    }
  }

  /** The codes of groups `g` onwards at `pos` are the code of group `g` followed
      by the codes of the later groups. */
  lemma {:induction false} GroupsSplit(bits: seq<bit>, pos: nat, codes: seq<seq<bit>>, g: nat)
    requires g < |codes| && At(bits, pos, Flatten(codes[g..]))
    ensures At(bits, pos, codes[g]) && At(bits, pos + |codes[g]|, Flatten(codes[g + 1..]))
    ensures |Flatten(codes[g..])| == |codes[g]| + |Flatten(codes[g + 1..])|
  {
    FlattenCons(codes, g);
    AtSplit(bits, pos, codes[g], Flatten(codes[g + 1..]));
  }

  /** Past the last group nothing is left to decode. */
  lemma {:induction false} GroupsEnd(bits: seq<bit>, pos: nat, row: seq<byte>, g: nat, written: nat)
    requires g == CeilDiv(|row|, PIXELS_PER_BLOCK) && written == Min(PIXELS_PER_BLOCK * g, |row|)
    ensures written <= |row| && GroupsDecodeTo(bits, pos, row, written, pos)
  {
    assert written == |row|;
    assert row[written..] == [];
  }

  /** One unfolding of `DecodeGroups` at group `g`, whose code is at `pos`, when
      the later groups decode. */
  lemma {:induction false} GroupsUnfold(bits: seq<bit>, pos: nat, row: seq<byte>, codes: seq<seq<bit>>,
                                        g: nat, written: nat, next: nat, p3: nat)
    requires g < |codes| && CodesDecode(bits, row, codes) && At(bits, pos, codes[g])
    requires written == Min(PIXELS_PER_BLOCK * g, |row|) && next == Min(PIXELS_PER_BLOCK * (g + 1), |row|)
    requires next <= |row| && GroupsDecodeTo(bits, pos + |codes[g]|, row, next, p3)
    ensures written <= |row| && GroupsDecodeTo(bits, pos, row, written, p3)
  {
    assert BlockDecodes(bits, pos, row, g, codes[g]);
    var n := Min(PIXELS_PER_BLOCK, |row| - written);
    assert written == PIXELS_PER_BLOCK * g && next == written + n;
    assert row[written..] == row[written..next] + row[next..];
  }

  // ---------------------------------------------------------------------------
  // Rows

  /** The rows of an image, top to bottom. */
  ghost function Rows(data: seq<byte>, w: nat, h: nat): (r: seq<seq<byte>>)
    requires w * h <= |data|
    ensures |r| == h
  {
    seq(h, y requires 0 <= y < h => RowOf(data, w, h, y))
  }

  /** The first `y` rows, joined, are the first `y * w` pixels. */
  lemma {:induction false} RowsPrefix(data: seq<byte>, w: nat, h: nat, y: nat)
    requires w * h <= |data| && y <= h
    ensures y * w <= |data| && Flatten(Rows(data, w, h)[..y]) == data[..y * w]
  {
    if y == 0 {
      assert Rows(data, w, h)[..0] == [];
    } else {
      RowsPrefix(data, w, h, y - 1);
      RowFits(y - 1, w, h);
      FlattenSnoc(Rows(data, w, h), y - 1);
      assert (y - 1) * w + w == y * w;
      assert data[..y * w] == data[..(y - 1) * w] + data[(y - 1) * w..y * w];
    }
  }

  /** Row `y` of the image, decoded from its code wherever that code occurs. */
  lemma {:induction false} ImageRowDecodes(file: seq<byte>, bits: seq<bit>, data: seq<byte>, w: nat, h: nat,
                                           y: nat, pos: nat)
    requires w * h <= |data| && FlagsInside(file, h) && y < h
    requires RowFlag(file, y) == EmptyFlags(data, w, h)[y]
    requires At(bits, pos, ImageCodes(data, w, h)[y])
    ensures DecodeRow(file, bits, w, h, y, pos) == Ok((Rows(data, w, h)[y], pos + |ImageCodes(data, w, h)[y]|))
  {
    var row := Rows(data, w, h)[y];
    ImageRow(data, w, h, y);
    BlocksOfRow(bits, row);
    RowDecodes(file, bits, w, h, y, pos, row, RowCodes(row), IsWhiteRow(row), ImageCodes(data, w, h)[y]);
  }

  /** Row `y` of the image, its emptiness flag and its contribution to the bitstream. */
  lemma {:induction false} ImageRow(data: seq<byte>, w: nat, h: nat, y: nat)
    requires w * h <= |data| && y < h
    ensures |Rows(data, w, h)[y]| == w
    ensures EmptyFlags(data, w, h)[y] == IsWhiteRow(Rows(data, w, h)[y])
    ensures ImageCodes(data, w, h)[y]
         == if IsWhiteRow(Rows(data, w, h)[y]) then [] else Flatten(RowCodes(Rows(data, w, h)[y]))
  {
    assert Rows(data, w, h)[y] == RowOf(data, w, h, y);
  }

  /** A row decoded from its code: the white row from its flag alone, any other
      row from its group codes, given codes each of which decodes to its group. */
  lemma {:induction false} RowDecodes(file: seq<byte>, bits: seq<bit>, w: nat, h: nat, y: nat, pos: nat,
                                      row: seq<byte>, codes: seq<seq<bit>>, white: bool, code: seq<bit>)
    requires FlagsInside(file, h) && y < h && |row| == w
    requires |codes| == CeilDiv(|row|, PIXELS_PER_BLOCK)
    requires CodesDecode(bits, row, codes)
    requires white == IsWhiteRow(row) && RowFlag(file, y) == white
    requires code == if white then [] else Flatten(codes)
    requires At(bits, pos, code)
    ensures DecodeRow(file, bits, w, h, y, pos) == Ok((row, pos + |code|))
  {
    if white {
      WhiteRowDecodes(file, bits, w, h, y, pos, row, code);
    } else {
      GroupsRowDecodes(file, bits, w, h, y, pos, row, codes, code);
    }
  }

  /** A row that is not white is decoded from all its group codes. */
  lemma {:induction false} GroupsRowDecodes(file: seq<byte>, bits: seq<bit>, w: nat, h: nat, y: nat, pos: nat,
                                            row: seq<byte>, codes: seq<seq<bit>>, code: seq<bit>)
    requires FlagsInside(file, h) && y < h && |row| == w && !RowFlag(file, y)
    requires |codes| == CeilDiv(|row|, PIXELS_PER_BLOCK) && CodesDecode(bits, row, codes)
    requires code == Flatten(codes) && At(bits, pos, code)
    ensures DecodeRow(file, bits, w, h, y, pos) == Ok((row, pos + |code|))
  {
    RowGroupsRoundTrip(bits, pos, row, codes);
  }

  /** A white row is decoded from its flag alone, without reading a bit. */
  lemma {:induction false} WhiteRowDecodes(file: seq<byte>, bits: seq<bit>, w: nat, h: nat, y: nat, pos: nat,
                                           row: seq<byte>, code: seq<bit>)
    requires FlagsInside(file, h) && y < h && |row| == w
    requires RowFlag(file, y) && IsWhiteRow(row) && code == []
    ensures DecodeRow(file, bits, w, h, y, pos) == Ok((row, pos + |code|))
  {
    assert seq(w, _ => WHITE) == row;
  }

  /** A row decoded from all its group codes. */
  lemma {:induction false} RowGroupsRoundTrip(bits: seq<bit>, pos: nat, row: seq<byte>, codes: seq<seq<bit>>)
    requires |codes| == CeilDiv(|row|, PIXELS_PER_BLOCK)
    requires CodesDecode(bits, row, codes)
    requires At(bits, pos, Flatten(codes))
    ensures DecodeGroups(bits, pos, |row|, 0) == Ok((row, pos + |Flatten(codes)|))
  {
    assert codes[0..] == codes;
    GroupsRoundTrip(bits, pos, row, codes, 0, 0);
    assert row[0..] == row;
  }

  /** Each of `codes`, wherever it occurs in `bits`, decodes to its row of `rows`. */
  ghost predicate RowCodesDecode(file: seq<byte>, bits: seq<bit>, w: nat, h: nat,
                                 rows: seq<seq<byte>>, codes: seq<seq<bit>>)
    requires FlagsInside(file, h)
  {
    && |rows| == h && |codes| == h
    && forall r, p: nat :: 0 <= r < h && At(bits, p, codes[r]) ==>
         DecodeRow(file, bits, w, h, r, p) == Ok((rows[r], p + |codes[r]|))
  }

  /** One unfolding of `DecodeRows` when the row and the rest both decode. */
  lemma {:induction false} RowsUnfold(file: seq<byte>, bits: seq<bit>, w: nat, h: nat, y: nat, pos: nat,
                                      row: seq<byte>, p: nat, rest: seq<byte>)
    requires FlagsInside(file, h) && y < h
    requires DecodeRow(file, bits, w, h, y, pos) == Ok((row, p))
    requires DecodeRows(file, bits, w, h, y + 1, p) == Ok(rest)
    ensures DecodeRows(file, bits, w, h, y, pos) == Ok(row + rest)
  {
  }

  /** The rows from `y` on decode to those rows, for any list of row codes each of
      which decodes to its row, given the codes from `y` on at `pos`. */
  lemma {:induction false} RowsRoundTrip(file: seq<byte>, bits: seq<bit>, w: nat, h: nat,
                                         rows: seq<seq<byte>>, codes: seq<seq<bit>>, y: nat, pos: nat)
    requires FlagsInside(file, h) && |rows| == h && |codes| == h && y <= h
    requires RowCodesDecode(file, bits, w, h, rows, codes)
    requires At(bits, pos, Flatten(codes[y..]))
    ensures DecodeRows(file, bits, w, h, y, pos) == Ok(Flatten(rows[y..]))
    decreases h - y
  {
    if y == h {
      assert rows[y..] == [];
    } else {
      FlattenCons(codes, y);
      AtSplit(bits, pos, codes[y], Flatten(codes[y + 1..]));
      var p := pos + |codes[y]|;
      assert DecodeRow(file, bits, w, h, y, pos) == Ok((rows[y], p));
      RowsRoundTrip(file, bits, w, h, rows, codes, y + 1, p);
      FlattenCons(rows, y);
      RowsUnfold(file, bits, w, h, y, pos, rows[y], p, Flatten(rows[y + 1..]));
    }
  }

  /** Every row code of the image, wherever it occurs, decodes to its row. */
  lemma {:induction false} ImageRowsDecode(file: seq<byte>, bits: seq<bit>, data: seq<byte>, w: nat, h: nat)
    requires w * h <= |data| && FlagsInside(file, h)
    requires forall r :: 0 <= r < h ==> RowFlag(file, r) == EmptyFlags(data, w, h)[r]
    ensures RowCodesDecode(file, bits, w, h, Rows(data, w, h), ImageCodes(data, w, h))
  {
    forall r, p: nat | 0 <= r < h && At(bits, p, ImageCodes(data, w, h)[r])
      ensures DecodeRow(file, bits, w, h, r, p) == Ok((Rows(data, w, h)[r], p + |ImageCodes(data, w, h)[r]|))
    {
      ImageRowDecodes(file, bits, data, w, h, r, p);
    }
  }

  // ---------------------------------------------------------------------------
  // The whole file

  /** The file the encoder frames around a row index and a bitstream passes every
      header check, gives back its sizes, and holds the index right after the
      header and the bitstream after the index. */
  lemma {:induction false} FrameAccepted(w: u32, h: u32, index: seq<byte>, stream: seq<byte>)
    requires |index| == CeilDiv(h, 8) && |stream| < 0x1_0000_0000
    ensures |index| < 0x1_0000_0000
    ensures var file := Header(w, h, |index|, |stream|) + index + stream;
      var hd := HeaderFields(w, h, |index|, |stream|);
      && ParseHeader(file) == Ok(hd)
      && StreamBits(file, hd) == Unpack(stream)
      && forall r :: 0 <= r < h ==> HEADER_SIZE + r / 8 < |file| && file[HEADER_SIZE + r / 8] == index[r / 8]
  {
    var file := Header(w, h, |index|, |stream|) + index + stream;
    var hd := HeaderFields(w, h, |index|, |stream|);
    HeaderFieldsOf(w, h, |index|, |stream|, index + stream);
    assert file == Header(w, h, |index|, |stream|) + (index + stream);
    assert FlagsInside(file, h) by {
      if h > 0 {
        assert (h - 1) / 8 < |index|;
      }
    }
    assert ParseHeader(file) == Ok(hd);
    assert file[HEADER_SIZE + |index|..HEADER_SIZE + |index| + |stream|] == stream;
    forall r | 0 <= r < h
      ensures HEADER_SIZE + r / 8 < |file| && file[HEADER_SIZE + r / 8] == index[r / 8]
    {
      assert r / 8 < |index|;
    }
  }

  /** The emptiness flags read back from a file holding the row index of `flags`
      right after its header. */
  lemma {:induction false} FlagsReadBack(file: seq<byte>, flags: seq<bool>)
    requires forall r :: 0 <= r < |flags| ==>
      HEADER_SIZE + r / 8 < |file| && file[HEADER_SIZE + r / 8] == RowIndex(flags)[r / 8]
    ensures forall r :: 0 <= r < |flags| ==> HEADER_SIZE + r / 8 < |file| && RowFlag(file, r) == flags[r]
  {
    forall r | 0 <= r < |flags|
      ensures HEADER_SIZE + r / 8 < |file| && RowFlag(file, r) == flags[r]
    {
      RowIndexBit(flags, r);
    }
  }

  /** All rows decode to the image's pixels from a bitstream that starts with the
      image's block codes. */
  lemma {:induction false} ImageRoundTrip(file: seq<byte>, bits: seq<bit>, data: seq<byte>, w: nat, h: nat)
    requires w * h == |data| && FlagsInside(file, h)
    requires forall r :: 0 <= r < h ==> RowFlag(file, r) == EmptyFlags(data, w, h)[r]
    requires At(bits, 0, ImageBits(data, w, h))
    ensures DecodeRows(file, bits, w, h, 0, 0) == Ok(data)
  {
    ImageRowsRoundTrip(file, bits, data, w, h);
    RowsJoined(data, w, h);
  }

  /** All rows decode to the image's rows, joined. */
  lemma {:induction false} ImageRowsRoundTrip(file: seq<byte>, bits: seq<bit>, data: seq<byte>, w: nat, h: nat)
    requires w * h <= |data| && FlagsInside(file, h)
    requires forall r :: 0 <= r < h ==> RowFlag(file, r) == EmptyFlags(data, w, h)[r]
    requires At(bits, 0, ImageBits(data, w, h))
    ensures DecodeRows(file, bits, w, h, 0, 0) == Ok(Flatten(Rows(data, w, h)))
  {
    ImageRowsDecode(file, bits, data, w, h);
    AllRowsDecode(file, bits, w, h, Rows(data, w, h), ImageCodes(data, w, h));
  }

  /** All rows decode, given row codes each of which decodes to its row, laid
      out one after the other from bit 0. */
  lemma {:induction false} AllRowsDecode(file: seq<byte>, bits: seq<bit>, w: nat, h: nat,
                                         rows: seq<seq<byte>>, codes: seq<seq<bit>>)
    requires FlagsInside(file, h) && |rows| == h && |codes| == h
    requires RowCodesDecode(file, bits, w, h, rows, codes)
    requires At(bits, 0, Flatten(codes))
    ensures DecodeRows(file, bits, w, h, 0, 0) == Ok(Flatten(rows))
  {
    assert codes[0..] == codes;
    RowsRoundTrip(file, bits, w, h, rows, codes, 0, 0);
    assert rows[0..] == rows;
  }

  /** The rows of an image, joined, are its pixels. */
  lemma {:induction false} RowsJoined(data: seq<byte>, w: nat, h: nat)
    requires w * h == |data|
    ensures Flatten(Rows(data, w, h)) == data
  {
    RowsPrefix(data, w, h, h);
    assert Rows(data, w, h)[..h] == Rows(data, w, h);
    assert data[..h * w] == data;
  }

  /** The packed bitstream unpacks to the block codes followed by padding. */
  lemma {:induction false} StreamStart(bits: seq<bit>)
    ensures At(Unpack(Pack(bits)), 0, bits)
  {
    PackLayout(bits);
    assert (bits + Zeros(PadLen(|bits|)))[0..|bits|] == bits;
  }

  /** The encoder's output for a well-formed image whose bitstream size fits 32
      bits: the header carries the exact sizes. */
  lemma {:induction false} EncodeFrames(img: RawImage)
    requires WellFormed(img)
    requires |Pack(ImageBits(img.data.value, img.width, img.height))| < 0x1_0000_0000
    ensures var w, h, data := img.width as nat, img.height as nat, img.data.value;
      var index := RowIndex(EmptyFlags(data, w, h));
      var stream := Pack(ImageBits(data, w, h));
      && |index| < 0x1_0000_0000
      && EncodeSpec(img) == Ok(Header(w, h, |index|, |stream|) + index + stream)
  {
    var w, h, data := img.width as nat, img.height as nat, img.data.value;
    var index := RowIndex(EmptyFlags(data, w, h));
    var stream := Pack(ImageBits(data, w, h));
    IndexSize(h, |index|);
    SizeFits(|index|);
    SizeFits(|stream|);
  }

  /** The row index has at most one byte per row. */
  lemma {:induction false} IndexSize(h: nat, n: nat)
    requires n == CeilDiv(h, 8)
    ensures n <= h
  {
  }

  /** `static_cast<uint32_t>` keeps a size below 2^32. */
  lemma {:induction false} SizeFits(n: nat)
    requires n < 0x1_0000_0000
    ensures U32(n) == n
  {
  }

  /** Decoding an encoded image gives back the image, provided the bitstream's
      byte count fits the 32-bit size field. */
  lemma {:induction false} DecodeEncode(img: RawImage)
    requires WellFormed(img)
    requires |Pack(ImageBits(img.data.value, img.width, img.height))| < 0x1_0000_0000
    ensures EncodeSpec(img).Ok?
    ensures DecodeSpec(EncodeSpec(img).value) == Ok(img)
  {
    var w, h, data := img.width as nat, img.height as nat, img.data.value;
    var flags := EmptyFlags(data, w, h);
    var index := RowIndex(flags);
    var bits := ImageBits(data, w, h);
    var stream := Pack(bits);
    var file := Header(w, h, |index|, |stream|) + index + stream;
    var hd := HeaderFields(w, h, |index|, |stream|);
    FrameAccepted(w, h, index, stream);
    EncodeFrames(img);
    FlagsReadBack(file, flags);
    StreamStart(bits);
    ImageRoundTrip(file, StreamBits(file, hd), data, w, h);
    DecodeAccepted(file, hd);
  }
}
