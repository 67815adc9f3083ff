/** The two places where `barch::decode` as written (barch.cpp:207-289) departs
    from the reading that modules Format and Codec model, each exhibited on an
    input: the row loop's `continue`, and the header checks, which as written do
    not ask the row index to hold a flag for every row. Each is modelled on its
    own, with the other taken as corrected. */
module AsWritten {
  import opened BitMath
  import opened Results
  import opened Format
  import RoundTrip

  // ---------------------------------------------------------------------------
  // The `continue` of the row loop (barch.cpp:253-258)

  /** Row `y` of a `w`-wide buffer fresh from `new unsigned char[total]`, whose
      pixel `i` holds `held(i)`: C++ leaves those values unspecified. */
  function FreshRow(held: nat -> byte, w: nat, y: nat): (r: seq<byte>)
    ensures |r| == w
  {
    seq(w, x requires 0 <= x < w => held(y * w + x))
  }

  /** Rows `y` .. h-1 as the row loop is written: the `continue` after the
      `memset` is not governed by `if (empty)`, so the tag loop never runs. An
      empty row is white, and every other row keeps what the buffer held. */
  function DecodeRowsAsWritten(bytes: seq<byte>, held: nat -> byte, w: nat, h: nat, y: nat): (r: seq<byte>)
    requires FlagsInside(bytes, h)
    ensures y <= h ==> |r| == (h - y) * w
    decreases h - y
  {
    if y >= h then []
    else
      assert (h - y) * w == w + (h - (y + 1)) * w;
      (if RowFlag(bytes, y) then seq(w, _ => WHITE) else FreshRow(held, w, y))
        + DecodeRowsAsWritten(bytes, held, w, h, y + 1)
  }

  /** `barch::decode` with its row loop as written; the header checks are those
      of `ParseHeader`, so that this is the only difference from `DecodeSpec`. */
  function DecodeAsWritten(bytes: seq<byte>, held: nat -> byte): (r: Result<RawImage>)
    ensures r.Err? <==> ParseHeader(bytes).Err?
    ensures r.Err? ==> r == DecodeSpec(bytes)
  {
    var hd :- ParseHeader(bytes);
    Ok(RawImage(ToInt32(hd.width), ToInt32(hd.height),
                Some(DecodeRowsAsWritten(bytes, held, hd.width, hd.height, 0))))
  }

  /** As written, the bitstream is never read: two files with the same header and
      the same emptiness flags decode alike, whatever their bitstreams hold. */
  lemma {:induction false} RowsIgnoreStream(a: seq<byte>, b: seq<byte>, held: nat -> byte, w: nat, h: nat, y: nat)
    requires FlagsInside(a, h) && FlagsInside(b, h)
    requires forall r :: y <= r < h ==> RowFlag(a, r) == RowFlag(b, r)
    ensures DecodeRowsAsWritten(a, held, w, h, y) == DecodeRowsAsWritten(b, held, w, h, y)
    decreases h - y
  {
    if y < h {
      RowsIgnoreStream(a, b, held, w, h, y + 1);
    }
  }

  /** With a fresh buffer that happens to be all white, the loop as written yields
      only white pixels. */
  lemma {:induction false} WhiteBufferStaysWhite(bytes: seq<byte>, w: nat, h: nat, y: nat)
    requires FlagsInside(bytes, h)
    ensures IsWhiteRow(DecodeRowsAsWritten(bytes, _ => WHITE, w, h, y))
    decreases h - y
  {
    if y < h {
      WhiteBufferStaysWhite(bytes, w, h, y + 1);
      var row := if RowFlag(bytes, y) then seq(w, _ => WHITE) else FreshRow(_ => WHITE, w, y);
      var rest := DecodeRowsAsWritten(bytes, _ => WHITE, w, h, y + 1);
      assert DecodeRowsAsWritten(bytes, _ => WHITE, w, h, y) == row + rest;
      assert IsWhiteRow(row);
    }
  }

  /** Any image with a pixel that is not white, once encoded, is decoded back by
      the corrected decoder but not by the decoder as written (given a fresh
      buffer that holds white). */
  lemma {:induction false} ContinueLosesPixels(img: RawImage, i: nat)
    requires WellFormed(img)
    requires |Pack(ImageBits(img.data.value, img.width, img.height))| < 0x1_0000_0000
    requires i < |img.data.value| && img.data.value[i] != WHITE
    ensures EncodeSpec(img).Ok?
    ensures DecodeSpec(EncodeSpec(img).value) == Ok(img)
    ensures DecodeAsWritten(EncodeSpec(img).value, _ => WHITE) != Ok(img)
  {
    RoundTrip.DecodeEncode(img);
    var file := EncodeSpec(img).value;
    var hd := ParseHeader(file).value;
    WhiteBufferStaysWhite(file, hd.width, hd.height, 0);
  }

  /** The smallest instance: a 4x1 image of black pixels (one black block, code
      `10`) comes back white from the decoder as written. */
  lemma {:induction false} BlackStripLost()
    ensures var img := RawImage(4, 1, Some([BLACK, BLACK, BLACK, BLACK]));
      && EncodeSpec(img).Ok?
      && DecodeSpec(EncodeSpec(img).value) == Ok(img)
      && DecodeAsWritten(EncodeSpec(img).value, _ => WHITE) != Ok(img)
  {
    var data := [BLACK, BLACK, BLACK, BLACK];
    var img := RawImage(4, 1, Some(data));
    assert RowOf(data, 4, 1, 0) == data;
    assert GroupAt(data, 0) == data;
    assert Classify(data) == BlackTag;
    assert GroupCode(data) == TagCode(BlackTag);
    assert CeilDiv(4, PIXELS_PER_BLOCK) == 1;
    assert RowCodes(data) == [TagCode(BlackTag)];
    assert |TagCode(BlackTag)| == 2;
    assert ImageCodes(data, 4, 1) == [Flatten([TagCode(BlackTag)])];
    assert |ImageBits(data, 4, 1)| == 2;
    PackLayout(ImageBits(data, 4, 1));
    ContinueLosesPixels(img, 0);
  }

  // ---------------------------------------------------------------------------
  // The row index is read without a bounds check (barch.cpp:218-255)

  /** The header checks as written: nothing compares the row index's size with H,
      yet `rowIndex[y / 8]` is read for every row. */
  function ParseHeaderAsWritten(bytes: seq<byte>): (r: Result<HeaderFields>)
    ensures r.Ok? ==> HEADER_SIZE + r.value.indexSize + r.value.dataSize <= |bytes|
  {
    if |bytes| < HEADER_SIZE then Err(TooSmall)
    else if bytes[0] != MAGIC_0 || bytes[1] != MAGIC_1 then Err(BadMagic)
    else if bytes[2] != FILE_VERSION then Err(UnsupportedVersion)
    else
      var fields := HeaderFields(Field(bytes, OFF_WIDTH), Field(bytes, OFF_HEIGHT),
                                 Field(bytes, OFF_ROW_INDEX_SIZE), Field(bytes, OFF_DATA_SIZE));
      if |bytes| < HEADER_SIZE + fields.indexSize + fields.dataSize then Err(Truncated)
      else Ok(fields)
  }

  /** The corrected checks are those as written plus one: the row index must
      hold a flag for every row. */
  lemma {:induction false} HeaderCheckAdded(bytes: seq<byte>)
    ensures ParseHeaderAsWritten(bytes).Err? ==> ParseHeader(bytes) == ParseHeaderAsWritten(bytes)
    ensures ParseHeaderAsWritten(bytes).Ok? ==>
      var hd := ParseHeaderAsWritten(bytes).value;
      ParseHeader(bytes) == if CeilDiv(hd.height, 8) <= hd.indexSize then Ok(hd) else Err(RowIndexOutOfRange)
  {
  }

  /** A bare 19-byte header for a 1x1 image with an empty row index and an empty
      bitstream passes every check as written, yet the flag of row 0 is at offset
      19, past the end of the file. The corrected checks reject it. */
  lemma {:induction false} UncheckedIndexRead()
    ensures var file := Header(1, 1, 0, 0);
      && ParseHeaderAsWritten(file) == Ok(HeaderFields(1, 1, 0, 0))
      && !FlagsInside(file, 1)
      && ParseHeader(file) == Err(RowIndexOutOfRange)
  {
    RoundTrip.HeaderFieldsOf(1, 1, 0, 0, []);
    assert Header(1, 1, 0, 0) + [] == Header(1, 1, 0, 0);
  }

  /** A 1x1 file with an empty row index and a one-byte bitstream `0xFF` passes
      every check as written, and the flag of row 0 is then read from the
      bitstream's byte. The corrected checks reject it. */
  lemma {:induction false} ShortIndexRead()
    ensures var file := Header(1, 1, 0, 1) + [0xFF];
      && ParseHeaderAsWritten(file) == Ok(HeaderFields(1, 1, 0, 1))
      && file[HEADER_SIZE..] == [0xFF] && FlagsInside(file, 1) && RowFlag(file, 0)
      && ParseHeader(file) == Err(RowIndexOutOfRange)
  {
    RoundTrip.HeaderFieldsOf(1, 1, 0, 1, [0xFF]);
  }
}
