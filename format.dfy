/** The BARCH container and block code as pure functions: the bytes `barch::encode`
    produces and the image `barch::decode` rebuilds from bytes (barch.cpp:129-289).
    The imperative model in module Codec is proved equal to these functions. */
module Format {
  import opened BitMath
  import opened LittleEndian
  import opened Results

  const MAGIC_0: byte := 66      // 'B'
  const MAGIC_1: byte := 65      // 'A'
  const FILE_VERSION: byte := 1
  const HEADER_SIZE: nat := 19
  const OFF_WIDTH: nat := 3
  const OFF_HEIGHT: nat := 7
  const OFF_ROW_INDEX_SIZE: nat := 11
  const OFF_DATA_SIZE: nat := 15
  const PIXELS_PER_BLOCK: nat := 4
  const WHITE: byte := 0xFF
  const BLACK: byte := 0x00

  type int32 = x: int | -0x8000_0000 <= x < 0x8000_0000

  /** `RawImageData` (barch.hpp:6-11): row-major 8-bit pixels; `data` is `None`
      for a null pointer. */
  datatype RawImage = RawImage(width: int32, height: int32, data: Option<seq<byte>>)

  /** A usable image: a buffer of exactly width * height pixels. */
  predicate WellFormed(img: RawImage)
  {
    img.data.Some? && img.width > 0 && img.height > 0
    && |img.data.value| == img.width * img.height
  }

  /** What `encode` needs of its caller: once the argument checks pass, `data`
      points at (at least) width * height readable bytes. */
  predicate Readable(img: RawImage)
  {
    img.data.Some? && img.width > 0 && img.height > 0 ==>
      |img.data.value| >= img.width * img.height
  }

  /** `static_cast<uint32_t>` of a size. */
  function U32(n: nat): u32
  {
    n % 0x1_0000_0000
  }

  /** `static_cast<int>` of a `uint32_t`, wrapping as two's complement. */
  function ToInt32(v: u32): int32
  {
    if v < 0x8000_0000 then v else v - 0x1_0000_0000
  }

  // ---------------------------------------------------------------------------
  // Rows and the row emptiness index (barch.cpp:46-52, 139-150)

  lemma {:induction false} RowFits(y: nat, w: nat, h: nat)
    requires y < h
    ensures y * w + w <= w * h
  {
    var rest := h - y - 1;
    calc {
      w * h;
    ==
      w * ((y + 1) + rest);
    == // distributivity
      w * (y + 1) + w * rest;
    >= { assert w * rest >= 0; }
      w * (y + 1);
    ==
      y * w + w;
    }
  }

  /** Row `y` of a `w`-wide image: the `w` pixels at `data + y * w`. */
  function RowOf(data: seq<byte>, w: nat, h: nat, y: nat): (r: seq<byte>)
    requires y < h && w * h <= |data|
    ensures |r| == w
  {
    RowFits(y, w, h);
    data[y * w..y * w + w]
  }

  predicate IsWhiteRow(row: seq<byte>)
  {
    forall i :: 0 <= i < |row| ==> row[i] == WHITE
  }

  /** One flag per row: is every pixel of the row white? */
  function EmptyFlags(data: seq<byte>, w: nat, h: nat): (r: seq<bool>)
    requires w * h <= |data|
    ensures |r| == h
  {
    seq(h, y requires 0 <= y < h => IsWhiteRow(RowOf(data, w, h, y)))
  }

  /** Flags packed LSB-first: flag `k` has place value 2^k. */
  function LSBValue(fs: seq<bool>): (r: nat)
    ensures r < Pow2(|fs|)
  {
    if fs == [] then 0 else (if fs[0] then 1 else 0) + 2 * LSBValue(fs[1..])
  }

  /** Flags 8j .. 8j+7 of the first `n` flags; positions at or past `n` read false. */
  function Chunk(flags: seq<bool>, n: nat, j: nat): (r: seq<bool>)
    requires n <= |flags|
    ensures |r| == 8
  {
    seq(8, k requires 0 <= k < 8 => 8 * j + k < n && flags[8 * j + k])
  }

  /** Byte `j` of the row index once the first `n` rows are classified. */
  function IndexByte(flags: seq<bool>, n: nat, j: nat): byte
    requires n <= |flags|
  {
    Pow2Byte();
    LSBValue(Chunk(flags, n, j))
  }

  /** The row emptiness index: ceil(H/8) bytes, bit `y % 8` of byte `y / 8` set iff
      row `y` is empty. */
  function RowIndex(flags: seq<bool>): (r: seq<byte>)
    ensures |r| == CeilDiv(|flags|, 8)
  {
    seq(CeilDiv(|flags|, 8), j requires 0 <= j < CeilDiv(|flags|, 8) => IndexByte(flags, |flags|, j))
  }

  /** Setting a clear flag adds its place value: `|= 1u << k` on a clear bit. */
  lemma {:induction false} LSBValueSet(fs: seq<bool>, k: nat)
    requires k < |fs| && !fs[k]
    ensures LSBValue(fs[k := true]) == LSBValue(fs) + Pow2(k)
  {
    if k > 0 {
      assert fs[k := true][1..] == fs[1..][k - 1 := true];
      LSBValueSet(fs[1..], k - 1);
    }
  }

  /** Classifying row `y` changes only flag `y % 8` of chunk `y / 8`, which was clear. */
  lemma {:induction false} ChunkStep(flags: seq<bool>, y: nat)
    requires y < |flags|
    ensures !Chunk(flags, y, y / 8)[y % 8]
    ensures Chunk(flags, y + 1, y / 8) == Chunk(flags, y, y / 8)[y % 8 := flags[y]]
    ensures forall j: nat :: j != y / 8 ==> Chunk(flags, y + 1, j) == Chunk(flags, y, j)
  {
    forall j: nat | j != y / 8
      ensures Chunk(flags, y + 1, j) == Chunk(flags, y, j)
    {
      assert forall k :: 0 <= k < 8 ==> Chunk(flags, y + 1, j)[k] == Chunk(flags, y, j)[k];
    }
  }

  /** Classifying row `y` sets bit `y % 8` of index byte `y / 8` when the row is
      empty, and changes nothing else. */
  lemma {:induction false} IndexByteStep(flags: seq<bool>, y: nat, y': nat)
    requires y < |flags| && y' == y + 1
    ensures forall j: nat ::
              IndexByte(flags, y', j)
                == if j == y / 8 && flags[y] then IndexByte(flags, y, j) + Pow2(y % 8) else IndexByte(flags, y, j)
  {
    ChunkStep(flags, y);
    var c := Chunk(flags, y, y / 8);
    if flags[y] {
      LSBValueSet(c, y % 8);
    } else {
      assert c[y % 8 := false] == c;
    }
  }

  /** No flag set: the byte is zero. */
  lemma {:induction false} LSBValueClear(fs: seq<bool>)
    requires forall k :: 0 <= k < |fs| ==> !fs[k]
    ensures LSBValue(fs) == 0
  {
    if fs != [] {
      LSBValueClear(fs[1..]);
    }
  }

  // ---------------------------------------------------------------------------
  // The block code (barch.cpp:23-28, 152-179)

  datatype Tag = WhiteTag | BlackTag | LiteralTag

  /** `TagBits::*Val`. */
  function TagVal(t: Tag): u32
  {
    match t
    case WhiteTag => 0
    case BlackTag => 2
    case LiteralTag => 3
  }

  /** `TagBits::*Len`. */
  function TagLen(t: Tag): nat
  {
    match t
    case WhiteTag => 1
    case BlackTag => 2
    case LiteralTag => 2
  }

  /** The bits `putBits(TagVal, TagLen)` emits for a tag. */
  function TagCode(t: Tag): seq<bit>
  {
    BitsOf(TagVal(t), TagLen(t))
  }

  /** The three tag codes. */
  lemma {:induction false} TagCodes()
    ensures TagCode(WhiteTag) == [0]
    ensures TagCode(BlackTag) == [1, 0]
    ensures TagCode(LiteralTag) == [1, 1]
  {
    assert BitsOf(1, 1) == [1];
  }

  /** Group `g` of a row: pixels 4g .. 4g+3, white past the end of the row. */
  function GroupAt(row: seq<byte>, g: nat): (px: seq<byte>)
    ensures |px| == PIXELS_PER_BLOCK
  {
    seq(PIXELS_PER_BLOCK, k requires 0 <= k < PIXELS_PER_BLOCK =>
      if PIXELS_PER_BLOCK * g + k < |row| then row[PIXELS_PER_BLOCK * g + k] else WHITE)
  }

  /** White when all four pixels are white, black when all four are black, else
      a literal. */
  function Classify(px: seq<byte>): (t: Tag)
    requires |px| == 4
    ensures t == WhiteTag <==> forall k :: 0 <= k < 4 ==> px[k] == WHITE
    ensures t == BlackTag <==> forall k :: 0 <= k < 4 ==> px[k] == BLACK
  {
    if px[0] == WHITE && px[1] == WHITE && px[2] == WHITE && px[3] == WHITE then WhiteTag
    else if px[0] == BLACK && px[1] == BLACK && px[2] == BLACK && px[3] == BLACK then BlackTag
    else LiteralTag
  }

  /** The bits of one group: its tag, and for a literal its four bytes MSB-first. */
  function GroupCode(px: seq<byte>): (r: seq<bit>)
    requires |px| == 4
    ensures Classify(px) == WhiteTag ==> r == [0]
    ensures Classify(px) == BlackTag ==> r == [1, 0]
    ensures Classify(px) == LiteralTag ==> r == [1, 1] + Unpack(px) && |r| == 34
  {
    TagCodes();
    var t := Classify(px);
    TagCode(t) + (if t == LiteralTag then Unpack(px) else [])
  }

  /** The codes of the ceil(W/4) groups of a non-empty row, in order. */
  function RowCodes(row: seq<byte>): (r: seq<seq<bit>>)
    ensures |r| == CeilDiv(|row|, PIXELS_PER_BLOCK)
  {
    seq(CeilDiv(|row|, PIXELS_PER_BLOCK), g requires 0 <= g < CeilDiv(|row|, PIXELS_PER_BLOCK) =>
      GroupCode(GroupAt(row, g)))
  }

  /** The contribution of each row to the bitstream: nothing for an empty row. */
  function ImageCodes(data: seq<byte>, w: nat, h: nat): (r: seq<seq<bit>>)
    requires w * h <= |data|
    ensures |r| == h
  {
    seq(h, y requires 0 <= y < h =>
      var row := RowOf(data, w, h, y);
      if IsWhiteRow(row) then [] else Flatten(RowCodes(row)))
  }

  /** Every bit the encoder writes, before packing into bytes. */
  function ImageBits(data: seq<byte>, w: nat, h: nat): seq<bit>
    requires w * h <= |data|
  {
    Flatten(ImageCodes(data, w, h))
  }

  // ---------------------------------------------------------------------------
  // The container (barch.cpp:182-204)

  function Header(w: u32, h: u32, indexSize: u32, dataSize: u32): (r: seq<byte>)
    ensures |r| == HEADER_SIZE
  {
    [MAGIC_0, MAGIC_1, FILE_VERSION]
      + LE32Bytes(w) + LE32Bytes(h) + LE32Bytes(indexSize) + LE32Bytes(dataSize)
  }

  /** `barch::encode`. It rejects exactly a null buffer and a non-positive size;
      otherwise the file is the header, one index byte per eight rows, and the
      bitstream's bits in whole bytes. */
  function EncodeSpec(img: RawImage): (r: Result<seq<byte>>)
    requires Readable(img)
    ensures r.Err? <==> img.data.None? || img.width <= 0 || img.height <= 0
    ensures r.Err? ==> r.error == InvalidInput
    ensures r.Ok? ==>
      var w, h, data := img.width as nat, img.height as nat, img.data.value;
      && |r.value| == HEADER_SIZE + CeilDiv(h, 8) + CeilDiv(|ImageBits(data, w, h)|, 8)
      && r.value[..3] == [MAGIC_0, MAGIC_1, FILE_VERSION]
  {
    if img.data.None? || img.width <= 0 || img.height <= 0 then Err(InvalidInput)
    else
      var w, h, data := img.width as nat, img.height as nat, img.data.value;
      var index := RowIndex(EmptyFlags(data, w, h));
      var bits := ImageBits(data, w, h);
      var stream := Pack(bits);
      PackLayout(bits);
      var header := Header(w, h, U32(|index|), U32(|stream|));
      var file := header + index + stream;
      assert file[..3] == header[..3] == [MAGIC_0, MAGIC_1, FILE_VERSION];
      Ok(file)
  }

  // ---------------------------------------------------------------------------
  // Decoding (barch.cpp:207-289), with the row loop's `continue` taken only for
  // empty rows

  /** A header field: `readLE32(bytes + off)`. */
  function Field(bytes: seq<byte>, off: nat): u32
    requires off + 4 <= |bytes|
  {
    LE32OfValue(bytes[off..off + 4]);
    LEValue(bytes[off..off + 4])
  }

  /** The tag starting at bit `pos`: `0` White, `10` Black, `11` Literal, and the
      position after it. */
  function ReadTag(bits: seq<bit>, pos: nat): (r: Result<(Tag, nat)>)
    ensures r.Ok? ==>
      var (t, next) := r.value;
      next == pos + |TagCode(t)| <= |bits| && bits[pos..next] == TagCode(t)
    ensures r.Err? ==> r.error == EndOfBitstream
  {
    TagCodes();
    if pos >= |bits| then Err(EndOfBitstream)
    else if bits[pos] == 0 then Ok((WhiteTag, pos + 1))
    else if pos + 1 >= |bits| then Err(EndOfBitstream)
    else if bits[pos + 1] == 0 then Ok((BlackTag, pos + 2))
    else Ok((LiteralTag, pos + 2))
  }

  /** The byte whose 8 bits start at `pos`. */
  function ByteAt(bits: seq<bit>, pos: nat): byte
    requires pos + 8 <= |bits|
  {
    Pow2Byte();
    ValueOf(bits[pos..pos + 8])
  }

  /** The four literal bytes starting at bit `pos`. */
  function ReadLiteral(bits: seq<bit>, pos: nat): Result<seq<byte>>
  {
    if pos + 32 > |bits| then Err(EndOfBitstream)
    else Ok(seq(4, i requires 0 <= i < 4 => ByteAt(bits, pos + 8 * i)))
  }

  /** The `n` pixels one tag stands for, and the position after its payload. */
  function GroupPixels(bits: seq<bit>, t: Tag, pos: nat, n: nat): (r: Result<(seq<byte>, nat)>)
    requires n <= 4
    ensures t != LiteralTag ==> r.Ok? && r.value.1 == pos
    ensures r.Ok? ==> |r.value.0| == n
    ensures t == LiteralTag && r.Ok? ==> r.value.1 == pos + 32 <= |bits|
  {
    match t
    case WhiteTag => Ok((seq(n, _ => WHITE), pos))
    case BlackTag => Ok((seq(n, _ => BLACK), pos))
    case LiteralTag =>
      var lit :- ReadLiteral(bits, pos);
      Ok((lit[..n], pos + 32))
  }

  /** One block: a tag, then the `n` pixels it stands for, and the position after it. */
  function DecodeBlock(bits: seq<bit>, pos: nat, n: nat): (r: Result<(seq<byte>, nat)>)
    requires n <= 4
    ensures r.Ok? ==> |r.value.0| == n && pos < r.value.1 <= |bits|
  {
    var tagAndPos :- ReadTag(bits, pos);
    GroupPixels(bits, tagAndPos.0, tagAndPos.1, n)
  }

  /** The tag loop of one non-empty row from pixel `written` on: the pixels still
      to come and the bit position after them. */
  function DecodeGroups(bits: seq<bit>, pos: nat, w: nat, written: nat): (r: Result<(seq<byte>, nat)>)
    ensures r.Ok? && written <= w ==> |r.value.0| == w - written && pos <= r.value.1
    decreases w - written
  {
    if written >= w then Ok(([], pos))
    else
      var n := Min(PIXELS_PER_BLOCK, w - written);
      var block :- DecodeBlock(bits, pos, n);
      var rest :- DecodeGroups(bits, block.1, w, written + n);
      Ok((block.0 + rest.0, rest.1))
  }

  /** Bit `y % 8` of byte `19 + y / 8`: the emptiness flag of row `y`, read as the
      decoder reads it (from the bytes after the header). */
  predicate RowFlag(bytes: seq<byte>, y: nat)
    requires HEADER_SIZE + y / 8 < |bytes|
  {
    BitAt(bytes[HEADER_SIZE + y / 8], y % 8) == 1
  }

  /** Is every emptiness flag of rows 0 .. h-1 inside the buffer? */
  predicate FlagsInside(bytes: seq<byte>, h: nat)
  {
    h == 0 || HEADER_SIZE + (h - 1) / 8 < |bytes|
  }

  /** One row: white when flagged empty (no bits consumed), else its tag loop. */
  function DecodeRow(bytes: seq<byte>, bits: seq<bit>, w: nat, h: nat, y: nat, pos: nat)
    : (r: Result<(seq<byte>, nat)>)
    requires FlagsInside(bytes, h) && y < h
    ensures r.Ok? ==> |r.value.0| == w && pos <= r.value.1
  {
    if RowFlag(bytes, y) then Ok((seq(w, _ => WHITE), pos))
    else DecodeGroups(bits, pos, w, 0)
  }

  /** Rows `y` .. h-1, starting at bit `pos`. */
  function DecodeRows(bytes: seq<byte>, bits: seq<bit>, w: nat, h: nat, y: nat, pos: nat)
    : (r: Result<seq<byte>>)
    requires FlagsInside(bytes, h)
    ensures r.Ok? && y <= h ==> |r.value| == (h - y) * w
    decreases h - y
  {
    if y >= h then Ok([])
    else
      var row :- DecodeRow(bytes, bits, w, h, y, pos);
      var rest :- DecodeRows(bytes, bits, w, h, y + 1, row.1);
      Ok(row.0 + rest)
  }

  /** The four size fields of a header. */
  datatype HeaderFields = HeaderFields(width: u32, height: u32, indexSize: u32, dataSize: u32)

  /** The checks `barch::decode` makes before it reads any pixel, in the source's
      order, and then one more: the row index must hold a flag for every row. An
      accepted header describes a file that holds its row index and bitstream,
      so every emptiness flag is read from the row index. */
  function ParseHeader(bytes: seq<byte>): (r: Result<HeaderFields>)
    ensures r.Ok? ==> HEADER_SIZE + r.value.indexSize + r.value.dataSize <= |bytes|
    ensures r.Ok? ==> CeilDiv(r.value.height, 8) <= r.value.indexSize
    ensures r.Ok? ==> FlagsInside(bytes, r.value.height)
  {
    if |bytes| < HEADER_SIZE then Err(TooSmall)
    else if bytes[0] != MAGIC_0 || bytes[1] != MAGIC_1 then Err(BadMagic)
    else if bytes[2] != FILE_VERSION then Err(UnsupportedVersion)
    else
      var fields := HeaderFields(Field(bytes, OFF_WIDTH), Field(bytes, OFF_HEIGHT),
                                 Field(bytes, OFF_ROW_INDEX_SIZE), Field(bytes, OFF_DATA_SIZE));
      if |bytes| < HEADER_SIZE + fields.indexSize + fields.dataSize then Err(Truncated)
      else if fields.indexSize < CeilDiv(fields.height, 8) then Err(RowIndexOutOfRange)
      else Ok(fields)
  }

  /** The bits of the bitstream section of an accepted file. */
  function StreamBits(bytes: seq<byte>, hd: HeaderFields): seq<bit>
    requires HEADER_SIZE + hd.indexSize + hd.dataSize <= |bytes|
  {
    var start := HEADER_SIZE + hd.indexSize;
    Unpack(bytes[start..start + hd.dataSize])
  }

  /** `barch::decode`: the header checks, then the rows. A rejected header is
      reported as such; an image it returns holds width * height pixels. */
  function DecodeSpec(bytes: seq<byte>): (r: Result<RawImage>)
    ensures ParseHeader(bytes).Err? ==> r == Err(ParseHeader(bytes).error)
    ensures r.Ok? ==>
      var hd := ParseHeader(bytes).value;
      && ParseHeader(bytes).Ok?
      && r.value.width == ToInt32(hd.width) && r.value.height == ToInt32(hd.height)
      && r.value.data.Some? && |r.value.data.value| == hd.width * hd.height
  {
    var hd :- ParseHeader(bytes);
    var pixels :- DecodeRows(bytes, StreamBits(bytes, hd), hd.width, hd.height, 0, 0);
    Ok(RawImage(ToInt32(hd.width), ToInt32(hd.height), Some(pixels)))
  }

  /** What `DecodeSpec` yields for a file whose header is accepted. */
  lemma {:induction false} DecodeAccepted(bytes: seq<byte>, hd: HeaderFields)
    requires ParseHeader(bytes) == Ok(hd)
    ensures
      var rows := DecodeRows(bytes, StreamBits(bytes, hd), hd.width, hd.height, 0, 0);
      DecodeSpec(bytes) == if rows.Ok? then Ok(RawImage(ToInt32(hd.width), ToInt32(hd.height), Some(rows.value)))
                           else Err(rows.error)
  {
  }
}
