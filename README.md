# BARCH codec — a Dafny model

BARCH is a small lossless format for 8-bit greyscale images. It is built for
scans that are mostly white. A file is:

- a 19-byte header: the magic bytes `B` `A`, version 1, then width, height,
  row-index size and bitstream size, each a little-endian 32-bit field;
- a row index of one bit per row, least significant bit first, where a set
  bit means the row is entirely white (`0xFF`);
- a bitstream, written most significant bit first, holding the rows whose
  flag is clear.

Each such row is cut into groups of four pixels. The last group is padded
with white. A group is coded as `0` (four white pixels), `10` (four black
pixels) or `11` followed by the four pixel bytes.

The model covers the codec core of `barch.cpp`: `ceilDiv`, `writeLE32` and
`readLE32`, `isRowEmpty`, the `BitWriter` and `BitReader` structs,
`barch::encode` and `barch::decode`. It is split into these modules:

- `Results` (results.dfy): the `Result`/`Option` wrappers and the error
  kinds. Each kind stands for one exception `encode` or `decode` throws.
- `BitMath` (bitmath.dfy): bits and numbers, MSB-first packing of bits into
  bytes and its inverse, `CeilDiv`.
- `LittleEndian` (le32.dfy): `writeLE32`/`readLE32` as methods with their
  loops, and the round trip between them.
- `BitStream` (bitstream.dfy): `BitWriter` and `BitReader` as classes whose
  methods update their fields. Each method is proved against a ghost view:
  the bits put so far, or the number of bits consumed so far.
- `Format` (format.dfy): the file format as pure functions.
  - `EncodeSpec` is the byte sequence `encode` returns.
  - `ParseHeader` holds the header checks of `decode`, in the source's order.
  - `DecodeSpec` is the image `decode` rebuilds.
- `Codec` (codec.dfy): `encode` and `decode` as the imperative loops the
  source runs. The decoder fills an `array` the way `memset`/`memcpy` fill
  `outData`. `Encode` is proved equal to `EncodeSpec`, and `Decode` to
  `DecodeSpec`.
- `RoundTrip` (roundtrip.dfy): the main property. Decoding the encoding of
  any well-formed image gives back that image (`DecodeEncode`).
- `AsWritten` (aswritten.dfy): the two places where the source's decoder
  departs from the corrected decoder, each with an input that shows it (see
  "Findings"). Each is modelled on its own. `DecodeAsWritten` keeps the row
  loop as written but uses the corrected header checks of `ParseHeader`, so
  the row loop's `continue` is its only difference from `DecodeSpec`.
  `ParseHeaderAsWritten` keeps the header checks as written.

`decode` in the source takes a pointer and a size. Here it takes a byte
sequence, so the null-pointer case of the first check is the same as a
too-short input. Exceptions become `Err` values that carry the error kind.

## Model

| member | source | states |
|---|---|---|
| BitMath.CeilDiv | barch.cpp:30-31 | the result is the least `r` with `r * b >= a` |
| BitMath.ValueOfBitsOf | barch.cpp:72-76 | the `n` bits `putBits` emits for `v < 2^n`, read back MSB-first, give `v` |
| BitMath.BitsOfValueOf | barch.cpp:114-120 | re-emitting the number `getBits` assembles from `n` bits gives back the same bits |
| BitMath.UnpackAt | barch.cpp:106 | bit `k` of the stream's byte `i` is bit `7 - k` of that byte (MSB first) |
| BitMath.UnpackPackBytes | barch.cpp:62-71 | unpacking whole bytes packed from bits gives the bits back |
| BitMath.PackBytesUnpack | barch.cpp:98-113 | packing the bits unpacked from bytes gives the bytes back |
| BitMath.PackLayout | barch.cpp:82-87 | the flushed stream has `ceil(n/8)` bytes; its bits are the bits put, then zero padding to a byte boundary |
| LittleEndian.WriteLE32 | barch.cpp:33-37 | appends exactly the four bytes of `v`, least significant first; they read back as `v` |
| LittleEndian.ReadLE32 | barch.cpp:38-44 | returns the little-endian value of the four bytes; writing that value gives the same four bytes |
| LittleEndian.LE32RoundTrip | barch.cpp:33-44 | `readLE32` of what `writeLE32(v)` wrote is `v` |
| LittleEndian.LE32OfValue | barch.cpp:33-44 | any four bytes read as a value below 2^32, and writing that value gives the bytes back |
| BitStream.BitWriter.constructor | barch.cpp:56-60 | a new writer holds no bits |
| BitStream.BitWriter.PutBit | barch.cpp:62-71 | the bit is appended to the bits put so far; `out`, `cur` and `bitpos` stay the MSB-first packing of those bits |
| BitStream.BitWriter.PutBits | barch.cpp:72-76 | appends the low `n` bits of `v`, most significant first |
| BitStream.BitWriter.PutByte | barch.cpp:77-81 | appends the 8 bits of `b`, most significant first |
| BitStream.BitWriter.Finish | barch.cpp:82-87 | returns `ceil(n/8)` bytes whose bits are the `n` bits put, zero-padded to a byte boundary |
| BitStream.FlushedBytes | barch.cpp:84-86 | the completed bytes plus the pending byte, pushed only when `bitpos` is non-zero, are exactly the packed bits |
| BitStream.BitReader.constructor | barch.cpp:96 | a new reader is at bit 0 of its bytes |
| BitStream.BitReader.GetBit | barch.cpp:98-113 | fails exactly when every byte is consumed; otherwise returns the next bit of the stream and advances one bit |
| BitStream.BitReader.GetBits | barch.cpp:114-120 | returns the next `k` bits as a number, first bit most significant, and advances `k` bits; fails when fewer than `k` remain |
| BitStream.BitReader.GetByte | barch.cpp:121 | the next 8 bits as a byte; fails when fewer than 8 remain |
| Format.LSBValueSet | barch.cpp:148 | or-ing `1u << k` into a byte whose bit `k` is clear adds `2^k` |
| Format.ParseHeader | barch.cpp:218-244 | an accepted header's row index and bitstream lie inside the input, its row index holds at least `ceil(H/8)` bytes, and every row's emptiness flag lies inside the input |
| Format.EmptyFlags | barch.cpp:143-146 | one emptiness flag per row |
| Format.RowIndex | barch.cpp:139-148 | the row index has `ceil(H/8)` bytes; `RoundTrip.RowIndexBit` and `RoundTrip.RowIndexPadding` give its bits |
| Format.TagCodes | barch.cpp:23-28 | the tag codes are `0` (white), `10` (black) and `11` (literal) |
| Format.Classify | barch.cpp:167-177 | a group is white exactly when its four pixels are white, black exactly when they are black, and a literal otherwise |
| Format.GroupCode | barch.cpp:167-177 | a white group is coded `0`, a black group `10`, and any other group `11` then its four bytes MSB first, 34 bits in all |
| Format.RowCodes | barch.cpp:158-178 | a non-empty row has one code per group of four pixels, `ceil(W/4)` codes |
| Format.ImageCodes | barch.cpp:152-179 | one code sequence per row |
| Format.Header | barch.cpp:191-200 | the header is 19 bytes; `RoundTrip.HeaderFieldsOf` shows its fields read back |
| Format.EncodeSpec | barch.cpp:129-205 | fails with invalid input exactly on a null buffer or a non-positive size; otherwise the file starts with the magic and version and has 19 + `ceil(H/8)` + `ceil(bits/8)` bytes |
| Format.ReadTag | barch.cpp:263-264 | a tag read at `pos` is followed by the position just past its code, and the bits read are that tag's code; it fails only at the end of the stream |
| Format.GroupPixels | barch.cpp:266-279 | a white or black tag yields `n` pixels and reads no further bits; a literal yields `n` pixels and consumes 32 bits inside the stream |
| Format.DecodeBlock | barch.cpp:263-280 | a decoded block holds `n` pixels and consumes at least one bit, inside the stream |
| Format.DecodeGroups | barch.cpp:260-281 | the tag loop from pixel `written` yields the row's remaining `W - written` pixels and never moves backwards |
| Format.DecodeRow | barch.cpp:253-281 | a decoded row holds `W` pixels and never moves the bit position backwards |
| Format.DecodeRows | barch.cpp:253-282 | the rows from `y` on hold `(H - y) * W` pixels |
| Format.DecodeSpec | barch.cpp:207-289 | a rejected header is reported with its own error; a rebuilt image has the header's width and height and `W * H` pixels |
| Codec.IsRowEmpty | barch.cpp:46-52 | true exactly when every pixel of the row is white |
| Codec.GatherGroup | barch.cpp:161-166 | group `g` is pixels `4g .. 4g+3` of the row, white past its end |
| Codec.EncodeGroup | barch.cpp:167-177 | appends the group's code: `0` for all white, `10` for all black, else `11` and the four bytes |
| Codec.EncodeRow | barch.cpp:155-179 | appends the codes of the row's groups in order |
| Codec.ClassifyRows | barch.cpp:139-150 | the row index has bit `y % 8` of byte `y / 8` set exactly for the white rows; `nonEmpty` marks the others |
| Codec.EncodeBitstream | barch.cpp:152-180 | the bitstream is the packed codes of the non-empty rows, in row order |
| Codec.Frame | barch.cpp:191-204 | the file is magic, version, the four size fields truncated to 32 bits, the row index, then the bitstream |
| Codec.Encode | barch.cpp:129-205 | fails with invalid input exactly on a null buffer or a non-positive size, and otherwise returns the bytes of `EncodeSpec` |
| Codec.Memset | barch.cpp:257-258 | `memset`: the `n` bytes from `from` become `v`, the rest of the buffer is unchanged |
| Codec.Memcpy | barch.cpp:274 | `memcpy`: the `n` bytes from `from` become `p[..n]`, the rest of the buffer is unchanged |
| Codec.ReadCode | barch.cpp:263-264 | reads one bit, and a second after a `1`; the tag and position agree with `ReadTag`, end of stream included |
| Codec.ReadLiteralBytes | barch.cpp:273 | the four `getByte` calls return the literal at the current bit position, or fail at the end of the stream |
| Codec.ReadBlock | barch.cpp:263-280 | reads one tag and writes the `n` pixels it stands for into the row; everything else in the buffer is unchanged; agrees with `DecodeBlock` on success and failure |
| Codec.ReadGroup | barch.cpp:261-280 | one pass of the tag loop keeps the row's decoded prefix in step with `DecodeGroups` |
| Codec.DecodeRowGroups | barch.cpp:260-281 | fills the row's `w` pixels with what `DecodeGroups` yields, or fails with its error |
| Codec.DecodeRowInto | barch.cpp:254-281 | a row flagged empty becomes white with no bits read; any other row is decoded by its tag loop; nothing outside the row changes |
| Codec.DecodeRowsInto | barch.cpp:249-282 | the buffer ends up holding the pixels of `DecodeRows`, or the call fails with its error |
| Codec.ReadHeader | barch.cpp:218-244 | the header checks, in the source's order, with the source's errors |
| Codec.Decode | barch.cpp:207-289 | the result is `DecodeSpec` of the input: an error for a rejected file, otherwise the rebuilt image |
| RoundTrip.LSBValueBit | barch.cpp:148 | bit `k` of the value built from flags is flag `k` |
| RoundTrip.RowIndexBit | barch.cpp:255 | the bit the decoder reads for row `y` is the emptiness flag the encoder set for row `y` |
| RoundTrip.RowIndexPadding | barch.cpp:139-148 | the bits of the last index byte past row `H - 1` are zero |
| RoundTrip.HeaderFieldsOf | barch.cpp:194-200 | a written header passes the magic and version checks and its four fields read back as written |
| RoundTrip.TagRoundTrip | barch.cpp:169-177 | the tag read at a tag's code is that tag, and reading consumes exactly the code |
| RoundTrip.LiteralRoundTrip | barch.cpp:176 | the four bytes `putByte` wrote are the four bytes `getByte` reads |
| RoundTrip.BlockRoundTrip | barch.cpp:263-280 | decoding a group's code yields its first `n` pixels and consumes exactly the code |
| RoundTrip.BlocksOfRow | barch.cpp:158-178 | every group code of a row decodes, at any position, to the row's pixels of that group |
| RoundTrip.GroupsRoundTrip | barch.cpp:260-281 | the tag loop from group `g` on rebuilds the row's remaining pixels from the remaining codes and consumes exactly those codes |
| RoundTrip.RowGroupsRoundTrip | barch.cpp:159-178 | the tag loop rebuilds the whole row from its codes, padding dropped |
| RoundTrip.RowDecodes | barch.cpp:253-281 | a row decodes to itself: a white row from its flag alone, any other row from its codes |
| RoundTrip.ImageRowDecodes | barch.cpp:143-179 | row `y` of an image decodes from its flag and its codes |
| RoundTrip.RowsRoundTrip | barch.cpp:253-282 | the row loop from row `y` on rebuilds the remaining rows from their codes |
| RoundTrip.RowsJoined | barch.cpp:249-256 | the rows laid end to end are the image's buffer |
| RoundTrip.ImageRoundTrip | barch.cpp:143-180 | the row loop, reading the encoder's flags and bitstream, rebuilds the image's pixels |
| RoundTrip.FrameAccepted | barch.cpp:191-204 | the framed file passes every header check and gives back its sizes; the index follows the header and the bitstream follows the index |
| RoundTrip.FlagsReadBack | barch.cpp:255 | flags read from a file holding the row index right after the header are the encoder's flags |
| RoundTrip.StreamStart | barch.cpp:252 | the reader over the flushed stream starts with exactly the bits put |
| RoundTrip.EncodeFrames | barch.cpp:129-204 | for a valid image whose bitstream fits 32 bits, the size fields carry the exact sizes |
| RoundTrip.DecodeEncode | barch.cpp:129-289 | for a valid image whose bitstream fits 32 bits, encoding succeeds and decoding gives back the same width, height and pixels |
| AsWritten.DecodeRowsAsWritten | barch.cpp:253-258 | the row loop as written yields `(H - y) * W` pixels from row `y` on |
| AsWritten.DecodeAsWritten | barch.cpp:253-258 | the row loop as written fails exactly when the header checks fail, with the same error |
| AsWritten.RowsIgnoreStream | barch.cpp:257-258 | as written, the result depends only on the emptiness flags, never on the bitstream |
| AsWritten.WhiteBufferStaysWhite | barch.cpp:257-258 | as written, a fresh buffer that holds white yields only white pixels |
| AsWritten.ContinueLosesPixels | barch.cpp:257-258 | given a fresh buffer that holds white, every encoded image with a non-white pixel is rebuilt by the corrected decoder but not by the decoder as written |
| AsWritten.BlackStripLost | barch.cpp:257-258 | the 4x1 all-black image is an instance |
| AsWritten.ParseHeaderAsWritten | barch.cpp:218-244 | the header checks as written; an accepted header's sections lie inside the input |
| AsWritten.HeaderCheckAdded | barch.cpp:239-255 | the corrected checks are the checks as written plus one that the row index holds at least `ceil(H/8)` bytes |
| AsWritten.UncheckedIndexRead | barch.cpp:246-255 | a bare 19-byte header for a 1x1 image passes the checks as written, though row 0's flag lies past its end |
| AsWritten.ShortIndexRead | barch.cpp:246-255 | a 1x1 file with index size 0 and one byte `0xFF` passes the checks as written, reads that bitstream byte as row 0's flag, and the corrected checks reject it |

## Left out

- File I/O is not modelled: `saveToFile`, `loadFromFile` and `freeImage`.
- `qDebug` logging is not modelled.
- The BMP reader, the file list model and the application's `main` are outside the codec.
- Exceptions become `Err` results. `std::bad_alloc` from `new` or from a vector is not modelled.
- The vectors `rowIndex`, `nonEmpty`, `file` and the bitstream are sequences, not buffers that grow in place. `outData` is an array.
- The `default:` branch of the tag switch (invalid tag) is not modelled. `code` is always 0, 2 or 3, so that branch cannot be reached.
- Codec.Encode: the source's `int` arithmetic is unbounded here, so three overflows are not modelled:
  - the row offset `y * W` (barch.cpp:145 and barch.cpp:157) overflows once `(H - 1) * W` exceeds `INT_MAX`;
  - `ceilDiv(H, 8)` (barch.cpp:139) computes `H + 7` and overflows once `H > INT_MAX - 7`, whatever `W` is;
  - `ceilDiv(W, 4)` (barch.cpp:158) computes `W + 3` and overflows once `W > INT_MAX - 3`. A negative `groups` would then make a row emit no codes, while `RowCodes` always yields `ceil(W/4)` codes.
- Codec.Decode: the `uint32_t` product `y * W` in `outData + y * W` is unbounded here. The source wraps it once `(H - 1) * W` reaches 2^32.
- Codec.ReadHeader: the `size_t` sum `19 + rowIndexSize + dataSize` is taken not to wrap, as on a 64-bit `size_t`. With a 32-bit `size_t` it could wrap and let a short file through.
- Codec.Decode: `decode` receives a byte sequence, not a pointer and a size, so a null pointer is the empty input.
- Format.EncodeSpec: the size fields are truncated to 32 bits, as the source truncates them. RoundTrip.DecodeEncode requires a bitstream below 2^32 bytes, because a larger one cannot be read back.
- BitStream.BitWriter.Finish: returns the flushed bytes and does not record that the writer was flushed. The source leaves `out` holding the pending byte. Only one call to `finish` is made.
- BitStream.BitReader.GetBits: requires `k <= 32`. The source shifts a `uint32_t` and would lose high bits beyond 32. It only ever asks for 8.
- The pixels of a fresh `new unsigned char[total]` are unspecified in C++. The corrected decoder writes every pixel. The as-written decoder takes their values as a parameter `held`.

## Findings

| source | as written | input that shows it | evidently intended | confidence | as-written member | corrected member |
|---|---|---|---|---|---|---|
| barch.cpp:257-258 | `if (empty) std::memset(row, kWhite, W); continue;` puts `continue` outside the `if`, so the tag loop never runs. Non-empty rows keep the fresh buffer's contents. | the 4x1 image of four black pixels. Its file is 19 header bytes, index byte `0x00`, bitstream byte `0x80`. As written it comes back as whatever the buffer held. Every image with a non-white pixel is affected. | `continue` only for empty rows, so the rest of the rows are read from the bitstream | not executed | AsWritten.DecodeAsWritten, AsWritten.ContinueLosesPixels, AsWritten.BlackStripLost | Format.DecodeSpec, Codec.Decode, RoundTrip.DecodeEncode |
| barch.cpp:234-255 | the size checks compare the input size with 19 + index size + data size, yet `rowIndex[y / 8]` is read for every `y < H`. A file whose index is shorter than `ceil(H/8)` is read past its end. | the bare 19-byte header `B A 1`, W=1, H=1, index size 0, data size 0: row 0's flag would be byte 19. With one more byte `0xFF` and data size 1, that bitstream byte is read as row 0's flag. | reject a file whose row index is shorter than `ceil(H/8)` bytes | not executed | AsWritten.ParseHeaderAsWritten, AsWritten.UncheckedIndexRead, AsWritten.ShortIndexRead | Format.ParseHeader, Codec.ReadHeader, AsWritten.HeaderCheckAdded |
