# read_flac metadata reader, modelled in Dafny

`read_flac.c` is a small reader for the metadata section of a FLAC file. `main`
checks the four-byte "fLaC" signature. It then reads metadata block headers one
after another. A PADDING body must be all zero; every other body is skipped with
`fseek`. The loop stops after the header that carries the last-block flag. The
file also holds decoders for the STREAMINFO, SEEKTABLE, VORBIS_COMMENT and PICTURE
bodies, which `main` never calls.

The model has one module per concern:

- `Bytes`: big- and little-endian values of byte sequences, with their inverses.
- `Results`: the decoder's errors, and `Parsed`, a result paired with the stream
  position after the read.
- `Stream`: the `FILE *` as a class `FlacFile`, holding the bytes and the current
  position. Its methods model `fread` and `fseek`. Each read also has a
  specification function over `(bytes, position)`.
- `Header`, `Padding`, `StreamInfoBlock`, `SeekTableBlock`, `VorbisCommentBlock`
  and `PictureBlock`: one module per C routine. Each has a method that reads from
  a `FlacFile`. Each method is proved equal to a specification function: the
  result and the new position, failures included.
- `Chain`: the signature check and the header loop of `main`.

Each decoder has an encoder as its partner. The strength of the link differs:

- The header, seek-point and STREAMINFO decoders have round trips proved in both
  directions. For STREAMINFO and SEEKTABLE these are proved about the decoders
  that follow the layout of RFC 9639.
- The as-written STREAMINFO and SEEKTABLE decoders are tied to the encoders only
  through `AsWrittenVsIntended`, `AsWrittenDecodeOfEncoded` and
  `AsWrittenDropsPoints`. These state exactly where the C code departs from the
  layout.
- VORBIS_COMMENT and PICTURE are proved in the encode-then-read direction only.

The chain walk's partner is the layout predicate `ChainAt`. Both directions are
proved, so the loop accepts a file exactly when it is well laid out.

A short read has no defined outcome in the C code: the buffers stay uninitialised,
and the header loop may never end. Here a short read is a `Truncated` failure that
leaves the position at the end of the input. `fseek` past the end is also
`Truncated`. The C `assert`s become error results.

Things the code does not do, or does differently from RFC 9639:

- The code reads VORBIS_COMMENT lengths in host order, with no byte-order
  conversion. The model fixes them as little-endian, the order section 8.6 of
  RFC 9639 prescribes.
- No routine checks that a STREAMINFO body is 34 bytes long. A shorter body is an
  error only because the code reads bytes up to 33.
- The seek-table body length is never checked to be a multiple of 18. The record
  count is `size / sizeof(seekpoint)`, which is 24 on LP64.
- `parse_picture` and `parse_vorbis_comment` never compare the embedded lengths
  with the declared block length. The lengths alone decide how much is read.

## Model

| member | source | states |
|---|---|---|
| Stream.FlacFile.Open | read_flac.c:92 | the stream starts at position 0 over the file's bytes |
| Stream.FlacFile.Read | read_flac.c:241 | `fread` of n bytes returns exactly the n bytes at the position and advances by n, or fails Truncated at the end of the input |
| Stream.FlacFile.ReadU32 | read_flac.c:150-151 | reads four bytes and converts them in the given byte order, as `U32At` states |
| Stream.FlacFile.Seek | read_flac.c:113 | `fseek(f, n, SEEK_CUR)` advances by n, or fails Truncated when fewer than n bytes remain |
| Stream.ReadPrefixed | read_flac.c:152-155 | reads a 32-bit length, then exactly that many bytes, as `PrefixedAt` states |
| Stream.U32At | read_flac.c:150-151 | a 32-bit read succeeds iff four bytes remain, and then advances by exactly 4 |
| Stream.PrefixedAt | read_flac.c:152-155 | a length-prefixed read consumes the 4-byte length plus exactly that many bytes, all inside the input |
| Stream.Decode32Injective | read_flac.c:150-151 | four bytes are determined by their 32-bit value in either byte order |
| Stream.U32AtEncoded | read_flac.c:150-151 | reading the encoding of x gives x and advances by 4 |
| Stream.U32AtDecoded | read_flac.c:150-151 | the four bytes read are the encoding of the value returned |
| Stream.PrefixedAtEncoded | read_flac.c:152-155 | reading an encoded length-prefixed string gives the string back and stops at its end |
| Stream.PrefixedAtDecoded | read_flac.c:152-155 | every string read is exactly what the bytes consumed encode |
| Bytes.BigEndianInjective | read_flac.c:217-219 | `be64toh`/`be16toh`: equal-length byte strings with the same big-endian value are equal |
| Bytes.LittleEndianInjective | read_flac.c:187-196 | the same for the little-endian lengths of VORBIS_COMMENT |
| Header.DecodeHeader | read_flac.c:243-245 | the flag is 0 or 1, the type is below 128, the length is the 24-bit big-endian value of bytes 1 to 3, and byte 0 is flag·128 + type |
| Header.DecodeEncodeHeader | read_flac.c:243-245 | decoding the encoding of a well-formed header gives it back |
| Header.EncodeDecodeHeader | read_flac.c:243-245 | every 4-byte string is the encoding of the header it decodes to |
| Header.HeaderAt | read_flac.c:240-245 | reading a header succeeds iff 4 bytes remain, then consumes exactly 4 and yields a well-formed header; otherwise Truncated at the end of the input |
| Header.HeaderAtEncoded | read_flac.c:240-245 | reading an encoded header in place gives it back |
| Header.HeaderAtDecoded | read_flac.c:240-245 | the four bytes read are the encoding of the header returned |
| Header.ParseMetadataHeader | read_flac.c:237-248 | the result and the new position are those of `HeaderAt` |
| Padding.PaddingFromMeaning | read_flac.c:120-128 | the check succeeds iff all n bytes are present and zero, then advances by exactly n; on NonzeroPadding it stops just after the first nonzero byte; on Truncated all remaining bytes are zero |
| Padding.CheckPadding | read_flac.c:120-128 | the byte loop gives the result and position of `PaddingFrom` |
| StreamInfoBlock.DecodeStreamInfo | read_flac.c:250-270 | the C shifts succeed iff the body has at least 34 bytes and min_block_size ≥ 16; MinBlockSizeTooSmall iff min_block_size < 16; on success the fields lie in their ranges, channels in 1..8, and md5 is bytes 18..33 |
| StreamInfoBlock.DecodeStreamInfoIntended | read_flac.c:259-265 | the format's field layout gives bits per sample in 1..32 and a 36-bit sample count |
| StreamInfoBlock.StreamInfoRoundTrip | read_flac.c:255-267 | decoding the encoding of representable fields gives them back |
| StreamInfoBlock.StreamInfoBytesRoundTrip | read_flac.c:255-267 | every accepted 34-byte body is the encoding of what it decodes to |
| StreamInfoBlock.AsWrittenVsIntended | read_flac.c:261-265 | the C shifts and the format agree on success and on every error, and on all fields but two: bits per sample is 16 too large above 16, and the sample count has its top 32 bits set when its bit 31 is set |
| StreamInfoBlock.AsWrittenDecodeOfEncoded | read_flac.c:263-265 | on an encoded body, the C code returns bits per sample iff ≤ 16 and the sample count iff bit 31 is clear |
| StreamInfoBlock.StreamInfoAt | read_flac.c:252-253 | a STREAMINFO read consumes exactly `size` bytes, and succeeds only when size ≥ 34 |
| StreamInfoBlock.ParseBlockStreamInfo | read_flac.c:250-270 | the result and new position are those of `StreamInfoAt` |
| SeekTableBlock.SeekPointRoundTrip | read_flac.c:213-219 | decoding an encoded 18-byte record gives the seek point back |
| SeekTableBlock.SeekPointBytesRoundTrip | read_flac.c:213-219 | every 18-byte record is the encoding of its seek point |
| SeekTableBlock.SeekPoints | read_flac.c:211-220 | exactly `count` points are decoded |
| SeekTableBlock.DecodeSeekTable | read_flac.c:208 | the C count is the body length divided by 24, rounded down |
| SeekTableBlock.DecodeSeekTableIntended | read_flac.c:207 | the count is the body length divided by 18, rounded down |
| SeekTableBlock.SeekPointsOfEncoded | read_flac.c:211-220 | the first n records of an encoded table decode to its first n points, in order |
| SeekTableBlock.SeekTableRoundTrip | read_flac.c:207-220 | the 18-byte decoder inverts the table encoding |
| SeekTableBlock.SeekTableBytesRoundTrip | read_flac.c:207-220 | a body whose length is a multiple of 18 is exactly the encoding of its points |
| SeekTableBlock.AsWrittenDropsPoints | read_flac.c:207-208 | on an encoded table of n points the C code keeps only the first 18n/24, fewer than n when n > 0 |
| SeekTableBlock.SeekTableAt | read_flac.c:205-208 | a SEEKTABLE read succeeds iff `size` bytes remain, and consumes exactly them |
| SeekTableBlock.ParseBlockSeekTable | read_flac.c:203-223 | the array loop gives the result and position of `SeekTableAt`, point for point |
| VorbisCommentBlock.CommentsFrom | read_flac.c:193-200 | n comments read in order; on success the position never moves back and stays inside the input |
| VorbisCommentBlock.CommentsFailureSticks | read_flac.c:193-200 | once a comment cannot be read, reading more comments fails the same way at the same position |
| VorbisCommentBlock.VorbisCommentAt | read_flac.c:185-201 | a successful read consumes at least the two 4-byte counts and stays inside the input |
| VorbisCommentBlock.CommentsFromEncoded | read_flac.c:193-200 | reading encoded comments gives all of them back in order, and stops at their end |
| VorbisCommentBlock.VorbisCommentRoundTrip | read_flac.c:185-201 | reading an encoded block gives the vendor string and every comment back, and stops at its end |
| VorbisCommentBlock.ParseVorbisComment | read_flac.c:185-201 | the result and new position are those of `VorbisCommentAt`, and comments go into the array in order |
| PictureBlock.PictureLabelsAt | read_flac.c:150-160 | the type, MIME type and description consume 12 bytes plus both string lengths |
| PictureBlock.PictureGeometryAt | read_flac.c:161-168 | the four geometry fields consume exactly 16 bytes |
| PictureBlock.PictureAt | read_flac.c:147-173 | a successful read consumes 32 bytes plus the two string lengths plus `picture_size` |
| PictureBlock.LabelsRoundTrip | read_flac.c:150-160 | encoded labels are read back exactly |
| PictureBlock.GeometryRoundTrip | read_flac.c:161-168 | the encoded geometry is read back exactly |
| PictureBlock.PictureRoundTrip | read_flac.c:147-173 | reading an encoded PICTURE body gives every field back, with exactly `picture_size` data bytes, and stops at its end |
| PictureBlock.ParsePicture | read_flac.c:147-173 | the result and new position are those of `PictureAt` |
| Chain.BodyAt | read_flac.c:107-114 | the body step succeeds iff the body fits and, for PADDING, is all zero; it then advances by the block length, and otherwise fails only with Truncated or NonzeroPadding |
| Chain.DecodeFlac | read_flac.c:93-98 | success implies the signature is present; a 4-byte prefix other than "fLaC" gives InvalidSignature at position 4 |
| Chain.WalkUnfold | read_flac.c:101-115 | one turn of the loop: the walk is the header read, then the walk after its body, or the first failure |
| Chain.WalkOfChain | read_flac.c:101-115 | a well-laid-out chain is read back header for header, ending right after the last body |
| Chain.ChainOfWalk | read_flac.c:101-115 | whatever the loop accepts is a well-laid-out chain, ending where the loop stops |
| Chain.WalkErrors | read_flac.c:101-115 | the loop fails only with Truncated or NonzeroPadding |
| Chain.LastFlagOnlyAtEnd | read_flac.c:115 | in an accepted chain only the last header has the last-block flag |
| Chain.DecodeFlacMeaning | read_flac.c:88-118 | a file is accepted with headers hs iff it starts with "fLaC" followed by a chain laid out as hs; the reader then stops right after the last block |
| Chain.ReadFlac | read_flac.c:88-118 | the signature check and the `do … while` loop give the result and position of `DecodeFlac` |

## Left out

- Printing: `print_*` and every `printf` are not modelled. Neither is the `block_types` table, including its index past the end for block types 7 to 127.
- `fopen` is not modelled, nor is the missing check of `argv[1]`. `FlacFile.Open` starts from the file's bytes.
- `malloc`, `free` and the NUL terminators are not modelled. Strings are byte sequences, so the missing terminator after the PICTURE description (read_flac.c:160) has no counterpart.
- `exit(EXIT_FAILURE)` and a failed `assert` abort the C program. Here they are error results: InvalidSignature, NonzeroPadding and MinBlockSizeTooSmall. With `NDEBUG` the C asserts would vanish; the model keeps them.
- Stream.FlacFile.Read: a short read is a Truncated error that leaves the position at the end of the input. In C a short read leaves the buffer uninitialised and goes on. This is a strengthening.
- Stream.FlacFile.Seek: `fseek` past the end is Truncated at once. C lets the position pass the end. This is a strengthening.
- VorbisCommentBlock.LengthOrder: lengths are read in host byte order. This is fixed as little-endian (x86); a big-endian host is not modelled.
- SeekTableBlock.ParseBlockSeekTable: requires fewer than 256 records, because the `uint8_t` counter would wrap and the loop would never end. The non-terminating case is not modelled.
- StreamInfoBlock.DecodeStreamInfo: a body shorter than 34 bytes is read past its buffer in C. Here it is BodyTooShort, reported after the min_block_size check when bytes 0 and 1 exist.
- StreamInfoBlock.TotalSamplesAsWritten: models the gcc result of `header[14] << 24` overflowing a signed `int`. The C standard leaves that shift undefined.
- VorbisCommentBlock.VorbisCommentRoundTrip: proved in the encode-then-read direction only. The converse, that the bytes consumed are the encoding of what was read, is not stated for VORBIS_COMMENT.
- PictureBlock.PictureRoundTrip: likewise proved only in the encode-then-read direction.
- `Bytes.ToBigEndian`, `Bytes.ToLittleEndian` and the encoders built on them are ghost. They are defined by choice, with their inverses proved, so they are specification devices, not code.
- CUESHEET and APPLICATION bodies have no decoder in the source, so none is modelled. Their bodies are skipped like any other non-PADDING block.

## Findings

| source | as written | input that shows it | evidently intended | confidence | as-written member | corrected member |
|---|---|---|---|---|---|---|
| read_flac.c:263 | `(header[12] & 0x1) << 5 \| (header[13] >> 4)` | byte 12 = 0x01, byte 13 = 0x00 (17 bits per sample on the wire) decodes to 33 | shift by 4, giving 17 | not executed | StreamInfoBlock.DecodeStreamInfo, StreamInfoBlock.AsWrittenVsIntended | StreamInfoBlock.DecodeStreamInfoIntended, StreamInfoBlock.StreamInfoRoundTrip |
| read_flac.c:264-265 | `header[14] << 24` in signed `int`, sign-extended into the `uint64_t` | byte 14 = 0x80, bytes 13, 15, 16 and 17 zero: total_samples 0xFFFFFFFF80000000 instead of 0x80000000 | shift a `uint64_t`, giving a 36-bit count | not executed | StreamInfoBlock.TotalSamplesAsWritten, StreamInfoBlock.AsWrittenDecodeOfEncoded | StreamInfoBlock.DecodeStreamInfoIntended, StreamInfoBlock.StreamInfoRoundTrip |
| read_flac.c:207-208 | `size / sizeof(seekpoint)`, which is 24 | a 36-byte body of two seek points yields one point | `size / 18`, as the comment above it says | not executed | SeekTableBlock.DecodeSeekTable, SeekTableBlock.AsWrittenDropsPoints | SeekTableBlock.DecodeSeekTableIntended, SeekTableBlock.SeekTableRoundTrip |

The reading methods keep the code as written: `ParseBlockStreamInfo` uses
`DecodeStreamInfo`, and `ParseBlockSeekTable` counts records with 24. The round-trip
properties are proved about the corrected decoders. The comparison lemmas state
exactly where the two versions differ.
