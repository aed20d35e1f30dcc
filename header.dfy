/** The 4-byte metadata block header (section 8.1 of RFC 9639): a last-block flag in the
    top bit of byte 0, the block type in its low 7 bits, and the body length as a 24-bit
    big-endian integer in bytes 1 to 3. */
module Header {
  import opened Bytes
  import opened Results
  import opened Stream

  const HeaderSize := 4

  /** `metadata_header`: the C struct keeps the flag and the type in `uint8_t` fields. */
  datatype MetadataHeader = MetadataHeader(lastBlock: uint8, blockType: uint8, blockLength: nat)

  /** The value ranges the header fields can take. */
  predicate WellFormed(h: MetadataHeader)
  {
    h.lastBlock <= 1 && h.blockType < 0x80 && h.blockLength < 0x100_0000
  }

  /** `parse_metadata_header` once its 4 bytes are read: `header[0] >> 7`,
      `header[0] & 0x7f` and `header[1] << 16 | header[2] << 8 | header[3]`. */
  function DecodeHeader(b: seq<uint8>): (h: MetadataHeader)
    requires |b| == HeaderSize
    ensures WellFormed(h)
    ensures h.blockLength == BigEndian(b[1..4])
    ensures b[0] == h.lastBlock * 0x80 + h.blockType
  {
    BigEndianSmall(b[1..4]);
    MetadataHeader(b[0] / 0x80, b[0] % 0x80, b[1] as int * 0x1_0000 + b[2] as int * 0x100 + b[3])
  }

  /** The wire form of a header. */
  ghost function EncodeHeader(h: MetadataHeader): (b: seq<uint8>)
    requires WellFormed(h)
    ensures |b| == HeaderSize
  {
    Pow256Values();
    [h.lastBlock * 0x80 + h.blockType] + ToBigEndian(h.blockLength, 3)
  }

  lemma {:induction false} DecodeEncodeHeader(h: MetadataHeader)
    requires WellFormed(h)
    ensures DecodeHeader(EncodeHeader(h)) == h
  {
    var b := EncodeHeader(h);
    assert b[1..4] == ToBigEndian(h.blockLength, 3);
    Pow256Values();
  }

  lemma {:induction false} EncodeDecodeHeader(b: seq<uint8>)
    requires |b| == HeaderSize
    ensures EncodeHeader(DecodeHeader(b)) == b
  {
    ToBigEndianOfBigEndian(b[1..4]);
    assert b == [b[0]] + b[1..4];
  }

  /** The header read at position p: exactly four bytes are consumed. */
  function HeaderAt(s: seq<uint8>, p: nat): (r: Parsed<MetadataHeader>)
    ensures r.result.Ok? <==> p + HeaderSize <= |s|
    ensures r.result.Ok? ==> r.pos == p + HeaderSize && WellFormed(r.result.value)
    ensures r.result.Err? ==> r == Parsed(Err(Truncated), |s|)
  {
    var b :- Take(s, p, HeaderSize);
    Parsed(Ok(DecodeHeader(b.0)), b.1)
  }

  /** Reading the encoding of a header gives that header back. */
  lemma {:induction false} HeaderAtEncoded(s: seq<uint8>, p: nat, h: MetadataHeader)
    requires WellFormed(h) && BytesAt(s, p, EncodeHeader(h))
    ensures HeaderAt(s, p) == Parsed(Ok(h), p + HeaderSize)
  {
    assert s[p..p + HeaderSize] == EncodeHeader(h);
    DecodeEncodeHeader(h);
  }

  /** Whatever header is read, the four bytes read are its encoding. */
  lemma {:induction false} HeaderAtDecoded(s: seq<uint8>, p: nat)
    requires HeaderAt(s, p).result.Ok?
    ensures BytesAt(s, p, EncodeHeader(HeaderAt(s, p).result.value))
  {
    EncodeDecodeHeader(s[p..p + HeaderSize]);
  }

  /** `parse_metadata_header`. */
  method ParseMetadataHeader(f: FlacFile) returns (r: Result<MetadataHeader>)
    requires f.Valid()
    modifies f
    ensures f.Valid()
    ensures Parsed(r, f.pos) == HeaderAt(f.bytes, old(f.pos))
  {
    var b :- f.Read(HeaderSize);
    r := Ok(DecodeHeader(b));
  }
}
