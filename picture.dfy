/** The PICTURE body (section 8.8 of RFC 9639) and `parse_picture`: every 32-bit field
    goes through `be32toh`, so all of them are big-endian. */
module PictureBlock {
  import opened Bytes
  import opened Results
  import opened Stream

  /** `picture`: `picture_size` is the length of `data`. The description is kept as raw
      bytes; the C code leaves it without a terminating NUL, which a sequence does not need. */
  datatype Picture = Picture(
    pictureType: uint32,
    mimeType: seq<uint8>,
    description: seq<uint8>,
    width: uint32,
    height: uint32,
    colourDepth: uint32,
    numberOfColours: uint32,
    data: seq<uint8>)

  const Order := BigEndianOrder

  /** The first `fread`s: `picture_type`, then the MIME type and the description, each
      a 32-bit length followed by that many bytes. */
  function PictureLabelsAt(s: seq<uint8>, p: nat): (r: Parsed<(uint32, seq<uint8>, seq<uint8>)>)
    ensures r.result.Ok? ==> r.pos == p + 12 + |r.result.value.1| + |r.result.value.2| <= |s|
  {
    var pictureType :- U32At(s, p, Order);
    var mimeType :- PrefixedAt(s, pictureType.1, Order);
    var description :- PrefixedAt(s, mimeType.1, Order);
    Parsed(Ok((pictureType.0, mimeType.0, description.0)), description.1)
  }

  /** The next four `fread`s: width, height, colour depth and number of colours. */
  function PictureGeometryAt(s: seq<uint8>, p: nat): (r: Parsed<(uint32, uint32, uint32, uint32)>)
    ensures r.result.Ok? ==> r.pos == p + 16 <= |s|
  {
    var width :- U32At(s, p, Order);
    var height :- U32At(s, width.1, Order);
    var colourDepth :- U32At(s, height.1, Order);
    var numberOfColours :- U32At(s, colourDepth.1, Order);
    Parsed(Ok((width.0, height.0, colourDepth.0, numberOfColours.0)), numberOfColours.1)
  }

  /** The PICTURE block read at position p, in the order of the `fread`s; the image data
      is `picture_size` followed by exactly that many bytes. */
  function PictureAt(s: seq<uint8>, p: nat): (r: Parsed<Picture>)
    ensures r.result.Ok? ==> r.pos == p + 32 + |r.result.value.mimeType| + |r.result.value.description|
                                        + |r.result.value.data| <= |s|
  {
    var labels :- PictureLabelsAt(s, p);
    var geometry :- PictureGeometryAt(s, labels.1);
    var data :- PrefixedAt(s, geometry.1, Order);
    var (pictureType, mimeType, description) := labels.0;
    var (width, height, colourDepth, numberOfColours) := geometry.0;
    Parsed(Ok(Picture(pictureType, mimeType, description, width, height, colourDepth, numberOfColours, data.0)),
           data.1)
  }

  predicate Encodable(pic: Picture)
  {
    |pic.mimeType| < 0x1_0000_0000 && |pic.description| < 0x1_0000_0000 && |pic.data| < 0x1_0000_0000
  }

  ghost function EncodeLabels(pictureType: uint32, mimeType: seq<uint8>, description: seq<uint8>): (b: seq<uint8>)
    requires |mimeType| < 0x1_0000_0000 && |description| < 0x1_0000_0000
    ensures |b| == 12 + |mimeType| + |description|
  {
    Encode32(pictureType, Order) + EncodePrefixed(mimeType, Order) + EncodePrefixed(description, Order)
  }

  ghost function EncodeGeometry(width: uint32, height: uint32, colourDepth: uint32, numberOfColours: uint32): (b: seq<uint8>)
    ensures |b| == 16
  {
    Encode32(width, Order) + Encode32(height, Order) + Encode32(colourDepth, Order)
      + Encode32(numberOfColours, Order)
  }

  /** The wire form of a PICTURE body. */
  ghost function EncodePicture(pic: Picture): (b: seq<uint8>)
    requires Encodable(pic)
    ensures |b| == 32 + |pic.mimeType| + |pic.description| + |pic.data|
  {
    EncodeLabels(pic.pictureType, pic.mimeType, pic.description)
      + EncodeGeometry(pic.width, pic.height, pic.colourDepth, pic.numberOfColours)
      + EncodePrefixed(pic.data, Order)
  }

  lemma {:induction false} LabelsRoundTrip(s: seq<uint8>, p: nat, t: uint32, m: seq<uint8>, d: seq<uint8>)
    requires |m| < 0x1_0000_0000 && |d| < 0x1_0000_0000
    requires BytesAt(s, p, EncodeLabels(t, m, d))
    ensures PictureLabelsAt(s, p) == Parsed(Ok((t, m, d)), p + 12 + |m| + |d|)
  {
    var e1, e2, e3 := Encode32(t, Order), EncodePrefixed(m, Order), EncodePrefixed(d, Order);
    BytesAtSplit(s, p, e1 + e2, e3);
    BytesAtSplit(s, p, e1, e2);
    U32AtEncoded(s, p, t, Order);
    PrefixedAtEncoded(s, p + 4, m, Order);
    PrefixedAtEncoded(s, p + 8 + |m|, d, Order);
  }

  lemma {:induction false} GeometryRoundTrip(s: seq<uint8>, p: nat, w: uint32, h: uint32, c: uint32, n: uint32)
    requires BytesAt(s, p, EncodeGeometry(w, h, c, n))
    ensures PictureGeometryAt(s, p) == Parsed(Ok((w, h, c, n)), p + 16)
  {
    var e1, e2, e3, e4 := Encode32(w, Order), Encode32(h, Order), Encode32(c, Order), Encode32(n, Order);
    BytesAtSplit(s, p, e1 + e2 + e3, e4);
    BytesAtSplit(s, p, e1 + e2, e3);
    BytesAtSplit(s, p, e1, e2);
    U32AtEncoded(s, p, w, Order);
    U32AtEncoded(s, p + 4, h, Order);
    U32AtEncoded(s, p + 8, c, Order);
    U32AtEncoded(s, p + 12, n, Order);
  }

  /** Reading an encoded body gives every field back, the image data with exactly
      `picture_size` bytes, and stops at the end of the encoding. */
  lemma {:induction false} PictureRoundTrip(s: seq<uint8>, p: nat, pic: Picture)
    requires Encodable(pic) && BytesAt(s, p, EncodePicture(pic))
    ensures PictureAt(s, p) == Parsed(Ok(pic), p + |EncodePicture(pic)|)
  {
    var labels := EncodeLabels(pic.pictureType, pic.mimeType, pic.description);
    var geometry := EncodeGeometry(pic.width, pic.height, pic.colourDepth, pic.numberOfColours);
    var q, q' := p + |labels|, p + |labels| + 16;
    BytesAtSplit(s, p, labels + geometry, EncodePrefixed(pic.data, Order));
    BytesAtSplit(s, p, labels, geometry);
    LabelsRoundTrip(s, p, pic.pictureType, pic.mimeType, pic.description);
    GeometryRoundTrip(s, q, pic.width, pic.height, pic.colourDepth, pic.numberOfColours);
    PrefixedAtEncoded(s, q', pic.data, Order);
    PictureAtStages(s, p, q, q', q' + 4 + |pic.data|, pic);
  }

  /** The three stages read in turn give the whole picture. */
  lemma PictureAtStages(s: seq<uint8>, p: nat, q: nat, q': nat, e: nat, pic: Picture)
    requires PictureLabelsAt(s, p) == Parsed(Ok((pic.pictureType, pic.mimeType, pic.description)), q)
    requires PictureGeometryAt(s, q) == Parsed(Ok((pic.width, pic.height, pic.colourDepth, pic.numberOfColours)), q')
    requires PrefixedAt(s, q', Order) == Parsed(Ok(pic.data), e)
    ensures PictureAt(s, p) == Parsed(Ok(pic), e)
  {
  }

  /** `parse_picture`. Its `size` argument (the declared block length) is never used: the
      embedded lengths alone decide how much is read. */
  method ParsePicture(f: FlacFile, size: nat) returns (r: Result<Picture>)
    requires f.Valid()
    modifies f
    ensures f.Valid()
    ensures Parsed(r, f.pos) == PictureAt(f.bytes, old(f.pos))
  {
    var pictureType :- f.ReadU32(Order);
    var mimeType :- ReadPrefixed(f, Order);
    var description :- ReadPrefixed(f, Order);
    var width :- f.ReadU32(Order);
    var height :- f.ReadU32(Order);
    var colourDepth :- f.ReadU32(Order);
    var numberOfColours :- f.ReadU32(Order);
    var data :- ReadPrefixed(f, Order);
    r := Ok(Picture(pictureType, mimeType, description, width, height, colourDepth, numberOfColours, data));
  }
}
