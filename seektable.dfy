/** The SEEKTABLE body (section 8.5 of RFC 9639) and `parse_block_seektable`: 18-byte
    records, each a big-endian 64-bit first sample number, a 64-bit byte offset and a
    16-bit sample count. */
module SeekTableBlock {
  import opened Bytes
  import opened Results
  import opened Stream

  /** Bytes per seek point on the wire. */
  const SeekPointSize := 18
  /** `sizeof(seekpoint)` on an LP64 target: two `uint64_t` and a `uint16_t`, padded to a
      multiple of 8. The C code divides the body length by this, not by 18. */
  const SeekPointStructSize := 24

  datatype SeekPoint = SeekPoint(firstSampleNumber: uint64, offset: uint64, numberOfSamples: uint16)

  /** `seektable`: `total_points` is the length of `points`. */
  datatype SeekTable = SeekTable(points: seq<SeekPoint>)

  /** One record: the three `memcpy`s followed by `be64toh`, `be64toh`, `be16toh`. */
  function DecodeSeekPoint(b: seq<uint8>): SeekPoint
    requires |b| == SeekPointSize
  {
    Pow256Values();
    SeekPoint(BigEndian(b[..8]), BigEndian(b[8..16]), BigEndian(b[16..18]))
  }

  ghost function EncodeSeekPoint(pt: SeekPoint): (b: seq<uint8>)
    ensures |b| == SeekPointSize
  {
    Pow256Values();
    ToBigEndian(pt.firstSampleNumber, 8) + ToBigEndian(pt.offset, 8) + ToBigEndian(pt.numberOfSamples, 2)
  }

  lemma {:induction false} SeekPointRoundTrip(pt: SeekPoint)
    ensures DecodeSeekPoint(EncodeSeekPoint(pt)) == pt
  {
    var b := EncodeSeekPoint(pt);
    assert b[..8] == ToBigEndian(pt.firstSampleNumber, 8);
    assert b[8..16] == ToBigEndian(pt.offset, 8);
    assert b[16..18] == ToBigEndian(pt.numberOfSamples, 2);
    Pow256Values();
  }

  lemma {:induction false} SeekPointBytesRoundTrip(b: seq<uint8>)
    requires |b| == SeekPointSize
    ensures EncodeSeekPoint(DecodeSeekPoint(b)) == b
  {
    ToBigEndianOfBigEndian(b[..8]);
    ToBigEndianOfBigEndian(b[8..16]);
    ToBigEndianOfBigEndian(b[16..18]);
    assert b == b[..8] + b[8..16] + b[16..18];
  }

  /** Record i of a body, for the first `count` records, in table order. */
  function SeekPoints(body: seq<uint8>, count: nat): (ps: seq<SeekPoint>)
    requires SeekPointSize * count <= |body|
    ensures |ps| == count
  {
    seq(count, i requires 0 <= i < count =>
      DecodeSeekPoint(body[SeekPointSize * i..SeekPointSize * i + SeekPointSize]))
  }

  /** `parse_block_seektable` on the `size` bytes it has read: `size / sizeof(seekpoint)`
      records. Because each record is read from a 24-byte share of the body, every read
      stays inside it. */
  function DecodeSeekTable(body: seq<uint8>): (t: SeekTable)
    ensures SeekPointStructSize * |t.points| <= |body| < SeekPointStructSize * (|t.points| + 1)
  {
    SeekTable(SeekPoints(body, |body| / SeekPointStructSize))
  }

  /** The table the comment in the C code describes: `size / 18` records. */
  function DecodeSeekTableIntended(body: seq<uint8>): (t: SeekTable)
    ensures SeekPointSize * |t.points| <= |body| < SeekPointSize * (|t.points| + 1)
  {
    SeekTable(SeekPoints(body, |body| / SeekPointSize))
  }

  /** The records of `ps` back to back. */
  ghost function EncodeSeekTable(ps: seq<SeekPoint>): (b: seq<uint8>)
    ensures |b| == SeekPointSize * |ps|
  {
    if ps == [] then [] else EncodeSeekTable(ps[..|ps| - 1]) + EncodeSeekPoint(ps[|ps| - 1])
  }

  lemma {:induction false} EncodeSeekTableAt(ps: seq<SeekPoint>, i: nat)
    requires i < |ps|
    ensures EncodeSeekTable(ps)[SeekPointSize * i..SeekPointSize * i + SeekPointSize] == EncodeSeekPoint(ps[i])
  {
    var init := ps[..|ps| - 1];
    var b := EncodeSeekTable(ps);
    assert b == EncodeSeekTable(init) + EncodeSeekPoint(ps[|ps| - 1]);
    if i < |ps| - 1 {
      EncodeSeekTableAt(init, i);
      assert b[SeekPointSize * i..SeekPointSize * i + SeekPointSize]
          == EncodeSeekTable(init)[SeekPointSize * i..SeekPointSize * i + SeekPointSize];
    } else {
      assert b[SeekPointSize * i..SeekPointSize * i + SeekPointSize] == b[|EncodeSeekTable(init)|..];
    }
  }

  /** Decoding the first n records of an encoded table gives its first n points. */
  lemma SeekPointsOfEncoded(ps: seq<SeekPoint>, n: nat)
    requires n <= |ps|
    ensures SeekPoints(EncodeSeekTable(ps), n) == ps[..n]
  {
    forall i | 0 <= i < n
      ensures SeekPoints(EncodeSeekTable(ps), n)[i] == ps[i]
    {
      EncodeSeekTableAt(ps, i);
      SeekPointRoundTrip(ps[i]);
    }
  }

  /** The intended decoder inverts the encoding. */
  lemma SeekTableRoundTrip(ps: seq<SeekPoint>)
    ensures DecodeSeekTableIntended(EncodeSeekTable(ps)) == SeekTable(ps)
  {
    SeekPointsOfEncoded(ps, |ps|);
  }

  /** A body whose length is a multiple of 18 is exactly the encoding of its points. */
  lemma {:induction false} SeekTableBytesRoundTrip(body: seq<uint8>)
    requires |body| % SeekPointSize == 0
    ensures EncodeSeekTable(DecodeSeekTableIntended(body).points) == body
    decreases |body|
  {
    var ps := DecodeSeekTableIntended(body).points;
    if ps != [] {
      var init := body[..|body| - SeekPointSize];
      var last := body[|body| - SeekPointSize..];
      DropLastRecord(body);
      SeekTableBytesRoundTrip(init);
      SeekPointBytesRoundTrip(last);
      assert EncodeSeekTable(ps) == EncodeSeekTable(ps[..|ps| - 1]) + EncodeSeekPoint(ps[|ps| - 1]);
      assert body == init + last;
    }
  }

  /** Without its last record, a body decodes to all points but the last one, and the last
      point is the decoding of that record. */
  lemma DropLastRecord(body: seq<uint8>)
    requires |body| % SeekPointSize == 0 && |body| > 0
    ensures var ps, init := DecodeSeekTableIntended(body).points, body[..|body| - SeekPointSize];
      && |ps| > 0 && |init| % SeekPointSize == 0 && |init| < |body|
      && DecodeSeekTableIntended(init).points == ps[..|ps| - 1]
      && ps[|ps| - 1] == DecodeSeekPoint(body[|body| - SeekPointSize..])
  {
    var ps := DecodeSeekTableIntended(body).points;
    var n := |ps|;
    var init := body[..|body| - SeekPointSize];
    assert |body| == SeekPointSize * n;
    forall i | 0 <= i < n - 1
      ensures DecodeSeekTableIntended(init).points[i] == ps[i]
    {
      assert init[SeekPointSize * i..SeekPointSize * i + SeekPointSize]
          == body[SeekPointSize * i..SeekPointSize * i + SeekPointSize];
    }
    assert body[SeekPointSize * (n - 1)..SeekPointSize * (n - 1) + SeekPointSize]
        == body[|body| - SeekPointSize..];
  }

  /** The C count drops points: on a table of n points it decodes only the first
      18n/24, fewer than n whenever n > 0. */
  lemma AsWrittenDropsPoints(ps: seq<SeekPoint>)
    ensures DecodeSeekTable(EncodeSeekTable(ps)) == SeekTable(ps[..SeekPointSize * |ps| / SeekPointStructSize])
    ensures |ps| > 0 ==> |DecodeSeekTable(EncodeSeekTable(ps)).points| < |ps|
  {
    SeekPointsOfEncoded(ps, SeekPointSize * |ps| / SeekPointStructSize);
  }

  /** The SEEKTABLE block read at position p with declared length `size`. */
  function SeekTableAt(s: seq<uint8>, p: nat, size: nat): (r: Parsed<SeekTable>)
    ensures r.result.Ok? <==> p + size <= |s|
    ensures r.result.Ok? ==> r.pos == p + size
  {
    var b :- Take(s, p, size);
    Parsed(Ok(DecodeSeekTable(b.0)), b.1)
  }

  /** `parse_block_seektable`. Its loop counter is a `uint8_t`: with 256 or more points
      it wraps and the loop never ends, hence the bound on `size`. */
  method ParseBlockSeekTable(f: FlacFile, size: nat) returns (r: Result<SeekTable>)
    requires f.Valid()
    requires size / SeekPointStructSize < 0x100
    modifies f
    ensures f.Valid()
    ensures Parsed(r, f.pos) == SeekTableAt(f.bytes, old(f.pos), size)
  {
    var header :- f.Read(size);
    var totalPoints := size / SeekPointStructSize;
    var point := new SeekPoint[totalPoints];
    var i: uint8 := 0;
    while i < totalPoints
      modifies point
      invariant i <= totalPoints
      invariant forall k :: 0 <= k < i ==>
        point[k] == DecodeSeekPoint(header[SeekPointSize * k..SeekPointSize * k + SeekPointSize])
    {
      var at := i as int * SeekPointSize;
      Pow256Values();
      point[i] := SeekPoint(BigEndian(header[at..at + 8]), BigEndian(header[at + 8..at + 16]),
                            BigEndian(header[at + 16..at + 18]));
      assert header[at..at + SeekPointSize][..8] == header[at..at + 8];
      assert header[at..at + SeekPointSize][8..16] == header[at + 8..at + 16];
      assert header[at..at + SeekPointSize][16..18] == header[at + 16..at + 18];
      i := i + 1;
    }
    assert point[..] == SeekPoints(header, totalPoints);
    r := Ok(SeekTable(point[..]));
  }
}
