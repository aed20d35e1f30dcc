/** The STREAMINFO body (section 8.2 of RFC 9639) and `parse_block_streaminfo`.

    Bytes 10..17 of the body are one 64-bit big-endian word holding, from the top,
    the sample rate (20 bits), channels - 1 (3 bits), bits per sample - 1 (5 bits)
    and the total number of samples (36 bits). `DecodeStreamInfoIntended` reads the
    fields from that word; `DecodeStreamInfo` is the C code's byte-by-byte shifting,
    which differs from it in two places (see `AsWrittenVsIntended`). */
module StreamInfoBlock {
  import opened Bytes
  import opened Results
  import opened Stream

  const StreamInfoSize := 34
  const Md5Size := 16

  datatype StreamInfo = StreamInfo(
    minBlockSize: uint16,
    maxBlockSize: uint16,
    minFrameSize: uint32,
    maxFrameSize: uint32,
    sampleRate: uint32,
    channels: uint8,
    bitsPerSample: uint8,
    totalSamples: uint64,
    md5: seq<uint8>)

  /** `total_samples` as the C expression evaluates it. `header[14] << 24` has type `int`;
      when header[14] >= 0x80 it is negative (gcc wraps the signed overflow) and is
      sign-extended as it is or-ed into the `uint64_t`, which sets the upper 32 bits and
      hides the 4 bits taken from header[13]. */
  function TotalSamplesAsWritten(b: seq<uint8>): uint64
    requires |b| >= 18
  {
    var low := b[14] as int * 0x100_0000 + b[15] as int * 0x1_0000 + b[16] as int * 0x100 + b[17];
    if b[14] < 0x80 then (b[13] % 16) as int * 0x1_0000_0000 + low
    else 0xFFFF_FFFF_0000_0000 + low
  }

  /** `parse_block_streaminfo` on the `size` bytes it has read. The two `assert`s become
      MinBlockSizeTooSmall (the second, `max_block_size <= 65535`, cannot fail for a
      `uint16_t`). A body shorter than the 34 bytes the code indexes has no defined
      outcome in C (it reads past its buffer); it is BodyTooShort here, reported after
      the min_block_size check when bytes 0 and 1 exist, as in the C order. Quirks kept:
      `bits_per_sample` shifts header[12]'s low bit by 5, not 4, and `total_samples` is
      `TotalSamplesAsWritten`. */
  function DecodeStreamInfo(body: seq<uint8>): (r: Result<StreamInfo>)
    ensures r.Ok? <==> |body| >= StreamInfoSize && BigEndian(body[..2]) >= 16
    ensures r == Err(MinBlockSizeTooSmall) <==> |body| >= 2 && BigEndian(body[..2]) < 16
    ensures r.Ok? ==>
              && r.value.minFrameSize < 0x100_0000 && r.value.maxFrameSize < 0x100_0000
              && r.value.sampleRate < 0x10_0000
              && 1 <= r.value.channels <= 8
              && (1 <= r.value.bitsPerSample <= 16 || 33 <= r.value.bitsPerSample <= 48)
              && r.value.md5 == body[18..34]
  {
    if |body| < 2 then Err(BodyTooShort)
    else
      var minBlockSize := body[0] as int * 0x100 + body[1];
      BigEndianSmall(body[..2]);
      if minBlockSize < 16 then Err(MinBlockSizeTooSmall)
      else if |body| < StreamInfoSize then Err(BodyTooShort)
      else
        Ok(StreamInfo(
             minBlockSize,
             body[2] as int * 0x100 + body[3],
             body[4] as int * 0x1_0000 + body[5] as int * 0x100 + body[6],
             body[7] as int * 0x1_0000 + body[8] as int * 0x100 + body[9],
             body[10] as int * 0x1000 + body[11] as int * 0x10 + body[12] / 0x10,
             (body[12] / 2) % 8 + 1,
             // shift of 5 where the format puts this bit at position 4
             (body[12] % 2) * 0x20 + body[13] / 0x10 + 1,
             TotalSamplesAsWritten(body),
             body[18..34]))
  }

  /** Bytes 10..17 of the body as one 64-bit big-endian word. */
  function PackedWord(body: seq<uint8>): (w: nat)
    requires |body| >= 18
    ensures w < 0x1_0000_0000_0000_0000
  {
    Pow256Values();
    BigEndian(body[10..18])
  }

  /** STREAMINFO as the format lays it out: every field is a big-endian slice of the body,
      the last four fields peeled off the packed word from its low end. */
  function DecodeStreamInfoIntended(body: seq<uint8>): (r: Result<StreamInfo>)
    ensures r.Ok? ==> 1 <= r.value.bitsPerSample <= 32 && r.value.totalSamples < 0x10_0000_0000
  {
    if |body| < 2 then Err(BodyTooShort)
    else
      Pow256Values();
      var minBlockSize := BigEndian(body[..2]);
      if minBlockSize < 16 then Err(MinBlockSizeTooSmall)
      else if |body| < StreamInfoSize then Err(BodyTooShort)
      else
        var w := PackedWord(body);
        var rest := w / 0x10_0000_0000;
        var rest' := rest / 0x20;
        Ok(StreamInfo(
             minBlockSize, BigEndian(body[2..4]), BigEndian(body[4..7]), BigEndian(body[7..10]),
             rest' / 8, rest' % 8 + 1, rest % 0x20 + 1, w % 0x10_0000_0000,
             body[18..34]))
  }

  /** The field ranges the 34-byte layout can carry. */
  predicate Representable(si: StreamInfo)
  {
    && si.minFrameSize < 0x100_0000 && si.maxFrameSize < 0x100_0000
    && si.sampleRate < 0x10_0000
    && 1 <= si.channels <= 8
    && 1 <= si.bitsPerSample <= 32
    && si.totalSamples < 0x10_0000_0000
    && |si.md5| == Md5Size
  }

  function Pack(si: StreamInfo): (w: nat)
    requires Representable(si)
    ensures w < 0x1_0000_0000_0000_0000
  {
    ((si.sampleRate as int * 8 + (si.channels - 1)) * 0x20 + (si.bitsPerSample - 1)) * 0x10_0000_0000
      + si.totalSamples
  }

  /** The 34-byte STREAMINFO body of `si`. */
  ghost function EncodeStreamInfo(si: StreamInfo): (b: seq<uint8>)
    requires Representable(si)
    ensures |b| == StreamInfoSize
  {
    Pow256Values();
    ToBigEndian(si.minBlockSize, 2) + ToBigEndian(si.maxBlockSize, 2)
      + ToBigEndian(si.minFrameSize, 3) + ToBigEndian(si.maxFrameSize, 3)
      + ToBigEndian(Pack(si), 8) + si.md5
  }

  lemma UnpackPack(si: StreamInfo)
    requires Representable(si)
    ensures var w := Pack(si);
      var rest := w / 0x10_0000_0000;
      var rest' := rest / 0x20;
      && w % 0x10_0000_0000 == si.totalSamples
      && rest % 0x20 + 1 == si.bitsPerSample
      && rest' % 8 + 1 == si.channels
      && rest' / 8 == si.sampleRate
  {
    var rest' := si.sampleRate as int * 8 + (si.channels - 1);
    var rest := rest' * 0x20 + (si.bitsPerSample - 1);
    DivModUnique(Pack(si), 0x10_0000_0000, rest, si.totalSamples);
    DivModUnique(rest, 0x20, rest', si.bitsPerSample - 1);
    DivModUnique(rest', 8, si.sampleRate, si.channels - 1);
  }

  lemma PackUnpack(body: seq<uint8>)
    requires |body| >= 18
    ensures var w := PackedWord(body);
      var rest := w / 0x10_0000_0000;
      var rest' := rest / 0x20;
      w == ((rest' / 8 * 8 + rest' % 8) * 0x20 + rest % 0x20) * 0x10_0000_0000 + w % 0x10_0000_0000
  {
  }

  /** The slices of an encoded body. */
  lemma EncodedSlices(si: StreamInfo)
    requires Representable(si)
    ensures var b := EncodeStreamInfo(si);
      && b[..2] == ToBigEndian(si.minBlockSize, 2) && b[2..4] == ToBigEndian(si.maxBlockSize, 2)
      && b[4..7] == ToBigEndian(si.minFrameSize, 3) && b[7..10] == ToBigEndian(si.maxFrameSize, 3)
      && b[10..18] == ToBigEndian(Pack(si), 8) && b[18..34] == si.md5
  {
  }

  /** Packing the fields into a body and decoding it gives the fields back. */
  lemma {:induction false} StreamInfoRoundTrip(si: StreamInfo)
    requires Representable(si) && si.minBlockSize >= 16
    ensures DecodeStreamInfoIntended(EncodeStreamInfo(si)) == Ok(si)
  {
    Pow256Values();
    EncodedSlices(si);
    UnpackPack(si);
  }

  /** Every 34-byte body the decoder accepts is the encoding of what it decodes to. */
  lemma {:induction false} StreamInfoBytesRoundTrip(body: seq<uint8>)
    requires |body| == StreamInfoSize && DecodeStreamInfoIntended(body).Ok?
    ensures Representable(DecodeStreamInfoIntended(body).value)
    ensures EncodeStreamInfo(DecodeStreamInfoIntended(body).value) == body
  {
    var si := DecodeStreamInfoIntended(body).value;
    PackUnpack(body);
    assert Pack(si) == PackedWord(body);
    ToBigEndianOfBigEndian(body[..2]);
    ToBigEndianOfBigEndian(body[2..4]);
    ToBigEndianOfBigEndian(body[4..7]);
    ToBigEndianOfBigEndian(body[7..10]);
    ToBigEndianOfBigEndian(body[10..18]);
    BodySlices(body);
  }

  lemma BodySlices(body: seq<uint8>)
    requires |body| == StreamInfoSize
    ensures body == body[..2] + body[2..4] + body[4..7] + body[7..10] + body[10..18] + body[18..34]
  {
  }

  /** The packed word spelled out byte by byte. */
  lemma PackedWordBytes(body: seq<uint8>)
    requires |body| >= 18
    ensures PackedWord(body) ==
              body[10] as int * 0x100_0000_0000_0000 + body[11] as int * 0x1_0000_0000_0000
              + body[12] as int * 0x100_0000_0000 + body[13] as int * 0x1_0000_0000
              + body[14] as int * 0x100_0000 + body[15] as int * 0x1_0000
              + body[16] as int * 0x100 + body[17]
  {
    Pow256Values();
    assert body[10..18] == body[10..14] + body[14..18];
    BigEndianAppend(body[10..14], body[14..18]);
    BigEndianSmall(body[10..14]);
    BigEndianSmall(body[14..18]);
  }

  /** The C shifts against the format's layout: the same outcome on every body, and on
      success the same fields except two. `bits_per_sample` is 16 too large whenever the
      intended value exceeds 16, and `total_samples` has its upper 32 bits set whenever
      bit 31 of the intended value is set. */
  lemma {:induction false} AsWrittenVsIntended(body: seq<uint8>)
    ensures DecodeStreamInfo(body).Ok? <==> DecodeStreamInfoIntended(body).Ok?
    ensures DecodeStreamInfo(body).Err? ==> DecodeStreamInfo(body) == DecodeStreamInfoIntended(body)
    ensures DecodeStreamInfo(body).Ok? ==>
              var aw := DecodeStreamInfo(body).value;
              var si := DecodeStreamInfoIntended(body).value;
              && aw.(bitsPerSample := si.bitsPerSample, totalSamples := si.totalSamples) == si
              && aw.bitsPerSample == (if si.bitsPerSample <= 16 then si.bitsPerSample else si.bitsPerSample + 16)
              && aw.totalSamples == (if si.totalSamples % 0x1_0000_0000 < 0x8000_0000 then si.totalSamples
                                     else 0xFFFF_FFFF_0000_0000 + si.totalSamples % 0x1_0000_0000)
  {
    if |body| >= 2 {
      BigEndianSmall(body[..2]);
    }
    if |body| >= StreamInfoSize && BigEndian(body[..2]) >= 16 {
      var aw := DecodeStreamInfo(body).value;
      var si := DecodeStreamInfoIntended(body).value;
      SameSlices(body);
      assert aw.(bitsPerSample := si.bitsPerSample, totalSamples := si.totalSamples) == si;
    }
  }

  lemma SameSlices(body: seq<uint8>)
    requires |body| >= StreamInfoSize && BigEndian(body[..2]) >= 16
    ensures var aw := DecodeStreamInfo(body).value;
      var si := DecodeStreamInfoIntended(body).value;
      && aw.minBlockSize == si.minBlockSize && aw.maxBlockSize == si.maxBlockSize
      && aw.minFrameSize == si.minFrameSize && aw.maxFrameSize == si.maxFrameSize
      && aw.sampleRate == si.sampleRate && aw.channels == si.channels && aw.md5 == si.md5
      && aw.bitsPerSample == (if si.bitsPerSample <= 16 then si.bitsPerSample else si.bitsPerSample + 16)
      && aw.totalSamples == (if si.totalSamples % 0x1_0000_0000 < 0x8000_0000 then si.totalSamples
                             else 0xFFFF_FFFF_0000_0000 + si.totalSamples % 0x1_0000_0000)
  {
    BigEndianSmall(body[..2]);
    BigEndianSmall(body[2..4]);
    BigEndianSmall(body[4..7]);
    BigEndianSmall(body[7..10]);
    PackedWordBytes(body);
    PackedWordFields(body[10], body[11], body[12], body[13], body[14], body[15], body[16], body[17]);
  }

  /** Where the C shifts find the fields of the packed word. */
  lemma PackedWordFields(b10: uint8, b11: uint8, b12: uint8, b13: uint8, b14: uint8, b15: uint8, b16: uint8, b17: uint8)
    ensures var low := b14 as int * 0x100_0000 + b15 as int * 0x1_0000 + b16 as int * 0x100 + b17;
      var w := b10 as int * 0x100_0000_0000_0000 + b11 as int * 0x1_0000_0000_0000
               + b12 as int * 0x100_0000_0000 + b13 as int * 0x1_0000_0000 + low;
      var rest := w / 0x10_0000_0000;
      var rest' := rest / 0x20;
      && w % 0x10_0000_0000 == (b13 % 0x10) as int * 0x1_0000_0000 + low
      && (w % 0x10_0000_0000) % 0x1_0000_0000 == low
      && rest % 0x20 == (b12 % 2) * 0x10 + b13 / 0x10
      && rest' % 8 == (b12 / 2) % 8
      && rest' / 8 == b10 as int * 0x1000 + b11 as int * 0x10 + b12 / 0x10
  {
    var low := b14 as int * 0x100_0000 + b15 as int * 0x1_0000 + b16 as int * 0x100 + b17;
    var w := b10 as int * 0x100_0000_0000_0000 + b11 as int * 0x1_0000_0000_0000
             + b12 as int * 0x100_0000_0000 + b13 as int * 0x1_0000_0000 + low;
    var rest := b10 as int * 0x10_0000 + b11 as int * 0x1000 + b12 as int * 0x10 + b13 / 0x10;
    DivModUnique(w, 0x10_0000_0000, rest, (b13 % 0x10) as int * 0x1_0000_0000 + low);
    DivModUnique((b13 % 0x10) as int * 0x1_0000_0000 + low, 0x1_0000_0000, b13 % 0x10, low);
    var rest' := b10 as int * 0x8000 + b11 as int * 0x80 + b12 / 2;
    DivModUnique(rest, 0x20, rest', (b12 % 2) * 0x10 + b13 / 0x10);
    DivModUnique(b12, 0x10, b12 / 2 / 8, 2 * ((b12 / 2) % 8) + b12 % 2);
    DivModUnique(rest', 8, b10 as int * 0x1000 + b11 as int * 0x10 + b12 / 0x10, (b12 / 2) % 8);
  }

  /** The C decoder on an encoded body: every field except two comes back; the bits per
      sample come back exactly when they are at most 16, the total sample count exactly
      when its bit 31 is clear. */
  lemma {:induction false} AsWrittenDecodeOfEncoded(si: StreamInfo)
    requires Representable(si) && si.minBlockSize >= 16
    ensures var r := DecodeStreamInfo(EncodeStreamInfo(si));
      && r.Ok?
      && r.value.(bitsPerSample := si.bitsPerSample, totalSamples := si.totalSamples) == si
      && (r.value.bitsPerSample == si.bitsPerSample <==> si.bitsPerSample <= 16)
      && (r.value.totalSamples == si.totalSamples <==> si.totalSamples % 0x1_0000_0000 < 0x8000_0000)
  {
    StreamInfoRoundTrip(si);
    AsWrittenVsIntended(EncodeStreamInfo(si));
  }

  /** The STREAMINFO block read at position p with declared length `size`. */
  function StreamInfoAt(s: seq<uint8>, p: nat, size: nat): (r: Parsed<StreamInfo>)
    ensures r.result.Ok? ==> r.pos == p + size <= |s| && size >= StreamInfoSize
  {
    var b :- Take(s, p, size);
    Parsed(DecodeStreamInfo(b.0), b.1)
  }

  /** `parse_block_streaminfo`: read `size` bytes, then slice them. */
  method ParseBlockStreamInfo(f: FlacFile, size: nat) returns (r: Result<StreamInfo>)
    requires f.Valid()
    modifies f
    ensures f.Valid()
    ensures Parsed(r, f.pos) == StreamInfoAt(f.bytes, old(f.pos), size)
  {
    var body :- f.Read(size);
    r := DecodeStreamInfo(body);
  }
}
