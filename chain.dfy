/** The driver in `main`: the "fLaC" signature check followed by the `do ... while`
    loop that reads one metadata block header after another, checks PADDING bodies
    and skips every other body, until a header carries the last-block flag. */
module Chain {
  import opened Bytes
  import opened Results
  import opened Stream
  import opened Header
  import opened Padding

  /** The stream marker "fLaC" (section 6 of RFC 9639). */
  const Signature: seq<uint8> := [0x66, 0x4C, 0x61, 0x43]
  const SignatureSize := 4

  /** The PADDING block type, the one whose body `main` validates instead of skipping. */
  const PaddingType := 1

  /** One pass of the loop body from position p, after the header h has been read:
      `check_padding` for PADDING, `fseek` past the body otherwise. */
  function BodyAt(s: seq<uint8>, p: nat, h: MetadataHeader): (r: Parsed<()>)
    requires p <= |s|
    ensures r.result.Ok? <==>
      p + h.blockLength <= |s| && (h.blockType == PaddingType ==> AllZero(s, p, p + h.blockLength))
    ensures r.result.Ok? ==> r.pos == p + h.blockLength
    ensures r.result.Err? ==> r.result.error in {Truncated, NonzeroPadding}
  {
    PaddingFromMeaning(s, p, h.blockLength);
    if h.blockType == PaddingType then PaddingFrom(s, p, h.blockLength)
    else Skip(s, p, h.blockLength)
  }

  /** The header loop of `main` from position p: the headers read, in order, up to and
      including the first one whose last-block flag is set. */
  function WalkFrom(s: seq<uint8>, p: nat): Parsed<seq<MetadataHeader>>
    decreases |s| - p
  {
    var (h, q) :- HeaderAt(s, p);
    var (_, e) :- BodyAt(s, q, h);
    if h.lastBlock == 1 then Parsed(Ok([h]), e)
    else
      var (rest, e') :- WalkFrom(s, e);
      Parsed(Ok([h] + rest), e')
  }

  /** What `main` does with a whole file: check the signature, then walk the headers. */
  function DecodeFlac(s: seq<uint8>): (r: Parsed<seq<MetadataHeader>>)
    ensures r.result.Ok? ==> BytesAt(s, 0, Signature)
    ensures |s| >= SignatureSize && !BytesAt(s, 0, Signature) ==>
      r == Parsed(Err(InvalidSignature), SignatureSize)
  {
    var (sig, p) :- Take(s, 0, SignatureSize);
    if sig != Signature then Parsed(Err(InvalidSignature), p) else WalkFrom(s, p)
  }

  /** Number of bytes a run of blocks occupies: each header plus its body. */
  function Extent(hs: seq<MetadataHeader>): nat
  {
    if |hs| == 0 then 0 else HeaderSize + hs[0].blockLength + Extent(hs[1..])
  }

  /** The layout of a metadata chain at position p: each header's four bytes, then its
      body, which is all zero for PADDING; the last-block flag is set on the last header
      and on no other. */
  ghost predicate ChainAt(s: seq<uint8>, p: nat, hs: seq<MetadataHeader>)
    decreases |hs|
  {
    |hs| == 0 ||
    (var h := hs[0];
     var body := p + HeaderSize;
     && WellFormed(h)
     && BytesAt(s, p, EncodeHeader(h))
     && body + h.blockLength <= |s|
     && (h.blockType == PaddingType ==> AllZero(s, body, body + h.blockLength))
     && (h.lastBlock == 1 <==> |hs| == 1)
     && ChainAt(s, body + h.blockLength, hs[1..]))
  }

  /** What the layout says about the first block of a chain. */
  lemma ChainHead(s: seq<uint8>, p: nat, hs: seq<MetadataHeader>)
    requires |hs| >= 1 && ChainAt(s, p, hs)
    ensures var h := hs[0];
      && WellFormed(h) && BytesAt(s, p, EncodeHeader(h))
      && BodyAt(s, p + HeaderSize, h) == Parsed(Ok(()), p + HeaderSize + h.blockLength)
      && (h.lastBlock == 1 <==> |hs| == 1)
      && ChainAt(s, p + HeaderSize + h.blockLength, hs[1..])
  {
    var h := hs[0];
    var b := BodyAt(s, p + HeaderSize, h);
    assert b.result.Ok?;
    assert b.pos == p + HeaderSize + h.blockLength;
    assert b.result.value == ();
  }

  /** One turn of the loop: the walk from p is the header read there followed by the walk
      after its body, or the failure of either read. */
  lemma WalkUnfold(s: seq<uint8>, p: nat)
    ensures HeaderAt(s, p).result.Err? ==> WalkFrom(s, p) == Parsed(Err(Truncated), |s|)
    ensures HeaderAt(s, p).result.Ok? ==>
      var h := HeaderAt(s, p).result.value;
      var b := BodyAt(s, p + HeaderSize, h);
      && (b.result.Err? ==> WalkFrom(s, p) == Parsed(Err(b.result.error), b.pos))
      && (b.result.Ok? && h.lastBlock == 1 ==> WalkFrom(s, p) == Parsed(Ok([h]), b.pos))
      && (b.result.Ok? && h.lastBlock != 1 ==> WalkFrom(s, p) == Prepend([h], WalkFrom(s, b.pos)))
  {
  }

  /** A well-laid-out chain is read back header for header, and the loop stops right
      after the body of the last block. */
  lemma {:induction false} WalkOfChain(s: seq<uint8>, p: nat, hs: seq<MetadataHeader>)
    requires |hs| >= 1 && ChainAt(s, p, hs)
    ensures WalkFrom(s, p) == Parsed(Ok(hs), p + Extent(hs))
    decreases |hs|
  {
    var h := hs[0];
    var e := p + HeaderSize + h.blockLength;
    ChainHead(s, p, hs);
    HeaderAtEncoded(s, p, h);
    WalkUnfold(s, p);
    assert Extent(hs) == HeaderSize + h.blockLength + Extent(hs[1..]);
    if |hs| > 1 {
      WalkOfChain(s, e, hs[1..]);
      assert hs == [h] + hs[1..];
    } else {
      assert hs == [h];
    }
  }

  /** Conversely, whatever the loop accepts is such a chain, ending where the loop stops. */
  lemma {:induction false} ChainOfWalk(s: seq<uint8>, p: nat)
    requires WalkFrom(s, p).result.Ok?
    ensures var r := WalkFrom(s, p);
      |r.result.value| >= 1 && ChainAt(s, p, r.result.value) && r.pos == p + Extent(r.result.value)
    decreases |s| - p
  {
    var h := HeaderAt(s, p).result.value;
    HeaderAtDecoded(s, p);
    var e := BodyAt(s, p + HeaderSize, h).pos;
    if h.lastBlock != 1 {
      ChainOfWalk(s, e);
      var rest := WalkFrom(s, e).result.value;
      assert WalkFrom(s, p).result.value == [h] + rest;
      assert ([h] + rest)[1..] == rest;
    }
  }

  /** The loop fails only on a short input or a nonzero PADDING byte. */
  lemma {:induction false} WalkErrors(s: seq<uint8>, p: nat)
    requires WalkFrom(s, p).result.Err?
    ensures WalkFrom(s, p).result.error in {Truncated, NonzeroPadding}
    decreases |s| - p
  {
    if HeaderAt(s, p).result.Ok? {
      var h := HeaderAt(s, p).result.value;
      var b := BodyAt(s, p + HeaderSize, h);
      if b.result.Ok? && h.lastBlock != 1 {
        WalkErrors(s, b.pos);
      }
    }
  }

  /** In a chain the last header carries the last-block flag and every earlier one does not. */
  lemma {:induction false} LastFlagOnlyAtEnd(s: seq<uint8>, p: nat, hs: seq<MetadataHeader>)
    requires |hs| >= 1 && ChainAt(s, p, hs)
    ensures hs[|hs| - 1].lastBlock == 1
    ensures forall i :: 0 <= i < |hs| - 1 ==> hs[i].lastBlock == 0
    decreases |hs|
  {
    if |hs| > 1 {
      LastFlagOnlyAtEnd(s, p + HeaderSize + hs[0].blockLength, hs[1..]);
      assert forall i :: 1 <= i < |hs| ==> hs[i] == hs[1..][i - 1];
    }
  }

  /** A FLAC file is accepted exactly when it starts with the signature and a well-laid-out
      chain follows it; the loop then stops right after the last block. */
  lemma {:induction false} DecodeFlacMeaning(s: seq<uint8>, hs: seq<MetadataHeader>)
    ensures DecodeFlac(s).result == Ok(hs) <==>
      BytesAt(s, 0, Signature) && |hs| >= 1 && ChainAt(s, SignatureSize, hs)
    ensures DecodeFlac(s).result == Ok(hs) ==> DecodeFlac(s).pos == SignatureSize + Extent(hs)
  {
    if BytesAt(s, 0, Signature) {
      assert DecodeFlac(s) == WalkFrom(s, SignatureSize);
      if |hs| >= 1 && ChainAt(s, SignatureSize, hs) {
        WalkOfChain(s, SignatureSize, hs);
      }
      if WalkFrom(s, SignatureSize).result == Ok(hs) {
        ChainOfWalk(s, SignatureSize);
      }
    }
  }

  /** `main` after `fopen`: the signature check, then the `do ... while` loop. The
      C program exits on a bad signature and aborts on a nonzero PADDING byte; here
      both, and every short read, end the run with an error. */
  method ReadFlac(f: FlacFile) returns (r: Result<seq<MetadataHeader>>)
    requires f.Valid() && f.pos == 0
    modifies f
    ensures f.Valid()
    ensures Parsed(r, f.pos) == DecodeFlac(f.bytes)
  {
    var signature :- f.Read(SignatureSize);
    if signature != Signature {
      return Err(InvalidSignature);
    }
    var headers: seq<MetadataHeader> := [];
    var last := false;
    PrependNone(WalkFrom(f.bytes, f.pos));
    while !last
      invariant f.Valid() && SignatureSize <= f.pos
      invariant !last ==> WalkFrom(f.bytes, SignatureSize) == Prepend(headers, WalkFrom(f.bytes, f.pos))
      invariant last ==> WalkFrom(f.bytes, SignatureSize) == Parsed(Ok(headers), f.pos)
      decreases |f.bytes| - f.pos
    {
      WalkUnfold(f.bytes, f.pos);
      var header :- ParseMetadataHeader(f);
      PaddingFromMeaning(f.bytes, f.pos, header.blockLength);
      if header.blockType == PaddingType {
        var _ :- CheckPadding(f, header.blockLength);
      } else {
        var _ :- f.Seek(header.blockLength);
      }
      PrependTwice(headers, header, WalkFrom(f.bytes, f.pos));
      headers := headers + [header];
      last := header.lastBlock == 1;
    }
    r := Ok(headers);
  }

  /** The walk from an outer position, given the headers already read before it. */
  function Prepend(hs: seq<MetadataHeader>, r: Parsed<seq<MetadataHeader>>): Parsed<seq<MetadataHeader>>
  {
    if r.result.Ok? then Parsed(Ok(hs + r.result.value), r.pos) else r
  }

  lemma PrependNone(r: Parsed<seq<MetadataHeader>>)
    ensures Prepend([], r) == r
  {
    if r.result.Ok? {
      assert [] + r.result.value == r.result.value;
    }
  }

  lemma PrependTwice(hs: seq<MetadataHeader>, h: MetadataHeader, r: Parsed<seq<MetadataHeader>>)
    ensures Prepend(hs, Prepend([h], r)) == Prepend(hs + [h], r)
  {
    if r.result.Ok? {
      assert hs + ([h] + r.result.value) == hs + [h] + r.result.value;
    }
  }
}
