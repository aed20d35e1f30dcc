/** The VORBIS_COMMENT body (section 8.6 of RFC 9639) and `parse_vorbis_comment`: a
    length-prefixed vendor string, a comment count, then that many length-prefixed
    comments. Strings are kept as raw bytes; no key=value structure is interpreted. */
module VorbisCommentBlock {
  import opened Bytes
  import opened Results
  import opened Stream

  /** `vorbis_comment`: `vendor_length` and `comment_list_length` are the lengths of
      `vendorString` and `comments`. */
  datatype VorbisComment = VorbisComment(vendorString: seq<uint8>, comments: seq<seq<uint8>>)

  /** The C code reads each 32-bit length straight into a `uint32_t` with no `le32toh` or
      `be32toh`, so the host's byte order applies; it is fixed here as little-endian, the
      order of x86 hosts and also the order the format prescribes for this block. */
  const LengthOrder := LittleEndianOrder

  /** The first n comments starting at position p, each a length and its bytes. */
  function CommentsFrom(s: seq<uint8>, p: nat, n: nat): (r: Parsed<seq<seq<uint8>>>)
    ensures r.result.Ok? ==> |r.result.value| == n && p <= r.pos && (n > 0 ==> r.pos <= |s|)
    decreases n
  {
    if n == 0 then Parsed(Ok([]), p)
    else
      var prev :- CommentsFrom(s, p, n - 1);
      var c :- PrefixedAt(s, prev.1, LengthOrder);
      Parsed(Ok(prev.0 + [c.0]), c.1)
  }

  /** Once a comment cannot be read, reading more of them fails the same way. */
  lemma {:induction false} CommentsFailureSticks(s: seq<uint8>, p: nat, i: nat, n: nat)
    requires i <= n && CommentsFrom(s, p, i).result.Err?
    ensures CommentsFrom(s, p, n) == CommentsFrom(s, p, i)
    decreases n - i
  {
    if i < n {
      CommentsFailureSticks(s, p, i, n - 1);
    }
  }

  /** The VORBIS_COMMENT block read at position p. */
  function VorbisCommentAt(s: seq<uint8>, p: nat): (r: Parsed<VorbisComment>)
    ensures r.result.Ok? ==> p + 8 <= r.pos <= |s|
  {
    var vendor :- PrefixedAt(s, p, LengthOrder);
    var count :- U32At(s, vendor.1, LengthOrder);
    var comments :- CommentsFrom(s, count.1, count.0);
    Parsed(Ok(VorbisComment(vendor.0, comments.0)), comments.1)
  }

  predicate Encodable(vc: VorbisComment)
  {
    && |vc.vendorString| < 0x1_0000_0000
    && |vc.comments| < 0x1_0000_0000
    && Prefixable(vc.comments)
  }

  /** Every comment fits its 32-bit length field (stated along the list, as the encoder
      walks it). */
  predicate Prefixable(cs: seq<seq<uint8>>)
    decreases |cs|
  {
    cs == [] || (|cs[|cs| - 1]| < 0x1_0000_0000 && Prefixable(cs[..|cs| - 1]))
  }

  ghost function EncodeComments(cs: seq<seq<uint8>>): seq<uint8>
    requires Prefixable(cs)
    decreases |cs|
  {
    if cs == [] then [] else EncodeComments(cs[..|cs| - 1]) + EncodePrefixed(cs[|cs| - 1], LengthOrder)
  }

  /** The wire form of a VORBIS_COMMENT body. */
  ghost function EncodeVorbisComment(vc: VorbisComment): seq<uint8>
    requires Encodable(vc)
  {
    EncodePrefixed(vc.vendorString, LengthOrder) + Encode32(|vc.comments|, LengthOrder)
      + EncodeComments(vc.comments)
  }

  lemma {:induction false} CommentsFromEncoded(s: seq<uint8>, p: nat, cs: seq<seq<uint8>>)
    requires Prefixable(cs)
    requires BytesAt(s, p, EncodeComments(cs))
    ensures CommentsFrom(s, p, |cs|) == Parsed(Ok(cs), p + |EncodeComments(cs)|)
    decreases |cs|
  {
    if cs != [] {
      var init, last := cs[..|cs| - 1], cs[|cs| - 1];
      EncodedLast(s, p, cs);
      CommentsFromEncoded(s, p, init);
      LastCommentRead(s, p, init, last, p + |EncodeComments(init)|);
      assert init + [last] == cs;
    }
  }

  /** The inductive step: after the first comments, the next encoded one is read. */
  lemma LastCommentRead(s: seq<uint8>, p: nat, init: seq<seq<uint8>>, last: seq<uint8>, q: nat)
    requires |last| < 0x1_0000_0000
    requires CommentsFrom(s, p, |init|) == Parsed(Ok(init), q)
    requires BytesAt(s, q, EncodePrefixed(last, LengthOrder))
    ensures CommentsFrom(s, p, |init| + 1) == Parsed(Ok(init + [last]), q + 4 + |last|)
  {
    PrefixedAtEncoded(s, q, last, LengthOrder);
  }

  /** The encoding of a nonempty list splits into the encoding of all but the last comment
      and the last comment. */
  lemma EncodedLast(s: seq<uint8>, p: nat, cs: seq<seq<uint8>>)
    requires cs != [] && Prefixable(cs)
    requires BytesAt(s, p, EncodeComments(cs))
    ensures var init, last := cs[..|cs| - 1], cs[|cs| - 1];
      && Prefixable(init) && |last| < 0x1_0000_0000
      && BytesAt(s, p, EncodeComments(init))
      && BytesAt(s, p + |EncodeComments(init)|, EncodePrefixed(last, LengthOrder))
      && |EncodeComments(cs)| == |EncodeComments(init)| + 4 + |last|
  {
    var init, last := cs[..|cs| - 1], cs[|cs| - 1];
    assert EncodeComments(cs) == EncodeComments(init) + EncodePrefixed(last, LengthOrder);
    BytesAtSplit(s, p, EncodeComments(init), EncodePrefixed(last, LengthOrder));
  }

  /** Reading an encoded body gives back the vendor string and the comments, all of them
      and in order, and stops exactly at the end of the encoding. */
  lemma {:induction false} VorbisCommentRoundTrip(s: seq<uint8>, p: nat, vc: VorbisComment)
    requires Encodable(vc) && BytesAt(s, p, EncodeVorbisComment(vc))
    ensures VorbisCommentAt(s, p) == Parsed(Ok(vc), p + |EncodeVorbisComment(vc)|)
  {
    var q := p + 4 + |vc.vendorString|;
    SplitVorbisComment(s, p, vc);
    PrefixedAtEncoded(s, p, vc.vendorString, LengthOrder);
    U32AtEncoded(s, q, |vc.comments|, LengthOrder);
    CommentsFromEncoded(s, q + 4, vc.comments);
    VorbisCommentAtStages(s, p, q, q + 4, q + 4 + |EncodeComments(vc.comments)|, vc);
  }

  /** The three pieces of an encoded body, where they lie. */
  lemma SplitVorbisComment(s: seq<uint8>, p: nat, vc: VorbisComment)
    requires Encodable(vc) && BytesAt(s, p, EncodeVorbisComment(vc))
    ensures var q := p + 4 + |vc.vendorString|;
      && BytesAt(s, p, EncodePrefixed(vc.vendorString, LengthOrder))
      && BytesAt(s, q, Encode32(|vc.comments|, LengthOrder))
      && BytesAt(s, q + 4, EncodeComments(vc.comments))
      && |EncodeVorbisComment(vc)| == 8 + |vc.vendorString| + |EncodeComments(vc.comments)|
  {
    var a := EncodePrefixed(vc.vendorString, LengthOrder);
    var b := Encode32(|vc.comments|, LengthOrder);
    BytesAtSplit(s, p, a + b, EncodeComments(vc.comments));
    BytesAtSplit(s, p, a, b);
  }

  /** The three reads in turn give the whole block. */
  lemma VorbisCommentAtStages(s: seq<uint8>, p: nat, q: nat, q': nat, e: nat, vc: VorbisComment)
    requires PrefixedAt(s, p, LengthOrder) == Parsed(Ok(vc.vendorString), q)
    requires U32At(s, q, LengthOrder) == Parsed(Ok(|vc.comments|), q')
    requires CommentsFrom(s, q', |vc.comments|) == Parsed(Ok(vc.comments), e)
    ensures VorbisCommentAt(s, p) == Parsed(Ok(vc), e)
  {
  }

  /** `parse_vorbis_comment`. Its `size` argument is never used. */
  method ParseVorbisComment(f: FlacFile, size: nat) returns (r: Result<VorbisComment>)
    requires f.Valid()
    modifies f
    ensures f.Valid()
    ensures Parsed(r, f.pos) == VorbisCommentAt(f.bytes, old(f.pos))
  {
    var vendorString :- ReadPrefixed(f, LengthOrder);
    var commentListLength :- f.ReadU32(LengthOrder);
    ghost var start := f.pos;
    var comments := new seq<uint8>[commentListLength];
    var i: uint32 := 0;
    while i < commentListLength
      invariant f.Valid() && i <= commentListLength
      invariant CommentsFrom(f.bytes, start, i) == Parsed(Ok(comments[..i]), f.pos)
    {
      ghost var before := comments[..i];
      var comment := ReadPrefixed(f, LengthOrder);
      if comment.Err? {
        CommentsFailureSticks(f.bytes, start, i + 1, commentListLength);
        return Err(comment.error);
      }
      comments[i] := comment.value;
      assert comments[..i + 1] == before + [comment.value];
      i := i + 1;
    }
    assert comments[..] == comments[..commentListLength];
    r := Ok(VorbisComment(vendorString, comments[..]));
  }
}
