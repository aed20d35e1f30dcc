/** The input file as the decoder sees it through `fread` and `fseek`: a finite byte
    sequence and a current position. Each read either returns the bytes asked for or,
    when fewer remain, fails with Truncated and leaves the position at the end of the
    input, where a short `fread` leaves the C stream. The C code does not check its
    reads at all (a short read leaves its buffers uninitialised); failing is a
    strengthening that gives those inputs a defined outcome. */
module Stream {
  import opened Bytes
  import opened Results

  datatype ByteOrder = BigEndianOrder | LittleEndianOrder

  /** `fread` of n bytes at position p. */
  function Take(s: seq<uint8>, p: nat, n: nat): Parsed<seq<uint8>>
  {
    if p + n <= |s| then Parsed(Ok(s[p..p + n]), p + n) else Parsed(Err(Truncated), |s|)
  }

  /** `fseek(f, n, SEEK_CUR)`. The C library lets the position pass the end of the file;
      here that is reported as Truncated at once. */
  function Skip(s: seq<uint8>, p: nat, n: nat): Parsed<()>
  {
    if p + n <= |s| then Parsed(Ok(()), p + n) else Parsed(Err(Truncated), |s|)
  }

  /** `fread` of a `uint32_t` at p, converted from the given byte order. */
  function U32At(s: seq<uint8>, p: nat, order: ByteOrder): (r: Parsed<uint32>)
    ensures r.result.Ok? <==> p + 4 <= |s|
    ensures r.result.Ok? ==> r.pos == p + 4
    ensures r.result.Err? ==> r.pos == |s|
  {
    var b :- Take(s, p, 4);
    Parsed(Ok(Decode32(b.0, order)), b.1)
  }

  /** The value of four bytes in the given order: `be32toh` or a plain load on a
      little-endian host. */
  function Decode32(b: seq<uint8>, order: ByteOrder): uint32
    requires |b| == 4
  {
    Pow256Values();
    match order
    case BigEndianOrder => BigEndian(b)
    case LittleEndianOrder => LittleEndian(b)
  }

  /** Four bytes are determined by their value. */
  lemma Decode32Injective(a: seq<uint8>, b: seq<uint8>, order: ByteOrder)
    requires |a| == 4 && |b| == 4 && Decode32(a, order) == Decode32(b, order)
    ensures a == b
  {
    match order
    case BigEndianOrder => BigEndianInjective(a, b);
    case LittleEndianOrder => LittleEndianInjective(a, b);
  }

  /** A 32-bit length in the given byte order followed by that many bytes: how every
      string and the picture data are stored. */
  function PrefixedAt(s: seq<uint8>, p: nat, order: ByteOrder): (r: Parsed<seq<uint8>>)
    ensures r.result.Ok? ==> p + 4 <= |s| && r.pos == p + 4 + |r.result.value| <= |s|
  {
    var n :- U32At(s, p, order);
    Take(s, n.1, n.0)
  }

  /** `s` holds the bytes `a` at position p. */
  predicate BytesAt(s: seq<uint8>, p: nat, a: seq<uint8>)
  {
    p + |a| <= |s| && s[p..p + |a|] == a
  }

  lemma BytesAtSplit(s: seq<uint8>, p: nat, a: seq<uint8>, b: seq<uint8>)
    requires BytesAt(s, p, a + b)
    ensures BytesAt(s, p, a) && BytesAt(s, p + |a|, b)
  {
    assert s[p..p + |a|] == (a + b)[..|a|];
    assert s[p + |a|..p + |a| + |b|] == (a + b)[|a|..];
  }

  /** The four bytes that hold x in the given order; by `Decode32Injective` the only
      bytes that do. */
  ghost function Encode32(x: uint32, order: ByteOrder): (r: seq<uint8>)
    ensures |r| == 4 && Decode32(r, order) == x
  {
    Pow256Values();
    match order
    case BigEndianOrder => ToBigEndian(x, 4)
    case LittleEndianOrder => ToLittleEndian(x, 4)
  }

  /** Reading an encoded 32-bit value gives the value back. */
  lemma U32AtEncoded(s: seq<uint8>, p: nat, x: uint32, order: ByteOrder)
    requires BytesAt(s, p, Encode32(x, order))
    ensures U32At(s, p, order) == Parsed(Ok(x), p + 4)
  {
    assert s[p..p + 4] == Encode32(x, order);
  }

  /** The wire form `PrefixedAt` reads: the length, then the bytes. */
  ghost function EncodePrefixed(a: seq<uint8>, order: ByteOrder): (r: seq<uint8>)
    requires |a| < 0x1_0000_0000
    ensures |r| == 4 + |a|
  {
    Encode32(|a|, order) + a
  }

  lemma {:induction false} PrefixedAtEncoded(s: seq<uint8>, p: nat, a: seq<uint8>, order: ByteOrder)
    requires |a| < 0x1_0000_0000
    requires BytesAt(s, p, EncodePrefixed(a, order))
    ensures PrefixedAt(s, p, order) == Parsed(Ok(a), p + 4 + |a|)
  {
    BytesAtSplit(s, p, Encode32(|a|, order), a);
    U32AtEncoded(s, p, |a|, order);
  }

  lemma BytesAtJoin(s: seq<uint8>, p: nat, a: seq<uint8>, b: seq<uint8>)
    requires BytesAt(s, p, a) && BytesAt(s, p + |a|, b)
    ensures BytesAt(s, p, a + b)
  {
    assert s[p..p + |a| + |b|] == s[p..p + |a|] + s[p + |a|..p + |a| + |b|];
  }

  /** A 32-bit value read at p is what the four bytes there encode. */
  lemma U32AtDecoded(s: seq<uint8>, p: nat, order: ByteOrder)
    requires U32At(s, p, order).result.Ok?
    ensures BytesAt(s, p, Encode32(U32At(s, p, order).result.value, order))
  {
    var x := U32At(s, p, order).result.value;
    Decode32Injective(s[p..p + 4], Encode32(x, order), order);
  }

  /** A length-prefixed string read at p is what the bytes from p to the new position
      encode. */
  lemma {:induction false} PrefixedAtDecoded(s: seq<uint8>, p: nat, order: ByteOrder)
    requires PrefixedAt(s, p, order).result.Ok?
    ensures var r := PrefixedAt(s, p, order);
      |r.result.value| < 0x1_0000_0000 && BytesAt(s, p, EncodePrefixed(r.result.value, order))
  {
    var r := PrefixedAt(s, p, order);
    U32AtDecoded(s, p, order);
    BytesAtJoin(s, p, Encode32(|r.result.value|, order), r.result.value);
  }

  /** The C `FILE *` the decoder reads from. */
  class FlacFile {
    const bytes: seq<uint8>
    var pos: nat

    ghost predicate Valid()
      reads this
    {
      pos <= |bytes|
    }

    /** `fopen`: positioned at the first byte. */
    constructor Open(contents: seq<uint8>)
      ensures Valid() && bytes == contents && pos == 0
    {
      bytes := contents;
      pos := 0;
    }

    method Read(n: nat) returns (r: Result<seq<uint8>>)
      requires Valid()
      modifies this
      ensures Valid()
      ensures Parsed(r, pos) == Take(bytes, old(pos), n)
    {
      if pos + n <= |bytes| {
        r := Ok(bytes[pos..pos + n]);
        pos := pos + n;
      } else {
        r := Err(Truncated);
        pos := |bytes|;
      }
    }

    method ReadU32(order: ByteOrder) returns (r: Result<uint32>)
      requires Valid()
      modifies this
      ensures Valid()
      ensures Parsed(r, pos) == U32At(bytes, old(pos), order)
    {
      var b := Read(4);
      if b.Err? {
        return Err(b.error);
      }
      r := Ok(Decode32(b.value, order));
    }

    method Seek(n: nat) returns (r: Result<()>)
      requires Valid()
      modifies this
      ensures Valid()
      ensures Parsed(r, pos) == Skip(bytes, old(pos), n)
    {
      if pos + n <= |bytes| {
        r := Ok(());
        pos := pos + n;
      } else {
        r := Err(Truncated);
        pos := |bytes|;
      }
    }
  }

  /** Read a 32-bit length, then that many bytes. */
  method ReadPrefixed(f: FlacFile, order: ByteOrder) returns (r: Result<seq<uint8>>)
    requires f.Valid()
    modifies f
    ensures f.Valid()
    ensures Parsed(r, f.pos) == PrefixedAt(f.bytes, old(f.pos), order)
  {
    var n :- f.ReadU32(order);
    r := f.Read(n);
  }
}
