/** The PADDING validator `check_padding` (section 8.3 of RFC 9639): the body is read one
    byte at a time and every byte must be zero. */
module Padding {
  import opened Bytes
  import opened Results
  import opened Stream

  /** What `check_padding(f, n)` does from position p: stop at the first nonzero byte
      (the failed `assert(!b)`), or at the end of the input, or after n zero bytes. */
  function PaddingFrom(s: seq<uint8>, p: nat, n: nat): Parsed<()>
    decreases n
  {
    if n == 0 then Parsed(Ok(()), p)
    else if p >= |s| then Parsed(Err(Truncated), |s|)
    else if s[p] != 0 then Parsed(Err(NonzeroPadding), p + 1)
    else PaddingFrom(s, p + 1, n - 1)
  }

  predicate AllZero(s: seq<uint8>, lo: nat, hi: nat)
    requires lo <= hi <= |s|
  {
    forall k :: lo <= k < hi ==> s[k] == 0
  }

  /** The validator succeeds exactly when all n bytes are present and zero, and then
      advances by exactly n; otherwise it stops just after the first nonzero byte, or at
      the end of an input whose remaining bytes are all zero. */
  lemma {:induction false} PaddingFromMeaning(s: seq<uint8>, p: nat, n: nat)
    requires p <= |s|
    ensures var r := PaddingFrom(s, p, n);
      (r.result.Ok? <==> p + n <= |s| && AllZero(s, p, p + n)) &&
      (r.result.Ok? ==> r.pos == p + n) &&
      (r.result == Err(NonzeroPadding) ==>
        p < r.pos <= p + n && r.pos <= |s| && s[r.pos - 1] != 0 && AllZero(s, p, r.pos - 1)) &&
      (r.result == Err(Truncated) ==> r.pos == |s| < p + n && AllZero(s, p, |s|)) &&
      (r.result.Err? ==> r.result.error in {NonzeroPadding, Truncated})
    decreases n
  {
    if n > 0 && p < |s| && s[p] == 0 {
      PaddingFromMeaning(s, p + 1, n - 1);
    }
  }

  /** `check_padding`. */
  method CheckPadding(f: FlacFile, size: nat) returns (r: Result<()>)
    requires f.Valid()
    modifies f
    ensures f.Valid()
    ensures Parsed(r, f.pos) == PaddingFrom(f.bytes, old(f.pos), size)
  {
    ghost var start := f.pos;
    var i := 0;
    while i < size
      invariant f.Valid() && i <= size && f.pos == start + i
      invariant PaddingFrom(f.bytes, start, size) == PaddingFrom(f.bytes, f.pos, size - i)
    {
      var b :- f.Read(1);
      if b[0] != 0 {
        return Err(NonzeroPadding);
      }
      i := i + 1;
    }
    r := Ok(());
  }
}
