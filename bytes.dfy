/** Fixed-width unsigned integers and the byte orders the decoder reads them in.
    `be16toh`/`be32toh`/`be64toh` applied to raw bytes are `BigEndian`; a `uint32_t`
    read without conversion on a little-endian host is `LittleEndian`. */
module Bytes {

  type uint8 = x: int | 0 <= x < 0x100
  type uint16 = x: int | 0 <= x < 0x1_0000
  type uint32 = x: int | 0 <= x < 0x1_0000_0000
  type uint64 = x: int | 0 <= x < 0x1_0000_0000_0000_0000

  /** 256^n: one more than the largest value n bytes can hold. */
  function Pow256(n: nat): (r: nat)
    ensures r >= 1
  {
    if n == 0 then 1 else 256 * Pow256(n - 1)
  }

  lemma Pow256Values()
    ensures Pow256(2) == 0x1_0000 && Pow256(3) == 0x100_0000
    ensures Pow256(4) == 0x1_0000_0000 && Pow256(8) == 0x1_0000_0000_0000_0000
  {
  }

  /** The value of a byte string read most-significant byte first. */
  function BigEndian(s: seq<uint8>): (r: nat)
    ensures r < Pow256(|s|)
  {
    if s == [] then 0 else BigEndian(s[..|s| - 1]) * 256 + s[|s| - 1]
  }

  /** `BigEndian` of short strings, spelled out as the C shifts compute it. */
  lemma BigEndianSmall(s: seq<uint8>)
    ensures |s| == 2 ==> BigEndian(s) == s[0] as int * 0x100 + s[1]
    ensures |s| == 3 ==> BigEndian(s) == s[0] as int * 0x1_0000 + s[1] as int * 0x100 + s[2]
    ensures |s| == 4 ==>
              BigEndian(s) == s[0] as int * 0x100_0000 + s[1] as int * 0x1_0000 + s[2] as int * 0x100 + s[3]
  {
    if 2 <= |s| <= 4 {
      assert s[..1][..0] == [];
      assert s[..2][..1] == s[..1];
      if |s| >= 3 {
        assert s[..3][..2] == s[..2];
      }
    }
  }

  lemma {:induction false} BigEndianAppend(a: seq<uint8>, b: seq<uint8>)
    ensures BigEndian(a + b) == BigEndian(a) * Pow256(|b|) + BigEndian(b)
    decreases |b|
  {
    if b == [] {
      assert a + b == a;
    } else {
      var b', last := b[..|b| - 1], b[|b| - 1];
      assert (a + b)[..|a + b| - 1] == a + b';
      BigEndianAppend(a, b');
      var x, y, n := BigEndian(a), BigEndian(b'), Pow256(|b'|);
      assert BigEndian(a + b) == (x * n + y) * 256 + last;
      assert BigEndian(b) == y * 256 + last;
      assert Pow256(|b|) == 256 * n;
      Regroup(x, n, y, last);
    }
  }

  lemma Regroup(x: int, n: int, y: int, last: int)
    ensures (x * n + y) * 256 + last == x * (256 * n) + (y * 256 + last)
  {
  }

  /** The value of a byte string read least-significant byte first. */
  function LittleEndian(s: seq<uint8>): (r: nat)
    ensures r < Pow256(|s|)
  {
    if s == [] then 0 else s[0] + 256 * LittleEndian(s[1..])
  }

  /** The n bytes that hold x most-significant byte first; `BigEndianInjective` makes
      them the only such bytes. */
  ghost function ToBigEndian(x: nat, n: nat): (r: seq<uint8>)
    requires x < Pow256(n)
    ensures |r| == n && BigEndian(r) == x
  {
    BigEndianExists(x, n);
    var r :| |r| == n && BigEndian(r) == x;
    r
  }

  /** The n bytes that hold x least-significant byte first. */
  ghost function ToLittleEndian(x: nat, n: nat): (r: seq<uint8>)
    requires x < Pow256(n)
    ensures |r| == n && LittleEndian(r) == x
  {
    LittleEndianExists(x, n);
    var r :| |r| == n && LittleEndian(r) == x;
    r
  }

  /** Every value below 256^n has an n-byte big-endian form: the digits of x in base 256. */
  lemma {:induction false} BigEndianExists(x: nat, n: nat)
    requires x < Pow256(n)
    ensures exists r :: |r| == n && BigEndian(r) == x
    decreases n
  {
    if n == 0 {
      assert BigEndian([]) == x;
    } else {
      DivModUnique(x, 256, x / 256, x % 256);
      BigEndianExists(x / 256, n - 1);
      var init: seq<uint8> :| |init| == n - 1 && BigEndian(init) == x / 256;
      var r: seq<uint8> := init + [x % 256];
      assert r[..n - 1] == init;
      assert BigEndian(r) == x;
    }
  }

  lemma {:induction false} LittleEndianExists(x: nat, n: nat)
    requires x < Pow256(n)
    ensures exists r :: |r| == n && LittleEndian(r) == x
    decreases n
  {
    if n == 0 {
      assert LittleEndian([]) == x;
    } else {
      DivModUnique(x, 256, x / 256, x % 256);
      LittleEndianExists(x / 256, n - 1);
      var tail: seq<uint8> :| |tail| == n - 1 && LittleEndian(tail) == x / 256;
      var r: seq<uint8> := [x % 256] + tail;
      assert r[1..] == tail;
      assert LittleEndian(r) == x;
    }
  }

  /** Byte strings of one length with the same big-endian value are equal. */
  lemma {:induction false} BigEndianInjective(a: seq<uint8>, b: seq<uint8>)
    requires |a| == |b| && BigEndian(a) == BigEndian(b)
    ensures a == b
    decreases |a|
  {
    if a != [] {
      var n := |a| - 1;
      DivModUnique(BigEndian(a), 256, BigEndian(a[..n]), a[n]);
      DivModUnique(BigEndian(b), 256, BigEndian(b[..n]), b[n]);
      BigEndianInjective(a[..n], b[..n]);
      assert a == a[..n] + [a[n]] && b == b[..n] + [b[n]];
    }
  }

  /** Byte strings of one length with the same little-endian value are equal. */
  lemma {:induction false} LittleEndianInjective(a: seq<uint8>, b: seq<uint8>)
    requires |a| == |b| && LittleEndian(a) == LittleEndian(b)
    ensures a == b
    decreases |a|
  {
    if a != [] {
      DivModUnique(LittleEndian(a), 256, LittleEndian(a[1..]), a[0]);
      DivModUnique(LittleEndian(b), 256, LittleEndian(b[1..]), b[0]);
      LittleEndianInjective(a[1..], b[1..]);
      assert a == [a[0]] + a[1..] && b == [b[0]] + b[1..];
    }
  }

  lemma ToBigEndianOfBigEndian(s: seq<uint8>)
    ensures ToBigEndian(BigEndian(s), |s|) == s
  {
    BigEndianInjective(ToBigEndian(BigEndian(s), |s|), s);
  }

  lemma MulAtLeast(k: int, d: int)
    requires k >= 1 && d > 0
    ensures k * d >= d
  {
  }

  /** Division by a positive constant is determined by any quotient/remainder split. */
  lemma DivModUnique(x: int, d: int, q: int, r: int)
    requires 0 < d && 0 <= r < d && x == q * d + r
    ensures x / d == q && x % d == r
  {
    var q', r' := x / d, x % d;
    assert x == q' * d + r';
    if q' > q {
      assert (q' - q) * d == r - r';
      MulAtLeast(q' - q, d);
    } else if q' < q {
      assert (q - q') * d == r' - r;
      MulAtLeast(q - q', d);
    }
  }
}
