/** Octets, fixed-width big-endian integers, Rust-style integer casts, and the
    bytewise (lexicographic) order on octet strings. */
module Bytes {
  type byte = b: int | 0 <= b < 256
  type bytes = seq<byte>

  const TWO_63: int := 0x8000_0000_0000_0000
  const TWO_64: int := 0x1_0000_0000_0000_0000

  type u16 = n: int | 0 <= n < 0x1_0000
  type u64 = n: int | 0 <= n < TWO_64
  type i64 = n: int | -TWO_63 <= n < TWO_63 witness 0

  /** The `as u64` cast of a wider or signed integer. */
  function AsU64(n: int): u64 { n % TWO_64 }

  /** The `as i64` cast of a u64: two's-complement reinterpretation. */
  function AsI64(n: u64): i64 { if n < TWO_63 then n else n - TWO_64 }

  /** The octets of an ASCII string. */
  function Ascii(s: string): bytes
    requires forall i :: 0 <= i < |s| ==> s[i] as int < 128
  {
    seq(|s|, i requires 0 <= i < |s| => s[i] as int)
  }

  /** `s` stands in `data` at offset `pos`. */
  predicate At(data: bytes, pos: nat, s: bytes) {
    pos + |s| <= |data| && data[pos..pos + |s|] == s
  }

  lemma AtConcat(data: bytes, pos: nat, a: bytes, b: bytes)
    ensures At(data, pos, a + b) <==> At(data, pos, a) && At(data, pos + |a|, b)
  {
    if At(data, pos, a + b) {
      assert data[pos..pos + |a|] == data[pos..pos + |a + b|][..|a|] == a;
      assert data[pos + |a|..pos + |a| + |b|] == data[pos..pos + |a + b|][|a|..] == b;
    }
    if At(data, pos, a) && At(data, pos + |a|, b) {
      assert data[pos..pos + |a + b|] == data[pos..pos + |a|] + data[pos + |a|..pos + |a| + |b|];
    }
  }

  // ---------------------------------------------------------------- big endian

  /** The `width` low-order octets of `n`, most significant first (`to_be_bytes`). */
  function BigEndian(n: nat, width: nat): (s: bytes)
    ensures |s| == width
  {
    if width == 0 then [] else BigEndian(n / 256, width - 1) + [n % 256]
  }

  /** The number an octet string spells, most significant first (`from_be_bytes`). */
  function FromBigEndian(s: bytes): nat {
    if s == [] then 0 else FromBigEndian(s[..|s| - 1]) * 256 + s[|s| - 1]
  }

  function Pow256(width: nat): (p: nat)
    ensures p > 0
  {
    if width == 0 then 1 else 256 * Pow256(width - 1)
  }

  lemma Pow256Values()
    ensures Pow256(1) == 0x100 && Pow256(2) == 0x1_0000
    ensures Pow256(4) == 0x1_0000_0000 && Pow256(8) == TWO_64
  {
    assert Pow256(2) == 256 * Pow256(1);
    assert Pow256(4) == 256 * Pow256(3) && Pow256(3) == 256 * Pow256(2);
    assert Pow256(6) == 256 * Pow256(5) && Pow256(5) == 256 * Pow256(4);
    assert Pow256(8) == 256 * Pow256(7) && Pow256(7) == 256 * Pow256(6);
  }

  /** The low two, four and eight octets of a number, most significant first. */
  function Two(n: nat): bytes { [n / 0x100 % 0x100, n % 0x100] }
  function Four(n: nat): bytes { Two(n / 0x1_0000) + Two(n) }
  function Eight(n: nat): bytes { Four(n / 0x1_0000_0000) + Four(n) }

  /** Two octets at a time. */
  lemma BigEndianTwo(n: nat, width: nat)
    requires width >= 2
    ensures BigEndian(n, width) == BigEndian(n / 0x1_0000, width - 2) + Two(n)
  {
    assert BigEndian(n, width) == BigEndian(n / 0x100, width - 1) + [n % 0x100];
    assert BigEndian(n / 0x100, width - 1) == BigEndian(n / 0x100 / 0x100, width - 2) + [n / 0x100 % 0x100];
    assert n / 0x100 / 0x100 == n / 0x1_0000;
  }

  lemma BigEndianFour(n: nat, width: nat)
    requires width >= 4
    ensures BigEndian(n, width) == BigEndian(n / 0x1_0000_0000, width - 4) + Four(n)
  {
    hide BigEndian, Two;
    BigEndianTwo(n, width);
    BigEndianTwo(n / 0x1_0000, width - 2);
    assert n / 0x1_0000 / 0x1_0000 == n / 0x1_0000_0000;
  }

  lemma BigEndianOne(n: nat)
    ensures BigEndian(n, 1) == [n % 0x100]
  {
    assert BigEndian(n, 1) == BigEndian(n / 0x100, 0) + [n % 0x100];
  }

  lemma BigEndianInNumbers(n: nat)
    ensures BigEndian(n, 1) == [n % 0x100] && BigEndian(n, 2) == Two(n)
    ensures BigEndian(n, 4) == Four(n) && BigEndian(n, 8) == Eight(n)
  {
    hide BigEndian, Two, Four;
    BigEndianOne(n);
    BigEndianTwo(n, 2);
    BigEndianFour(n, 4);
    BigEndianFour(n, 8);
    BigEndianFour(n / 0x1_0000_0000, 4);
  }

  lemma {:induction false} FromBigEndianBound(s: bytes)
    ensures FromBigEndian(s) < Pow256(|s|)
  {
    if s != [] { FromBigEndianBound(s[..|s| - 1]); }
  }

  lemma {:induction false} BigEndianRoundTrip(n: nat, width: nat)
    requires n < Pow256(width)
    ensures FromBigEndian(BigEndian(n, width)) == n
  {
    if width > 0 {
      BigEndianRoundTrip(n / 256, width - 1);
      assert BigEndian(n, width)[..width - 1] == BigEndian(n / 256, width - 1);
    }
  }

  lemma {:induction false} FromBigEndianRoundTrip(s: bytes)
    ensures BigEndian(FromBigEndian(s), |s|) == s
  {
    if s != [] {
      FromBigEndianRoundTrip(s[..|s| - 1]);
      assert s == s[..|s| - 1] + [s[|s| - 1]];
    }
  }

  // ------------------------------------------------------------ bytewise order

  /** Strict bytewise order, as Rust's `Ord` on byte vectors. */
  predicate Lex(a: bytes, b: bytes) {
    b != [] && (a == [] || a[0] < b[0] || (a[0] == b[0] && Lex(a[1..], b[1..])))
  }

  /** Shorter first, then bytewise (section 4.2.3 of RFC 8949). */
  predicate LengthFirst(a: bytes, b: bytes) {
    |a| < |b| || (|a| == |b| && Lex(a, b))
  }

  lemma {:induction false} LexAsymmetric(a: bytes, b: bytes)
    requires Lex(a, b)
    ensures !Lex(b, a)
  {
    if a != [] && a[0] == b[0] { LexAsymmetric(a[1..], b[1..]); }
  }

  lemma {:induction false} LexTransitive(a: bytes, b: bytes, c: bytes)
    requires Lex(a, b) && Lex(b, c)
    ensures Lex(a, c)
  {
    if a != [] && a[0] == b[0] == c[0] { LexTransitive(a[1..], b[1..], c[1..]); }
  }

  lemma {:induction false} LexTotal(a: bytes, b: bytes)
    requires a != b
    ensures Lex(a, b) || Lex(b, a)
  {
    if a != [] && b != [] && a[0] == b[0] {
      assert a == [a[0]] + a[1..] && b == [b[0]] + b[1..];
      LexTotal(a[1..], b[1..]);
    }
  }

  /** A common prefix does not influence the order. */
  lemma {:induction false} LexCommonPrefix(p: bytes, a: bytes, b: bytes)
    ensures Lex(p + a, p + b) <==> Lex(a, b)
  {
    if p == [] {
      assert p + a == a && p + b == b;
    } else {
      assert (p + a)[1..] == p[1..] + a && (p + b)[1..] == p[1..] + b;
      LexCommonPrefix(p[1..], a, b);
    }
  }

  /** Different prefixes of one length decide the order by themselves. */
  lemma {:induction false} LexPrefixDecides(p: bytes, q: bytes, a: bytes, b: bytes)
    requires |p| == |q| && p != q
    ensures Lex(p + a, q + b) <==> Lex(p, q)
  {
    assert p != [];
    assert (p + a)[1..] == p[1..] + a && (q + b)[1..] == q[1..] + b;
    if p[0] == q[0] {
      assert p == [p[0]] + p[1..] && q == [q[0]] + q[1..];
      LexPrefixDecides(p[1..], q[1..], a, b);
    }
  }

  /** Among big-endian strings of one width the bytewise order is the numeric one. */
  lemma {:induction false} BigEndianOrder(m: nat, n: nat, width: nat)
    requires m < Pow256(width) && n < Pow256(width)
    ensures Lex(BigEndian(m, width), BigEndian(n, width)) <==> m < n
  {
    if width > 0 {
      var p, q := BigEndian(m / 256, width - 1), BigEndian(n / 256, width - 1);
      BigEndianOrder(m / 256, n / 256, width - 1);
      BigEndianRoundTrip(m / 256, width - 1);
      BigEndianRoundTrip(n / 256, width - 1);
      if p == q {
        LexCommonPrefix(p, [m % 256], [n % 256]);
      } else {
        LexPrefixDecides(p, q, [m % 256], [n % 256]);
      }
    }
  }
}
