// The 64-bit finaliser that hashes bloom keys (include/columnar/bloom_filter.h,
// MurmurHash64), and why it tells any two keys apart.
module Murmur {
  import opened Types
  import opened Bits
  import opened Packing

  const FACTOR_1: nat := 0xff51_afd7_ed55_8ccd
  const FACTOR_2: nat := 0xc4ce_b9fe_1a85_ec53

  /** h ^= h >> 33 */
  function XorShift(h: nat): nat { Xor(h, Shr(h, 33)) }

  /** Unsigned 64-bit multiplication. */
  function Times64(h: nat, c: nat): nat { (h * c) % TWO_64 }

  function MurmurHash64(value: nat, seed: nat): nat {
    var h := XorShift(Xor(value, seed));
    var g := XorShift(Times64(h, FACTOR_1));
    XorShift(Times64(g, FACTOR_2))
  }

  // ---- every step can be undone

  lemma XorShiftBound(h: nat)
    requires h < Pow2(64)
    ensures XorShift(h) < Pow2(64)
  {
    ShrBound(h, 33);
    XorBound(h, Shr(h, 33), 64);
  }

  lemma XorShiftBit(h: nat, k: nat)
    requires h < Pow2(64)
    ensures Bit(XorShift(h), k) == (Bit(h, k) != Bit(h, k + 33))
    ensures k >= 31 ==> Bit(XorShift(h), k) == Bit(h, k)
  {
    BitXor(h, Shr(h, 33), k);
    BitShr(h, 33, k);
    if k >= 31 { BitHigh(h, 64, k + 33); }
  }

  /** The high half passes through and unmasks the low half. */
  lemma XorShiftInjective(a: nat, b: nat)
    requires a < Pow2(64) && b < Pow2(64) && XorShift(a) == XorShift(b)
    ensures a == b
  {
    hide XorShift, Pow2;
    forall k: nat | k < 64 ensures Bit(a, k) == Bit(b, k) {
      XorShiftBit(a, k);
      XorShiftBit(b, k);
      XorShiftBit(a, k + 33);
      XorShiftBit(b, k + 33);
    }
    BitsDetermine(a, b, 64);
  }

  lemma XorInjective(a: nat, b: nat, s: nat)
    requires a < Pow2(64) && b < Pow2(64) && Xor(a, s) == Xor(b, s)
    ensures a == b
  {
    hide Pow2, Xor;
    forall k: nat | k < 64 ensures Bit(a, k) == Bit(b, k) {
      BitXor(a, s, k);
      BitXor(b, s, k);
    }
    BitsDetermine(a, b, 64);
  }

  /** Multiplying by the inverse of a factor modulo m gives the word back. */
  lemma InverseUndoes(h: int, c: int, i: int, k: int, m: int)
    requires 0 <= h < m && c * i == 1 + k * m
    ensures (h * c % m * i) % m == h
  {
    var q, r := h * c / m, h * c % m;
    assert h * c == q * m + r;
    assert r * i == h * (c * i) - q * m * i by { Distribute(h, c, i, q, m, r); }
    assert h * (c * i) == h + h * k * m by { Expand(h, c * i, k, m); }
    assert r * i == (h * k - q * i) * m + h by { Collect(h, k, q, i, m); }
    DivUnique(r * i, m, h * k - q * i, h);
  }

  lemma Distribute(h: int, c: int, i: int, q: int, m: int, r: int)
    requires r == h * c - q * m
    ensures r * i == h * (c * i) - q * m * i
  {
  }

  lemma Expand(h: int, x: int, k: int, m: int)
    requires x == 1 + k * m
    ensures h * x == h + h * k * m
  {
  }

  lemma Collect(h: int, k: int, q: int, i: int, m: int)
    ensures h + h * k * m - q * m * i == (h * k - q * i) * m + h
  {
  }

  lemma TimesInjective(a: nat, b: nat, c: nat, i: nat, k: nat)
    requires a < TWO_64 && b < TWO_64 && c * i == 1 + k * TWO_64 && Times64(a, c) == Times64(b, c)
    ensures a == b
  {
    InverseUndoes(a, c, i, k, TWO_64);
    InverseUndoes(b, c, i, k, TWO_64);
  }

  lemma TimesBound(h: nat, c: nat)
    ensures Times64(h, c) < TWO_64 == Pow2(64)
  {
    Pow2Sizes();
  }

  /** Distinct 64-bit values never collide, whatever the seed. */
  lemma MurmurInjective(a: nat, b: nat, seed: nat)
    requires a < TWO_64 && b < TWO_64 && seed < TWO_64 && MurmurHash64(a, seed) == MurmurHash64(b, seed)
    ensures a == b
  {
    hide XorShift, Xor, Times64, Pow2;
    Pow2Sizes();
    var a0, b0 := Xor(a, seed), Xor(b, seed);
    XorBound(a, seed, 64);
    XorBound(b, seed, 64);
    var a1, b1 := XorShift(a0), XorShift(b0);
    XorShiftBound(a0);
    XorShiftBound(b0);
    var a2, b2 := Times64(a1, FACTOR_1), Times64(b1, FACTOR_1);
    TimesBound(a1, FACTOR_1);
    TimesBound(b1, FACTOR_1);
    var a3, b3 := XorShift(a2), XorShift(b2);
    XorShiftBound(a2);
    XorShiftBound(b2);
    TimesBound(a3, FACTOR_2);
    TimesBound(b3, FACTOR_2);
    XorShiftInjective(Times64(a3, FACTOR_2), Times64(b3, FACTOR_2));
    TimesInjective(a3, b3, FACTOR_2, 0x9cb4_b2f8_1293_37db, 8680939279959119233);
    XorShiftInjective(a2, b2);
    TimesInjective(a1, b1, FACTOR_1, 0x4f74_430c_22a5_4005, 5710046619856821070);
    XorShiftInjective(a0, b0);
    XorInjective(a, b, seed);
  }

  lemma MurmurBound(value: nat, seed: nat)
    ensures MurmurHash64(value, seed) < TWO_64
  {
    hide XorShift, Times64, Pow2;
    var g := XorShift(Times64(XorShift(Xor(value, seed)), FACTOR_1));
    TimesBound(g, FACTOR_2);
    XorShiftBound(Times64(g, FACTOR_2));
  }

  // ---- two different words differ modulo some number up to 64

  lemma BothDivide(d: int, a: int, b: int, x: int, y: int)
    requires a > 0 && b > 0 && d % a == 0 && d % b == 0 && a * x - b * y == 1
    ensures a * b > 0 && d % (a * b) == 0
  {
    var m, n := d / a, d / b;
    assert d == a * m && d == b * n;
    assert d * (a * x) == a * b * (n * x) by { assert d * (a * x) == b * n * (a * x); }
    assert d * (b * y) == a * b * (m * y) by { assert d * (b * y) == a * m * (b * y); }
    assert d == d * (a * x) - d * (b * y) by { Split(d, a * x, b * y); }
    assert d == (n * x - m * y) * (a * b) by { Join(a * b, n * x, m * y); }
    assert a * b > 0;
    DivUnique(d, a * b, n * x - m * y, 0);
  }

  lemma Split(d: int, u: int, v: int)
    requires u - v == 1
    ensures d == d * u - d * v
  {
  }

  lemma Join(p: int, u: int, v: int)
    ensures p * u - p * v == (u - v) * p
  {
  }

  /** Twelve pairwise coprime numbers up to 64 have no common multiple below 2^64. */
  lemma CommonMultiple(d: int)
    requires d > 0 && forall m :: 2 <= m <= 64 ==> d % m == 0
    ensures d >= TWO_64
  {
    BothDivide(d, 64, 63, 1, 1);
    BothDivide(d, 4032, 61, 51, 3371);
    BothDivide(d, 245952, 59, 31, 129229);
    BothDivide(d, 14511168, 55, 12, 3166073);
    BothDivide(d, 798114240, 53, 49, 737879203);
    BothDivide(d, 42300054720, 47, 4, 3600004657);
    BothDivide(d, 1988102571840, 43, 37, 1710692910653);
    BothDivide(d, 85488410589120, 41, 39, 81318244218919);
    BothDivide(d, 3505024834153920, 37, 12, 1136764811076947);
    BothDivide(d, 129685918863695040, 31, 3, 12550250212615649);
    BothDivide(d, 4020263484774546240, 29, 21, 2911225282078119691);
    assert d % 116587641058461840960 == 0;
  }

  lemma SomeModulusDiffers(a: nat, b: nat)
    requires a < TWO_64 && b < TWO_64 && a != b
    ensures exists m :: 2 <= m <= 64 && a % m != b % m
  {
    var d := if a > b then a - b else b - a;
    if forall k :: 2 <= k <= 64 ==> d % k == 0 { CommonMultiple(d); }
    var m :| 2 <= m <= 64 && d % m != 0;
    if a % m == b % m { SameRemainder(a, b, m); }
  }

  lemma SameRemainder(a: int, b: int, m: int)
    requires m > 0 && a % m == b % m
    ensures (a - b) % m == 0 && (b - a) % m == 0
  {
    var p, q := a / m, b / m;
    assert a - b == (p - q) * m + 0;
    DivUnique(a - b, m, p - q, 0);
    assert b - a == (q - p) * m + 0;
    DivUnique(b - a, m, q - p, 0);
  }
}
