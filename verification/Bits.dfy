// Unsigned machine words as naturals, with the C++ operators the codecs use.
// `Bit` is the reference view: every operator is characterised by the bits of
// its result, and two words of the same width are equal when their bits are.
module Bits {

  function Pow2(n: nat): (r: nat)
    ensures r > 0
  {
    if n == 0 then 1 else 2 * Pow2(n - 1)
  }

  /** Bit k of w, bit 0 being the least significant. */
  predicate Bit(w: nat, k: nat) {
    if k == 0 then w % 2 == 1 else Bit(w / 2, k - 1)
  }

  /** a | b */
  function Or(a: nat, b: nat): nat {
    if a == 0 then b else if b == 0 then a
    else 2 * Or(a / 2, b / 2) + (if a % 2 == 1 || b % 2 == 1 then 1 else 0)
  }

  /** a & b */
  function And(a: nat, b: nat): nat {
    if a == 0 || b == 0 then 0
    else 2 * And(a / 2, b / 2) + (if a % 2 == 1 && b % 2 == 1 then 1 else 0)
  }

  /** a ^ b */
  function Xor(a: nat, b: nat): nat {
    if a == 0 then b else if b == 0 then a
    else 2 * Xor(a / 2, b / 2) + (if a % 2 != b % 2 then 1 else 0)
  }

  /** w mod 2^n */
  function LowBits(w: nat, n: nat): nat {
    if n == 0 then 0 else 2 * LowBits(w / 2, n - 1) + w % 2
  }

  /** w * 2^s */
  function ScaleUp(w: nat, s: nat): nat
    decreases s
  {
    if s == 0 then w else ScaleUp(2 * w, s - 1)
  }

  /** w << s in an unsigned type of the given width */
  function Shl(w: nat, s: nat, width: nat): nat {
    LowBits(ScaleUp(w, s), width)
  }

  /** w >> s */
  function Shr(w: nat, s: nat): nat {
    if s == 0 then w else Shr(w / 2, s - 1)
  }

  /** (1 << n) - 1 */
  function Mask(n: nat): nat {
    Pow2(n) - 1
  }

  // ---- the bits of each operator's result

  lemma {:induction false} BitZero(k: nat)
    ensures !Bit(0, k)
  {
    if k > 0 { BitZero(k - 1); }
  }

  lemma {:induction false} BitOr(a: nat, b: nat, k: nat)
    ensures Bit(Or(a, b), k) == (Bit(a, k) || Bit(b, k))
  {
    if a == 0 || b == 0 {
      BitZero(k);
    } else if k > 0 {
      BitOr(a / 2, b / 2, k - 1);
    }
  }

  lemma {:induction false} BitAnd(a: nat, b: nat, k: nat)
    ensures Bit(And(a, b), k) == (Bit(a, k) && Bit(b, k))
  {
    if a == 0 || b == 0 {
      BitZero(k);
    } else if k > 0 {
      BitAnd(a / 2, b / 2, k - 1);
    }
  }

  lemma {:induction false} BitXor(a: nat, b: nat, k: nat)
    ensures Bit(Xor(a, b), k) == (Bit(a, k) != Bit(b, k))
  {
    if a == 0 || b == 0 {
      BitZero(k);
    } else if k > 0 {
      BitXor(a / 2, b / 2, k - 1);
    }
  }

  lemma {:induction false} BitShr(w: nat, s: nat, k: nat)
    ensures Bit(Shr(w, s), k) == Bit(w, s + k)
  {
    if s > 0 { BitShr(w / 2, s - 1, k); }
  }

  lemma {:induction false} BitLow(w: nat, n: nat, k: nat)
    ensures Bit(LowBits(w, n), k) == (k < n && Bit(w, k))
  {
    if n == 0 {
      BitZero(k);
    } else if k > 0 {
      BitLow(w / 2, n - 1, k - 1);
    }
  }

  lemma {:induction false} BitScale(w: nat, s: nat, k: nat)
    ensures Bit(ScaleUp(w, s), k) == (k >= s && Bit(w, k - s))
    decreases s
  {
    if s > 0 {
      BitScale(2 * w, s - 1, k);
      if k >= s { assert Bit(2 * w, k - s + 1) == Bit(w, k - s); }
    }
  }

  lemma BitShl(w: nat, s: nat, width: nat, k: nat)
    ensures Bit(Shl(w, s, width), k) == (s <= k < width && Bit(w, k - s))
  {
    BitLow(ScaleUp(w, s), width, k);
    BitScale(w, s, k);
  }

  lemma {:induction false} BitMask(n: nat, k: nat)
    ensures Bit(Mask(n), k) == (k < n)
  {
    if n == 0 {
      BitZero(k);
    } else if k > 0 {
      assert Mask(n) / 2 == Mask(n - 1);
      BitMask(n - 1, k - 1);
    }
  }

  lemma {:induction false} BitHigh(w: nat, n: nat, k: nat)
    requires w < Pow2(n) && n <= k
    ensures !Bit(w, k)
  {
    if n == 0 {
      BitZero(k);
    } else {
      BitHigh(w / 2, n - 1, k - 1);
    }
  }

  lemma {:induction false} BitsDetermine(a: nat, b: nat, n: nat)
    requires a < Pow2(n) && b < Pow2(n)
    requires forall k: nat :: k < n ==> Bit(a, k) == Bit(b, k)
    ensures a == b
  {
    if n > 0 {
      assert Bit(a, 0) == Bit(b, 0);
      forall k: nat | k < n - 1
        ensures Bit(a / 2, k) == Bit(b / 2, k)
      {
        assert Bit(a, k + 1) == Bit(b, k + 1);
      }
      BitsDetermine(a / 2, b / 2, n - 1);
    }
  }

  lemma {:induction false} OrBound(a: nat, b: nat, n: nat)
    requires a < Pow2(n) && b < Pow2(n)
    ensures Or(a, b) < Pow2(n)
  {
    if a != 0 && b != 0 { OrBound(a / 2, b / 2, n - 1); }
  }

  lemma {:induction false} XorBound(a: nat, b: nat, n: nat)
    requires a < Pow2(n) && b < Pow2(n)
    ensures Xor(a, b) < Pow2(n)
  {
    if a != 0 && b != 0 { XorBound(a / 2, b / 2, n - 1); }
  }

  lemma {:induction false} AndBound(a: nat, n: nat)
    ensures And(a, Mask(n)) < Pow2(n)
  {
    if n > 0 && a != 0 {
      assert Mask(n) / 2 == Mask(n - 1);
      AndBound(a / 2, n - 1);
    }
  }

  lemma {:induction false} AndAtMost(a: nat, b: nat)
    ensures And(a, b) <= a
  {
    if a != 0 && b != 0 { AndAtMost(a / 2, b / 2); }
  }

  lemma {:induction false} ShrBound(v: nat, s: nat)
    ensures Shr(v, s) <= v
  {
    if s > 0 { ShrBound(v / 2, s - 1); }
  }

  lemma {:induction false} LowBitsBound(w: nat, n: nat)
    ensures LowBits(w, n) < Pow2(n)
  {
    if n > 0 { LowBitsBound(w / 2, n - 1); }
  }

  // ---- the shifts are multiplication and division by powers of two

  lemma DivUnique(n: int, d: int, q: int, r: int)
    requires d > 0 && 0 <= r < d && n == q * d + r
    ensures n / d == q && n % d == r
  {
    var q', r' := n / d, n % d;
    assert n == q' * d + r';
    if q > q' { ScaleGap(q', q, d); }
    if q < q' { ScaleGap(q, q', d); }
  }

  lemma ScaleGap(p: int, q: int, d: int)
    requires p < q && d > 0
    ensures p * d + d <= q * d
    decreases q - p
  {
    if p + 1 < q { ScaleGap(p, q - 1, d); }
    assert q * d == (q - 1) * d + d;
  }

  lemma HalveDiv(w: nat, p: nat)
    requires p > 0
    ensures w / (2 * p) == w / 2 / p
  {
    var h := w / 2;
    var q, r := h / p, h % p;
    assert h == q * p + r;
    assert w == q * (2 * p) + (2 * r + w % 2);
    DivUnique(w, 2 * p, q, 2 * r + w % 2);
  }

  lemma HalveMod(w: nat, p: nat)
    requires p > 0
    ensures w % (2 * p) == 2 * (w / 2 % p) + w % 2
  {
    var h := w / 2;
    var q, r := h / p, h % p;
    assert h == q * p + r;
    assert w == q * (2 * p) + (2 * r + w % 2);
    DivUnique(w, 2 * p, q, 2 * r + w % 2);
  }

  lemma {:induction false} Pow2Add(a: nat, b: nat)
    ensures Pow2(a + b) == Pow2(a) * Pow2(b)
  {
    if a > 0 {
      Pow2Add(a - 1, b);
    }
  }

  lemma {:induction false} Pow2Mono(a: nat, b: nat)
    requires a <= b
    ensures Pow2(a) <= Pow2(b)
  {
    if a < b { Pow2Mono(a, b - 1); }
  }

  /** The operators agree with the arithmetic the C++ standard defines them by. */
  lemma {:induction false} ShrIsDivision(w: nat, s: nat)
    ensures Shr(w, s) == w / Pow2(s)
  {
    if s > 0 {
      HalveDiv(w, Pow2(s - 1));
      ShrIsDivision(w / 2, s - 1);
    }
  }

  lemma {:induction false} LowBitsIsRemainder(w: nat, n: nat)
    ensures LowBits(w, n) == w % Pow2(n)
  {
    if n > 0 {
      HalveMod(w, Pow2(n - 1));
      LowBitsIsRemainder(w / 2, n - 1);
    }
  }

  lemma {:induction false} ScaleUpIsProduct(w: nat, s: nat)
    ensures ScaleUp(w, s) == w * Pow2(s)
    decreases s
  {
    if s > 0 {
      ScaleUpIsProduct(2 * w, s - 1);
    }
  }

}
