/** Word arithmetic modulo the moduli of the number theoretic transform
    (cpp/src/quickjs/libbf.c, add_mod to init_mul_mod_fast2, integer variant). */
module NttWord {
  import opened Powers
  import opened Limbs

  /** 2^NTT_MOD_LOG2_MIN: 61 of 64 bits, or 29 of 32. */
  const P: nat := Pow(2, LIMB_BITS - 3)

  lemma PFacts()
    ensures B == 8 * P && HALF == 4 * P && P >= 1
  {
    PowAdd(2, LIMB_BITS - 3, 3);
    PowAdd(2, LIMB_BITS - 3, 2);
    PowPositive(2, LIMB_BITS - 3);
    PowStep(2, 0);
    PowStep(2, 1);
    PowStep(2, 2);
  }

  /** A modulus of the table: at least 2^NTT_MOD_LOG2_MIN, below 2^NTT_MOD_LOG2_MAX. */
  predicate Modulus(m: int) { P <= m < 2 * P }

  predicate Same(x: int, y: int, m: int)
    requires m > 0
  {
    x % m == y % m
  }

  /** add_mod. */
  function AddMod(a: Limb, b: Limb, m: Limb): (r: Limb)
  {
    var r := AddW(a, b);
    if r >= m then SubW(r, m) else r
  }

  /** sub_mod. */
  function SubMod(a: Limb, b: Limb, m: Limb): (r: Limb)
  {
    var r := SubW(a, b);
    if r > a then AddW(r, m) else r
  }

  /** Sums and differences below 2m stay there without leaving the word. */
  lemma AddModIs(a: Limb, b: Limb, m: Limb)
    requires Modulus(m) && a < 2 * m && b < 2 * m && 2 * m < B
    ensures AddMod(a, b, 2 * m) == (if a + b >= 2 * m then a + b - 2 * m else a + b) < 2 * m
    ensures SubMod(a, b, 2 * m) == (if a < b then a - b + 2 * m else a - b) < 2 * m
  {
    hide P, B, HALF;
    PFacts();
  }

  /** init_mul_mod_fast2. */
  function Quotient2(b: int, m: int): (q: int)
    requires m > 0
  {
    (b * B) / m
  }

  /** mul_mod_fast3. */
  function MulModFast3(a: int, b: int, m: int, bInv: int): (r: int)
  {
    BaseNonzero();
    (a * b - HighWord(a * bInv) * m) % B
  }

  function HighWord(x: int): (h: int)
  {
    BaseNonzero();
    x / B
  }

  lemma BaseNonzero()
    ensures B > 0
  {}

  /** The estimate q of a*b/m is exact or one too small. */
  lemma Estimate2(a: int, b: int, m: int, w: int, i: int, q: int)
    requires w > 0 && 0 <= a < w && 0 <= b < m && i * m <= b * w < i * m + m && q * w <= a * i < q * w + w
    ensures 0 <= a * b - q * m < 2 * m
  {
    assert (q * m) * w <= (a * b) * w by {
      MulMono(q * w, a * i, m);
      MulMono(i * m, b * w, a);
      Poly1(q, w, m, a, i, b);
    }
    MulCancelLe(q * m, a * b, w);
    assert (a * b) * w < (q * m + 2 * m) * w by {
      MulMono(b * w, i * m + m, a);
      MulMono(a * i, q * w + w, m);
      MulStrict(a, w, m);
      Poly2(q, w, m, a, i, b);
    }
    MulCancelLt(a * b, q * m + 2 * m, w);
  }

  lemma Poly1(q: int, w: int, m: int, a: int, i: int, b: int)
    ensures (q * w) * m == (q * m) * w && (a * i) * m == a * (i * m) && a * (b * w) == (a * b) * w
  {}

  lemma Poly2(q: int, w: int, m: int, a: int, i: int, b: int)
    ensures a * (b * w) == (a * b) * w && a * (i * m + m) == (a * i) * m + a * m
    ensures (q * w + w) * m == (q * m + m) * w && (q * m + 2 * m) * w == (q * m + m) * w + w * m
  {}

  lemma MulModFast3Is(a: Limb, b: nat, m: nat)
    requires Modulus(m) && b < m
    ensures m > 0 && 0 <= MulModFast3(a, b, m, Quotient2(b, m)) < 2 * m
      && Same(MulModFast3(a, b, m, Quotient2(b, m)), a * b, m)
  {
    PFacts();
    Quotient2Is(b, m);
    MulModFast3Def(a, b, m, Quotient2(b, m));
    hide *;
    var i := Quotient2(b, m);
    var q := HighWord(a * i);
    Estimate2(a, b, m, B, i, q);
    Small(a * b - q * m, B);
    AddMultiple(a * b - q * m, q, m);
    SameIs(a * b - q * m, a * b, m);
  }

  lemma SameIs(x: int, y: int, m: int)
    requires m > 0
    ensures Same(x, y, m) <==> x % m == y % m
  {}

  lemma Quotient2Is(b: int, m: int)
    requires Modulus(m) && 0 <= b
    ensures m > 0 && Quotient2(b, m) * m <= b * B < Quotient2(b, m) * m + m
  {
    PFacts();
    assert Quotient2(b, m) == (b * B) / m;
    hide *;
    MulMono(0, b, B);
    DivModIdentity(b * B, m);
  }

  lemma MulModFast3Def(a: int, b: int, m: int, i: int)
    ensures B > 0 && MulModFast3(a, b, m, i) == (a * b - HighWord(a * i) * m) % B
    ensures HighWord(a * i) * B <= a * i < HighWord(a * i) * B + B
  {
    BaseNonzero();
    assert HighWord(a * i) == (a * i) / B;
    hide B, MulModFast3;
    DivModEuclid(a * i, B);
  }

  lemma DivModEuclid(x: int, d: int)
    requires d > 0
    ensures (x / d) * d <= x < (x / d) * d + d
  {}

  lemma Small(x: int, d: int)
    requires 0 <= x < d
    ensures x % d == x
  {
    DivModIs(x, d, 0, x);
  }

  lemma AddMultiple(x: int, k: int, m: int)
    requires m > 0
    ensures (x + k * m) % m == x % m
  {
    var q, r := x / m, x % m;
    assert x == q * m + r;
    assert x + k * m == (q + k) * m + r by { MulDist(m, q, k); }
    DivModIs(x + k * m, m, q + k, r);
  }

  /** mul_mod_fast2. */
  function MulModFast2(a: int, b: int, m: int, bInv: int): (r: int)
  {
    var r := MulModFast3(a, b, m, bInv);
    if r >= m then r - m else r
  }

  lemma MulModFast2Is(a: Limb, b: nat, m: nat)
    requires Modulus(m) && b < m
    ensures m > 0 && MulModFast2(a, b, m, Quotient2(b, m)) == (a * b) % m
  {
    PFacts();
    MulModFast3Is(a, b, m);
    var r := MulModFast3(a, b, m, Quotient2(b, m));
    assert MulModFast2(a, b, m, Quotient2(b, m)) == if r >= m then r - m else r;
    hide P, B, HALF, MulModFast3, MulModFast2, Quotient2;
    if r >= m {
      AddMultiple(r - m, 1, m);
      Small(r - m, m);
    } else {
      Small(r, m);
    }
  }

  /** init_mul_mod_fast. */
  function Quotient(m: int): (q: int)
    requires m > 0
  {
    (B * P) / m
  }

  /** m & mask, for a mask of all zeros or all ones. */
  function Masked(m: int, mask: int): (r: int)
  {
    if mask == 0 then 0 else m
  }

  /** (slimb_t)x >> 1. */
  function ArithmeticHalf(x: int): (r: int)
  {
    if x >= HALF then x / 2 + HALF else x / 2
  }

  /** Remainder of a double word. */
  function Double(x: int): (r: int)
  {
    BaseSquare();
    x % (B * B)
  }

  lemma BaseSquare()
    ensures B * B > 0
  {
    hide B;
    BaseNonzero();
    MulStrict(0, B, B);
  }

  /** From the double word e, which may be negative, to a word below m. */
  function FoldMasks(e: int, m: int): (x: int)
  {
    BaseNonzero();
    var d := Double(e);
    var d' := Double(d + Masked(m, ArithmeticHalf(HighWord(d))));
    (d' + Masked(m, HighWord(d'))) % B
  }

  /** mod_fast, on double words. */
  function ModFast(r: int, m: int, mInv: int): (x: int)
  {
    PPositive();
    FoldMasks(r - HighWord((r / P) * mInv) * m - 2 * m, m)
  }

  lemma PPositive()
    ensures P >= 1
  {
    PFacts();
  }

  /** The estimate q of r/m is at most two too small. */
  lemma Estimate(r: int, m: int, p: int, w: int, i: int, a1: int, q: int)
    requires p >= 1 && w > 0 && p <= m && 0 <= r < w * p && a1 * p <= r < a1 * p + p
    requires i * m <= w * p < i * m + m && q * w <= a1 * i < q * w + w
    ensures 0 <= r - q * m < 3 * m
  {
    assert 0 <= a1 < w by {
      if a1 >= w {
        MulMono(w, a1, p);
        assert false;
      } else if a1 < 0 {
        MulMono(a1 + 1, 0, p);
        MulDist(p, a1, 1);
        assert false;
      }
    }
    assert (q * m) * w <= (a1 * p) * w by {
      MulMono(q * w, a1 * i, m);
      MulMono(i * m, w * p, a1);
      Poly3(q, w, m, a1, i, p);
    }
    MulCancelLe(q * m, a1 * p, w);
    assert (a1 * p) * w < (q * m + 2 * m) * w by {
      MulMono(w * p, i * m + m, a1);
      MulMono(a1 * i, q * w + w, m);
      MulStrict(a1, w, m);
      Poly4(q, w, m, a1, i, p);
    }
    MulCancelLt(a1 * p, q * m + 2 * m, w);
  }

  lemma Poly3(q: int, w: int, m: int, a: int, i: int, p: int)
    ensures (q * w) * m == (q * m) * w && (a * i) * m == a * (i * m) && a * (w * p) == (a * p) * w
  {}

  lemma Poly4(q: int, w: int, m: int, a: int, i: int, p: int)
    ensures a * (w * p) == (a * p) * w && a * (i * m + m) == (a * i) * m + a * m
    ensures (q * w + w) * m == (q * m + m) * w && (q * m + 2 * m) * w == (q * m + m) * w + w * m
  {}

  /** The two masked additions bring -2m..m into 0..m. */
  lemma FoldMasksIs(e: int, m: int)
    requires Modulus(m) && -2 * m <= e < m
    ensures FoldMasks(e, m) == (if e < -m then e + 2 * m else if e < 0 then e + m else e)
  {
    PFacts();
    BaseSquare();
    var b, W := B, B * B;
    var d := Double(e);
    assert d == e % W;
    var h := Masked(m, ArithmeticHalf(HighWord(d)));
    var d' := Double(d + h);
    assert d' == (d + h) % W && FoldMasks(e, m) == (d' + Masked(m, HighWord(d'))) % b;
    assert HighWord(d) == d / b && HighWord(d') == d' / b;
    ArithmeticTop();
    hide *;
    MulMono(8, b, b);
    if e < 0 {
      DivModIs(e, W, -1, e + W);
      NearTop(e, b, W);
      MaskedIs(m, ArithmeticHalf(b - 1));
      SecondMask(e + m, m, d + m, d', b, W);
    } else {
      Small(e, W);
      SmallDiv0(e, b);
      MaskedIs(m, 0);
      MaskedIs(m, ArithmeticHalf(0));
      SecondMask(e, m, d, d', b, W);
    }
  }

  lemma MaskedIs(m: int, mask: int)
    ensures Masked(m, mask) == if mask == 0 then 0 else m
  {}

  lemma SecondMask(e: int, m: int, d: int, d': int, b: int, W: int)
    requires W == b * b && 8 * b <= W && b > 0 && 0 < m && 4 * m < b && -m <= e < m
    requires d' == d % W && (d == e + W || d == e)
    ensures (d' + Masked(m, d' / b)) % b == if e < 0 then e + m else e
  {
    hide Masked;
    MaskedIs(m, d' / b);
    if e < 0 {
      if d == e {
        DivModIs(d, W, -1, e + W);
      } else {
        Small(d, W);
      }
      NearTop(e, b, W);
      DivModIs(d' + m, b, b, e + m);
    } else {
      if d == e {
        Small(d, W);
      } else {
        DivModIs(d, W, 1, e);
      }
      SmallDiv0(e, b);
      Small(e, b);
    }
  }

  lemma SmallDiv0(x: int, b: int)
    requires 0 <= x < b
    ensures x / b == 0
  {
    DivModIs(x, b, 0, x);
  }

  lemma NearTop(e: int, b: int, W: int)
    requires W == b * b && -b <= e < 0 && b > 0
    ensures (e + W) / b == b - 1
  {
    assert e + W == (b - 1) * b + (e + b) by { MulDist(b, b, 1); }
    DivModIs(e + W, b, b - 1, e + b);
  }

  lemma ArithmeticTop()
    ensures ArithmeticHalf(B - 1) != 0 && ArithmeticHalf(0) == 0
  {
    hide B, HALF, P;
    PFacts();
  }

  lemma ModulusIs(m: int)
    ensures Modulus(m) <==> P <= m < 2 * P
  {
    hide P;
  }

  lemma ModFastDef(r: int, m: int)
    requires m > 0
    ensures P >= 1 && ModFast(r, m, Quotient(m)) == FoldMasks(r - HighWord((r / P) * Quotient(m)) * m - 2 * m, m)
    ensures Quotient(m) * m <= B * P < Quotient(m) * m + m
  {
    hide P, B, FoldMasks, HighWord;
    PPositive();
    assert Quotient(m) == (B * P) / m;
    DivModEuclid(B * P, m);
  }

  lemma ModFastIs(r: nat, m: nat)
    requires Modulus(m) && r < B * P
    ensures m > 0 && ModFast(r, m, Quotient(m)) == r % m
  {
    hide *;
    PFacts();
    ModulusIs(m);
    ModFastDef(r, m);
    var i, a1 := Quotient(m), r / P;
    var q := HighWord(a1 * i);
    MulModFast3Def(a1, 0, m, i);
    DivModIdentity(r, P);
    Estimate(r, m, P, B, i, a1, q);
    FoldMasksIs(r - q * m - 2 * m, m);
    FoldedRemainder(r, q, m, r - q * m - 2 * m);
  }

  lemma FoldedRemainder(r: int, q: int, m: int, e: int)
    requires m > 0 && e == r - q * m - 2 * m && -2 * m <= e < m
    ensures r % m == if e < -m then e + 2 * m else if e < 0 then e + m else e
  {
    MulDist(m, q, 1);
    MulDist(m, q, 2);
    if e < -m {
      DivModIs(r, m, q, e + 2 * m);
    } else if e < 0 {
      DivModIs(r, m, q + 1, e + m);
    } else {
      DivModIs(r, m, q + 2, e);
    }
  }

  /** mul_mod_fast: the product must be below 2^(LIMB_BITS + NTT_MOD_LOG2_MIN). */
  function MulModFast(a: int, b: int, m: int, mInv: int): (r: int)
  {
    ModFast(a * b, m, mInv)
  }

  lemma MulModFastIs(a: nat, b: nat, m: nat)
    requires Modulus(m) && a < m && b < 2 * m
    ensures m > 0 && MulModFast(a, b, m, Quotient(m)) == (a * b) % m
  {
    assert MulModFast(a, b, m, Quotient(m)) == ModFast(a * b, m, Quotient(m)) by { PFacts(); }
    hide *;
    PFacts();
    ModulusIs(m);
    ProductFits(a, b, m, P);
    ModFastIs(a * b, m);
  }

  lemma ProductFits(a: int, b: int, m: int, p: int)
    requires 0 <= a < m && 0 <= b < 2 * m && 1 <= p <= m < 2 * p
    ensures 0 <= a * b < (8 * p) * p
  {
    MulMono(0, a, b);
    MulMono(b, 4 * p, a);
    MulStrict(a, 2 * p, 4 * p);
    ProductPoly(p);
  }

  lemma ProductPoly(p: int)
    ensures (2 * p) * (4 * p) == (8 * p) * p
  {}
}
