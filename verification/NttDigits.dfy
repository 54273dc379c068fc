/** Splitting a number into digits of dpl bits, reduced modulo a table modulus
    (cpp/src/quickjs/libbf.c, limb_to_ntt). */
module NttDigits {
  import opened Powers
  import opened Limbs
  import opened Bits
  import opened NttWord
  import opened NttSums

  /** Digit i of v in base 2^dpl. */
  ghost function Digit(v: nat, dpl: nat, i: nat): (d: int)
  {
    (v / Pow(2, i * dpl)) % Pow(2, dpl)
  }

  /** Three neighbouring windows are three limbs of what remains above pos. */
  lemma WindowsAre(tab: seq<Limb>, pos: nat)
    ensures Pow(2, pos) > 0 && B > 0
    ensures var u := Val(tab) / Pow(2, pos);
            && GetBits(tab, pos) == u % B
            && GetBits(tab, pos + LIMB_BITS) == (u / B) % B
            && GetBits(tab, pos + 2 * LIMB_BITS) == ((u / B) / B) % B
  {
    hide *;
    PowPositive(2, pos);
    BasePositive();
    BaseIs();
    WindowAbove(tab, pos);
    WindowAbove(tab, pos + LIMB_BITS);
    WindowAbove(tab, pos + LIMB_BITS + LIMB_BITS);
    DivPow(Val(tab), pos, LIMB_BITS);
    DivPow(Val(tab), pos + LIMB_BITS, LIMB_BITS);
  }

  lemma WindowAbove(tab: seq<Limb>, pos: nat)
    ensures Pow(2, pos) > 0 && B > 0 && GetBits(tab, pos) == (Val(tab) / Pow(2, pos)) % B
  {
    hide GetBits, Pow, B;
    GetBitsIs(tab, pos);
    BasePositive();
    PowPositive(2, pos);
  }

  /** The low p bits of a limb, p at most a limb; all of it when p is a whole limb. */
  lemma LowOfLimb(u: nat, p: nat)
    requires p <= LIMB_BITS
    ensures Pow(2, p) > 0 && B > 0 && (u % B) % Pow(2, p) == u % Pow(2, p)
  {
    hide *;
    SplitBase(p);
    BasePositive();
    LowPart(u, Pow(2, p), Pow(2, LIMB_BITS - p));
  }

  /** Low p bits above one limb. */
  lemma LowAbove(u: nat, p: nat)
    ensures B > 0 && Pow(2, p) > 0 && u % Pow(2, LIMB_BITS + p) == u % B + ((u / B) % Pow(2, p)) * B
  {
    hide *;
    PowPositive(2, p);
    BasePositive();
    BaseIs();
    DivPow(u, LIMB_BITS, p);
  }

  /** x & base_mask1: the bits of the last, possibly partial limb of a digit. */
  function MaskTop(x: Limb, dpl: nat): (r: int)
  {
    PowPositive(2, dpl % LIMB_BITS);
    if dpl % LIMB_BITS == 0 then x else x % Pow(2, dpl % LIMB_BITS)
  }

  lemma MaskTopDef(x: Limb, dpl: nat)
    ensures dpl % LIMB_BITS == 0 ==> MaskTop(x, dpl) == x
    ensures dpl % LIMB_BITS != 0 ==> Pow(2, dpl % LIMB_BITS) > 0 && MaskTop(x, dpl) == x % Pow(2, dpl % LIMB_BITS)
  {
    PowPositive(2, dpl % LIMB_BITS);
  }

  lemma LimbRemainder(p: int)
    requires 1 <= p <= LIMB_BITS
    ensures p % LIMB_BITS == if p == LIMB_BITS then 0 else p
  {}

  lemma MaskTopIs(u: nat, dpl: nat, p: nat)
    requires 1 <= p <= LIMB_BITS && dpl % LIMB_BITS == p % LIMB_BITS
    ensures B > 0 && Pow(2, p) > 0 && 0 <= u % B < B && MaskTop(u % B, dpl) == u % Pow(2, p)
  {
    hide *;
    BasePositive();
    DivModIdentity(u, B);
    LowOfLimb(u, p);
    BaseIs();
    LimbRemainder(p);
    MaskTopDef(u % B, dpl);
  }

  /** Digits of one limb, and of up to LIMB_BITS + NTT_MOD_LOG2_MIN bits. */
  lemma OneLimb(u: nat, dpl: nat)
    requires 1 <= dpl <= LIMB_BITS
    ensures B > 0 && u % B < B && Pow(2, dpl) > 0 && MaskTop(u % B, dpl) == u % Pow(2, dpl)
  {
    MaskTopIs(u, dpl, dpl);
  }

  lemma TwoLimbs(u: nat, dpl: nat)
    requires LIMB_BITS < dpl <= 2 * LIMB_BITS
    ensures B > 0 && (u / B) % B < B && Pow(2, dpl) > 0 && u % B + MaskTop((u / B) % B, dpl) * B == u % Pow(2, dpl)
  {
    hide *;
    BasePositive();
    DivModIdentity(u, B);
    var p := dpl - LIMB_BITS;
    ModShift(dpl, p);
    MaskTopIs(u / B, dpl, p);
    LowAbove(u, p);
    PowPositive(2, dpl);
  }

  lemma ModShift(dpl: int, p: int)
    requires dpl == p + LIMB_BITS
    ensures dpl % LIMB_BITS == p % LIMB_BITS
  {
    AddMultiple(p, 1, LIMB_BITS);
  }

  lemma ThreeLimbs(u: nat, dpl: nat)
    requires 2 * LIMB_BITS < dpl <= 3 * LIMB_BITS
    ensures B > 0 && ((u / B) / B) % B < B && Pow(2, dpl) > 0
    ensures u % B + ((u / B) % B) * B + MaskTop(((u / B) / B) % B, dpl) * (B * B) == u % Pow(2, dpl)
  {
    hide *;
    BasePositive();
    DivModIdentity(u, B);
    DivModIdentity(u / B, B);
    var p := dpl - 2 * LIMB_BITS;
    ModShift(dpl, p + LIMB_BITS);
    ModShift(p + LIMB_BITS, p);
    MaskTopIs((u / B) / B, dpl, p);
    LowAbove(u, LIMB_BITS + p);
    LowAbove(u / B, p);
    PowPositive(2, dpl);
    ThreePoly((u / B) % B, ((u / B) / B) % Pow(2, p), B);
  }

  lemma ThreePoly(x: int, y: int, b: int)
    ensures (x + y * b) * b == x * b + y * (b * b)
  {}

  /** The residue of a digit below B * P. */
  lemma ShortResidue(a: nat, m: nat)
    requires Modulus(m) && a < B * P
    ensures m > 0 && 0 <= ModFast(a, m, Quotient(m)) < m && Cg(ModFast(a, m, Quotient(m)), a, m)
  {
    hide *;
    ModFastIs(a, m);
    PFacts();
    ModulusIs(m);
    CgMod(a, m);
  }

  /** The residue of a longer digit N, in two steps of LIMB_BITS - 1 bits. */
  lemma LongResidue(N: nat, m: nat)
    requires Modulus(m) && N < (B * P) * HALF && HALF > 0
    ensures m > 0
    ensures var r := ModFast(N / HALF, m, Quotient(m)); var b := r * HALF + N % HALF;
            && 0 <= r < m && 0 <= b < B * P && 0 <= ModFast(b, m, Quotient(m)) < m
               && Cg(ModFast(b, m, Quotient(m)), N, m)
  {
    hide *;
    PFacts();
    ModulusIs(m);
    DivModIdentity(N, HALF);
    DivBelow(N, HALF, B * P);
    var a := N / HALF;
    ShortResidue(a, m);
    var r := ModFast(a, m, Quotient(m));
    var b := r * HALF + N % HALF;
    LongBound(r, m, N % HALF, P);
    ShortResidue(b, m);
    CgScale(r, a, HALF, m);
    CgRefl(N % HALF, m);
    CgAdd(r * HALF, a * HALF, N % HALF, N % HALF, m);
    CgTrans(ModFast(b, m, Quotient(m)), b, N, m);
  }

  lemma DivBelow(x: nat, d: nat, k: nat)
    requires d > 0 && x < k * d
    ensures 0 <= x / d < k
  {
    DivModIdentity(x, d);
    if x / d >= k {
      MulMono(k, x / d, d);
      assert false;
    }
  }

  lemma LongBound(r: int, m: int, l: int, p: int)
    requires 0 <= r < m < 2 * p && p >= 1 && 0 <= l < 4 * p
    ensures 0 <= r * (4 * p) + l < (8 * p) * p
  {
    MulMono(r + 1, 2 * p, 4 * p);
    MulMono(0, r, 4 * p);
    MulDist(4 * p, r, 1);
    ProductPoly(p);
  }

  /** Splitting N = a0 + a1*B + a2*B^2 at bit LIMB_BITS - 1. */
  lemma SplitHalf(a0: nat, a1: nat, a2: nat)
    requires a0 < B && HALF > 0 && B == 2 * HALF
    ensures var N := a0 + a1 * B + a2 * (B * B);
            N >= 0 && N / HALF == a0 / HALF + 2 * a1 + a2 * (2 * B) && N % HALF == a0 % HALF
  {
    hide *;
    var N := a0 + a1 * B + a2 * (B * B);
    MulMono(0, a1, B);
    MulMono(0, B, B);
    MulMono(0, a2, B * B);
    DivModIdentity(a0, HALF);
    SplitPoly(a0 / HALF, a1, a2, HALF);
    DivModIs(N, HALF, a0 / HALF + 2 * a1 + a2 * (2 * B), a0 % HALF);
  }

  lemma SplitPoly(q: int, a1: int, a2: int, h: int)
    ensures q * h + a1 * (2 * h) + a2 * ((2 * h) * (2 * h)) == (q + 2 * a1 + a2 * (2 * (2 * h))) * h
  {
    assert a2 * ((2 * h) * (2 * h)) == (a2 * (2 * (2 * h))) * h;
    assert a1 * (2 * h) == (2 * a1) * h;
    assert (q + 2 * a1 + a2 * (2 * (2 * h))) * h == q * h + (2 * a1) * h + (a2 * (2 * (2 * h))) * h;
  }

  lemma DigitBounds(u: nat, dpl: nat)
    requires 1 <= dpl <= 3 * LIMB_BITS - 4
    ensures Pow(2, dpl) > 0 && 0 <= u % Pow(2, dpl) < Pow(2, dpl)
    ensures dpl <= 2 * LIMB_BITS - 3 ==> Pow(2, dpl) <= B * P
    ensures Pow(2, dpl) <= (B * P) * HALF
  {
    hide *;
    ConstantsAre();
    PowPositive(2, dpl);
    DivModIdentity(u, Pow(2, dpl));
    PowAdd(2, LIMB_BITS, LIMB_BITS - 3);
    PowAdd(2, 2 * LIMB_BITS - 3, LIMB_BITS - 1);
    PowMono(2, dpl, 3 * LIMB_BITS - 4);
    if dpl <= 2 * LIMB_BITS - 3 {
      PowMono(2, dpl, 2 * LIMB_BITS - 3);
    }
  }

  lemma ConstantsAre()
    ensures B == Pow(2, LIMB_BITS) && P == Pow(2, LIMB_BITS - 3) && HALF == Pow(2, LIMB_BITS - 1)
  {}

  /** The residue of the dpl bits from pos on. */
  method DigitResidue(tab: seq<Limb>, pos: nat, dpl: nat, m: nat) returns (r: nat)
    requires Modulus(m) && m > 0 && 1 <= dpl <= 3 * LIMB_BITS - 4
    ensures Pow(2, pos) > 0 && Pow(2, dpl) > 0 && r < m && Cg(r, (Val(tab) / Pow(2, pos)) % Pow(2, dpl), m)
  {
    hide *;
    PFacts();
    BaseFacts();
    WindowsAre(tab, pos);
    ghost var u := Val(tab) / Pow(2, pos);
    DivModIdentity(Val(tab), Pow(2, pos));
    DivModIdentity(u, B);
    DivModIdentity(u / B, B);
    DivModIdentity((u / B) / B, B);
    DigitBounds(u, dpl);
    var a0: Limb := GetBits(tab, pos);
    if dpl <= LIMB_BITS {
      OneLimb(u, dpl);
      ShortResidue(u % Pow(2, dpl), m);
      r := ModFast(MaskTop(a0, dpl), m, Quotient(m));
      return;
    }
    var a1: Limb := GetBits(tab, pos + LIMB_BITS);
    if dpl <= LIMB_BITS + (LIMB_BITS - 3) {
      TwoLimbs(u, dpl);
      ShortResidue(u % Pow(2, dpl), m);
      r := ModFast(a0 + MaskTop(a1, dpl) * B, m, Quotient(m));
      return;
    }
    var a2 := 0;
    if dpl > 2 * LIMB_BITS {
      ThreeLimbs(u, dpl);
      a2 := MaskTop(GetBits(tab, pos + 2 * LIMB_BITS), dpl);
      MaskNonnegative((u / B) / B, dpl);
    } else {
      TwoLimbs(u, dpl);
      MaskNonnegative(u / B, dpl);
      a1 := MaskTop(a1, dpl);
    }
    r := LongDigit(a0, a1, a2, u % Pow(2, dpl), m);
  }

  lemma MaskNonnegative(u: nat, dpl: nat)
    ensures B > 0 && 0 <= u % B < B && 0 <= MaskTop(u % B, dpl) < B
  {
    BasePositive();
    DivModIdentity(u, B);
    MaskTopDef(u % B, dpl);
    if dpl % LIMB_BITS != 0 {
      DivModIdentity(u % B, Pow(2, dpl % LIMB_BITS));
      MulMono(0, (u % B) / Pow(2, dpl % LIMB_BITS), Pow(2, dpl % LIMB_BITS));
    }
  }

  /** Digits longer than LIMB_BITS + NTT_MOD_LOG2_MIN bits. */
  method LongDigit(a0: nat, a1: nat, a2: nat, ghost N: nat, m: nat) returns (r: nat)
    requires Modulus(m) && m > 0 && a0 < B && N == a0 + a1 * B + a2 * (B * B) && N < (B * P) * HALF && HALF > 0
      && B == 2 * HALF
    ensures r < m && Cg(r, N, m)
  {
    hide *;
    LongSplit(a0, a1, a2, N, m);
    var a: int := a0 / HALF + 2 * a1 + a2 * (2 * B);
    var q := ModFast(a, m, Quotient(m));
    r := ModFast(q * HALF + a0 % HALF, m, Quotient(m));
  }

  lemma LongSplit(a0: nat, a1: nat, a2: nat, N: nat, m: nat)
    requires Modulus(m) && m > 0 && a0 < B && N == a0 + a1 * B + a2 * (B * B) && N < (B * P) * HALF && HALF > 0
      && B == 2 * HALF
    ensures var q := ModFast(a0 / HALF + 2 * a1 + a2 * (2 * B), m, Quotient(m));
      var r := ModFast(q * HALF + a0 % HALF, m, Quotient(m));
            0 <= r < m && Cg(r, N, m)
  {
    hide *;
    SplitHalf(a0, a1, a2);
    LongResidueOf(N, m, a0 / HALF + 2 * a1 + a2 * (2 * B), a0 % HALF);
  }

  lemma LongResidueOf(N: nat, m: nat, a: int, l: int)
    requires Modulus(m) && N < (B * P) * HALF && HALF > 0
    ensures m > 0
    ensures N / HALF == a && N % HALF == l ==>
              var r := ModFast(ModFast(a, m, Quotient(m)) * HALF + l, m, Quotient(m)); 0 <= r < m && Cg(r, N, m)
  {
    hide *;
    LongResidue(N, m);
  }

  /** limb_to_ntt for one modulus: fftLen digits, those beyond the number zero. */
  method LimbToNtt(tab: seq<Limb>, fftLen: nat, dpl: nat, m: nat) returns (x: seq<nat>)
    requires Modulus(m) && m > 0 && 1 <= dpl <= 3 * LIMB_BITS - 4
    ensures |x| == fftLen && forall i :: 0 <= i < fftLen ==> x[i] < m && Cg(x[i], Digit(Val(tab), dpl, i), m)
  {
    hide *;
    var n := (|tab| * LIMB_BITS + dpl - 1) / dpl;
    if fftLen < n {
      n := fftLen;
    }
    x := [];
    while |x| < n
      invariant |x| <= n <= fftLen
      invariant forall i :: 0 <= i < |x| ==> x[i] < m && Cg(x[i], Digit(Val(tab), dpl, i), m)
      decreases n - |x|
    {
      MulMono(0, |x|, dpl);
      var r := DigitResidue(tab, |x| * dpl, dpl, m);
      DigitIs(Val(tab), dpl, |x|);
      x := x + [r];
    }
    while |x| < fftLen
      invariant n <= |x| <= fftLen
      invariant forall i :: 0 <= i < |x| ==> x[i] < m && Cg(x[i], Digit(Val(tab), dpl, i), m)
      decreases fftLen - |x|
    {
      DigitBeyond(tab, dpl, |x|);
      CgRefl(0, m);
      x := x + [0];
    }
  }

  lemma DigitIs(v: nat, dpl: nat, i: nat)
    ensures i * dpl >= 0 && Pow(2, i * dpl) > 0 && Pow(2, dpl) > 0
      && Digit(v, dpl, i) == (v / Pow(2, i * dpl)) % Pow(2, dpl)
  {
    MulMono(0, i, dpl);
    PowPositive(2, i * dpl);
    PowPositive(2, dpl);
  }

  lemma DigitBeyond(tab: seq<Limb>, dpl: nat, i: nat)
    requires dpl >= 1 && i >= (|tab| * LIMB_BITS + dpl - 1) / dpl
    ensures Digit(Val(tab), dpl, i) == 0
  {
    hide *;
    var s := |tab| * LIMB_BITS;
    DivModIdentity(s + dpl - 1, dpl);
    MulMono((s + dpl - 1) / dpl, i, dpl);
    DigitIs(Val(tab), dpl, i);
    ValBound(tab);
    BasePow(|tab|);
    PowMono(2, s, i * dpl);
    SmallDiv(Val(tab), Pow(2, i * dpl));
    SmallDiv(0, Pow(2, dpl));
  }
}
