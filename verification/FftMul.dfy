/** Multiplication of limb strings by number theoretic transforms
    (cpp/src/quickjs/libbf.c, fft_mul, integer variant): the exact product. */
module FftMul {
  import opened Powers
  import opened Limbs
  import opened Bits
  import opened NttSums
  import opened NttConvolution
  import opened NttFft
  import opened NttConv
  import opened NttDigits
  import opened NttCrt
  import opened NttTables
  import opened NttInit
  import opened NttMul
  import opened NttToLimb

  /** The convolution of the digits of a and b. */
  ghost function Coefficients(a: nat, b: nat, dpl: nat, n: nat): (C: int -> int)
    requires n > 0
  {
    Conv(Digits(a, dpl), Digits(b, dpl), n)
  }

  // ---- the transforms give the coefficients modulo m ----

  lemma DigitsAt(v: nat, dpl: nat, i: nat)
    ensures Digits(v, dpl)(i) == Digit(v, dpl, i)
  {
    hide Digit;
  }

  lemma AtIs(x: seq<nat>, i: nat)
    requires i < |x|
    ensures At(x)(i) == x[i]
  {}

  lemma ConvolvedDigits(a: nat, b: nat, dpl: nat, x: seq<nat>, y: seq<nat>, i: nat, m: nat)
    requires |x| == |y| > 0
    requires forall i :: 0 <= i < |x| ==> Cg(x[i], Digit(a, dpl, i), m) && Cg(y[i], Digit(b, dpl, i), m)
    ensures Cg(Conv(At(x), At(y), |x|)(i), Coefficients(a, b, dpl, |x|)(i), m)
  {
    hide *;
    CoefficientsAre(a, b, dpl, |x|);
    forall i | 0 <= i < |x|
      ensures Cg(At(x)(i), Digits(a, dpl)(i), m) && Cg(At(y)(i), Digits(b, dpl)(i), m)
    {
      AtIs(x, i);
      AtIs(y, i);
      DigitsAt(a, dpl, i);
      DigitsAt(b, dpl, i);
    }
    ConvCg(At(x), Digits(a, dpl), At(y), Digits(b, dpl), |x|, i, m);
  }

  /** The scale of the convolution is one. */
  lemma Normalised(r: int, k: nat, norm: nat, h: int, c: int, m: nat)
    requires LengthInverse(norm, k, m) && Cg(r, (Pow(2, k) * norm) * h, m) && Cg(h, c, m)
    ensures Cg(r, c, m)
  {
    hide *;
    LengthIntro(norm, k, m);
    MulSwap(Pow(2, k), norm);
    CgScale(norm * Pow(2, k), 1, h, m);
    CgTrans(r, (Pow(2, k) * norm) * h, 1 * h, m);
    CgTrans(r, h, c, m);
  }

  /** One modulus: digits, transforms, products and inverse transform. */
  method MulModulus(a: seq<Limb>, b: seq<Limb>, k: nat, dpl: nat, j: nat) returns (row: seq<nat>)
    requires j < NB_MODS && 1 <= k <= RootOrder() && 1 <= dpl <= 3 * LIMB_BITS - 4
    ensures Pow(2, k) > 0 && ResidueRow(row, Mods()[j], Coefficients(Val(a), Val(b), dpl, Pow(2, k)), Pow(2, k))
  {
    hide *;
    PowPositive(2, k);
    var d, lenInv := InitModulus(j);
    ReadyParts(d);
    LengthIntro(lenInv[k], k, d.m);
    var n := Pow(2, k);
    var x := LimbToNtt(a, n, dpl, d.m);
    var y := LimbToNtt(b, n, dpl, d.m);
    row := Convolve(x, y, k, lenInv[k], d);
    ConvolvedParts(x, y, row, Pow(2, k) * lenInv[k], d.m);
    ghost var C := Coefficients(Val(a), Val(b), dpl, n);
    forall i | 0 <= i < n
      ensures row[i] < 2 * d.m && Cg(row[i], C(i), d.m)
    {
      ConvolvedDigits(Val(a), Val(b), dpl, x, y, i, d.m);
      Normalised(row[i], k, lenInv[k], Conv(At(x), At(y), n)(i), C(i), d.m);
    }
    RowIntro(row, d.m, C, n);
  }

  lemma RowIntro(row: seq<nat>, m: nat, C: int -> int, n: nat)
    requires |row| == n && forall i :: 0 <= i < n ==> row[i] < 2 * m && Cg(row[i], C(i), m)
    ensures ResidueRow(row, m, C, n)
  {
    hide Cg;
  }

  // ---- the coefficients give the product ----

  lemma DigitBelow(v: nat, dpl: nat, i: nat)
    ensures 0 <= Digits(v, dpl)(i) < Pow(2, dpl)
  {
    hide *;
    DigitsAt(v, dpl, i);
    DigitIs(v, dpl, i);
    ModRange(v / Pow(2, i * dpl), Pow(2, dpl));
  }

  /** Every coefficient is below the product of the moduli. */
  lemma CoefficientBound(a: nat, b: nat, bits: nat, k: nat, dpl: nat, nb: nat, i: int)
    requires SizeOk(bits, k, dpl, nb) && Pow(2, k) > 0
    ensures 0 <= Coefficients(a, b, dpl, Pow(2, k))(i) < NttCrt.Product(LastMods(nb), nb)
  {
    hide *;
    var n, T := Pow(2, k), Pow(2, dpl);
    CoefficientsAre(a, b, dpl, n);
    SizeParts(bits, k, dpl, nb);
    forall x | 0 <= x < n
      ensures 0 <= Digits(a, dpl)(x) < T && 0 <= Digits(b, dpl)(x) < T
    {
      DigitBelow(a, dpl, x);
      DigitBelow(b, dpl, x);
    }
    PowPositive(2, dpl);
    ConvBound(Digits(a, dpl), Digits(b, dpl), n, T, i);
    SizePower(k, dpl, nb);
  }

  lemma SizePower(k: nat, dpl: nat, nb: nat)
    requires 3 <= nb <= NB_MODS && k + 2 * dpl <= IntBits()[NB_MODS - nb]
    ensures Pow(2, k) * (Pow(2, dpl) * Pow(2, dpl)) <= NttCrt.Product(LastMods(nb), nb)
  {
    hide *;
    PowAdd(2, dpl, dpl);
    PowAdd(2, k, dpl + dpl);
    TableSizes(NB_MODS - nb);
    PowMono(2, k + (dpl + dpl), IntBits()[NB_MODS - nb]);
    IntBitsSound(nb);
  }

  lemma CoefficientsAre(a: nat, b: nat, dpl: nat, n: nat)
    requires n > 0
    ensures Coefficients(a, b, dpl, n) == Conv(Digits(a, dpl), Digits(b, dpl), n)
  {
    hide Conv, Digits;
  }

  function CeilDigits(limbs: nat, dpl: nat): (n: int)
    requires dpl > 0
  {
    (limbs * LIMB_BITS + dpl - 1) / dpl
  }

  /** The digits of both operands fit without wrapping around. */
  lemma DigitsFit(a: seq<Limb>, b: seq<Limb>, dpl: nat, n: nat)
    requires dpl > 0 && (|a| + |b|) * LIMB_BITS <= n * dpl
    ensures CeilDigits(|a|, dpl) >= 0 && CeilDigits(|b|, dpl) >= 0
    ensures Fits(Digits(Val(a), dpl), Digits(Val(b), dpl), CeilDigits(|a|, dpl), CeilDigits(|b|, dpl), n)
  {
    hide Val, Digits, Digit;
    CeilsFit(|a|, |b|, dpl, n);
    var na, nb := CeilDigits(|a|, dpl), CeilDigits(|b|, dpl);
    forall x | na <= x < n
      ensures Digits(Val(a), dpl)(x) == 0
    {
      DigitBeyond(a, dpl, x);
      DigitsAt(Val(a), dpl, x);
    }
    forall y | nb <= y < n
      ensures Digits(Val(b), dpl)(y) == 0
    {
      DigitBeyond(b, dpl, y);
      DigitsAt(Val(b), dpl, y);
    }
  }

  lemma CeilsFit(la: nat, lb: nat, dpl: nat, n: nat)
    requires dpl > 0 && (la + lb) * LIMB_BITS <= n * dpl
    ensures CeilDigits(la, dpl) >= 0 && CeilDigits(lb, dpl) >= 0 && CeilDigits(la, dpl) + CeilDigits(lb, dpl) <= n + 1
  {
    var na, nb := CeilDigits(la, dpl), CeilDigits(lb, dpl);
    MulMono(0, la, LIMB_BITS);
    MulMono(0, lb, LIMB_BITS);
    MulDist(LIMB_BITS, la, lb);
    DivModIdentity(la * LIMB_BITS + dpl - 1, dpl);
    DivModIdentity(lb * LIMB_BITS + dpl - 1, dpl);
    hide CeilDigits;
    if na + nb >= n + 2 {
      MulMono(n + 2, na + nb, dpl);
      MulDist(dpl, na, nb);
      MulDist(dpl, n, 2);
      assert false;
    }
  }

  lemma OperandFits(a: seq<Limb>, other: nat, dpl: nat, n: nat)
    requires (|a| + other) * LIMB_BITS <= n * dpl
    ensures n * dpl >= 0 && Val(a) < Pow(2, n * dpl)
  {
    hide *;
    MulMono(0, |a|, LIMB_BITS);
    MulMono(|a|, |a| + other, LIMB_BITS);
    ValBound(a);
    BasePow(|a|);
    PowMono(2, |a| * LIMB_BITS, n * dpl);
  }

  /** Weighted and summed, the coefficients are the product. */
  lemma CoefficientsValue(a: seq<Limb>, b: seq<Limb>, dpl: nat, n: nat)
    requires n > 0 && dpl > 0 && (|a| + |b|) * LIMB_BITS <= n * dpl
    ensures Sum(n, Weighted(Coefficients(Val(a), Val(b), dpl, n), Pow(2, dpl))) == Val(a) * Val(b)
  {
    hide *;
    CoefficientsAre(Val(a), Val(b), dpl, n);
    DigitsFit(a, b, dpl, n);
    OperandFits(a, |b|, dpl, n);
    OperandFits(b, |a|, dpl, n);
    DigitsWhole(Val(a), dpl, n);
    DigitsWhole(Val(b), dpl, n);
    ConvValue(Digits(Val(a), dpl), Digits(Val(b), dpl), Pow(2, dpl), CeilDigits(|a|, dpl), CeilDigits(|b|, dpl), n);
  }

  lemma ProductFits(a: seq<Limb>, b: seq<Limb>)
    ensures 0 <= Val(a) * Val(b) < Pow(B, |a| + |b|)
  {
    hide *;
    ValBound(a);
    ValBound(b);
    PowAdd(B, |a|, |b|);
    MulMono(0, Val(a), Val(b));
    MulMono(Val(a), Pow(B, |a|), Val(b));
    MulStrict(Val(b), Pow(B, |b|), Pow(B, |a|));
  }

  /** Operands of at least FFT_MUL_THRESHOLD limbs need more than one digit. */
  lemma SeveralDigits(bits: nat, k: nat, dpl: nat, nb: nat)
    requires SizeOk(bits, k, dpl, nb) && bits >= 3 * LIMB_BITS
    ensures k >= 1
  {
    PowStep(2, 0);
  }

  lemma LastMod(nb: nat, j: nat)
    requires nb <= NB_MODS && j < nb
    ensures |LastMods(nb)| == nb && LastMods(nb)[j] == Mods()[NB_MODS - nb + j]
  {
    hide Mods;
  }

  const FFT_MUL_THRESHOLD: nat := 100

  /** fft_mul: the product of the operands, unless no transform is long enough. Where the size
      of the transform is computed too short the source goes on; here that is not ok either. */
  method FftMultiply(a: seq<Limb>, b: seq<Limb>) returns (ok: bool, r: seq<Limb>)
    requires |a| >= FFT_MUL_THRESHOLD && |b| >= FFT_MUL_THRESHOLD
    ensures (|a| + |b|) * LIMB_BITS >= 0 && (ok <==> Transformable((|a| + |b|) * LIMB_BITS))
    ensures ok ==> |r| == |a| + |b| && Val(r) == Val(a) * Val(b)
  {
    assert |a| + |b| >= 3;
    hide *;
    var len := |a| + |b|;
    var k, dpl, nb;
    ok, k, dpl, nb := FftSize(len);
    SizeFound(len, ok, k, dpl, nb);
    if !ok || !NoWrap(len) {
      return false, [];
    }
    SizeParts(len * LIMB_BITS, k, dpl, nb);
    MulMono(3, len, LIMB_BITS);
    SeveralDigits(len * LIMB_BITS, k, dpl, nb);
    PowPositive(2, k);
    var n := Pow(2, k);
    ghost var C := Coefficients(Val(a), Val(b), dpl, n);
    var buf := Transforms(a, b, k, dpl, nb);
    CrSound(nb);
    forall i | 0 <= i < n
      ensures 0 <= C(i) < NttCrt.Product(LastMods(nb), nb)
    {
      CoefficientBound(Val(a), Val(b), len * LIMB_BITS, k, dpl, nb, i);
    }
    r := NttToLimb.NttToLimb(len, buf, n, dpl, LastMods(nb), LastCr(nb), C);
    CoefficientsValue(a, b, dpl, n);
    ProductFits(a, b);
    SmallDiv(Val(a) * Val(b), Pow(B, len));
  }

  /** A size that is long enough is found exactly for the lengths that some transform reaches. */
  lemma SizeFound(len: nat, ok: bool, k: nat, dpl: nat, nb: nat)
    requires ok <==> Transformable(WordBits(len)) || Overflows(WordBits(len))
    requires len * LIMB_BITS >= 0 && (ok ==> (SizeOk(len * LIMB_BITS, k, dpl, nb) <==> NoWrap(len)))
    ensures ok && NoWrap(len) <==> Transformable(len * LIMB_BITS)
    ensures ok && NoWrap(len) ==> SizeOk(len * LIMB_BITS, k, dpl, nb)
  {
    hide *;
    NoWrapIs(len);
    if Transformable(len * LIMB_BITS) {
      TransformableFits(len);
    }
  }

  lemma SizeParts(bits: nat, k: nat, dpl: nat, nb: nat)
    requires SizeOk(bits, k, dpl, nb)
    ensures 3 <= nb <= NB_MODS && 1 <= dpl <= 3 * LIMB_BITS - 4 && k <= RootOrder() && bits <= Pow(2, k) * dpl
    ensures k + 2 * dpl <= IntBits()[NB_MODS - nb]
  {
    hide Pow, IntBits;
  }

  /** The loop over the moduli. */
  method Transforms(a: seq<Limb>, b: seq<Limb>, k: nat, dpl: nat, nb: nat) returns (buf: seq<seq<nat>>)
    requires nb <= NB_MODS && 1 <= k <= RootOrder() && 1 <= dpl <= 3 * LIMB_BITS - 4 && Pow(2, k) > 0
    ensures Residues(buf, LastMods(nb), Coefficients(Val(a), Val(b), dpl, Pow(2, k)), Pow(2, k))
  {
    hide *;
    buf := [];
    ghost var C := Coefficients(Val(a), Val(b), dpl, Pow(2, k));
    while |buf| < nb
      invariant |buf| <= nb && forall j :: 0 <= j < |buf| ==> ResidueRow(buf[j], LastMods(nb)[j], C, Pow(2, k))
      decreases nb - |buf|
    {
      LastMod(nb, |buf|);
      var row := MulModulus(a, b, k, dpl, NB_MODS - nb + |buf|);
      buf := buf + [row];
    }
    ResiduesIntro(buf, LastMods(nb), C, Pow(2, k));
  }

  lemma ResiduesIntro(buf: seq<seq<nat>>, mods: seq<nat>, C: int -> int, n: nat)
    requires |buf| == |mods| && forall j :: 0 <= j < |buf| ==> ResidueRow(buf[j], mods[j], C, n)
    ensures Residues(buf, mods, C, n)
  {
    hide ResidueRow;
  }
}
