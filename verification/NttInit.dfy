/** The tables derived once for each modulus, and the choice of a transform size
    (cpp/src/quickjs/libbf.c, ntt_static_init, ceil_log2, bf_get_fft_size). */
module NttInit {
  import opened Powers
  import opened Limbs
  import opened Bits
  import opened NttWord
  import opened NttSums
  import opened NttConvolution
  import opened NttFft
  import opened NttConv
  import opened NttCrt
  import opened NttWrite
  import opened NttTables

  // ---- roots of every order ----

  /** The entries from index l on, each the square of the next. */
  ghost predicate RootsFrom(t: seq<nat>, l: nat, m: nat)
  {
    && (forall i :: 0 <= i < |t| ==> t[i] < m)
    && (forall i :: l <= i < |t| - 1 ==> SquareOf(t, i, m))
  }

  lemma RootsStep(t: seq<nat>, t': seq<nat>, l: nat, m: nat)
    requires 1 <= l < |t| && RootsFrom(t, l, m) && m > 0 && t' == t[l - 1 := t[l] * t[l] % m]
    ensures RootsFrom(t', l - 1, m)
  {
    hide Cg, Pw;
    var d := t[l] * t[l] % m;
    CgMod(t[l] * t[l], m);
    SecondPower(t[l]);
    forall i | l - 1 <= i < |t'| - 1
      ensures SquareOf(t', i, m)
    {
      if i >= l {
        assert SquareOf(t, i, m);
      }
    }
  }

  lemma SecondPower(c: nat)
    ensures Pw(c, 2) == c * c
  {
    PowStep(c, 1);
  }

  lemma RootsTable(t: seq<nat>, m: nat)
    requires |t| >= 2 && RootsFrom(t, 1, m) && Root(t[|t| - 1], |t| - 1, m)
    ensures RootTable(t, m)
  {
    hide Root, SquareOf;
  }

  /** ntt_proot_pow: c at the top, then its squares downward; entry 0 is not used. */
  method RootPowers(c: nat, m: nat, K: nat) returns (t: seq<nat>)
    requires Modulus(m) && m > 1 && K >= 1 && c < m && Root(c, K, m)
    ensures |t| == K + 1 && RootTable(t, m) && t[K] == c
  {
    hide *;
    t := seq(K + 1, _ => 0)[K := c];
    FirstRoots(t, K, m);
    var l, x := K, c;
    while l > 1
      invariant 1 <= l <= K && |t| == K + 1 && t[K] == c && x == t[l] < m
      invariant RootsFrom(t, l, m)
    {
      MulModFastIs(x, x, m);
      ModRange(x * x, m);
      x := MulModFast(x, x, m, Quotient(m));
      RootsStep(t, t[l - 1 := x], l, m);
      t := t[l - 1 := x];
      l := l - 1;
    }
    RootsTable(t, m);
  }

  lemma FirstRoots(t: seq<nat>, K: nat, m: nat)
    requires |t| == K + 1 && forall i :: 0 <= i <= K ==> t[i] < m
    ensures RootsFrom(t, K, m)
  {}

  // ---- inverses of the lengths ----

  lemma HalfIs(m: nat)
    requires m % 2 == 1 && m > 1
    ensures 0 < (m + 1) / 2 < m && Cg((m + 1) / 2 * 2, 1, m)
  {
    CgIntro((m + 1) / 2 * 2, 1, m, 1);
  }

  lemma NextInverse(c: nat, h: nat, i: nat, m: nat)
    requires m > 0 && Cg(c * Pow(2, i), 1, m) && Cg(h * 2, 1, m)
    ensures 0 <= (c * h) % m < m && Cg((c * h) % m * Pow(2, i + 1), 1, m)
  {
    hide *;
    PowStep(2, i);
    ModRange(c * h, m);
    CgMod(c * h, m);
    CgScale((c * h) % m, c * h, 2 * Pow(2, i), m);
    CgMul(c * Pow(2, i), 1, h * 2, 1, m);
    LengthPoly(c, h, Pow(2, i));
    CgTrans((c * h) % m * (2 * Pow(2, i)), (c * h) * (2 * Pow(2, i)), 1, m);
  }

  lemma LengthPoly(c: int, h: int, p: int)
    ensures (c * p) * (h * 2) == (c * h) * (2 * p)
  {
    var q := 2 * p;
    assert c * p * (h * 2) == c * (p * (h * 2));
    assert p * (h * 2) == h * q;
    assert c * (h * q) == (c * h) * q;
  }

  ghost predicate LengthInverse(c: nat, i: nat, m: nat)
  {
    c < m && Cg(c * Pow(2, i), 1, m)
  }

  /** ntt_len_inv: the inverses of the powers of two. */
  method LengthInverses(K: nat, m: nat) returns (t: seq<nat>)
    requires Modulus(m) && m > 1 && m % 2 == 1
    ensures |t| == K + 1 && forall i :: 0 <= i <= K ==> LengthInverse(t[i], i, m)
  {
    hide *;
    HalfIs(m);
    var half := (m + 1) / 2;
    var c: nat := 1;
    PowStep(2, 0);
    CgRefl(1, m);
    t := [];
    while |t| <= K
      invariant |t| <= K + 1 && c < m && Cg(c * Pow(2, |t|), 1, m)
      invariant forall i :: 0 <= i < |t| ==> LengthInverse(t[i], i, m)
      decreases K + 1 - |t|
    {
      LengthIntro(c, |t|, m);
      MulModFastIs(c, half, m);
      NextInverse(c, half, |t|, m);
      t := t + [c];
      c := MulModFast(c, half, m, Quotient(m));
    }
  }

  lemma LengthIntro(c: nat, i: nat, m: nat)
    ensures LengthInverse(c, i, m) <==> c < m && Cg(c * Pow(2, i), 1, m)
  {
    hide Cg, Pow;
  }

  /** Everything for modulus j of the table. */
  method InitModulus(j: nat) returns (d: NttMod, lenInv: seq<nat>)
    requires j < NB_MODS
    ensures Ready(d) && d.m == Mods()[j] && |d.roots| == RootOrder() + 1
    ensures |lenInv| == RootOrder() + 1 && forall i :: 0 <= i <= RootOrder() ==> LengthInverse(lenInv[i], i, d.m)
  {
    hide *;
    ModsSound();
    TableSizes(j);
    RootsSound(j);
    var m := Mods()[j];
    var roots := RootPowers(Roots()[j], m, RootOrder());
    var inverses := RootPowers(InverseRoots()[j], m, RootOrder());
    lenInv := LengthInverses(RootOrder(), m);
    d := NttMod(m, roots, inverses);
    ReadyIntro(d);
  }

  lemma TableSizes(j: nat)
    requires j < NB_MODS
    ensures j < |Mods()| && j < |Roots()| && j < |InverseRoots()| && j < |IntBits()| && RootOrder() >= 1
  {}

  lemma ReadyIntro(d: NttMod)
    requires Modulus(d.m) && d.m > 1 && RootTable(d.roots, d.m) && RootTable(d.inverses, d.m)
      && |d.roots| == |d.inverses| >= 1
    requires Cg(d.roots[|d.roots| - 1] * d.inverses[|d.roots| - 1], 1, d.m)
    ensures Ready(d)
  {
    hide Cg, Modulus, RootTable;
  }

  // ---- ceil_log2 ----

  /** The number of significant bits. */
  function BitCount(x: nat): (n: nat)
  {
    if x == 0 then 0 else 1 + BitCount(x / 2)
  }

  lemma {:induction false} BitCountIs(x: nat, k: nat)
    ensures BitCount(x) <= k <==> x < Pow(2, k)
    decreases x
  {
    if x == 0 {
      PowPositive(2, k);
    } else if k == 0 {
    } else {
      BitCountIs(x / 2, k - 1);
      PowStep(2, k - 1);
    }
  }

  function CeilLog2(a: nat): (k: nat)
  {
    if a <= 1 then 0 else BitCount(a - 1)
  }

  /** The least k with a <= 2^k. */
  lemma CeilLog2Is(a: nat, k: nat)
    ensures CeilLog2(a) <= k <==> a <= Pow(2, k)
  {
    PowPositive(2, k);
    if a >= 1 {
      BitCountIs(a - 1, k);
    }
  }

  /** The length of the transform for so many bits; the sum is a limb and wraps around. */
  function DigitsFor(bits: nat, dpl: nat): (k: nat)
    requires dpl > 0 && B > 0
  {
    CeilLog2((bits + dpl - 1) % B / dpl)
  }

  /** 2^k digits of dpl bits hold so many bits. */
  lemma DigitsForIs(bits: nat, dpl: nat, k: nat)
    requires dpl > 0 && B > 0 && bits + dpl - 1 < B
    ensures DigitsFor(bits, dpl) <= k <==> bits <= Pow(2, k) * dpl
  {
    hide Pow, B, CeilLog2;
    SmallDiv(bits + dpl - 1, B);
    var c := (bits + dpl - 1) / dpl;
    CeilLog2Is(c, k);
    DivModIdentity(bits + dpl - 1, dpl);
    if c <= Pow(2, k) {
      MulMono(c, Pow(2, k), dpl);
    } else {
      MulMono(Pow(2, k) + 1, c, dpl);
      MulDist(dpl, Pow(2, k), 1);
    }
  }

  // ---- the size of the transform ----

  /** The digits that the longest transform over all moduli can take. */
  function MaxDigit(): (d: nat)
  {
    (IntBits()[0] - RootOrder()) / 2
  }

  /** A choice of size that makes the product exact. */
  predicate SizeOk(bits: nat, k: nat, dpl: nat, nb: nat)
  {
    && 3 <= nb <= NB_MODS && 1 <= dpl <= 3 * LIMB_BITS - 4 && k <= RootOrder()
    && k + 2 * dpl <= IntBits()[NB_MODS - nb] && bits <= Pow(2, k) * dpl
  }

  predicate Transformable(bits: nat)
  {
    bits <= Pow(2, RootOrder()) * MaxDigit()
  }

  lemma IntBitsRange(nb: nat)
    requires 3 <= nb <= NB_MODS
    ensures IntBits()[NB_MODS - nb] <= IntBits()[0] && IntBits()[NB_MODS - nb] >= 89
    ensures IntBits()[0] == RootOrder() + 2 * MaxDigit() && RootOrder() >= 4 && 1 <= MaxDigit() <= 2 * LIMB_BITS
    ensures IntBits()[0] <= 4 * MaxDigit() && RootOrder() <= 51
  {}

  /** No size is possible beyond the longest transform. */
  lemma SizeLimit(bits: nat, k: nat, dpl: nat, nb: nat)
    requires SizeOk(bits, k, dpl, nb)
    ensures Transformable(bits)
  {
    hide Pow, IntBits, RootOrder, MaxDigit;
    IntBitsRange(nb);
    var K, d := RootOrder(), MaxDigit();
    if k == K {
      MulMono(dpl, d, Pow(2, k));
    } else {
      PowStrict(2, k, K);
      MulMono(dpl, 2 * d, Pow(2, k));
      MulMono(2 * Pow(2, k), Pow(2, K), d);
      TwiceOver(Pow(2, k), d);
    }
  }

  lemma TwiceOver(p: int, d: int)
    ensures p * (2 * d) == (2 * p) * d
  {}

  function Smaller(x: nat, y: nat): (r: nat) { if x < y then x else y }

  /** The digit the search starts with. */
  function FirstDigit(nb: nat): (d: nat)
    requires 3 <= nb <= NB_MODS
  {
    IntBitsRange(nb);
    Smaller((IntBits()[NB_MODS - nb] - 4) / 2, 3 * LIMB_BITS - 4)
  }

  lemma FirstDigits(nb: nat)
    requires 3 <= nb <= NB_MODS
    ensures 1 <= FirstDigit(nb) <= FirstDigit(NB_MODS) <= 3 * LIMB_BITS - 4
    ensures 2 * FirstDigit(nb) <= IntBits()[NB_MODS - nb]
  {}

  /** Adding the digit of the search to so many bits wraps around. */
  predicate Overflows(bits: nat) { bits + FirstDigit(NB_MODS) - 1 >= B }

  /** A choice of size, long enough or not. */
  predicate SizeBounded(k: nat, dpl: nat, nb: nat)
  {
    3 <= nb <= NB_MODS && 1 <= dpl <= 3 * LIMB_BITS - 4 && k <= RootOrder()
  }

  /** The search works unless its sums wrap around. */
  lemma Wrapped(bits: nat, dpl: nat)
    requires dpl > 0 && B > dpl && bits < B && bits + dpl - 1 >= B
    ensures DigitsFor(bits, dpl) == 0
  {
    hide B;
    DivModIs(bits + dpl - 1, B, 1, bits + dpl - 1 - B);
    SmallDiv(bits + dpl - 1 - B, dpl);
  }

  /** The inner loop of bf_get_fft_size, for one number of moduli. */
  method TrySize(bits: nat, nb: nat) returns (ok: bool, k: nat, dpl: nat)
    requires 3 <= nb <= NB_MODS && bits < B
    ensures ok ==> SizeBounded(k, dpl, nb) && (!Overflows(bits) ==> SizeOk(bits, k, dpl, nb))
    ensures nb == NB_MODS && (Transformable(bits) || Overflows(bits)) ==> ok
  {
    hide Pow, IntBits, RootOrder, MaxDigit, FirstDigit, DigitsFor, B;
    IntBitsRange(nb);
    FirstDigits(nb);
    DigitsBelowBase();
    var n := IntBits()[NB_MODS - nb];
    FirstDigitIs(nb);
    dpl := Smaller((n - 4) / 2, 3 * LIMB_BITS - 4);
    while dpl > 0
      invariant dpl <= FirstDigit(nb) && (Overflows(bits) && nb == NB_MODS ==> dpl == FirstDigit(nb))
      invariant nb == NB_MODS && Transformable(bits) && !Overflows(bits) ==> dpl >= MaxDigit()
    {
      k := DigitsFor(bits, dpl);
      if bits + dpl - 1 >= B {
        Wrapped(bits, dpl);
      } else {
        DigitsForIs(bits, dpl, k);
        DigitsForIs(bits, dpl, RootOrder());
      }
      if dpl >= MaxDigit() {
        MulMono(MaxDigit(), dpl, Pow(2, RootOrder()));
      }
      if k > RootOrder() {
        return false, k, dpl;
      }
      if k + 2 * dpl <= n {
        return true, k, dpl;
      }
      dpl := dpl - 1;
    }
    return false, 0, 0;
  }

  lemma FirstDigitIs(nb: nat)
    requires 3 <= nb <= NB_MODS
    ensures IntBits()[NB_MODS - nb] >= 89
    ensures FirstDigit(nb) == Smaller((IntBits()[NB_MODS - nb] - 4) / 2, 3 * LIMB_BITS - 4)
    ensures nb == NB_MODS ==> FirstDigit(nb) >= MaxDigit()
  {}

  lemma DigitsBelowBase()
    ensures 3 * LIMB_BITS < B
  {
    BaseFacts();
    PowMono(2, 9, LIMB_BITS);
    NineBits();
  }

  lemma ModuliAreFive()
    ensures NB_MODS == 5
  {}

  /** The cost of a transform never reaches the initial minimum. */
  lemma CostBelow(k: nat, nb: nat)
    requires k <= RootOrder() && 3 <= nb <= NB_MODS
    ensures B > 0 && ((k + 1) * Pow(2, k) * nb) % B < B - 1
  {
    hide *;
    var K := RootOrder();
    ModuliAreFive();
    RootWord();
    BaseFacts();
    PowMono(2, k, K);
    PowPositive(2, k);
    MulMono(k + 1, 52, Pow(2, k));
    MulMono(0, k + 1, Pow(2, k));
    MulMono((k + 1) * Pow(2, k), 52 * Pow(2, k), nb);
    MulMono(nb, 5, 52 * Pow(2, k));
    MulMono(0, (k + 1) * Pow(2, k), nb);
    SmallDiv((k + 1) * Pow(2, k) * nb, B);
  }

  lemma RootWord()
    ensures 512 * Pow(2, RootOrder()) <= B && RootOrder() <= 51
  {
    hide *;
    BaseFacts();
    OrderFits();
    NineBits();
    PowAdd(2, 9, RootOrder());
    PowMono(2, 9 + RootOrder(), LIMB_BITS);
  }

  lemma OrderFits()
    ensures 9 + RootOrder() <= LIMB_BITS && RootOrder() <= 51
  {}

  lemma NineBits()
    ensures Pow(2, 9) == 512
  {}

  /** LIMB_BITS + NTT_MOD_LOG2_MIN: digits that need no second reduction. */
  const SHORT_DIGIT: nat := 2 * LIMB_BITS - 3

  /** A shorter digit that still holds everything is as good. */
  lemma ShorterOk(bits: nat, k: nat, dpl: nat, nb: nat)
    requires SizeOk(bits, k, dpl, nb) && B > 0 && dpl > SHORT_DIGIT && (SHORT_DIGIT * Pow(2, k)) % B >= bits
    ensures SizeOk(bits, k, SHORT_DIGIT, nb)
  {
    hide Pow, B, IntBits;
    MulMono(0, SHORT_DIGIT, Pow(2, k));
    ModLeq(SHORT_DIGIT * Pow(2, k), B);
    MulSwap(SHORT_DIGIT, Pow(2, k));
  }

  /** The bits of len limbs, computed in a limb. */
  function WordBits(len: nat): (bits: nat)
    ensures bits < B
  {
    BaseFacts();
    MulMono(0, len, LIMB_BITS);
    len * LIMB_BITS % B
  }

  /** Nothing wraps around in the search for a size. */
  predicate NoWrap(len: nat) { len * LIMB_BITS + FirstDigit(NB_MODS) - 1 < B }

  lemma NoWrapIs(len: nat)
    ensures len * LIMB_BITS >= 0 && (NoWrap(len) <==> WordBits(len) == len * LIMB_BITS && !Overflows(WordBits(len)))
  {
    hide FirstDigit, B;
    FirstDigits(NB_MODS);
    BaseFacts();
    MulMono(0, len, LIMB_BITS);
    if len * LIMB_BITS < B {
      SmallDiv(len * LIMB_BITS, B);
    }
  }

  /** No size reaches the lengths at which something wraps around. */
  lemma TooShort(len: nat, k: nat, dpl: nat, nb: nat)
    requires SizeBounded(k, dpl, nb) && !NoWrap(len)
    ensures Pow(2, k) * dpl < len * LIMB_BITS
  {
    hide Pow, B, FirstDigit, RootOrder;
    RootWord();
    FirstDigits(NB_MODS);
    NarrowLimb();
    PowMono(2, k, RootOrder());
    PowPositive(2, k);
    MulMono(dpl, 3 * LIMB_BITS - 4, Pow(2, k));
    MulMono(Pow(2, k), Pow(2, RootOrder()), 3 * LIMB_BITS - 4);
    MulMono(3 * LIMB_BITS - 4, 188, Pow(2, RootOrder()));
    PowPositive(2, RootOrder());
  }

  lemma NarrowLimb()
    ensures LIMB_BITS <= 64
  {}

  lemma TransformableFits(len: nat)
    requires len * LIMB_BITS >= 0 && Transformable(len * LIMB_BITS)
    ensures NoWrap(len)
  {
    hide Pow, B, FirstDigit, RootOrder, IntBits, MaxDigit;
    RootWord();
    FirstDigits(NB_MODS);
    IntBitsRange(NB_MODS);
    NarrowLimb();
    PowPositive(2, RootOrder());
    MulMono(MaxDigit(), 128, Pow(2, RootOrder()));
    DigitsBelowBase();
  }

  /** bf_get_fft_size; not ok where it aborts. The bits are computed in limbs: the size found
      is long enough exactly when nothing wraps around. */
  method FftSize(len: nat) returns (ok: bool, k: nat, dpl: nat, nb: nat)
    ensures ok <==> Transformable(WordBits(len)) || Overflows(WordBits(len))
    ensures len * LIMB_BITS >= 0 && (ok ==> (SizeOk(len * LIMB_BITS, k, dpl, nb) <==> NoWrap(len)))
  {
    hide *;
    BaseFacts();
    FirstMods();
    MulMono(0, len, LIMB_BITS);
    var bits := WordBits(len);
    var minCost := B - 1;
    ok, k, dpl, nb := false, 0, 0, 4;
    var mods := 3;
    while mods <= NB_MODS
      invariant 3 <= mods <= NB_MODS + 1 && (!ok ==> minCost == B - 1)
      invariant ok ==> SizeBounded(k, dpl, nb) && (!Overflows(bits) ==> SizeOk(bits, k, dpl, nb))
      invariant mods == NB_MODS + 1 && (Transformable(bits) || Overflows(bits)) ==> ok
    {
      var found, k1, dpl1 := TrySize(bits, mods);
      if found {
        SizeBounds(k1, dpl1, mods);
        CostBelow(k1, mods);
        var cost := ((k1 + 1) * Pow(2, k1) * mods) % B;
        if cost < minCost {
          minCost := cost;
          ok, k, dpl, nb := true, k1, dpl1, mods;
        }
      }
      mods := mods + 1;
    }
    if ok {
      if !Overflows(bits) {
        SizeLimit(bits, k, dpl, nb);
      }
      SizeBounds(k, dpl, nb);
      if dpl > SHORT_DIGIT && (SHORT_DIGIT * Pow(2, k)) % B >= bits {
        if !Overflows(bits) {
          ShorterOk(bits, k, dpl, nb);
        }
        ShorterBounded(k, dpl, nb);
        dpl := SHORT_DIGIT;
      }
      SizeBounds(k, dpl, nb);
      NoWrapIs(len);
      if !NoWrap(len) {
        TooShort(len, k, dpl, nb);
        NotLong(len * LIMB_BITS, k, dpl, nb);
      }
    }
  }

  /** With 32-bit limbs, 2^27 limbs have no bits: a size is found, and it is too short. */
  lemma SizeTooShort()
    requires LIMB_BITS == 32
    ensures WordBits(0x800_0000) == 0 && Transformable(0) && !NoWrap(0x800_0000)
  {
    hide FirstDigit;
    FirstDigits(NB_MODS);
    BaseOf32();
    DivModIs(0x800_0000 * LIMB_BITS, B, 1, 0);
    MulMono(0, MaxDigit(), Pow(2, RootOrder()));
  }

  lemma BaseOf32()
    requires LIMB_BITS == 32
    ensures B == 0x1_0000_0000
  {
    PowAdd(2, 16, 16);
    PowAdd(2, 8, 8);
    assert Pow(2, 8) == 256;
  }

  lemma FirstMods()
    ensures 3 <= NB_MODS && SHORT_DIGIT >= 1
  {}

  lemma ShorterBounded(k: nat, dpl: nat, nb: nat)
    requires SizeBounded(k, dpl, nb) && dpl > SHORT_DIGIT
    ensures SizeBounded(k, SHORT_DIGIT, nb)
  {}

  lemma NotLong(bits: nat, k: nat, dpl: nat, nb: nat)
    requires Pow(2, k) * dpl < bits
    ensures !SizeOk(bits, k, dpl, nb)
  {
    hide Pow;
  }

  lemma SizeBounds(k: nat, dpl: nat, nb: nat)
    requires SizeBounded(k, dpl, nb)
    ensures k <= RootOrder() && 3 <= nb <= NB_MODS && 1 <= dpl <= 3 * LIMB_BITS - 4
  {}
}
