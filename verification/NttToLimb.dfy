/** Recombining the residues of all coefficients into the limbs of their sum
    (cpp/src/quickjs/libbf.c, ntt_to_limb, integer variant). */
module NttToLimb {
  import opened Powers
  import opened Limbs
  import opened Bits
  import opened NttWord
  import opened NttSums
  import opened NttDigits
  import opened NttCrt
  import opened NttWrite
  import opened NttMul

  // ---- sizes ----

  lemma {:induction false} ProductBelow(mods: seq<nat>, j: nat)
    requires j <= |mods| && forall t :: 0 <= t < |mods| ==> Modulus(mods[t])
    ensures Product(mods, j) <= Pow(B, j)
    ensures j >= 1 ==> 4 * Product(mods, j) <= Pow(B, j)
    decreases j
  {
    hide *;
    ProductStep(mods, j);
    PFacts();
    if j == 0 {
      PowStep(B, 0);
    } else {
      ProductBelow(mods, j - 1);
      PowStep(B, j - 1);
      ModulusIs(mods[j - 1]);
      MulMono(Product(mods, j - 1), Pow(B, j - 1), mods[j - 1]);
      MulMono(4 * mods[j - 1], B, Pow(B, j - 1));
      ProductPoly4(Pow(B, j - 1), mods[j - 1]);
    }
  }

  lemma ProductStep(mods: seq<nat>, j: nat)
    requires j <= |mods|
    ensures j == 0 ==> Product(mods, j) == 1
    ensures j > 0 ==> Product(mods, j) == Product(mods, j - 1) * mods[j - 1]
  {}

  lemma ProductPoly4(p: int, m: int)
    ensures 4 * (p * m) == (4 * m) * p
  {}

  // ---- one coefficient ----

  /** What the buffers hold: residues of the coefficients, below twice the moduli. */
  ghost predicate Residues(buf: seq<seq<nat>>, mods: seq<nat>, C: int -> int, n: nat)
  {
    |buf| == |mods| && forall j :: 0 <= j < |buf| ==> ResidueRow(buf[j], mods[j], C, n)
  }

  ghost predicate ResidueRow(row: seq<nat>, m: nat, C: int -> int, n: nat)
  {
    |row| == n && forall i :: 0 <= i < n ==> row[i] < 2 * m && Cg(row[i], C(i), m)
  }

  /** ntt_limb_to_int: the residue itself. */
  method Reduce(a: nat, m: nat, ghost c: nat) returns (r: nat)
    requires m > 0 && a < 2 * m && Cg(a, c, m)
    ensures r == c % m
  {
    hide *;
    r := if a >= m then a - m else a;
    CgIntro(r, a, m, if a >= m then -1 else 0);
    CgTrans(r, a, c, m);
    CgMod(c, m);
    CgSym(c % m, c, m);
    CgTrans(r, c, c % m, m);
    ModRange(c, m);
    CgSmall(r, c % m, m);
  }

  /** The residues of coefficient i. */
  method Gather(buf: seq<seq<nat>>, mods: seq<nat>, i: nat, n: nat, ghost C: int -> int) returns (y: seq<nat>)
    requires Residues(buf, mods, C, n) && i < n && C(i) >= 0 && forall t :: 0 <= t < |mods| ==> mods[t] > 0
    ensures |y| == |mods| && forall t :: 0 <= t < |mods| ==> y[t] == Residue(C(i), mods, 0, t)
  {
    hide *;
    y := [];
    ResidueCount(buf, mods, C, n);
    while |y| < |mods|
      invariant |y| <= |mods| == |buf|
      invariant forall t :: 0 <= t < |y| ==> y[t] == Residue(C(i), mods, 0, t)
      decreases |mods| - |y|
    {
      var j := |y|;
      ResidueAt(buf, mods, C, n, j, i);
      var r := Reduce(buf[j][i], mods[j], C(i));
      ResidueStart(C(i), mods, j);
      y := y + [r];
    }
  }

  lemma ResidueCount(buf: seq<seq<nat>>, mods: seq<nat>, C: int -> int, n: nat)
    requires Residues(buf, mods, C, n)
    ensures |buf| == |mods|
  {}

  lemma ResidueAt(buf: seq<seq<nat>>, mods: seq<nat>, C: int -> int, n: nat, j: nat, i: nat)
    requires Residues(buf, mods, C, n) && j < |buf| && i < n
    ensures |buf| == |mods| && |buf[j]| == n && buf[j][i] < 2 * mods[j] && Cg(buf[j][i], C(i), mods[j])
  {
    hide Cg;
    assert ResidueRow(buf[j], mods[j], C, n);
  }

  lemma ResidueStart(x: nat, mods: seq<nat>, t: nat)
    requires t < |mods| && forall s :: 0 <= s < |mods| ==> mods[s] > 0
    ensures Residue(x, mods, 0, t) == x % mods[t]
  {}

  /** The sum of the first i coefficients, weighted: w written, the rest still in the carry. */
  lemma NextSum(C: int -> int, dpl: nat, i: nat, w: nat, c: nat, d: nat, c': nat, s: nat)
    requires s == i * dpl && w + c * Pow(2, s) == Sum(i, Weighted(C, Pow(2, dpl))) && w < Pow(2, s)
    requires C(i) + c == d + c' * Pow(2, dpl) && d < Pow(2, dpl)
    ensures s + dpl == (i + 1) * dpl
    ensures (w + d * Pow(2, s)) + c' * Pow(2, s + dpl) == Sum(i + 1, Weighted(C, Pow(2, dpl)))
    ensures w + d * Pow(2, s) < Pow(2, s + dpl)
  {
    hide *;
    MulDist(dpl, i, 1);
    PowAdd(2, s, dpl);
    PowOfPow(dpl, i);
    WeightedAt(C, Pow(2, dpl), i);
    SumStep(i, Weighted(C, Pow(2, dpl)));
    NextPoly(w, c, d, c', Pow(2, s), Pow(2, dpl), C(i));
    MulMono(d + 1, Pow(2, dpl), Pow(2, s));
    MulDist(Pow(2, s), d, 1);
    MulSwap(Pow(2, s), Pow(2, dpl));
  }

  lemma SumStep(i: nat, f: int -> int)
    ensures Sum(i + 1, f) == Sum(i, f) + f(i)
  {}

  lemma NextPoly(w: int, c: int, d: int, c': int, p: int, T: int, x: int)
    requires x + c == d + c' * T
    ensures (w + d * p) + c' * (p * T) == (w + c * p) + x * p
  {
    assert (x + c) * p == x * p + c * p;
    assert (d + c' * T) * p == d * p + c' * (p * T);
  }

  lemma CarryBound(u: nat, T: nat, M: nat)
    requires T >= 2 && u <= 2 * M
    ensures u / T <= M
  {
    DivModIdentity(u, T);
    MulMono(2, T, u / T);
  }

  lemma WrittenStep(v: int, w: int, d: int, M: int)
    requires M > 0 && v == w % M
    ensures (v + d) % M == (w + d) % M
  {
    ModAdd(w, d, M);
  }

  /** One turn of the loop over the coefficients. */
  method PutCoefficient(tab: seq<Limb>, pos: nat, y0: seq<nat>, carry: seq<Limb>, dpl: nat, mods: seq<nat>,
      cr: seq<nat>, ghost x: nat)
      returns (t: seq<Limb>, c: seq<Limb>)
    requires CrtTable(mods, cr) && |mods| >= 2 && |carry| == |mods| && (forall s :: 0 <= s < |mods| ==> mods[s] > 0)
    requires |y0| == |mods| && forall s :: 0 <= s < |mods| ==> y0[s] == Residue(x, mods, 0, s)
    requires 1 <= dpl && (dpl - 1) / LIMB_BITS < |mods| && Val(tab) < Pow(2, pos)
    requires x < Product(mods, |mods|) && Val(carry) <= Product(mods, |mods|)
    ensures |t| == |tab| && |c| == |mods| && Pow(2, dpl) > 0 && Pow(B, |tab|) > 0
    ensures Val(c) == (x + Val(carry)) / Pow(2, dpl) && Val(c) <= Product(mods, |mods|)
    ensures Val(t) == (Val(tab) + ((x + Val(carry)) % Pow(2, dpl)) * Pow(2, pos)) % Pow(B, |tab|)
  {
    hide *;
    TableParts(mods, cr);
    ProductBelow(mods, |mods|);
    PowStep(2, 0);
    PowMono(2, 1, dpl);
    var y := Garner(y0, mods, cr, x);
    var u := BackToLimbs(y, mods, cr, carry, x);
    t := WriteDigit(tab, pos, u, dpl);
    c := ShiftDown(u, dpl);
    CarryBound(x + Val(carry), Pow(2, dpl), Product(mods, |mods|));
  }

  // ---- the loop ----

  /** Coefficients from L on only add multiples of 2^(L*dpl). */
  lemma {:induction false} LaterTerms(C: int -> int, dpl: nat, l: nat, n: nat) returns (q: int)
    requires l <= n
    ensures l * dpl >= 0 && Sum(n, Weighted(C, Pow(2, dpl))) == Sum(l, Weighted(C, Pow(2, dpl))) + q * Pow(2, l * dpl)
    decreases n
  {
    hide *;
    MulMono(0, l, dpl);
    if l == n {
      q := 0;
    } else {
      var r := LaterTerms(C, dpl, l, n - 1);
      MulMono(l, n - 1, dpl);
      var e := (n - 1) * dpl - l * dpl;
      PowAdd(2, l * dpl, e);
      PowOfPow(dpl, n - 1);
      SumStep(n - 1, Weighted(C, Pow(2, dpl)));
      WeightedAt(C, Pow(2, dpl), n - 1);
      q := r + C(n - 1) * Pow(2, e);
      LaterPoly(r, C(n - 1), Pow(2, l * dpl), Pow(2, e));
    }
  }

  lemma LaterPoly(r: int, c: int, p: int, e: int)
    ensures r * p + c * (p * e) == (r + c * e) * p
  {}

  /** What is written agrees with the whole sum on all the limbs of the result. */
  lemma WholeSum(C: int -> int, dpl: nat, l: nat, n: nat, w: nat, c: nat, rLen: nat)
    requires l <= n && l * dpl >= rLen * LIMB_BITS >= 0 && w + c * Pow(2, l * dpl) == Sum(l, Weighted(C, Pow(2, dpl)))
    ensures Pow(B, rLen) > 0 && w % Pow(B, rLen) == Sum(n, Weighted(C, Pow(2, dpl))) % Pow(B, rLen)
  {
    hide *;
    var q := LaterTerms(C, dpl, l, n);
    var s, e := rLen * LIMB_BITS, l * dpl - rLen * LIMB_BITS;
    BasePow(rLen);
    PowPositive(2, s);
    PowAdd(2, s, e);
    WholePoly(w, c, q, Pow(2, s), Pow(2, e));
    AddMultiple(w, (c + q) * Pow(2, e), Pow(2, s));
  }

  lemma WholePoly(w: int, c: int, q: int, p: int, e: int)
    ensures w + c * (p * e) + q * (p * e) == w + ((c + q) * e) * p
  {}

  function DigitCount(fftLen: nat, rLen: nat, dpl: nat): (l: int)
    requires dpl > 0
  {
    var l := (rLen * LIMB_BITS + dpl - 1) / dpl;
    if fftLen < l then fftLen else l
  }

  lemma DigitCountIs(fftLen: nat, rLen: nat, dpl: nat)
    requires dpl > 0 && fftLen * dpl >= rLen * LIMB_BITS
    ensures 0 <= DigitCount(fftLen, rLen, dpl) <= fftLen && DigitCount(fftLen, rLen, dpl) * dpl >= rLen * LIMB_BITS >= 0
  {
    MulMono(0, rLen, LIMB_BITS);
    DivModIdentity(rLen * LIMB_BITS + dpl - 1, dpl);
  }

  /** ntt_to_limb: the coefficients, weighted by powers of 2^dpl and summed, cut to rLen limbs. */
  method NttToLimb(rLen: nat, buf: seq<seq<nat>>, fftLen: nat, dpl: nat, mods: seq<nat>,
      cr: seq<nat>, ghost C: int -> int)
      returns (tab: seq<Limb>)
    requires CrtTable(mods, cr) && |mods| >= 3 && 1 <= dpl <= 3 * LIMB_BITS && fftLen * dpl >= rLen * LIMB_BITS
    requires Residues(buf, mods, C, fftLen) && forall i :: 0 <= i < fftLen ==> 0 <= C(i) < Product(mods, |mods|)
    ensures |tab| == rLen && Pow(B, rLen) > 0 && Val(tab) == Sum(fftLen, Weighted(C, Pow(2, dpl))) % Pow(B, rLen)
  {
    hide *;
    TableParts(mods, cr);
    DigitCountIs(fftLen, rLen, dpl);
    DigitLimbs(dpl);
    var n := DigitCount(fftLen, rLen, dpl);
    tab := Zeros(rLen);
    var carry := Zeros(|mods|);
    ZeroBuffer(rLen);
    ZeroBuffer(|mods|);
    ProgressStart(C, dpl, tab, carry, |mods|, Product(mods, |mods|));
    ghost var w := 0;
    var i, pos := 0, 0;
    while i < n
      invariant 0 <= i <= n && pos == i * dpl && |tab| == rLen && |carry| == |mods|
      invariant Progress(C, dpl, i, w, tab, carry, Product(mods, |mods|))
    {
      var y := Gather(buf, mods, i, fftLen, C);
      ProgressParts(C, dpl, i, w, tab, carry, Product(mods, |mods|));
      ghost var tab0, carry0 := tab, carry;
      tab, carry := PutCoefficient(tab, pos, y, carry, dpl, mods, cr, C(i));
      w := ProgressStep(C, dpl, i, w, tab0, carry0, tab, carry, Product(mods, |mods|));
      MulDist(dpl, i, 1);
      i, pos := i + 1, pos + dpl;
    }
    Finished(C, dpl, n, fftLen, w, tab, carry, Product(mods, |mods|));
  }

  /** After i coefficients: w is written, as far as the buffer goes, and the rest is the carry. */
  ghost predicate Progress(C: int -> int, dpl: nat, i: nat, w: nat, tab: seq<Limb>, carry: seq<Limb>, M: nat)
  {
    && Val(carry) <= M && w < Pow(2, i * dpl) && Val(tab) == w % Pow(B, |tab|)
    && w + Val(carry) * Pow(2, i * dpl) == Sum(i, Weighted(C, Pow(2, dpl)))
  }

  lemma ProgressStart(C: int -> int, dpl: nat, tab: seq<Limb>, carry: seq<Limb>, nb: nat, M: nat)
    requires Val(tab) == 0 && Val(carry) == 0
    ensures Progress(C, dpl, 0, 0, tab, carry, M)
  {
    hide Weighted, Sum, Pow, B;
    PowStep(2, 0);
    SumNone(Weighted(C, Pow(2, dpl)));
    BasePositive();
    PowPositive(B, |tab|);
    SmallDiv(0, Pow(B, |tab|));
  }

  lemma ProgressParts(C: int -> int, dpl: nat, i: nat, w: nat, tab: seq<Limb>, carry: seq<Limb>, M: nat)
    requires Progress(C, dpl, i, w, tab, carry, M)
    ensures i * dpl >= 0 && Val(tab) < Pow(2, i * dpl) && Val(carry) <= M && w < Pow(2, i * dpl)
    ensures Pow(B, |tab|) > 0 && Val(tab) == w % Pow(B, |tab|)
    ensures w + Val(carry) * Pow(2, i * dpl) == Sum(i, Weighted(C, Pow(2, dpl)))
  {
    hide Weighted, Sum, Pow, B;
    MulMono(0, i, dpl);
    BasePositive();
    PowPositive(B, |tab|);
    ModLeq(w, Pow(B, |tab|));
  }

  lemma ProgressStep(C: int -> int, dpl: nat, i: nat, w: nat, tab0: seq<Limb>, carry0: seq<Limb>,
      tab: seq<Limb>, carry: seq<Limb>, M: nat)
      returns (w': nat)
    requires Progress(C, dpl, i, w, tab0, carry0, M) && |tab| == |tab0| && Pow(2, dpl) > 0 && Pow(B, |tab|) > 0
      && C(i) >= 0
    requires Val(carry) == (C(i) + Val(carry0)) / Pow(2, dpl) && Val(carry) <= M && i * dpl >= 0
    requires Val(tab) == (Val(tab0) + ((C(i) + Val(carry0)) % Pow(2, dpl)) * Pow(2, i * dpl)) % Pow(B, |tab|)
    ensures Progress(C, dpl, i + 1, w', tab, carry, M)
  {
    hide *;
    ProgressParts(C, dpl, i, w, tab0, carry0, M);
    var s, c, c' := i * dpl, Val(carry0), Val(carry);
    var d := (C(i) + c) % Pow(2, dpl);
    DivModIdentity(C(i) + c, Pow(2, dpl));
    NextSum(C, dpl, i, w, c, d, c', s);
    WrittenStep(Val(tab0), w, d * Pow(2, s), Pow(B, |tab|));
    MulMono(0, d, Pow(2, s));
    w' := w + d * Pow(2, s);
    ProgressIntro(C, dpl, i + 1, w', tab, carry, M);
  }

  lemma ProgressIntro(C: int -> int, dpl: nat, i: nat, w: nat, tab: seq<Limb>, carry: seq<Limb>, M: nat)
    requires Val(carry) <= M && i * dpl >= 0 && w < Pow(2, i * dpl) && Pow(B, |tab|) > 0
      && Val(tab) == w % Pow(B, |tab|)
    requires w + Val(carry) * Pow(2, i * dpl) == Sum(i, Weighted(C, Pow(2, dpl)))
    ensures Progress(C, dpl, i, w, tab, carry, M)
  {
    hide Weighted, Sum, Pow, B;
  }

  lemma Finished(C: int -> int, dpl: nat, l: nat, n: nat, w: nat, tab: seq<Limb>, carry: seq<Limb>, M: nat)
    requires Progress(C, dpl, l, w, tab, carry, M) && l <= n && l * dpl >= |tab| * LIMB_BITS >= 0
    ensures Pow(B, |tab|) > 0 && Val(tab) == Sum(n, Weighted(C, Pow(2, dpl))) % Pow(B, |tab|)
  {
    hide *;
    ProgressParts(C, dpl, l, w, tab, carry, M);
    WholeSum(C, dpl, l, n, w, Val(carry), |tab|);
  }

  lemma DigitLimbs(dpl: nat)
    requires 1 <= dpl <= 3 * LIMB_BITS
    ensures 0 <= (dpl - 1) / LIMB_BITS < 3
  {
    DivBelow(dpl - 1, LIMB_BITS, 3);
  }

  lemma ZeroBuffer(n: nat)
    ensures Val(Zeros(n)) == 0
  {
    ValZeros(Zeros(n));
  }

  lemma SumNone(f: int -> int)
    ensures Sum(0, f) == 0
  {}
}
