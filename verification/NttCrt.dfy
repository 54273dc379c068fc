/** From residues back to limbs (cpp/src/quickjs/libbf.c, ntt_to_limb, integer
    variant): Chinese remainders in mixed radix, then carries between digits. */
module NttCrt {
  import opened Powers
  import opened Limbs
  import opened Bits
  import opened NttWord
  import opened NttSums
  import opened NttDigits

  // ---- mixed radix ----

  /** x with the first j moduli divided out. */
  ghost function Chain(x: nat, mods: seq<nat>, j: nat): (r: nat)
    requires j <= |mods| && forall t :: 0 <= t < |mods| ==> mods[t] > 0
  {
    if j == 0 then x else Chain(x, mods, j - 1) / mods[j - 1]
  }

  function Product(mods: seq<nat>, j: nat): (p: nat)
    requires j <= |mods|
  {
    if j == 0 then 1 else Product(mods, j - 1) * mods[j - 1]
  }

  /** Where the inverses of modulus j begin in the flat table. */
  function CrBase(nb: nat, j: nat): (l: nat)
    requires j <= nb
  {
    if j == 0 then 0 else CrBase(nb, j - 1) + (nb - j)
  }

  /** Sorted moduli of the right size, with the inverses of the smaller modulo the larger. */
  ghost predicate CrtTable(mods: seq<nat>, cr: seq<nat>)
  {
    && |mods| >= 1 && (forall t :: 0 <= t < |mods| ==> Modulus(mods[t]) && mods[t] > 0)
    && (forall s, t :: 0 <= s < t < |mods| ==> mods[s] < mods[t])
    && |cr| >= CrBase(|mods|, |mods|)
    && (forall j, k :: 0 <= j < k < |mods| ==> CrEntry(mods, cr, j, k))
  }

  ghost predicate CrEntry(mods: seq<nat>, cr: seq<nat>, j: nat, k: nat)
    requires j < k < |mods|
  {
    var l := CrBase(|mods|, j) + (k - j - 1);
    l < |cr| && cr[l] < mods[k] && Cg(cr[l] * mods[j], 1, mods[k])
  }

  lemma TableParts(mods: seq<nat>, cr: seq<nat>)
    requires CrtTable(mods, cr)
    ensures forall t :: 0 <= t < |mods| ==> Modulus(mods[t]) && mods[t] > 0
    ensures forall s, t :: 0 <= s < t < |mods| ==> mods[s] < mods[t]
  {
    hide CrEntry, Modulus;
  }

  /** One elimination: y[k] goes from the residue of X to that of X / m_j. */
  lemma Eliminate(X: nat, mj: nat, mk: nat, c: nat, y: nat)
    requires mj > 0 && mk > 0 && c < mk && Cg(c * mj, 1, mk) && y == (X % mk - X % mj + mk) * c % mk
    ensures y == (X / mj) % mk
  {
    hide *;
    var q, r := X / mj, X % mj;
    DivModIdentity(X, mj);
    DivModIdentity(X, mk);
    var d := X % mk - r + mk;
    CgMod(X, mk);
    CgIntro(d, X - r, mk, -(X / mk) + 1);
    CgScale(d, q * mj, c, mk);
    CgScale(c * mj, 1, q, mk);
    EliminatePoly(q, mj, c);
    CgTrans(d * c, q * mj * c, q, mk);
    CgMod(d * c, mk);
    CgTrans(y, d * c, q, mk);
    CgMod(q, mk);
    CgSym(q % mk, q, mk);
    CgTrans(y, q, q % mk, mk);
    DivModIdentity(q, mk);
    ModRange(d * c, mk);
    CgSmall(y, q % mk, mk);
  }

  lemma ModRange(x: int, m: int)
    requires m > 0
    ensures 0 <= x % m < m
  {}

  lemma EliminatePoly(q: int, m: int, c: int)
    ensures q * m * c == q * (c * m)
  {}

  /** The elimination as the code computes it, without overflow. */
  method EliminateWord(ghost X: nat, mj: nat, mk: nat, c: nat, yk: nat, yj: nat) returns (y: nat)
    requires Modulus(mj) && Modulus(mk) && 0 < mj < mk && c < mk && Cg(c * mj, 1, mk) && yk == X % mk && yj == X % mj
    ensures y == (X / mj) % mk
  {
    hide *;
    PFacts();
    ModulusIs(mk);
    ModulusIs(mj);
    DivModIdentity(X, mj);
    DivModIdentity(X, mk);
    var d: Limb := yk - yj + mk;
    MulModFast2Is(d, c, mk);
    ModRange(d * c, mk);
    y := MulModFast2(d, c, mk, Quotient2(c, mk));
    Eliminate(X, mj, mk, c, y);
  }

  /** The digits of x in the mixed radix of the moduli. */
  ghost predicate MixedRadix(y: seq<nat>, x: nat, mods: seq<nat>)
    requires forall t :: 0 <= t < |mods| ==> mods[t] > 0
  {
    |y| == |mods| && forall t :: 0 <= t < |y| ==> y[t] == Chain(x, mods, t) % mods[t]
  }

  lemma ChainNext(x: nat, mods: seq<nat>, j: nat)
    requires j < |mods| && forall t :: 0 <= t < |mods| ==> mods[t] > 0
    ensures Chain(x, mods, j + 1) == Chain(x, mods, j) / mods[j] && Chain(x, mods, 0) == x
  {}

  lemma CrNext(nb: nat, j: nat)
    requires j < nb
    ensures CrBase(nb, j + 1) == CrBase(nb, j) + (nb - 1 - j) && CrBase(nb, 0) == 0
  {}

  lemma CrEntryIs(mods: seq<nat>, cr: seq<nat>, j: nat, k: nat, l: nat)
    requires CrtTable(mods, cr) && j < k < |mods| && l == CrBase(|mods|, j) + (k - j - 1)
    ensures l < |cr| && cr[l] < mods[k] && Cg(cr[l] * mods[j], 1, mods[k])
  {
    hide Cg, Modulus;
    assert CrEntry(mods, cr, j, k);
  }

  ghost function Residue(x: nat, mods: seq<nat>, j: nat, t: nat): (r: nat)
    requires j <= |mods| && t < |mods| && forall s :: 0 <= s < |mods| ==> mods[s] > 0
  {
    Chain(x, mods, j) % mods[t]
  }

  lemma ResidueIs(x: nat, mods: seq<nat>, j: nat, t: nat)
    requires j <= |mods| && t < |mods| && forall s :: 0 <= s < |mods| ==> mods[s] > 0
    ensures Residue(x, mods, j, t) == Chain(x, mods, j) % mods[t]
  {}

  /** All eliminations by modulus j. */
  method EliminateRow(y0: seq<nat>, mods: seq<nat>, cr: seq<nat>, j: nat, l0: nat, ghost x: nat) returns (y: seq<nat>)
    requires CrtTable(mods, cr) && (forall s :: 0 <= s < |mods| ==> mods[s] > 0) && j < |mods| == |y0|
      && l0 == CrBase(|mods|, j)
    requires forall t :: j <= t < |mods| ==> y0[t] == Residue(x, mods, j, t)
    ensures |y| == |mods| && (forall t :: 0 <= t <= j ==> y[t] == y0[t])
    ensures forall t :: j < t < |mods| ==> y[t] == Residue(x, mods, j + 1, t)
  {
    hide *;
    TableParts(mods, cr);
    y := y0;
    ChainNext(x, mods, j);
    ResidueIs(x, mods, j, j);
    var k, l := j + 1, l0;
    while k < |mods|
      invariant j + 1 <= k <= |mods| == |y| && l == CrBase(|mods|, j) + (k - j - 1)
      invariant forall t :: 0 <= t <= j ==> y[t] == y0[t]
      invariant forall t :: j < t < k ==> y[t] == Residue(x, mods, j + 1, t)
      invariant forall t :: k <= t < |mods| ==> y[t] == Residue(x, mods, j, t)
    {
      CrEntryIs(mods, cr, j, k, l);
      ResidueIs(x, mods, j, k);
      ResidueIs(x, mods, j + 1, k);
      var v := EliminateWord(Chain(x, mods, j), mods[j], mods[k], cr[l], y[k], y[j]);
      y := y[k := v];
      l := l + 1;
      k := k + 1;
    }
  }

  /** The elimination loops. */
  method Garner(y0: seq<nat>, mods: seq<nat>, cr: seq<nat>, ghost x: nat) returns (y: seq<nat>)
    requires CrtTable(mods, cr) && (forall s :: 0 <= s < |mods| ==> mods[s] > 0)
    requires |y0| == |mods| && forall t :: 0 <= t < |mods| ==> y0[t] == Residue(x, mods, 0, t)
    ensures MixedRadix(y, x, mods)
  {
    hide *;
    y := y0;
    var nb := |mods|;
    var j, l := 0, 0;
    CrZero(nb);
    while j + 1 < nb
      invariant 0 <= j && (j + 1 <= nb || (nb == 0 && j == 0)) && |y| == nb && l == CrBase(nb, j)
      invariant forall t :: 0 <= t < j ==> y[t] == Residue(x, mods, t, t)
      invariant forall t :: j <= t < nb ==> y[t] == Residue(x, mods, j, t)
    {
      y := EliminateRow(y, mods, cr, j, l, x);
      CrNext(nb, j);
      l := l + (nb - 1 - j);
      j := j + 1;
    }
    MixedIntro(y, x, mods);
  }

  lemma CrZero(nb: nat)
    ensures CrBase(nb, 0) == 0
  {}

  lemma MixedIntro(y: seq<nat>, x: nat, mods: seq<nat>)
    requires forall t :: 0 <= t < |mods| ==> mods[t] > 0
    requires |y| == |mods| && forall t :: 0 <= t < |y| ==> y[t] == Residue(x, mods, t, t)
    ensures MixedRadix(y, x, mods)
  {
    hide Chain;
  }

  // ---- back to limbs ----

  lemma {:induction false} ChainBound(x: nat, mods: seq<nat>, j: nat)
    requires j <= |mods| && forall t :: 0 <= t < |mods| ==> mods[t] > 0
    ensures Chain(x, mods, j) * Product(mods, j) <= x
    decreases j
  {
    if j > 0 {
      ChainBound(x, mods, j - 1);
      var X, m := Chain(x, mods, j - 1), mods[j - 1];
      assert Chain(x, mods, j) == X / m && Product(mods, j) == Product(mods, j - 1) * m;
      hide Chain, Product;
      DivModIdentity(X, m);
      MulMono((X / m) * m, X, Product(mods, j - 1));
      ChainPoly(X / m, m, Product(mods, j - 1));
    }
  }

  lemma ChainPoly(q: int, m: int, p: int)
    ensures (q * m) * p == q * (p * m)
  {}

  /** The last mixed radix digit is all that is left. */
  lemma LastDigit(x: nat, mods: seq<nat>)
    requires |mods| > 0 && (forall t :: 0 <= t < |mods| ==> mods[t] > 0) && x < Product(mods, |mods|)
    ensures var n := |mods| - 1; Chain(x, mods, n) < mods[n]
  {
    hide Chain, Product;
    var n := |mods| - 1;
    ChainBound(x, mods, n + 1);
    ChainNext(x, mods, n);
    var X, m := Chain(x, mods, n), mods[n];
    DivModIdentity(X, m);
    if X / m >= 1 {
      MulMono(1, X / m, Product(mods, n + 1));
      assert false;
    }
  }

  /** t = u*m + r + c in a double word. */
  method MulAddWord(u: Limb, m: nat, r: nat, c: Limb) returns (lo: Limb, hi: nat)
    requires Modulus(m) && r < B
    ensures lo + hi * B == u * m + r + c && hi < B
  {
    hide *;
    PFacts();
    ModulusIs(m);
    BasePositive();
    var t := u * m + r + c;
    MulMono(0, u, m);
    WordBound(u, m, r, c, B, P);
    DivModIdentity(t, B);
    DivBelow(t, B, B);
    lo, hi := t % B, t / B;
  }

  lemma WordBound(u: int, m: int, r: int, c: int, b: int, p: int)
    requires b == 8 * p && p >= 1 && 0 <= u < b && 0 <= m < 2 * p && 0 <= r < b && 0 <= c < b
    ensures u * m + r + c < b * b
  {
    MulMono(u, b - 1, m);
    MulMono(m, b - 2, b - 1);
    assert (b - 1) * (b - 2) + 2 * b <= b * b by { assert (b - 1) * (b - 2) == b * b - 3 * b + 2; }
  }

  /** u*m + r + c over several limbs. */
  method MulAdd(u: seq<Limb>, m: nat, r0: nat, c: seq<Limb>) returns (v: seq<Limb>, r: nat)
    requires Modulus(m) && r0 < B && |c| >= |u|
    ensures |v| == |u| && r < B && Val(v) + Pow(B, |u|) * r == Val(u) * m + r0 + Val(c[..|u|])
  {
    hide *;
    v, r := [], r0;
    ValNil(v);
    PowStep(B, 0);
    assert u[..0] == [] && c[..0] == [];
    while |v| < |u|
      invariant |v| <= |u| && r < B && Val(v) + Pow(B, |v|) * r == Val(u[..|v|]) * m + r0 + Val(c[..|v|])
      decreases |u| - |v|
    {
      var k := |v|;
      var lo, hi := MulAddWord(u[k], m, r, c[k]);
      ValSnoc(v, lo);
      assert u[..k + 1] == u[..k] + [u[k]] && c[..k + 1] == c[..k] + [c[k]];
      ValSnoc(u[..k], u[k]);
      ValSnoc(c[..k], c[k]);
      PowStep(B, k);
      MulAddPoly(Val(v), Pow(B, k), r, lo, hi, B, Val(u[..k]), u[k], m, r0, Val(c[..k]), c[k]);
      v, r := v + [lo], hi;
    }
    assert u[..|u|] == u;
  }

  lemma MulAddPoly(v: int, p: int, r: int, lo: int, hi: int, b: int, u: int, x: int, m: int, r0: int, c: int, y: int)
    requires v + p * r == u * m + r0 + c && lo + hi * b == x * m + r + y
    ensures (v + p * lo) + (b * p) * hi == (u + p * x) * m + r0 + (c + p * y)
  {
    assert p * (lo + hi * b) == p * lo + (b * p) * hi;
    assert p * (x * m + r + y) == (p * x) * m + p * r + p * y;
    assert (u + p * x) * m == u * m + (p * x) * m;
  }

  function Zeros(n: nat): (z: seq<Limb>)
    ensures |z| == n
  {
    seq(n, _ => 0)
  }

  lemma ZerosValue(n: nat, k: nat)
    requires k <= n
    ensures Val(Zeros(n)[..k]) == 0
  {
    ValZeros(Zeros(n)[..k]);
  }

  /** From mixed radix digits to limbs, adding the carry. */
  method BackToLimbs(y: seq<nat>, mods: seq<nat>, cr: seq<nat>, carry: seq<Limb>, ghost x: nat) returns (u: seq<Limb>)
    requires CrtTable(mods, cr) && |mods| >= 2 && |carry| == |mods| && (forall t :: 0 <= t < |mods| ==> mods[t] > 0)
    requires MixedRadix(y, x, mods) && x < Product(mods, |mods|) && x + Val(carry) < Pow(B, |mods|)
    ensures |u| == |mods| && Val(u) == x + Val(carry)
  {
    hide *;
    TableParts(mods, cr);
    MixedParts(y, x, mods);
    var nb := |mods|;
    TopDigit(y, mods, x);
    u := [y[nb - 1]];
    ValOne(y[nb - 1]);
    var j := nb - 2;
    while j >= 1
      invariant 0 <= j <= nb - 2 && |u| == nb - 1 - j && Val(u) == Chain(x, mods, j + 1)
      decreases j
    {
      u := Horner(u, y[j], mods, j, x);
      j := j - 1;
    }
    ChainHorner(x, mods, 0);
    var v, r := MulAdd(u, mods[0], y[0], carry);
    u := LastCarry(v, r, carry, x);
  }

  lemma TopDigit(y: seq<nat>, mods: seq<nat>, x: nat)
    requires |mods| > 0 && (forall t :: 0 <= t < |mods| ==> Modulus(mods[t]) && mods[t] > 0)
      && x < Product(mods, |mods|)
    requires |y| == |mods| && forall t :: 0 <= t < |y| ==> y[t] == Chain(x, mods, t) % mods[t]
    ensures var n := |mods| - 1; y[n] == Chain(x, mods, n) && y[n] < B
  {
    hide *;
    var n := |mods| - 1;
    LastDigit(x, mods);
    DigitFits(mods, n);
    SmallDiv(Chain(x, mods, n), mods[n]);
  }

  /** Dividing and taking the remainder can be undone. */
  lemma ChainHorner(x: nat, mods: seq<nat>, j: nat)
    requires j < |mods| && (forall t :: 0 <= t < |mods| ==> mods[t] > 0) && Modulus(mods[j])
    ensures Chain(x, mods, j) == Chain(x, mods, j + 1) * mods[j] + Chain(x, mods, j) % mods[j]
    ensures 0 <= Chain(x, mods, j) % mods[j] < B && Chain(x, mods, 0) == x
  {
    hide *;
    ChainNext(x, mods, j);
    DigitFits(mods, j);
    DivModIdentity(Chain(x, mods, j), mods[j]);
  }

  method Horner(u: seq<Limb>, d: nat, mods: seq<nat>, j: nat, ghost x: nat) returns (v: seq<Limb>)
    requires j < |mods| && (forall t :: 0 <= t < |mods| ==> mods[t] > 0) && Modulus(mods[j])
    requires Val(u) == Chain(x, mods, j + 1) && d == Chain(x, mods, j) % mods[j]
    ensures |v| == |u| + 1 && Val(v) == Chain(x, mods, j)
  {
    hide *;
    ChainHorner(x, mods, j);
    var w, r := MulAdd(u, mods[j], d, Zeros(|u|));
    ZerosValue(|u|, |u|);
    ValSnoc(w, r);
    v := w + [r];
  }

  method LastCarry(v: seq<Limb>, r: nat, carry: seq<Limb>, ghost x: nat) returns (u: seq<Limb>)
    requires |carry| == |v| + 1 && r < B && x + Val(carry) < Pow(B, |carry|)
    requires Val(v) + Pow(B, |v|) * r == x + Val(carry[..|v|])
    ensures |u| == |carry| && Val(u) == x + Val(carry)
  {
    hide *;
    var l := |v|;
    assert carry == carry[..l] + [carry[l]];
    ValSnoc(carry[..l], carry[l]);
    PowStep(B, l);
    MulDist(Pow(B, l), r, carry[l]);
    BasePositive();
    PowPositive(B, l);
    LastFits(Val(v), Pow(B, l), r + carry[l], B, x + Val(carry));
    ValSnoc(v, r + carry[l]);
    u := v + [r + carry[l]];
  }

  lemma LastFits(v: int, p: int, h: int, b: int, s: int)
    requires v >= 0 && p > 0 && v + p * h == s < b * p && h >= 0
    ensures h < b
  {
    if h >= b {
      MulMono(b, h, p);
      assert false;
    }
  }

  lemma DigitFits(mods: seq<nat>, j: nat)
    requires j < |mods| && Modulus(mods[j])
    ensures mods[j] < B
  {
    hide *;
    PFacts();
    ModulusIs(mods[j]);
  }

  lemma MixedParts(y: seq<nat>, x: nat, mods: seq<nat>)
    requires (forall t :: 0 <= t < |mods| ==> mods[t] > 0) && MixedRadix(y, x, mods)
    ensures |y| == |mods| && forall t :: 0 <= t < |y| ==> y[t] == Chain(x, mods, t) % mods[t]
  {
    hide Chain;
  }
}
