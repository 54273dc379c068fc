/** Correctly rounded multiplication (cpp/src/quickjs/libbf.c, bf_mul). */
module BfMul {
  import opened Powers
  import opened Limbs
  import opened Bits
  import opened Rounding
  import opened BfRound
  import opened BfAdd
  import LargeDivision

  /** The limbs of the product, by the base case or by transforms. */
  method MulLimbs(ta: seq<Limb>, tb: seq<Limb>) returns (t: seq<Limb>)
    requires |tb| >= 1
    ensures |t| == |ta| + |tb| && Val(t) == Val(ta) * Val(tb)
  {
    hide *;
    BasePositive();
    var a := new Limb[|ta|](i requires 0 <= i < |ta| => ta[i]);
    var b := new Limb[|tb|](i requires 0 <= i < |tb| => tb[i]);
    var r := new Limb[|ta| + |tb|](_ => 0);
    assert a[0..0 + |ta|] == ta && b[0..0 + |tb|] == tb;
    LargeDivision.MpMul(r, 0, a, 0, |ta|, b, 0, |tb|);
    t := r[..];
    assert r[0..0 + |ta| + |tb|] == r[..];
  }

  /** The magnitude of a product of limb strings. */
  lemma ProductMagnitude(ta: seq<Limb>, ea: int, tb: seq<Limb>, eb: int, t: seq<Limb>)
    requires |t| == |ta| + |tb| && Val(t) == Val(ta) * Val(tb)
    ensures Magnitude(t, ea + eb) == Magnitude(ta, ea) * Magnitude(tb, eb)
  {
    hide *;
    MagnitudeIs(ta, ea);
    MagnitudeIs(tb, eb);
    MagnitudeIs(t, ea + eb);
    ExponentSum(ea, |ta|, eb, |tb|);
    RescaleProduct(Val(ta), Val(tb), ea - |ta| * LIMB_BITS, eb - |tb| * LIMB_BITS);
  }

  lemma ExponentSum(ea: int, m: int, eb: int, n: int)
    ensures ea + eb - (m + n) * LIMB_BITS == (ea - m * LIMB_BITS) + (eb - n * LIMB_BITS)
  {}

  lemma RescaleProduct(u: int, v: int, x: int, y: int)
    ensures Rescale((u * v) as real, x + y) == Rescale(u as real, x) * Rescale(v as real, y)
  {
    hide *;
    Pow2Add(x, y);
    ScaleIs(u as real, x);
    ScaleIs(v as real, y);
    ScaleIs((u * v) as real, x + y);
    RealProduct(u, v);
    FourFactors(u as real, v as real, Pow2(x), Pow2(y));
  }

  lemma ScaleIs(x: real, e: int)
    ensures Rescale(x, e) == x * Pow2(e)
  {}

  lemma RealProduct(m: int, n: int)
    ensures (m * n) as real == m as real * n as real
  {}

  lemma FourFactors(a: real, b: real, p: real, q: real)
    ensures (a * b) * (p * q) == (a * p) * (b * q)
  {
    assert (a * b) * (p * q) == a * (b * (p * q));
    assert b * (p * q) == p * (b * q);
    assert a * (p * (b * q)) == (a * p) * (b * q);
  }

  lemma ProductNonzero(ta: seq<Limb>, tb: seq<Limb>, t: seq<Limb>)
    requires TopSet(ta) && TopSet(tb) && Val(t) == Val(ta) * Val(tb)
    ensures Val(t) != 0
  {
    hide *;
    TopPositive(ta);
    TopPositive(tb);
    MulMono(1, Val(ta), Val(tb));
  }

  lemma TopPositive(t: seq<Limb>)
    requires TopSet(t)
    ensures Val(t) >= 1
  {
    BaseFacts();
    if Val(t) == 0 {
      ValZeroLimbs(t);
      assert false;
    }
  }

  /** bf_mul for finite operands: r becomes the product, correctly rounded; tells whether it is
      zero. */
  method Mul(r: Number, a: Number, b: Number, prec: nat, mode: Mode) returns (zero: bool)
    requires r != a && r != b && Finite(a.tab) && Finite(b.tab) && prec >= 1
    modifies r
    ensures r.neg == (a.neg != b.neg) && (zero <==> a.Mag() * b.Mag() == 0.0) && (zero ==> r.tab == [])
    ensures !zero ==> TopSet(r.tab) && RoundsTo(mode, r.neg, prec, a.Mag() * b.Mag(), r.Mag())
  {
    hide *;
    a.MagIs();
    b.MagIs();
    MagnitudeSign(a.tab, a.expn);
    MagnitudeSign(b.tab, b.expn);
    ProductSign(a.Mag(), b.Mag());
    zero := |a.tab| == 0 || |b.tab| == 0;
    if zero {
      r.tab, r.neg := [], a.neg != b.neg;
      return;
    }
    FiniteTop(a.tab);
    FiniteTop(b.tab);
    var t;
    if |a.tab| < |b.tab| {
      t := MulLimbs(b.tab, a.tab);
      MulSwap(Val(a.tab), Val(b.tab));
    } else {
      t := MulLimbs(a.tab, b.tab);
    }
    ProductMagnitude(a.tab, a.expn, b.tab, b.expn, t);
    ProductNonzero(a.tab, b.tab, t);
    var tab, e := NormalizeLimbs(t, a.expn + b.expn);
    r.neg, r.tab, r.expn := a.neg != b.neg, tab, e;
    r.MagIs();
    var _ := r.Round(prec, mode);
  }

  lemma ProductSign(x: real, y: real)
    requires x >= 0.0 && y >= 0.0
    ensures x * y == 0.0 <==> x == 0.0 || y == 0.0
  {}
}
