/** Bitwise logic on signed integers of any size (cpp/src/quickjs/libbf.c, bf_logic_op):
    sign and magnitude limbs give the infinite two's complement operation. */
module BfLogic {
  import opened Powers
  import opened Limbs
  import opened Bits
  import opened Rounding
  import opened BfRound
  import opened BfAdd

  // ---- two's complement ----

  datatype LogicOp = Or | Xor | And

  predicate Combine(op: LogicOp, p: bool, q: bool)
  {
    match op
    case Or => p || q
    case Xor => p != q
    case And => p && q
  }

  /** Bit i of the infinite two's complement form of x. */
  ghost predicate TwosBit(x: int, i: nat)
  {
    (x / Pow(2, i)) % 2 == 1
  }

  /** z is the operation on every bit. */
  ghost predicate Bitwise(op: LogicOp, x: int, y: int, z: int)
  {
    forall i: nat :: TwosBit(z, i) == Combine(op, TwosBit(x, i), TwosBit(y, i))
  }

  lemma TwosBitStep(x: int, i: nat)
    ensures TwosBit(x, 0) <==> x % 2 == 1
    ensures TwosBit(x, i + 1) <==> TwosBit(x / 2, i)
  {
    hide Pow;
    PowStep(2, 0);
    PowStep(2, i);
    HalfFirst(x, Pow(2, i));
  }

  lemma HalfFirst(x: int, p: nat)
    requires p > 0
    ensures x / (2 * p) == (x / 2) / p
  {
    var q, r := x / 2, x % 2;
    var s, t := q / p, q % p;
    assert x == 2 * q + r && q == s * p + t;
    assert 2 * (s * p) == s * (2 * p);
    DivModIs(x, 2 * p, s, 2 * t + r);
  }

  lemma OneBit(p: nat, x: int)
    requires p > 0
    ensures 0 <= x < p ==> x / p == 0
    ensures 0 - p <= x < 0 ==> x / p == -1
  {
    if 0 <= x < p {
      DivModIs(x, p, 0, x);
    } else if 0 - p <= x < 0 {
      DivModIs(x, p, -1, x + p);
    }
  }

  /** Beyond the size of a number all bits are its sign. */
  lemma HighBits(x: int, n: nat, i: nat)
    requires i >= n && 0 - Pow(2, n) <= x < Pow(2, n)
    ensures TwosBit(x, i) <==> x < 0
  {
    hide Pow;
    PowMono(2, n, i);
    OneBit(Pow(2, i), x);
  }

  /** Negating all bits is -x - 1. */
  lemma NegatedBits(x: int, i: nat)
    ensures TwosBit(-x - 1, i) <==> !TwosBit(x, i)
  {
    hide Pow;
    var p := Pow(2, i);
    var q, r := x / p, x % p;
    assert x == q * p + r;
    assert (-q - 1) * p == -(q * p) - p;
    DivModIs(-x - 1, p, -q - 1, p - 1 - r);
  }

  /** The bits determine a number, so there is only one bitwise result. */
  lemma {:induction false} BitsDetermine(x: int, y: int, n: nat)
    requires 0 - Pow(2, n) <= x < Pow(2, n) && 0 - Pow(2, n) <= y < Pow(2, n)
    requires forall i: nat :: TwosBit(x, i) == TwosBit(y, i)
    ensures x == y
    decreases n
  {
    hide Pow;
    TwosBitStep(x, 0);
    TwosBitStep(y, 0);
    PowStep(2, 0);
    assert TwosBit(x, 0) == TwosBit(y, 0);
    if n > 0 {
      PowStep(2, n - 1);
      forall i: nat
        ensures TwosBit(x / 2, i) == TwosBit(y / 2, i)
      {
        TwosBitStep(x, i);
        TwosBitStep(y, i);
        assert TwosBit(x, i + 1) == TwosBit(y, i + 1);
      }
      BitsDetermine(x / 2, y / 2, n - 1);
    }
  }

  lemma {:induction false} PowExceeds(x: nat)
    ensures x < Pow(2, x)
  {
    if x > 0 {
      PowExceeds(x - 1);
    }
  }

  lemma BitwiseUnique(op: LogicOp, x: int, y: int, z: int, w: int)
    requires Bitwise(op, x, y, z) && Bitwise(op, x, y, w)
    ensures z == w
  {
    hide Pow, TwosBit;
    var n: nat := (if z < 0 then -z else z) + (if w < 0 then -w else w);
    PowExceeds(n);
    BitsDetermine(z, w, n);
  }

  lemma BitwiseIs(op: LogicOp, x: int, y: int, z: int)
    requires Bitwise(op, x, y, z)
    ensures op == Or ==> forall i: nat :: TwosBit(z, i) <==> TwosBit(x, i) || TwosBit(y, i)
    ensures op == Xor ==> forall i: nat :: TwosBit(z, i) <==> TwosBit(x, i) != TwosBit(y, i)
    ensures op == And ==> forall i: nat :: TwosBit(z, i) <==> TwosBit(x, i) && TwosBit(y, i)
  {
    hide TwosBit;
  }

  lemma BitwiseHalf(op: LogicOp, x: int, y: int, z: int)
    requires Bitwise(op, x, y, z)
    ensures Bitwise(op, x / 2, y / 2, z / 2)
    ensures (z % 2 == 1) == Combine(op, x % 2 == 1, y % 2 == 1)
  {
    hide TwosBit, Combine;
    TwosBitStep(x, 0);
    TwosBitStep(y, 0);
    TwosBitStep(z, 0);
    assert TwosBit(z, 0) == Combine(op, TwosBit(x, 0), TwosBit(y, 0));
    forall i: nat
      ensures TwosBit(z / 2, i) == Combine(op, TwosBit(x / 2, i), TwosBit(y / 2, i))
    {
      TwosBitStep(x, i);
      TwosBitStep(y, i);
      TwosBitStep(z, i);
      assert TwosBit(z, i + 1) == Combine(op, TwosBit(x, i + 1), TwosBit(y, i + 1));
    }
  }

  ghost predicate Fits(x: int, n: nat)
  {
    0 - Pow(2, n) <= x < Pow(2, n)
  }

  lemma FitsHalf(x: int, n: nat)
    requires Fits(x, n)
    ensures if n == 0 then x == 0 || x == -1 else Fits(x / 2, n - 1)
  {
    hide Pow;
    PowStep(2, if n == 0 then 0 else n - 1);
  }

  lemma FitsIn(x: int, n: nat)
    requires 0 - n <= x <= n
    ensures Fits(x, n)
  {
    PowExceeds(n);
  }

  lemma {:induction false} SumOfFitting(x: int, y: int, o: int, e: int, a: int, n: nat)
    requires Bitwise(Or, x, y, o) && Bitwise(Xor, x, y, e) && Bitwise(And, x, y, a)
    requires Fits(x, n) && Fits(y, n) && Fits(o, n) && Fits(e, n) && Fits(a, n)
    ensures x + y == e + 2 * a && o == e + a
    decreases n
  {
    hide TwosBit, Bitwise, Fits;
    BitwiseHalf(Or, x, y, o);
    BitwiseHalf(Xor, x, y, e);
    BitwiseHalf(And, x, y, a);
    FitsHalf(x, n);
    FitsHalf(y, n);
    FitsHalf(o, n);
    FitsHalf(e, n);
    FitsHalf(a, n);
    if n > 0 {
      SumOfFitting(x / 2, y / 2, o / 2, e / 2, a / 2, n - 1);
    }
  }

  /** The operations as arithmetic: and is the carries of an addition, xor the sum without
      them, or both counted once. */
  lemma BitsAdd(x: int, y: int, o: int, e: int, a: int)
    requires Bitwise(Or, x, y, o) && Bitwise(Xor, x, y, e) && Bitwise(And, x, y, a)
    ensures x + y == e + 2 * a && o == e + a
  {
    hide Bitwise, Fits;
    var n := Size(x) + Size(y) + Size(o) + Size(e) + Size(a);
    FitsIn(x, n);
    FitsIn(y, n);
    FitsIn(o, n);
    FitsIn(e, n);
    FitsIn(a, n);
    SumOfFitting(x, y, o, e, a, n);
  }

  function Size(x: int): (n: nat) { if x < 0 then -x else x }

  // ---- one limb ----

  /** bf_logic_op1 on n bits. */
  function WordOp(op: LogicOp, x: nat, y: nat, n: nat): (r: nat)
  {
    if n == 0 then 0
    else 2 * WordOp(op, x / 2, y / 2, n - 1) + (if Combine(op, x % 2 == 1, y % 2 == 1) then 1 else 0)
  }

  lemma {:induction false} WordOpBound(op: LogicOp, x: nat, y: nat, n: nat)
    ensures WordOp(op, x, y, n) < Pow(2, n)
  {
    if n > 0 {
      WordOpBound(op, x / 2, y / 2, n - 1);
    }
  }

  lemma {:induction false} WordOpBits(op: LogicOp, x: nat, y: nat, n: nat, i: nat)
    requires i < n
    ensures TwosBit(WordOp(op, x, y, n), i) == Combine(op, TwosBit(x, i), TwosBit(y, i))
    decreases n
  {
    hide TwosBit;
    var w := WordOp(op, x, y, n);
    assert w / 2 == WordOp(op, x / 2, y / 2, n - 1);
    TwosBitStep(w, 0);
    TwosBitStep(x, 0);
    TwosBitStep(y, 0);
    if i > 0 {
      TwosBitStep(w, i - 1);
      TwosBitStep(x, i - 1);
      TwosBitStep(y, i - 1);
      WordOpBits(op, x / 2, y / 2, n - 1, i - 1);
    }
  }

  function LogicOp1(op: LogicOp, v1: Limb, v2: Limb): (r: Limb)
  {
    WordOpBound(op, v1, v2, LIMB_BITS);
    BaseIs();
    WordOp(op, v1, v2, LIMB_BITS)
  }

  lemma LogicOp1Bits(op: LogicOp, v1: Limb, v2: Limb, p: nat)
    requires p < LIMB_BITS
    ensures TwosBit(LogicOp1(op, v1, v2), p) == Combine(op, TwosBit(v1, p), TwosBit(v2, p))
  {
    WordOpBits(op, v1, v2, LIMB_BITS, p);
  }

  /** v ^ mask for a mask of all zeros or all ones. */
  function Flip(v: Limb, sign: bool): (r: Limb)
  {
    if sign then B - 1 - v else v
  }

  lemma FlipBits(v: Limb, sign: bool, p: nat)
    requires p < LIMB_BITS
    ensures TwosBit(Flip(v, sign), p) <==> TwosBit(v, p) != sign
  {
    if sign {
      SplitBase(p);
      PowStep(2, LIMB_BITS - p - 1);
      hide Pow, B;
      FlipAt(v, Pow(2, p), Pow(2, LIMB_BITS - p - 1), B);
    }
  }

  lemma FlipAt(v: int, s: int, h: int, b: int)
    requires s > 0 && h > 0 && b == s * (2 * h)
    ensures ((b - 1 - v) / s) % 2 == 1 <==> (v / s) % 2 == 0
  {
    var q, r := v / s, v % s;
    assert v == q * s + r;
    assert (2 * h - 1 - q) * s == s * (2 * h) - s - q * s;
    DivModIs(b - 1 - v, s, 2 * h - 1 - q, s - 1 - r);
  }

  // ---- bits of a string of limbs ----

  lemma LimbBit(s: seq<Limb>, i: nat)
    requires i / LIMB_BITS < |s|
    ensures i / LIMB_BITS >= 0 && (TwosBit(Val(s), i) <==> TwosBit(s[i / LIMB_BITS], i % LIMB_BITS))
  {
    hide Val;
    GetBitIs(s, i);
  }

  /** The bit of a window is a bit of the number. */
  lemma WindowBit(v: nat, j: nat, p: nat)
    requires p < LIMB_BITS
    ensures B > 0 && j * LIMB_BITS + p >= 0
    ensures TwosBit((v / Pow(B, j)) % B, p) <==> TwosBit(v, j * LIMB_BITS + p)
  {
    hide *;
    BasePositive();
    MulMono(0, j, LIMB_BITS);
    BasePow(j);
    var u := v / Pow(2, j * LIMB_BITS);
    DivPow(v, j * LIMB_BITS, p);
    PowPositive(2, j * LIMB_BITS);
    DivModIdentity(v, Pow(2, j * LIMB_BITS));
    BitOfLimb(u, p);
    TwosBitIs(u % B, p);
    TwosBitIs(v, j * LIMB_BITS + p);
  }

  lemma TwosBitIs(x: int, i: nat)
    ensures Pow(2, i) > 0 && (TwosBit(x, i) <==> (x / Pow(2, i)) % 2 == 1)
  {}

  // ---- integers as numbers ----

  /** The number n is the integer v. */
  ghost predicate IsInteger(n: Number, v: int)
    reads n
  {
    Finite(n.tab) && Signed(n.neg, n.Mag()) == v as real
  }

  /** The magnitude is the natural number m. */
  ghost predicate IsNatural(tab: seq<Limb>, expn: int, m: nat)
  {
    Finite(tab) && Magnitude(tab, expn) == m as real
  }

  lemma IntegerMagnitude(n: Number, v: int)
    requires IsInteger(n, v)
    ensures IsNatural(n.tab, n.expn, if v < 0 then -v else v)
    ensures v != 0 ==> |n.tab| > 0 && n.neg == (v < 0)
    ensures v == 0 ==> |n.tab| == 0
  {
    hide Finite, Magnitude, Number.Mag;
    n.MagIs();
    MagnitudeSign(n.tab, n.expn);
  }

  /** The limbs of a natural number, shifted up or down to its exponent. */
  lemma NaturalLimbs(tab: seq<Limb>, expn: int, m: nat)
    requires IsNatural(tab, expn, m)
    ensures var s := expn - |tab| * LIMB_BITS;
            && (s >= 0 ==> m == Val(tab) * Pow(2, s))
            && (s < 0 ==> Val(tab) == m * Pow(2, -s))
  {
    hide *;
    var s := expn - |tab| * LIMB_BITS;
    MagnitudeIs(tab, expn);
    assert Rescale(Val(tab) as real, s) == m as real by { NaturalIs(tab, expn, m); }
    if s >= 0 {
      RescaleInt(Val(tab), s);
    } else {
      RescaleBack(Val(tab) as real, s);
      RescaleInt(m, -s);
    }
  }

  lemma NaturalIs(tab: seq<Limb>, expn: int, m: nat)
    requires IsNatural(tab, expn, m)
    ensures Finite(tab) && Magnitude(tab, expn) == m as real
  {
    hide Finite, Magnitude;
  }

  lemma NaturalBound(tab: seq<Limb>, expn: int, m: nat)
    requires IsNatural(tab, expn, m) && |tab| > 0
    ensures m >= 1 && expn >= 1 && m < Pow(2, expn)
  {
    hide *;
    NaturalIs(tab, expn, m);
    MagnitudeSign(tab, expn);
    FiniteTop(tab);
    MagnitudeExp(tab, expn);
    HasExpIs(m as real, expn);
    if expn <= 0 {
      Pow2Mono(expn, 0);
      Pow2IsPow(0);
      PowStep(2, 0);
      assert false;
    }
    Pow2IsPow(expn);
  }

  lemma HasExpIs(x: real, e: int)
    requires HasExp(x, e)
    ensures Pow2(e - 1) <= x < Pow2(e)
  {
    hide Pow2;
  }

  /** get_bits at limb j from the radix point up. */
  lemma NaturalWindow(tab: seq<Limb>, expn: int, m: nat, j: nat)
    requires IsNatural(tab, expn, m)
    ensures B > 0 && Pow(B, j) > 0 && GetBits(tab, |tab| * LIMB_BITS - expn + j * LIMB_BITS) == (m / Pow(B, j)) % B
  {
    hide *;
    var s, pos := expn - |tab| * LIMB_BITS, |tab| * LIMB_BITS - expn + j * LIMB_BITS;
    NaturalLimbs(tab, expn, m);
    GetBitsIs(tab, pos);
    WindowIs(Val(tab), pos);
    MulMono(0, j, LIMB_BITS);
    BasePow(j);
    var k := j * LIMB_BITS;
    PowPositive(2, k);
    if s < 0 {
      ShiftBoth(m, -s, k);
    } else if pos >= 0 {
      ShiftUnder(Val(tab), s, pos);
    } else {
      ShiftOver(Val(tab), k, -pos);
    }
  }

  lemma WindowIs(v: nat, pos: int)
    ensures B > 0 && Window(v, pos) == (if pos >= 0 then v / Pow(2, pos) else v * Pow(2, -pos)) % B
  {
    hide Pow, B;
    BasePositive();
  }

  lemma ShiftBoth(m: nat, a: nat, k: nat)
    ensures Pow(2, k) > 0 && (m * Pow(2, a)) / Pow(2, a + k) == m / Pow(2, k)
  {
    hide *;
    PowAdd(2, a, k);
    PowPositive(2, a);
    PowPositive(2, k);
    DivDiv(m * Pow(2, a), Pow(2, a), Pow(2, k));
    DivModIs(m * Pow(2, a), Pow(2, a), m, 0);
  }

  lemma ShiftUnder(v: nat, s: nat, pos: nat)
    ensures Pow(2, pos) > 0 && (v * Pow(2, s)) / Pow(2, s + pos) == v / Pow(2, pos)
  {
    ShiftBoth(v, s, pos);
  }

  lemma ShiftOver(v: nat, k: nat, d: nat)
    ensures Pow(2, k) > 0 && (v * Pow(2, k + d)) / Pow(2, k) == v * Pow(2, d)
  {
    hide *;
    PowAdd(2, k, d);
    PowPositive(2, k);
    ShiftPoly(v, Pow(2, k), Pow(2, d));
    DivModIs(v * Pow(2, k + d), Pow(2, k), v * Pow(2, d), 0);
  }

  lemma ShiftPoly(v: int, p: int, d: int)
    ensures v * (p * d) == (v * d) * p
  {}

  // ---- exact addition of small integers ----

  /** BF_PREC_INF. */
  const PREC_INF: nat := Pow(2, LIMB_BITS - 2) - 1

  lemma PrecInf()
    ensures PREC_INF > 2 * LIMB_BITS
  {
    PowAdd(2, 10, LIMB_BITS - 12);
    PowMono(2, 20, LIMB_BITS - 12);
    assert Pow(2, 10) == 1024;
    PowPositive(2, LIMB_BITS - 12);
    hide Pow;
  }

  /** An integer that fits is rounded to itself. */
  lemma ExactRound(mode: Mode, neg: bool, prec: nat, m: nat, y: real)
    requires RoundsTo(mode, neg, prec, m as real, y) && m < Pow(2, prec)
    ensures y == m as real
  {
    hide Rescale, Pow2, Pow, HasExp, Scaled, RoundInt;
    var e :| HasExp(m as real, e) && y == Scaled(RoundInt(mode, neg, Rescale(m as real, prec - e)), e - prec);
    HasExpIs(m as real, e);
    if e > prec {
      Pow2Mono(prec, e - 1);
      Pow2IsPow(prec);
      assert false;
    }
    RescaleInt(m, prec - e);
    var k := m * Pow(2, prec - e);
    RoundWhole(mode, neg, k);
    ScaledIs(k, e - prec);
    RescaleBack(m as real, prec - e);
  }

  lemma RoundWhole(mode: Mode, neg: bool, k: int)
    ensures RoundInt(mode, neg, k as real) == k
  {}

  /** bf_add_si with infinite precision. */
  method AddExact(a: Number, up: bool, ghost v: int) returns (r: Number)
    requires IsInteger(a, v) && 1 - Pow(2, PREC_INF) < v < Pow(2, PREC_INF) - 1
    ensures fresh(r) && IsInteger(r, if up then v + 1 else v - 1)
  {
    hide *;
    BaseFacts();
    var one := new Number(!up, 1, [HALF]);
    r := new Number(false, 0, []);
    OneIs(one);
    IntegerIs(a, v);
    IntegerIs(one, if up then 1 else -1);
    PrecInf();
    var zero := Add(r, a, one, PREC_INF, RNDZ, false);
    SumIs(a, one, r, zero, v, up);
  }

  lemma OneIs(n: Number)
    requires B == 2 * HALF && HALF >= 4 && n.expn == 1 && n.tab == [HALF]
    ensures IsInteger(n, if n.neg then -1 else 1)
  {
    hide *;
    HalfScaled();
    ValOne(HALF);
    n.MagIs();
    MagnitudeIs(n.tab, n.expn);
    assert n.expn - |n.tab| * LIMB_BITS == 1 - LIMB_BITS;
    FiniteIntro(n.tab);
    IntegerIntro(n, if n.neg then -1 else 1);
  }

  lemma FiniteIntro(tab: seq<Limb>)
    requires |tab| > 0 ==> tab[|tab| - 1] >= HALF
    ensures Finite(tab)
  {}

  lemma HalfScaled()
    ensures Rescale(HALF as real, 1 - LIMB_BITS) == 1.0
  {
    assert HALF == Pow(2, LIMB_BITS - 1);
    hide *;
    Pow2IsPow(LIMB_BITS - 1);
    Pow2Add(LIMB_BITS - 1, 1 - LIMB_BITS);
    Pow2IsPow(0);
    PowStep(2, 0);
    RescaleIs(HALF as real, 1 - LIMB_BITS);
  }

  lemma RescaleIs(x: real, e: int)
    ensures Rescale(x, e) == x * Pow2(e)
  {}

  lemma IntegerIs(n: Number, v: int)
    requires IsInteger(n, v)
    ensures Finite(n.tab) && Signed(n.neg, n.Mag()) == v as real
  {}

  lemma IntegerIntro(n: Number, v: int)
    requires Finite(n.tab) && ((n.Mag() == v as real && !n.neg) || (n.Mag() == -v as real && n.neg))
    ensures IsInteger(n, v)
  {}

  lemma SumIs(a: Number, one: Number, r: Number, zero: bool, v: int, up: bool)
    requires Signed(a.neg, a.Mag()) == v as real && Signed(one.neg, one.Mag()) == (if up then 1 else -1) as real
    requires 1 - Pow(2, PREC_INF) < v < Pow(2, PREC_INF) - 1
    requires var x := Signed(a.neg, a.Mag()) + Signed(one.neg != false, one.Mag());
             && (zero <==> x == 0.0) && (zero ==> r.tab == [])
             && (!zero ==>
                TopSet(r.tab) && r.neg == (x < 0.0) && RoundsTo(RNDZ, r.neg, PREC_INF, BfAdd.Abs(x), r.Mag()))
    ensures IsInteger(r, if up then v + 1 else v - 1)
  {
    hide *;
    var w := if up then v + 1 else v - 1;
    assert w as real == v as real + (if up then 1 else -1) as real;
    ResultIs(r, zero, w);
  }

  /** A result that is exact because it is an integer that fits. */
  lemma ResultIs(r: Number, zero: bool, w: int)
    requires 0 - Pow(2, PREC_INF) < w < Pow(2, PREC_INF) && (zero <==> w == 0) && (zero ==> r.tab == [])
    requires !zero ==>
      TopSet(r.tab) && r.neg == (w as real < 0.0) && RoundsTo(RNDZ, r.neg, PREC_INF, BfAdd.Abs(w as real), r.Mag())
    ensures IsInteger(r, w)
  {
    hide *;
    if zero {
      r.MagIs();
      FiniteIntro(r.tab);
      MagnitudeSign(r.tab, r.expn);
    } else {
      var m: nat := if w < 0 then -w else w;
      AbsIs(w);
      ExactRound(RNDZ, r.neg, PREC_INF, m, r.Mag());
      FiniteTop2(r.tab);
    }
    IntegerIntro(r, w);
  }

  lemma AbsIs(w: int)
    ensures BfAdd.Abs(w as real) == (if w < 0 then -w else w) as real
  {}

  lemma FiniteTop2(tab: seq<Limb>)
    requires TopSet(tab)
    ensures Finite(tab)
  {}

  // ---- the limbs of the result ----

  /** BF_EXP_ZERO. */
  const EXP_ZERO: int := 0 - Pow(2, LIMB_BITS - 1)

  function ExpnOf(n: Number): (e: int)
    reads n
  {
    if |n.tab| == 0 then EXP_ZERO else n.expn
  }

  /** One limb of the result. */
  function LogicWord(op: LogicOp, v1: Limb, v2: Limb, aSign: bool, bSign: bool, rSign: bool): (w: Limb)
  {
    Flip(LogicOp1(op, Flip(v1, aSign), Flip(v2, bSign)), rSign)
  }

  lemma LogicWordBits(op: LogicOp, v1: Limb, v2: Limb, aSign: bool, bSign: bool, rSign: bool, p: nat)
    requires p < LIMB_BITS
    ensures TwosBit(LogicWord(op, v1, v2, aSign, bSign, rSign), p) <==>
            Combine(op, TwosBit(v1, p) != aSign, TwosBit(v2, p) != bSign) != rSign
  {
    hide TwosBit, LogicOp1, Flip, Combine;
    FlipBits(v1, aSign, p);
    FlipBits(v2, bSign, p);
    LogicOp1Bits(op, Flip(v1, aSign), Flip(v2, bSign), p);
    FlipBits(LogicOp1(op, Flip(v1, aSign), Flip(v2, bSign)), rSign, p);
  }

  /** Every limb combines the windows of the operands. */
  ghost predicate LogicAt(t: seq<Limb>, j: nat, op: LogicOp, x: nat, y: nat, aSign: bool, bSign: bool, rSign: bool)
    requires j < |t|
  {
    B > 0 && Pow(B, j) > 0 && t[j] == LogicWord(op, (x / Pow(B, j)) % B, (y / Pow(B, j)) % B, aSign, bSign, rSign)
  }

  /** The loop over the limbs. */
  method LogicLimbs(ta: seq<Limb>, ea: int, tb: seq<Limb>, eb: int, op: LogicOp, aSign: bool,
      bSign: bool, rSign: bool, l: nat,
                    ghost x: nat, ghost y: nat) returns (t: seq<Limb>)
    requires IsNatural(ta, ea, x) && IsNatural(tb, eb, y)
    ensures |t| == l && forall j :: 0 <= j < l ==> LogicAt(t, j, op, x, y, aSign, bSign, rSign)
  {
    hide *;
    var aOffset, bOffset := |ta| * LIMB_BITS - ea, |tb| * LIMB_BITS - eb;
    t := [];
    while |t| < l
      invariant |t| <= l && forall j :: 0 <= j < |t| ==> LogicAt(t, j, op, x, y, aSign, bSign, rSign)
      decreases l - |t|
    {
      var i := |t|;
      NaturalWindow(ta, ea, x, i);
      NaturalWindow(tb, eb, y, i);
      var v1 := GetBits(ta, aOffset + i * LIMB_BITS);
      var v2 := GetBits(tb, bOffset + i * LIMB_BITS);
      ghost var t0 := t;
      t := t + [LogicWord(op, v1, v2, aSign, bSign, rSign)];
      forall j | 0 <= j < |t|
        ensures LogicAt(t, j, op, x, y, aSign, bSign, rSign)
      {
        LogicAtIs(t, j, op, x, y, aSign, bSign, rSign);
        if j < i {
          LogicAtIs(t0, j, op, x, y, aSign, bSign, rSign);
        }
      }
    }
  }

  lemma LogicAtIs(t: seq<Limb>, j: nat, op: LogicOp, x: nat, y: nat, aSign: bool, bSign: bool, rSign: bool)
    requires j < |t|
    ensures B > 0 && Pow(B, j) > 0 && 0 <= (x / Pow(B, j)) % B < B && 0 <= (y / Pow(B, j)) % B < B
    ensures LogicAt(t, j, op, x, y, aSign, bSign, rSign) <==>
            t[j] == LogicWord(op, (x / Pow(B, j)) % B, (y / Pow(B, j)) % B, aSign, bSign, rSign)
  {
    hide Pow, B, LogicWord;
    BasePositive();
    PowPositive(B, j);
  }

  lemma LimbsBit(t: seq<Limb>, i: nat, op: LogicOp, x: nat, y: nat, aSign: bool, bSign: bool, rSign: bool)
    requires i < |t| * LIMB_BITS && forall j :: 0 <= j < |t| ==> LogicAt(t, j, op, x, y, aSign, bSign, rSign)
    ensures TwosBit(Val(t), i) <==> Combine(op, TwosBit(x, i) != aSign, TwosBit(y, i) != bSign) != rSign
  {
    hide *;
    PosSplit(i);
    var j, p := i / LIMB_BITS, i % LIMB_BITS;
    if j >= |t| {
      MulMono(|t|, j, LIMB_BITS);
      assert false;
    }
    LogicAtIs(t, j, op, x, y, aSign, bSign, rSign);
    LimbBit(t, i);
    WindowBit(x, j, p);
    WindowBit(y, j, p);
    LogicWordBits(op, (x / Pow(B, j)) % B, (y / Pow(B, j)) % B, aSign, bSign, rSign, p);
  }

  // ---- the length of the result ----

  /** x from its sign and the magnitude that is stored for it. */
  ghost function FromSign(sign: bool, m: nat): (x: int) { if sign then 0 - m - 1 else m }

  lemma SignBits(sign: bool, m: nat, i: nat)
    ensures TwosBit(FromSign(sign, m), i) <==> TwosBit(m, i) != sign
  {
    hide TwosBit;
    NegatedBits(m, i);
  }

  function Longer(x: int, y: int): (r: int) { if x > y then x else y }

  function Shorter(x: int, y: int): (r: int) { if x < y then x else y }

  /** The exponent that bounds where the result can differ from its sign. */
  function ResultExp(op: LogicOp, aSign: bool, bSign: bool, ea: int, eb: int): (e: int)
  {
    if op == And && !(aSign && bSign) then
      if !aSign && !bSign then Shorter(ea, eb) else if !aSign then ea else eb
    else Longer(ea, eb)
  }

  function ResultLimbs(e: int): (l: nat)
  {
    (Longer(e, 1) + LIMB_BITS - 1) / LIMB_BITS
  }

  lemma ResultLimbsIs(e: int)
    ensures ResultLimbs(e) >= 1 && e <= ResultLimbs(e) * LIMB_BITS <= Longer(e, 1) + LIMB_BITS - 1
  {
    var x := Longer(e, 1) + LIMB_BITS - 1;
    DivModIdentity(x, LIMB_BITS);
    MulMono(0, ResultLimbs(e), LIMB_BITS);
  }

  /** Bounded by the exponent; a zero has none. */
  ghost predicate Within(m: nat, e: int)
  {
    if e <= 0 then m == 0 else m < Pow(2, e)
  }

  lemma WithinBits(m: nat, e: int, i: nat)
    requires Within(m, e) && i >= e
    ensures !TwosBit(m, i)
  {
    PowPositive(2, i);
    if e > 0 {
      HighBits(m, e, i);
    } else {
      HighBits(0, i, i);
    }
  }

  /** From the end of the limbs on, the result is its sign. */
  lemma HighResult(op: LogicOp, aSign: bool, bSign: bool, x: nat, y: nat, ea: int, eb: int, i: nat)
    requires Within(x, ea) && Within(y, eb) && i >= ResultExp(op, aSign, bSign, ea, eb)
    ensures Combine(op, TwosBit(x, i) != aSign, TwosBit(y, i) != bSign) == Combine(op, aSign, bSign)
  {
    hide TwosBit, Within;
    if i >= ea {
      WithinBits(x, ea, i);
    }
    if i >= eb {
      WithinBits(y, eb, i);
    }
  }

  /** The limbs and the sign are the bitwise result. */
  lemma LimbsBitwise(t: seq<Limb>, op: LogicOp, x: nat, y: nat, ea: int, eb: int, aSign: bool, bSign: bool)
    requires Within(x, ea) && Within(y, eb) && |t| == ResultLimbs(ResultExp(op, aSign, bSign, ea, eb))
    requires forall j :: 0 <= j < |t| ==> LogicAt(t, j, op, x, y, aSign, bSign, Combine(op, aSign, bSign))
    ensures Bitwise(op, FromSign(aSign, x), FromSign(bSign, y), FromSign(Combine(op, aSign, bSign), Val(t)))
  {
    hide TwosBit, LogicAt, Within, FromSign, Val, ResultLimbs, ResultExp, Combine;
    var rSign := Combine(op, aSign, bSign);
    var X, Y, Z := FromSign(aSign, x), FromSign(bSign, y), FromSign(rSign, Val(t));
    forall i: nat
      ensures TwosBit(Z, i) == Combine(op, TwosBit(X, i), TwosBit(Y, i))
    {
      OneResultBit(t, op, x, y, ea, eb, aSign, bSign, i);
    }
  }

  lemma OneResultBit(t: seq<Limb>, op: LogicOp, x: nat, y: nat, ea: int, eb: int, aSign: bool, bSign: bool, i: nat)
    requires Within(x, ea) && Within(y, eb) && |t| == ResultLimbs(ResultExp(op, aSign, bSign, ea, eb))
    requires forall j :: 0 <= j < |t| ==> LogicAt(t, j, op, x, y, aSign, bSign, Combine(op, aSign, bSign))
    ensures TwosBit(FromSign(Combine(op, aSign, bSign), Val(t)), i) ==
            Combine(op, TwosBit(FromSign(aSign, x), i), TwosBit(FromSign(bSign, y), i))
  {
    hide *;
    SignBits(aSign, x, i);
    SignBits(bSign, y, i);
    SignBits(Combine(op, aSign, bSign), Val(t), i);
    if i < |t| * LIMB_BITS {
      LimbsBit(t, i, op, x, y, aSign, bSign, Combine(op, aSign, bSign));
    } else {
      ResultLimbsIs(ResultExp(op, aSign, bSign, ea, eb));
      HighResult(op, aSign, bSign, x, y, ea, eb, i);
      ValBound(t);
      BasePow(|t|);
      MulMono(0, |t|, LIMB_BITS);
      HighBits(Val(t), |t| * LIMB_BITS, i);
    }
  }

  // ---- bf_logic_op ----

  /** The operand as its sign and the magnitude of what it is compared to: x, or -x - 1 below zero. */
  method Prepare(a: Number, ghost x: int) returns (sign: bool, tab: seq<Limb>, e: int)
    requires IsInteger(a, x) && ExpnOf(a) + 2 * LIMB_BITS <= PREC_INF
    ensures sign == (x < 0)
    ensures var m: nat := if x < 0 then 0 - x - 1 else x;
      IsNatural(tab, e, m) && Within(m, e) && (m > 0 ==> e <= ExpnOf(a)) && (m == 0 ==> e <= 0)
  {
    hide *;
    OperandFacts(a, x);
    sign := a.neg && ExpnOf(a) > 0;
    if sign {
      var s := AddExact(a, true, x);
      StoredAs(s, x + 1, 0 - x - 1, ExpnOf(a));
      tab, e := s.tab, ExpnOf(s);
    } else {
      StoredAs(a, x, x, ExpnOf(a));
      tab, e := a.tab, ExpnOf(a);
    }
  }

  lemma OperandFacts(a: Number, x: int)
    requires IsInteger(a, x) && ExpnOf(a) + 2 * LIMB_BITS <= PREC_INF
    ensures (a.neg && ExpnOf(a) > 0) == (x < 0)
    ensures 1 - Pow(2, PREC_INF) < x < Pow(2, PREC_INF) - 1
    ensures x != 0 ==> ExpnOf(a) > 0 && (if x < 0 then -x else x) < Pow(2, ExpnOf(a))
  {
    hide *;
    IntegerMagnitude(a, x);
    ZeroExp();
    PrecInf();
    ExpnIs(a);
    PowStrict(2, 0, PREC_INF);
    PowStep(2, 0);
    if x != 0 {
      NaturalBound(a.tab, a.expn, if x < 0 then -x else x);
      PowStrict(2, a.expn, PREC_INF);
    }
  }

  lemma ZeroExp()
    ensures EXP_ZERO < 0
  {
    hide Pow;
    PowPositive(2, LIMB_BITS - 1);
  }

  lemma ExpnIs(n: Number)
    ensures |n.tab| == 0 ==> ExpnOf(n) == EXP_ZERO
    ensures |n.tab| > 0 ==> ExpnOf(n) == n.expn
  {}

  lemma StoredAs(s: Number, v: int, m: nat, k: int)
    requires IsInteger(s, v) && (m == v || m == 0 - v) && (m > 0 ==> k > 0 && m < Pow(2, k))
    ensures IsNatural(s.tab, ExpnOf(s), m) && Within(m, ExpnOf(s)) && (m > 0 ==> ExpnOf(s) <= k)
      && (m == 0 ==> ExpnOf(s) <= 0)
  {
    hide *;
    IntegerMagnitude(s, v);
    ZeroExp();
    ExpnIs(s);
    if m == 0 {
      NaturalZero(s.tab);
      WithinIs(0, EXP_ZERO);
    } else {
      NaturalBound(s.tab, s.expn, m);
      WithinIs(m, s.expn);
      NaturalExp(s.tab, s.expn, m, k);
    }
  }

  lemma NaturalZero(tab: seq<Limb>)
    requires |tab| == 0
    ensures IsNatural(tab, EXP_ZERO, 0)
  {
    hide *;
    FiniteIntro(tab);
    MagnitudeSign(tab, EXP_ZERO);
    NaturalIntro(tab, EXP_ZERO, 0);
  }

  lemma NaturalIntro(tab: seq<Limb>, expn: int, m: nat)
    requires Finite(tab) && Magnitude(tab, expn) == m as real
    ensures IsNatural(tab, expn, m)
  {
    hide Finite, Magnitude;
  }

  lemma WithinIs(m: nat, e: int)
    ensures Within(m, e) <==> if e <= 0 then m == 0 else m < Pow(2, e)
  {
    hide Pow;
  }

  lemma NaturalExp(tab: seq<Limb>, expn: int, m: nat, k: nat)
    requires IsNatural(tab, expn, m) && |tab| > 0 && m < Pow(2, k)
    ensures expn <= k
  {
    hide *;
    NaturalIs(tab, expn, m);
    FiniteTop(tab);
    MagnitudeExp(tab, expn);
    HasExpIs(m as real, expn);
    if expn > k {
      Pow2Mono(k, expn - 1);
      Pow2IsPow(k);
      assert false;
    }
  }

  /** bf_normalize_and_round with infinite precision, for a string of limbs below the radix point. */
  method FromLimbs(r: Number, t: seq<Limb>, neg: bool)
    requires |t| * LIMB_BITS <= PREC_INF
    modifies r
    ensures IsInteger(r, if neg then 0 - Val(t) else Val(t)) && r.neg == neg
  {
    hide *;
    BasePow(|t|);
    MulMono(0, |t|, LIMB_BITS);
    PowMono(2, |t| * LIMB_BITS, PREC_INF);
    ValBound(t);
    PrecInf();
    var zero := true;
    var i := 0;
    assert t[..0] == [];
    ValNil([]);
    while i < |t| && t[i] == 0
      invariant 0 <= i <= |t| && Val(t[..i]) == 0
    {
      assert t[..i + 1] == t[..i] + [t[i]];
      ValSnoc(t[..i], t[i]);
      i := i + 1;
    }
    zero := i == |t|;
    if zero {
      assert t[..i] == t;
      r.neg, r.tab := neg, [];
    } else {
      ValPositive(t, i);
      var tab, e := NormalizeLimbs(t, |t| * LIMB_BITS);
      r.neg, r.tab, r.expn := neg, tab, e;
      r.MagIs();
      IntegerLimbs(t);
      var _ := r.Round(PREC_INF, RNDZ);
      AbsIs(if neg then 0 - Val(t) else Val(t));
    }
    ResultIs(r, zero, if neg then 0 - Val(t) else Val(t));
  }

  lemma IntegerLimbs(t: seq<Limb>)
    ensures Magnitude(t, |t| * LIMB_BITS) == Val(t) as real
  {
    hide *;
    MagnitudeIs(t, |t| * LIMB_BITS);
    RescaleIs(Val(t) as real, 0);
    Pow2IsPow(0);
    PowStep(2, 0);
  }

  lemma ValPositive(t: seq<Limb>, i: nat)
    requires i < |t| && t[i] != 0
    ensures Val(t) > 0
  {
    if Val(t) == 0 {
      ValZeroLimbs(t);
      assert false;
    }
  }

  /** bf_logic_op: r becomes the bitwise combination of the integers a1 and b1. */
  method LogicOperation(r: Number, a1: Number, b1: Number, op: LogicOp, ghost x: int, ghost y: int)
      returns (ghost z: int)
    requires r != a1 && r != b1 && IsInteger(a1, x) && IsInteger(b1, y)
    requires ExpnOf(a1) + 2 * LIMB_BITS <= PREC_INF && ExpnOf(b1) + 2 * LIMB_BITS <= PREC_INF
    modifies r
    ensures IsInteger(r, z) && Bitwise(op, x, y, z) && (z == 0 ==> !r.neg)
    ensures op == Or ==> forall i: nat :: TwosBit(z, i) <==> TwosBit(x, i) || TwosBit(y, i)
    ensures op == Xor ==> forall i: nat :: TwosBit(z, i) <==> TwosBit(x, i) != TwosBit(y, i)
    ensures op == And ==> forall i: nat :: TwosBit(z, i) <==> TwosBit(x, i) && TwosBit(y, i)
  {
    hide *;
    var aSign, ta, ea := Prepare(a1, x);
    var bSign, tb, eb := Prepare(b1, y);
    ghost var m: nat, n: nat := if x < 0 then 0 - x - 1 else x, if y < 0 then 0 - y - 1 else y;
    FromSignIs(aSign, m, x);
    FromSignIs(bSign, n, y);
    var rSign := Combine(op, aSign, bSign);
    var e := ResultExp(op, aSign, bSign, ea, eb);
    var l := ResultLimbs(e);
    PrecInf();
    LengthBound(op, aSign, bSign, ea, eb);
    var t := LogicLimbs(ta, ea, tb, eb, op, aSign, bSign, rSign, l, m, n);
    LimbsBitwise(t, op, m, n, ea, eb, aSign, bSign);
    FromLimbs(r, t, rSign);
    z := if rSign then 0 - Val(t) - 1 else Val(t);
    FromSignIs(rSign, Val(t), z);
    if rSign {
      ValBound(t);
      BasePow(|t|);
      MulMono(0, |t|, LIMB_BITS);
      PowStrict(2, |t| * LIMB_BITS, PREC_INF);
      var s := AddExact(r, false, 0 - Val(t));
      r.neg, r.expn, r.tab := s.neg, s.expn, s.tab;
      SameNumber(s, r, z);
    }
    BitwiseIs(op, x, y, z);
  }

  lemma SameNumber(s: Number, r: Number, z: int)
    requires IsInteger(s, z) && r.neg == s.neg && r.expn == s.expn && r.tab == s.tab
    ensures IsInteger(r, z)
  {
    hide Finite, Magnitude;
  }

  lemma FromSignIs(sign: bool, m: nat, x: int)
    requires x == if sign then 0 - m - 1 else m
    ensures FromSign(sign, m) == x
  {}

  lemma LengthBound(op: LogicOp, aSign: bool, bSign: bool, ea: int, eb: int)
    requires ea + 2 * LIMB_BITS <= PREC_INF && eb + 2 * LIMB_BITS <= PREC_INF
    ensures ResultLimbs(ResultExp(op, aSign, bSign, ea, eb)) * LIMB_BITS < PREC_INF
  {
    hide PREC_INF, ResultLimbs;
    PrecInf();
    ResultLimbsIs(ResultExp(op, aSign, bSign, ea, eb));
  }
}
