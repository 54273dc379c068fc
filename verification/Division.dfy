/** Word division by a precomputed inverse and schoolbook long division
    (cpp/src/quickjs/libbf.c, udiv1norm to mp_divnorm). */
module Division {
  import opened Powers
  import opened Limbs
  import opened LimbOps

  /** d_inv is floor((B^2 - 1) / d) - B. */
  ghost predicate IsWordInverse(d: Limb, inv: Limb)
  {
    (B + inv) * d <= B * B - 1 < (B + inv + 1) * d
  }

  lemma WordInverseArith(b: int, h: int, d: int, q: int, r: int)
    requires b == 2 * h && h <= d < b && 0 < h
    requires (b - d - 1) * b + (b - 1) == q * d + r && 0 <= r < d
    ensures 0 <= q < b && (b + q) * d <= b * b - 1 < (b + q + 1) * d
  {
    assert (b - d - 1) * b + (b - 1) == b * b - d * b - 1;
    MulMono(0, b - d - 1, b);
    if q < 0 {
      MulMono(q, -1, d);
      assert false;
    }
    if q >= b {
      MulMono(b, q, d);
      MulMono(h, d, b);
    }
  }

  method Udiv1normInit(d: Limb) returns (inv: Limb)
    requires d >= HALF
    ensures IsWordInverse(d, inv)
  {
    BaseFacts();
    MulMono(0, B - d - 1, B);
    var a: nat := (B - d - 1) * B + (B - 1);
    DivModIdentity(a, d);
    WordInverseArith(B, HALF, d, a / d, a % d);
    inv := a / d;
  }

  /** Granlund and Montgomery's estimate is the quotient or one below it. */
  lemma EstimateArith(b: int, h: int, d: int, m: int, a1: int, a0: int, n1: int, t: int, f: int)
    requires b == 2 * h && 0 < h <= d < b && 0 <= a1 < d && 0 <= a0 < b
    requires n1 == (if a0 >= h then 1 else 0)
    requires (b + m) * d <= b * b - 1 < (b + m + 1) * d
    requires t == m * (a1 + n1) + a0 + n1 * (d - b)
    requires f * b <= t < f * b + b
    ensures 0 <= (a1 * b + a0) - (a1 + f) * d < 2 * d
  {
    var k := b * b - (b + m) * d;
    MulDist(d, b + m, 1);
    EstimateErrorBound(b, h, d, k, a1, a0, n1);
    if n1 == 0 {
      EstimateBelowHalf(b, d, m, a1, a0, f, k);
    } else {
      EstimateAboveHalf(b, d, m, a1, a0, f, k);
    }
  }

  lemma EstimateBelowHalf(b: int, d: int, m: int, a1: int, a0: int, f: int, k: int)
    requires 0 < b && 0 < d && k == b * b - (b + m) * d
    requires 0 <= k * a1 + (b - d) * a0 < d * b
    requires f * b <= m * a1 + a0 < f * b + b
    ensures 0 <= (a1 * b + a0) - (a1 + f) * d < 2 * d
  {
    EstimateIdentity0(b, d, m, a1, a0);
    MulDist(b, a1, f);
    EstimateFinish(b, d, a1 * b + a0, a1 + f, a1 * b + (m * a1 + a0), k * a1 + (b - d) * a0);
  }

  lemma EstimateAboveHalf(b: int, d: int, m: int, a1: int, a0: int, f: int, k: int)
    requires 0 < b && 0 < d && k == b * b - (b + m) * d
    requires 0 <= k * (a1 + 1) + (b - d) * (a0 - (b - d)) < d * b
    requires f * b <= m * (a1 + 1) + a0 + (d - b) < f * b + b
    ensures 0 <= (a1 * b + a0) - (a1 + f) * d < 2 * d
  {
    EstimateIdentity1(b, d, m, a1, a0);
    MulDist(b, a1, f);
    EstimateFinish(b, d, a1 * b + a0, a1 + f, a1 * b + (m * (a1 + 1) + a0 + (d - b)),
      k * (a1 + 1) + (b - d) * (a0 - (b - d)));
  }

  lemma EstimateFinish(b: int, d: int, A: int, q: int, T: int, E: int)
    requires 0 < b && 0 < d && A * b - d * T == E && 0 <= E < d * b
    requires q * b <= T < q * b + b
    ensures 0 <= A - q * d < 2 * d
  {
    MulMono(q * b, T, d);
    MulStrict(T, q * b + b, d);
    EstimateFinishIdentity(b, d, q);
    MulCancelLe(q * d, A, b);
    MulCancelLt(A, q * d + 2 * d, b);
  }

  lemma EstimateFinishIdentity(b: int, d: int, q: int)
    ensures d * (q * b) == (q * d) * b
    ensures d * (q * b + b) == (q * d) * b + d * b
    ensures (q * d + 2 * d) * b == (q * d) * b + d * b + d * b
  {}

  lemma EstimateIdentity0(b: int, d: int, m: int, a1: int, a0: int)
    ensures (a1 * b + a0) * b - d * (a1 * b + (m * a1 + a0)) == (b * b - (b + m) * d) * a1 + (b - d) * a0
  {}

  lemma EstimateIdentity1(b: int, d: int, m: int, a1: int, a0: int)
    ensures (a1 * b + a0) * b - d * (a1 * b + (m * (a1 + 1) + a0 + (d - b)))
         == (b * b - (b + m) * d) * (a1 + 1) + (b - d) * (a0 - (b - d))
  {}

  lemma EstimateErrorBound(b: int, h: int, d: int, k: int, a1: int, a0: int, n1: int)
    requires b == 2 * h && 0 < h <= d < b && 0 <= a1 < d && 0 <= a0 < b && 1 <= k <= d
    requires n1 == (if a0 >= h then 1 else 0)
    ensures 0 <= k * (a1 + n1) + (b - d) * (a0 - n1 * (b - d)) < d * b
  {
    if n1 == 0 {
      EstimateErrorLow(b, d, k, a1, a0);
    } else {
      EstimateErrorHigh(b, d, k, a1, a0);
    }
  }

  lemma EstimateErrorLow(b: int, d: int, k: int, a1: int, a0: int)
    requires 0 < d < b && 0 <= a1 < d && 0 <= a0 < d && 1 <= k <= d
    ensures 0 <= k * a1 + (b - d) * a0 < d * b
  {
    MulMono(0, k, a1);
    MulMono(k, d, a1);
    MulMono(a1, d - 1, d);
    MulMono(0, a0, b - d);
    MulMono(a0, d, b - d);
    EstimateErrorPoly(b, d);
  }

  lemma EstimateErrorHigh(b: int, d: int, k: int, a1: int, a0: int)
    requires 0 < d < b && 0 <= a1 < d && b - d <= a0 < b && 1 <= k <= d
    ensures 0 <= k * (a1 + 1) + (b - d) * (a0 - (b - d)) < d * b
  {
    MulMono(0, k, a1 + 1);
    MulMono(k, d, a1 + 1);
    MulMono(a1 + 1, d, d);
    MulMono(0, a0 - (b - d), b - d);
    MulMono(a0 - (b - d), d - 1, b - d);
    EstimateErrorPoly(b, d);
  }

  lemma EstimateErrorPoly(b: int, d: int)
    ensures d * (d - 1) + (b - d) * d == d * b - d
    ensures d * d + (b - d) * (d - 1) == d * b - (b - d)
  {}

  /** Quotient and remainder of a1 * B + a0 by d, from the inverse. The
      double-word difference wraps, and its high word is 0 or all ones. */
  method Udiv1norm(a1: Limb, a0: Limb, d: Limb, inv: Limb) returns (q: Limb, r: Limb)
    requires d >= HALF && a1 < d && IsWordInverse(d, inv)
    ensures a1 * B + a0 == q * d + r && r < d
  {
    hide *;
    BaseFacts();
    var n1m := if a0 >= HALF then B - 1 else 0;
    var nAdj := AddW(a0, if n1m == 0 then 0 else d);
    var a := inv * SubW(a1, n1m) + nAdj;
    UdivEstimate(a1, a0, d, inv, SubW(a1, n1m), nAdj, a);
    var q0: Limb := a1 + a / B;
    var A := a1 * B + a0;
    var ah, low := HighLowOfDifference(A - q0 * d - d, d);
    q := if ah == 0 then AddW(q0, 1) else q0;
    r := AddW(low, if ah == 0 then 0 else d);
    UdivAdjust(A, q0, d, low, ah == 0);
    if ah == 0 {
      QuotientFitsLimb(B, d, a1, a0, q0 + 1);
    }
  }

  lemma WordInverseIs(d: Limb, inv: Limb)
    requires IsWordInverse(d, inv)
    ensures (B + inv) * d <= B * B - 1 < (B + inv + 1) * d
  {}

  /** The estimate is a limb, and the quotient or one below it. */
  lemma UdivEstimate(a1: Limb, a0: Limb, d: Limb, inv: Limb, x: nat, y: int, a: int)
    requires d >= HALF && a1 < d && IsWordInverse(d, inv) && a == inv * x + y
    requires x == a1 + (if a0 >= HALF then 1 else 0) && y == a0 + (if a0 >= HALF then d - B else 0) && y >= 0
    ensures a >= 0 && B > 0 && 0 <= a1 + a / B < B && 0 <= (a1 * B + a0) - (a1 + a / B) * d < 2 * d
  {
    hide *;
    BaseFacts();
    WordInverseIs(d, inv);
    MulMono(0, inv, x);
    DivModIdentity(a, B);
    EstimateSum(B, HALF, d, inv, a1, a0, if a0 >= HALF then 1 else 0, x, y, a, a / B, a % B);
  }

  lemma EstimateSum(b: int, h: int, d: int, m: int, a1: int, a0: int, n1: int, x: int, y: int, a: int, f: int, r: int)
    requires b == 2 * h && 0 < h <= d < b && 0 <= a1 < d && 0 <= a0 < b && n1 == (if a0 >= h then 1 else 0)
    requires (b + m) * d <= b * b - 1 < (b + m + 1) * d
    requires x == a1 + n1 && y == a0 + (if a0 >= h then d - b else 0) && 0 <= a == m * x + y
    requires a == f * b + r && 0 <= r < b
    ensures 0 <= a1 + f < b && 0 <= (a1 * b + a0) - (a1 + f) * d < 2 * d
  {
    if f < 0 {
      MulMono(f, -1, b);
      assert false;
    }
    EstimateArith(b, h, d, m, a1, a0, n1, a, f);
    QuotientFitsLimb(b, d, a1, a0, a1 + f);
  }

  lemma UdivAdjust(A: int, q0: int, d: int, low: int, more: bool)
    requires low == A - q0 * d - d + (if more then 0 else B)
    ensures more ==> A == (q0 + 1) * d + low
    ensures !more ==> A == q0 * d + (low + d - B)
  {}

  lemma QuotientFitsLimb(b: int, d: int, a1: int, a0: int, q: int)
    requires 0 < d && 0 <= a1 < d && 0 <= a0 < b && q * d <= a1 * b + a0
    ensures q < b
  {
    if q >= b {
      MulMono(b, q, d);
      MulMono(a1 + 1, d, b);
    }
  }

  lemma DifferenceWords(b: int, x: int)
    requires 8 <= b && -b < x < b
    ensures b * b > 0
    ensures x >= 0 ==> x % (b * b) / b == 0 && x % (b * b) % b == x
    ensures x < 0 ==> x % (b * b) / b == b - 1 && x % (b * b) % b == x + b
  {
    MulMono(2, b, b);
    if x >= 0 {
      DivModUnique(b * b, x / (b * b), x % (b * b), 0, x);
      DivModUnique(b, x / b, x % b, 0, x);
    } else {
      var t := x + b * b;
      DivModUnique(b * b, x / (b * b), x % (b * b), -1, t);
      MulDist(b, b, 1);
      DivModUnique(b, t / b, t % b, b - 1, x + b);
    }
  }

  /** The double-word value x mod B^2 of a difference in [-d, d): high and low word. */
  method HighLowOfDifference(x: int, d: Limb) returns (high: Limb, low: Limb)
    requires 0 <= x + d && x < d
    ensures x >= 0 ==> high == 0 && low == x
    ensures x < 0 ==> high == B - 1 && low == x + B
  {
    BaseFacts();
    DifferenceWords(B, x);
    var t := x % (B * B);
    high, low := t / B, t % B;
  }

  /** One quotient digit: by the inverse when there is one, else by a double-word division. */
  method DivWord(a1: Limb, a0: Limb, d: Limb, useInv: bool, inv: Limb) returns (q: Limb, r: Limb)
    requires d >= HALF && a1 < d && (useInv ==> IsWordInverse(d, inv))
    ensures a1 * B + a0 == q * d + r && r < d
  {
    if useInv {
      q, r := Udiv1norm(a1, a0, d, inv);
    } else {
      BaseFacts();
      MulMono(0, a1, B);
      var a: nat := a1 * B + a0;
      DivModIdentity(a, d);
      QuotientFitsLimb(B, d, a1, a0, a / d);
      q, r := a / d, a % d;
    }
  }

  lemma Div1Step(b: int, d: int, p: int, rin: int, va: int, vq: int, r: int, x: int, q: int, r': int)
    requires rin * p + va == vq * d + r
    requires r * b + x == q * d + r'
    ensures rin * (b * p) + (x + b * va) == (q + b * vq) * d + r'
  {
    MulDist(b, rin * p, va);
    MulDist(b, vq * d, r);
    Div1StepIdentity(b, d, p, rin, vq, q);
  }

  lemma Div1StepIdentity(b: int, d: int, p: int, rin: int, vq: int, q: int)
    ensures b * (rin * p) == rin * (b * p)
    ensures b * (vq * d) + q * d == (q + b * vq) * d
  {}

  /** q[qo..qo+n], r := (rin * B^n + a[ao..ao+n]) divided by the normalised limb d. */
  method MpDiv1norm(q: array<Limb>, qo: nat, a: array<Limb>, ao: nat, n: nat, d: Limb, rin: Limb) returns (r: Limb)
    requires qo + n <= q.Length && ao + n <= a.Length && q != a
    requires d >= HALF && rin < d
    modifies q
    ensures r < d
    ensures rin * Pow(B, n) + Val(a[ao..ao + n]) == Val(q[qo..qo + n]) * d + r
    ensures forall i :: 0 <= i < q.Length && !(qo <= i < qo + n) ==> q[i] == old(q[i])
  {
    hide *;
    var useInv := n >= 3;
    var inv: Limb;
    if useInv {
      inv := Udiv1normInit(d);
    } else {
      BaseFacts();
      inv := 0;
    }
    r := rin;
    var i := n;
    ValNil([]);
    assert a[ao + i..ao + n] == [] && q[qo + i..qo + n] == [];
    while i > 0
      invariant 0 <= i <= n && r < d
      invariant rin * Pow(B, n - i) + Val(a[ao + i..ao + n]) == Val(q[qo + i..qo + n]) * d + r
      invariant forall j :: 0 <= j < q.Length && !(qo + i <= j < qo + n) ==> q[j] == old(q[j])
    {
      i := i - 1;
      ghost var r0, vq := r, q[qo + i + 1..qo + n];
      var x: Limb;
      x, r := DivWord(r, a[ao + i], d, useInv, inv);
      q[qo + i] := x;
      assert q[qo + i..qo + n] == [x] + vq;
      ValCons(x, vq);
      assert a[ao + i..ao + n] == [a[ao + i]] + a[ao + i + 1..ao + n];
      ValCons(a[ao + i], a[ao + i + 1..ao + n]);
      PowStep(B, n - i - 1);
      Div1Step(B, d, Pow(B, n - i - 1), rin, Val(a[ao + i + 1..ao + n]), Val(vq), r0, a[ao + i], x, r);
    }
  }

  /** Knuth's bounds: the digit estimated from the two leading limbs of the
      window and the leading limb of the divisor is at most two too large. */
  lemma DigitEstimate(b: int, h: int, P: int, u: int, w0: int, b1: int, b0: int, qhat: int)
    requires b == 2 * h && 0 < h <= b1 < b && 0 < P && 0 <= w0 < P && 0 <= b0 < P && 0 <= qhat < b
    requires qhat * b1 <= u
    requires u < (qhat + 1) * b1 || (qhat == b - 1 && u * P + w0 < (b1 * P + b0) * b)
    ensures -(2 * (b1 * P + b0)) <= (u * P + w0) - qhat * (b1 * P + b0) < b1 * P + b0
  {
    var W, V := u * P + w0, b1 * P + b0;
    MulMono(h, b1, P);
    MulMono(0, b1, P);
    MulMono(qhat * b1, u, P);
    MulMono(0, qhat, b0);
    MulMono(qhat, b, b0);
    MulMono(b0, P, b);
    DigitEstimateIdentity(b, h, P, b1, b0, qhat);
    if u < (qhat + 1) * b1 {
      MulMono(u + 1, (qhat + 1) * b1, P);
      MulDist(P, u, 1);
      MulMono(0, qhat + 1, b0);
    }
  }

  lemma DigitEstimateIdentity(b: int, h: int, P: int, b1: int, b0: int, qhat: int)
    ensures qhat * (b1 * P + b0) == (qhat * b1) * P + qhat * b0
    ensures ((qhat + 1) * b1) * P + (qhat + 1) * b0 == qhat * (b1 * P + b0) + (b1 * P + b0)
    ensures (b1 * P + b0) * (qhat + 1) == qhat * (b1 * P + b0) + (b1 * P + b0)
    ensures (2 * h) * P == 2 * (h * P)
  {}

  lemma SubtractDigit(pn: int, b: int, low: int, low': int, v: int, r: int, a: int, c: int, V: int, q: int)
    requires low' - r * pn == low - V * q
    requires v - r == a - c * b
    ensures low' + pn * a == (low + pn * v) - q * V + c * (b * pn)
  {
    assert pn * (v - r) == pn * v - r * pn;
    assert pn * (a - c * b) == pn * a - c * (b * pn);
  }

  lemma {:induction false} TopLimbZero(s: seq<Limb>, n: nat, V: nat)
    requires |s| == n + 1 && Val(s) < V <= Pow(B, n)
    ensures s[n] == 0 && Val(s[..n]) == Val(s)
  {
    hide *;
    assert s == s[..n] + [s[n]];
    ValSnoc(s[..n], s[n]);
    if s[n] >= 1 {
      MulMono(1, s[n], Pow(B, n));
      assert false;
    }
  }

  /** The window a[o..o+nb+1] and the divisor split at their leading limbs. */
  lemma WindowSplit(w: seq<Limb>, d: seq<Limb>, nb: nat)
    requires nb >= 2 && |w| == nb + 1 && |d| == nb
    ensures Val(w) == (w[nb] * B + w[nb - 1]) * Pow(B, nb - 1) + Val(w[..nb - 1])
    ensures Val(d) == d[nb - 1] * Pow(B, nb - 1) + Val(d[..nb - 1])
    ensures Val(w[..nb - 1]) < Pow(B, nb - 1) && Val(d[..nb - 1]) < Pow(B, nb - 1)
  {
    hide *;
    assert w == w[..nb - 1] + ([w[nb - 1]] + [w[nb]]);
    ValConcat(w[..nb - 1], [w[nb - 1]] + [w[nb]]);
    ValCons(w[nb - 1], [w[nb]]);
    ValOne(w[nb]);
    assert d == d[..nb - 1] + [d[nb - 1]];
    ValSnoc(d[..nb - 1], d[nb - 1]);
    ValBound(w[..nb - 1]);
    ValBound(d[..nb - 1]);
  }

  lemma WindowBelow(w: seq<Limb>, d: seq<Limb>, nb: nat)
    requires nb >= 2 && |w| == nb + 1 && |d| == nb
    requires Val(w[1..]) < Val(d)
    ensures Val(w) < Val(d) * B
    ensures w[nb] <= d[nb - 1]
  {
    hide *;
    assert w == [w[0]] + w[1..];
    ValCons(w[0], w[1..]);
    MulMono(Val(w[1..]) + 1, Val(d), B);
    MulDist(B, Val(w[1..]), 1);
    assert w[1..] == w[1..nb] + [w[nb]];
    ValSnoc(w[1..nb], w[nb]);
    assert d == d[..nb - 1] + [d[nb - 1]];
    ValSnoc(d[..nb - 1], d[nb - 1]);
    ValBound(d[..nb - 1]);
    if w[nb] > d[nb - 1] {
      MulMono(d[nb - 1] + 1, w[nb], Pow(B, nb - 1));
      MulDist(Pow(B, nb - 1), d[nb - 1], 1);
      assert false;
    }
  }

  /** The trial quotient digit: at least the true one and at most two above it. */
  method EstimateDigit(a: array<Limb>, o: nat, b: array<Limb>, bo: nat, nb: nat, useInv: bool, inv: Limb)
      returns (q: Limb)
    requires nb >= 2 && o + nb + 1 <= a.Length && bo + nb <= b.Length
    requires b[bo + nb - 1] >= HALF && (useInv ==> IsWordInverse(b[bo + nb - 1], inv))
    requires Val(a[o + 1..o + nb + 1]) < Val(b[bo..bo + nb])
    ensures -(2 * Val(b[bo..bo + nb])) <= Val(a[o..o + nb + 1]) - q * Val(b[bo..bo + nb]) < Val(b[bo..bo + nb])
  {
    hide *;
    BaseFacts();
    ghost var w, d := a[o..o + nb + 1], b[bo..bo + nb];
    assert w[1..] == a[o + 1..o + nb + 1];
    WindowSplit(w, d, nb);
    WindowBelow(w, d, nb);
    var b1, a1, a0 := b[bo + nb - 1], a[o + nb], a[o + nb - 1];
    assert w[nb] == a1 && w[nb - 1] == a0 && d[nb - 1] == b1;
    if a1 >= b1 {
      q := B - 1;
      MulDist(b1, B, 1);
    } else {
      var r: Limb;
      q, r := DivWord(a1, a0, b1, useInv, inv);
      MulDist(b1, q, 1);
    }
    DigitEstimate(B, HALF, Pow(B, nb - 1), a1 * B + a0, Val(w[..nb - 1]), b1, Val(d[..nb - 1]), q);
  }

  lemma AddBackStep(pn: int, b: int, low: int, low': int, top: int, V: int, c: int, top': int, wrap: int)
    requires low' == low + V - c * pn
    requires top + c == top' + wrap * b
    ensures low' + pn * top' == (low + pn * top) + V - wrap * (b * pn)
  {
    assert pn * (top + c) == pn * top + c * pn;
    assert pn * (top' + wrap * b) == pn * top' + wrap * (b * pn);
  }

  /** Add the divisor back until the window stops being negative. */
  method AddBack(a: array<Limb>, o: nat, b: array<Limb>, bo: nat, nb: nat, qhat: Limb, ghost X: int)
      returns (q: Limb, ghost addBacks: nat)
    requires nb >= 2 && o + nb + 1 <= a.Length && bo + nb <= b.Length && a != b
    requires Val(a[o..o + nb + 1]) == X + Pow(B, nb + 1)
    requires X < 0 && X + 2 * Val(b[bo..bo + nb]) >= 0 && X + qhat * Val(b[bo..bo + nb]) >= 0
    modifies a
    ensures 1 <= addBacks <= 2 && q == qhat - addBacks
    ensures Val(a[o..o + nb + 1]) == X + addBacks * Val(b[bo..bo + nb]) < Val(b[bo..bo + nb])
    ensures forall i :: 0 <= i < a.Length && !(o <= i < o + nb + 1) ==> a[i] == old(a[i])
  {
    hide *;
    ghost var d := b[bo..bo + nb];
    ghost var V := Val(d);
    addBacks := 0;
    q := qhat;
    while true
      invariant addBacks <= 1 && q == qhat - addBacks && b[bo..bo + nb] == d
      invariant Val(a[o..o + nb + 1]) == X + addBacks * V + Pow(B, nb + 1)
      invariant X + addBacks * V < 0
      invariant forall i :: 0 <= i < a.Length && !(o <= i < o + nb + 1) ==> a[i] == old(a[i])
      decreases 2 - addBacks
    {
      ghost var low, top := a[o..o + nb], a[o + nb];
      assert a[o..o + nb + 1] == low + [top];
      ValSnoc(low, top);
      ghost var before := Val(low + [top]);
      assert before == X + addBacks * V + Pow(B, nb + 1);
      if q == 0 {
        assert false;
      }
      q := q - 1;
      var c := MpAdd(a, o, b, bo, nb, 0);
      var wrapped := false;
      if c != 0 {
        BaseFacts();
        a[o + nb] := AddW(a[o + nb], 1);
        wrapped := a[o + nb] == 0;
      }
      ghost var wrap := if wrapped then 1 else 0;
      assert top + c == a[o + nb] + wrap * B by { AddWFacts(top); }
      ghost var low' := a[o..o + nb];
      assert a[o..o + nb + 1] == low' + [a[o + nb]];
      ValSnoc(low', a[o + nb]);
      PowStep(B, nb);
      AddBackStep(Pow(B, nb), B, Val(low), Val(low'), top, V, c, a[o + nb], wrap);
      addBacks := addBacks + 1;
      assert Val(a[o..o + nb + 1]) == X + addBacks * V + Pow(B, nb + 1) - wrap * Pow(B, nb + 1);
      ValBound(a[o..o + nb + 1]);
      if wrapped {
        break;
      }
    }
  }

  lemma AddWFacts(x: Limb)
    ensures B >= 8
    ensures AddW(x, 1) == 0 ==> x + 1 == B
    ensures AddW(x, 1) != 0 ==> x + 1 == AddW(x, 1)
  {
    BaseFacts();
  }

  /** One digit of the schoolbook division on the window a[o..o+nb+1]. */
  method DivStep(a: array<Limb>, o: nat, b: array<Limb>, bo: nat, nb: nat, useInv: bool, inv: Limb)
      returns (q: Limb, ghost addBacks: nat)
    requires nb >= 2 && o + nb + 1 <= a.Length && bo + nb <= b.Length && a != b
    requires b[bo + nb - 1] >= HALF && (useInv ==> IsWordInverse(b[bo + nb - 1], inv))
    requires Val(a[o + 1..o + nb + 1]) < Val(b[bo..bo + nb])
    modifies a
    ensures addBacks <= 2
    ensures old(Val(a[o..o + nb + 1])) == q * Val(b[bo..bo + nb]) + Val(a[o..o + nb])
    ensures Val(a[o..o + nb]) < Val(b[bo..bo + nb]) && a[o + nb] == 0
    ensures forall i :: 0 <= i < a.Length && !(o <= i < o + nb + 1) ==> a[i] == old(a[i])
  {
    hide *;
    q := EstimateDigit(a, o, b, bo, nb, useInv, inv);
    ghost var W, V := Val(a[o..o + nb + 1]), Val(b[bo..bo + nb]);
    ghost var X := W - q * V;
    ghost var low, top := a[o..o + nb], a[o + nb];
    assert a[o..o + nb + 1] == low + [top];
    ValSnoc(low, top);
    var r := MpSubMul1(a, o, b, bo, nb, q);
    var v := a[o + nb];
    var x, c := SubWord(v, r);
    a[o + nb] := x;
    ghost var low' := a[o..o + nb];
    assert a[o..o + nb + 1] == low' + [x];
    ValSnoc(low', x);
    PowStep(B, nb);
    SubtractDigit(Pow(B, nb), B, Val(low), Val(low'), v, r, x, c, V, q);
    ValBound(a[o..o + nb + 1]);
    ValBound(b[bo..bo + nb]);
    addBacks := 0;
    ghost var qhat := q;
    if c != 0 {
      q, addBacks := AddBack(a, o, b, bo, nb, q, X);
      MulDist(V, qhat, addBacks);
    }
    assert Val(a[o..o + nb + 1]) == W - q * V < V;
    TopLimbZero(a[o..o + nb + 1], nb, V);
    assert a[o..o + nb + 1][..nb] == a[o..o + nb];
  }

  /** The leading quotient limb is 0 or 1; subtract the divisor once if it is 1. */
  method DivFirst(a: array<Limb>, o: nat, b: array<Limb>, bo: nat, nb: nat) returns (q: Limb)
    requires nb >= 1 && o + nb <= a.Length && bo + nb <= b.Length && a != b
    requires b[bo + nb - 1] >= HALF
    modifies a
    ensures q <= 1
    ensures old(Val(a[o..o + nb])) == q * Val(b[bo..bo + nb]) + Val(a[o..o + nb])
    ensures Val(a[o..o + nb]) < Val(b[bo..bo + nb])
    ensures forall i :: 0 <= i < a.Length && !(o <= i < o + nb) ==> a[i] == old(a[i])
  {
    hide *;
    q := LeadingDigit(a, o, b, bo, nb);
    HalfDivisor(a[o..o + nb], b[bo..bo + nb]);
    if q != 0 {
      var k := MpSub(a, o, b, bo, nb, 0);
      ValBound(a[o..o + nb]);
      ValBound(b[bo..bo + nb]);
      if k == 1 {
        assert false;
      }
    }
  }

  /** 0 or 1 as the window is below the divisor or not. */
  method LeadingDigit(a: array<Limb>, o: nat, b: array<Limb>, bo: nat, nb: nat) returns (q: Limb)
    requires o + nb <= a.Length && bo + nb <= b.Length
    ensures q <= 1
    ensures q == 0 <==> Val(a[o..o + nb]) < Val(b[bo..bo + nb])
  {
    hide *;
    BaseFacts();
    q := 1;
    var j := nb;
    while j > 0
      invariant 0 <= j <= nb
      invariant a[o + j..o + nb] == b[bo + j..bo + nb]
      invariant q == 1
    {
      j := j - 1;
      if a[o + j] != b[bo + j] {
        if a[o + j] < b[bo + j] {
          q := 0;
        }
        ghost var s, t := a[o..o + nb], b[bo..bo + nb];
        assert s[j + 1..] == a[o + j + 1..o + nb] && t[j + 1..] == b[bo + j + 1..bo + nb];
        MpCmpAt(s, t, j);
        return;
      }
    }
    assert a[o..o + nb] == b[bo..bo + nb];
  }

  lemma HalfDivisor(a: seq<Limb>, d: seq<Limb>)
    requires |a| == |d| >= 1 && d[|d| - 1] >= HALF
    ensures Val(a) < 2 * Val(d)
    ensures 2 * Val(d) >= Pow(B, |d|)
  {
    hide *;
    var n := |d|;
    BaseFacts();
    assert d == d[..n - 1] + [d[n - 1]];
    ValSnoc(d[..n - 1], d[n - 1]);
    ValBound(a);
    MulMono(HALF, d[n - 1], Pow(B, n - 1));
    PowStep(B, n - 1);
    MulAssoc(2, HALF, Pow(B, n - 1));
  }

  lemma LongDivStep(p: int, b: int, A: int, Q: int, V: int, low: int, hi: int, hi': int, x: int, q: int)
    requires A == (b * p) * (Q * V) + (low + p * (x + b * hi))
    requires x + b * hi == q * V + hi'
    ensures A == p * ((q + b * Q) * V) + (low + p * hi')
  {
    MulDist(p, q * V, hi');
    LongDivIdentity(p, b, Q, V, q);
  }

  lemma LongDivIdentity(p: int, b: int, Q: int, V: int, q: int)
    ensures (b * p) * (Q * V) + p * (q * V) == p * ((q + b * Q) * V)
  {}

  /** Schoolbook division of a[ao..ao+na] by the normalised b[bo..bo+nb], nb >= 2:
      the quotient goes to q, the remainder stays in the low nb limbs of a. */
  method MpDivnormBase(q: array<Limb>, qo: nat, a: array<Limb>, ao: nat, na: nat, b: array<Limb>, bo: nat, nb: nat)
    requires 2 <= nb <= na && ao + na <= a.Length && bo + nb <= b.Length && qo + (na - nb) + 1 <= q.Length
    requires a != b && q != a && q != b && b[bo + nb - 1] >= HALF
    modifies a, q
    ensures old(Val(a[ao..ao + na])) == Val(q[qo..qo + (na - nb) + 1]) * Val(b[bo..bo + nb]) + Val(a[ao..ao + nb])
    ensures Val(a[ao..ao + nb]) < Val(b[bo..bo + nb])
    ensures q[qo + (na - nb)] <= 1
    ensures forall i :: 0 <= i < a.Length && !(ao <= i < ao + na) ==> a[i] == old(a[i])
    ensures forall i :: 0 <= i < q.Length && !(qo <= i < qo + (na - nb) + 1) ==> q[i] == old(q[i])
  {
    hide *;
    var n := na - nb;
    var b1 := b[bo + nb - 1];
    var useInv := n >= 3;
    var inv: Limb;
    if useInv {
      inv := Udiv1normInit(b1);
    } else {
      BaseFacts();
      inv := 0;
    }
    ghost var A, d, s0 := Val(a[ao..ao + na]), b[bo..bo + nb], a[..];
    assert s0[ao..ao + na] == a[ao..ao + na];
    ValSplit(s0, ao, ao + n, ao + na);
    assert s0[ao + n..ao + na] == a[ao + n..ao + n + nb];
    var x := DivFirst(a, ao + n, b, bo, nb);
    q[qo + n] := x;
    assert a[ao..ao + n] == s0[ao..ao + n];
    assert q[qo + n..qo + n + 1] == [x];
    LongDivStart(A, d, s0[ao..ao + n], Val(s0[ao + n..ao + na]), a[ao + n..ao + n + nb], x);
    DivDigits(q, qo, a, ao, n, b, bo, nb, useInv, inv, A);
    LongDivFinish(A, d, q[qo..qo + n + 1], [], a[ao..ao + nb]);
  }

  /** The digits below the leading one, most significant first. */
  method DivDigits(q: array<Limb>, qo: nat, a: array<Limb>, ao: nat, n: nat, b: array<Limb>, bo: nat, nb: nat,
                   useInv: bool, inv: Limb, ghost A: nat)
    requires nb >= 2 && ao + n + nb <= a.Length && bo + nb <= b.Length && qo + n + 1 <= q.Length
    requires a != b && q != a && q != b
    requires b[bo + nb - 1] >= HALF && (useInv ==> IsWordInverse(b[bo + nb - 1], inv))
    requires LongDivInv(A, b[bo..bo + nb], q[qo + n..qo + n + 1], a[ao..ao + n], a[ao + n..ao + n + nb])
    modifies a, q
    ensures LongDivInv(A, b[bo..bo + nb], q[qo..qo + n + 1], [], a[ao..ao + nb])
    ensures q[qo + n] == old(q[qo + n])
    ensures forall i :: 0 <= i < a.Length && !(ao <= i < ao + n + nb) ==> a[i] == old(a[i])
    ensures forall i :: 0 <= i < q.Length && !(qo <= i < qo + n + 1) ==> q[i] == old(q[i])
  {
    hide *;
    ghost var d, s0, q0, bs := b[bo..bo + nb], a[..], q[..], b[..];
    var i := n;
    while i > 0
      invariant 0 <= i <= n && b[..] == bs
      invariant LongDivInv(A, d, q[qo + i..qo + n + 1], a[ao..ao + i], a[ao + i..ao + i + nb])
      invariant forall j :: 0 <= j < a.Length && !(ao <= j < ao + n + nb) ==> a[j] == s0[j]
      invariant forall j :: 0 <= j < q.Length && !(qo + i <= j < qo + n) ==> q[j] == q0[j]
      invariant d == b[bo..bo + nb]
    {
      i := i - 1;
      ghost var w, qs, low := a[ao + i..ao + i + nb + 1], q[qo + i + 1..qo + n + 1], a[ao..ao + i];
      assert a[ao..ao + i + 1] == low + [w[0]];
      assert a[ao + i + 1..ao + i + 1 + nb] == w[1..];
      LongDivInvBound(A, d, qs, low + [w[0]], w[1..]);
      var x: Limb;
      ghost var cnt;
      x, cnt := DivStep(a, ao + i, b, bo, nb, useInv, inv);
      q[qo + i] := x;
      assert q[qo + i..qo + n + 1] == [x] + qs;
      assert a[ao..ao + i] == low;
      LongDivAdvance(A, d, qs, low, w, x, a[ao + i..ao + i + nb]);
    }
    assert a[ao..ao + i] == [];
  }

  /** After the digits qs the dividend is qs * B^i * d plus what is left: the
      untouched limbs low and, above them, the partial remainder win < d. */
  ghost predicate LongDivInv(A: nat, d: seq<Limb>, qs: seq<Limb>, low: seq<Limb>, win: seq<Limb>)
  {
    && A == Pow(B, |low|) * (Val(qs) * Val(d)) + (Val(low) + Pow(B, |low|) * Val(win))
    && Val(win) < Val(d)
  }

  lemma LongDivInvBound(A: nat, d: seq<Limb>, qs: seq<Limb>, low: seq<Limb>, win: seq<Limb>)
    requires LongDivInv(A, d, qs, low, win)
    ensures Val(win) < Val(d)
  {}

  lemma LongDivStart(A: nat, d: seq<Limb>, low: seq<Limb>, W: nat, win: seq<Limb>, x: Limb)
    requires A == Val(low) + Pow(B, |low|) * W
    requires W == x * Val(d) + Val(win) && Val(win) < Val(d)
    ensures LongDivInv(A, d, [x], low, win)
  {
    hide Val, Pow;
    ValOne(x);
    MulDist(Pow(B, |low|), x * Val(d), Val(win));
  }

  lemma LongDivAdvance(A: nat, d: seq<Limb>, qs: seq<Limb>, low: seq<Limb>, w: seq<Limb>, x: Limb, win: seq<Limb>)
    requires |w| >= 1 && LongDivInv(A, d, qs, low + [w[0]], w[1..])
    requires Val(w) == x * Val(d) + Val(win) && Val(win) < Val(d)
    ensures LongDivInv(A, d, [x] + qs, low, win)
  {
    hide Val, Pow, B;
    var i := |low|;
    assert w == [w[0]] + w[1..];
    ValCons(w[0], w[1..]);
    ValCons(x, qs);
    ValSnoc(low, w[0]);
    PowStep(B, i);
    LongDivAdvanceArith(Pow(B, i), Pow(B, i + 1), B, A, Val(qs), Val(d), Val(low), Val(low + [w[0]]),
      Val(w[1..]), Val(win), w[0], x,
                        Val([x] + qs), Val(w));
  }

  lemma LongDivAdvanceArith(p: int, p': int, b: int, A: int, Q: int, V: int, low: int, low': int, hi: int, hi': int,
      x: int, q: int, Q': int, w: int)
    requires p' == b * p && low' == low + p * x && Q' == q + b * Q && w == x + b * hi
    requires A == p' * (Q * V) + (low' + p' * hi)
    requires w == q * V + hi'
    ensures A == p * (Q' * V) + (low + p * hi')
  {
    LongDivShift(p, b, low, x, hi);
    LongDivStep(p, b, A, Q, V, low, hi, hi', x, q);
  }

  lemma LongDivShift(p: int, b: int, low: int, x: int, hi: int)
    ensures (low + p * x) + (b * p) * hi == low + p * (x + b * hi)
  {}

  lemma LongDivFinish(A: nat, d: seq<Limb>, qs: seq<Limb>, low: seq<Limb>, win: seq<Limb>)
    requires LongDivInv(A, d, qs, low, win) && low == []
    ensures A == Val(qs) * Val(d) + Val(win) && Val(win) < Val(d)
  {
    hide Val, Pow;
    ValNil(low);
  }
}
