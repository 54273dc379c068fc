/** Newton reciprocal and subquadratic division (cpp/src/quickjs/libbf.c,
    mp_recip and mp_divnorm_large), and the dispatching mp_divnorm. */
module LargeDivision {
  import opened Powers
  import opened Limbs
  import opened LimbOps
  import opened Division
  import FftMul

  /** x is the reciprocal of the n-limb number a: a * x < B^(2n) < a * (x + 2). */
  ghost predicate IsRecip(a: nat, x: nat, n: nat)
  {
    a * x < Pow(B, 2 * n) < a * (x + 2)
  }

  /** The Newton step in exact arithmetic. With bl = B^l, bh = B^h the half-size
      reciprocal xh (already corrected so that a * xh < B^(n+h)) yields the residue
      t = tm * bl + tl; the new error is a weighted sum of what was thrown away. */
  lemma NewtonIdentity(bl: int, bh: int, k: int, a: int, xh: int, t: int, tm: int, tl: int, q: int, rho: int)
    requires bh * bh == k * bl
    requires a * xh == bh * bh * bl - t
    requires t == tm * bl + tl
    requires tm * xh == q * k + rho
    ensures k * ((bl * bh) * (bl * bh) - a * (xh * bl + q)) == bh * bh * tl + t * tm + a * rho
  {
    var h2 := bh * bh;
    NewtonIdentity1(bl, bh, k, a, xh, q);
    assert k * (a * (xh * bl + q)) == (a * xh) * h2 + a * (q * k);
    assert a * (tm * xh) == a * (q * k) + a * rho by { MulDist(a, q * k, rho); }
    NewtonIdentity2(a, tm, xh);
    NewtonIdentity3(h2, bl, t, tm);
    assert (a * xh) * h2 == (h2 * bl - t) * h2;
    assert (a * xh) * tm == (h2 * bl - t) * tm;
    assert h2 * (tm * bl + tl) == h2 * t;
    MulDist(h2, tm * bl, tl);
    NewtonIdentity4(bl, bh, k);
  }

  lemma NewtonIdentity1(bl: int, bh: int, k: int, a: int, xh: int, q: int)
    requires bh * bh == k * bl
    ensures k * (a * (xh * bl + q)) == (a * xh) * (bh * bh) + a * (q * k)
  {
    NewtonIdentity1Poly(bl, k, a, xh, q);
  }

  lemma NewtonIdentity1Poly(bl: int, k: int, a: int, xh: int, q: int)
    ensures k * (a * (xh * bl + q)) == (a * xh) * (k * bl) + a * (q * k)
  {}

  lemma NewtonIdentity2(a: int, tm: int, xh: int)
    ensures a * (tm * xh) == (a * xh) * tm
  {}

  lemma NewtonIdentity3(h2: int, bl: int, t: int, tm: int)
    ensures (h2 * bl - t) * h2 == h2 * bl * h2 - t * h2
    ensures (h2 * bl - t) * tm == h2 * (tm * bl) - t * tm
  {}

  lemma NewtonIdentity4(bl: int, bh: int, k: int)
    requires bh * bh == k * bl
    ensures k * ((bl * bh) * (bl * bh)) == (bh * bh) * bl * (bh * bh)
  {
    NewtonIdentity4Poly(bl, bh, k);
  }

  lemma NewtonIdentity4Poly(bl: int, bh: int, k: int)
    ensures k * ((bl * bh) * (bl * bh)) == (k * bl) * bl * (bh * bh)
  {}

  /** Everything the truncations lose is below two units of a. */
  lemma NewtonErrorBound(b: int, bl: int, bh: int, k: int, a: int, t: int, tm: int, tl: int, rho: int)
    requires 8 <= b && 1 <= bl && b * bl <= bh && bh * bh == k * bl && 0 < k
    requires 0 < a < bl * bh <= 2 * a && 0 < t < 2 * a
    requires t == tm * bl + tl && 0 <= tl < bl && 0 <= tm && 0 <= rho < k
    ensures 0 <= bh * bh * tl + t * tm + a * rho < 2 * (k * a)
  {
    NewtonLowTerm(b, bl, bh, k, a, tl);
    NewtonMidTerm(b, bl, bh, k, a, t, tm);
    MulMono(rho, k, a);
    MulMono(0, rho, a);
    MulMono(0, tl, bh * bh);
    MulMono(0, tm, t);
  }

  lemma NewtonLowTerm(b: int, bl: int, bh: int, k: int, a: int, tl: int)
    requires 8 <= b && 1 <= bl && b * bl <= bh && bh * bh == k * bl && 0 < k && 0 < a
    requires bl * bh <= 2 * a && 0 <= tl < bl
    ensures 4 * (bh * bh * tl) < k * a
  {
    var c := k * bl;
    MulMono(1, bl, k);
    MulStrict(tl, bl, c);
    MulMono(8, b, c * bl);
    MulMono(b * bl, bh, c);
    MulMono(bl * bh, 2 * a, k);
    NewtonLowPoly(b, bl, bh, k, a);
  }

  lemma NewtonLowPoly(b: int, bl: int, bh: int, k: int, a: int)
    ensures b * ((k * bl) * bl) == (k * bl) * (b * bl)
    ensures (k * bl) * bh == k * (bl * bh)
    ensures k * (2 * a) == 2 * (k * a)
  {}

  lemma NewtonMidTerm(b: int, bl: int, bh: int, k: int, a: int, t: int, tm: int)
    requires 8 <= b && 1 <= bl && b * bl <= bh && bh * bh == k * bl && 0 < k && 0 < a < bl * bh
    requires 0 < t < 2 * a && tm * bl <= t && 0 <= tm
    ensures 2 * (t * tm) <= k * a
  {
    assert tm < 2 * bh by {
      assert (2 * bh) * bl == 2 * (bl * bh);
      if tm >= 2 * bh {
        MulMono(2 * bh, tm, bl);
      }
    }
    MulMono(b * bl, bh, bh);
    assert bh * (b * bl) == (b * bh) * bl;
    MulCancelLe(b * bh, k, bl);
    MulMono(8, b, bh);
    MulMono(8 * bh, k, a);
    MulMono(t, 2 * a, tm);
    MulMono(tm, 2 * bh, 2 * a);
    assert (2 * a) * (2 * bh) == 4 * (bh * a);
    assert (8 * bh) * a == 8 * (bh * a);
  }

  lemma NewtonStep(b: int, bl: int, bh: int, k: int, a: int, xh: int, t: int, tm: int, tl: int, q: int, rho: int)
    requires 8 <= b && 1 <= bl && b * bl <= bh && bh * bh == k * bl && 0 < k
    requires 0 < a < bl * bh <= 2 * a
    requires a * xh == bh * bh * bl - t && 0 < t < 2 * a
    requires t == tm * bl + tl && 0 <= tl < bl && 0 <= tm
    requires tm * xh == q * k + rho && 0 <= rho < k
    ensures a * (xh * bl + q) < (bl * bh) * (bl * bh) < a * (xh * bl + q + 2)
  {
    NewtonIdentity(bl, bh, k, a, xh, t, tm, tl, q, rho);
    NewtonErrorBound(b, bl, bh, k, a, t, tm, tl, rho);
    NewtonPositive(bl, bh, a, t, tm, tl, rho);
    var e := (bl * bh) * (bl * bh) - a * (xh * bl + q);
    assert 0 < k * e < k * (2 * a) by { assert k * (2 * a) == 2 * (k * a); }
    if e <= 0 {
      MulMono(e, 0, k);
      assert false;
    }
    if e >= 2 * a {
      MulMono(2 * a, e, k);
      assert false;
    }
    MulDist(a, xh * bl + q, 2);
  }

  lemma NewtonPositive(bl: int, bh: int, a: int, t: int, tm: int, tl: int, rho: int)
    requires 0 < bl && 0 < bh && 0 < a && 0 < t && t == tm * bl + tl && 0 <= tl && 0 <= tm && 0 <= rho
    ensures 0 < bh * bh * tl + t * tm + a * rho
  {
    MulMono(1, bh, bh);
    MulMono(0, tl, bh * bh);
    MulMono(0, tm, t);
    MulMono(0, rho, a);
    if tl > 0 {
      MulMono(1, tl, bh * bh);
    } else if tm > 0 {
      MulMono(1, tm, t);
    }
  }

  /** A reciprocal of a normalised n-limb number lies in [B^n, 2 B^n). */
  lemma RecipRange(a: int, x: int, bn: int, m: int)
    requires 0 < a < bn <= 2 * a && 0 < m
    requires a * x < bn * m && bn * m < a * (x + 2)
    ensures m - 1 <= x < 2 * m
    ensures m == bn ==> m <= x
  {
    assert a * (2 * m) == (2 * a) * m;
    if x >= 2 * m {
      MulMono(2 * m, x, a);
      MulMono(bn, 2 * a, m);
    }
    if x + 2 <= m {
      MulMono(x + 2, m, a);
      MulMono(a, bn, m);
    }
    assert (bn - 1) * (bn + 1) == bn * bn - 1;
    if m == bn && x + 1 <= m {
      MulMono(x + 2, m + 1, a);
      MulMono(a, bn - 1, m + 1);
    }
  }

  /** mp_mul: by transforms from FFT_MUL_THRESHOLD limbs on. Where no transform is long enough
      the source aborts (bf_get_fft_size); here the base case takes over. */
  method MpMul(r: array<Limb>, ro: nat, a: array<Limb>, ao: nat, n1: nat, b: array<Limb>, bo: nat, n2: nat)
    requires ro + n1 + n2 <= r.Length && ao + n1 <= a.Length && bo + n2 <= b.Length
    requires n2 >= 1 && r != a && r != b
    modifies r
    ensures Val(r[ro..ro + n1 + n2]) == Val(a[ao..ao + n1]) * Val(b[bo..bo + n2])
    ensures forall i :: 0 <= i < r.Length && !(ro <= i < ro + n1 + n2) ==> r[i] == old(r[i])
  {
    if n1 >= FftMul.FFT_MUL_THRESHOLD && n2 >= FftMul.FFT_MUL_THRESHOLD {
      var ok, p := FftMul.FftMultiply(a[ao..ao + n1], b[bo..bo + n2]);
      if ok {
        CopyInto(r, ro, p);
        return;
      }
    }
    MpMulBasecase(r, ro, a, ao, n1, b, bo, n2);
  }

  method CopyInto(r: array<Limb>, ro: nat, p: seq<Limb>)
    requires ro + |p| <= r.Length
    modifies r
    ensures r[ro..ro + |p|] == p
    ensures forall i :: 0 <= i < r.Length && !(ro <= i < ro + |p|) ==> r[i] == old(r[i])
  {
    var k := 0;
    while k < |p|
      invariant 0 <= k <= |p| && r[ro..ro + k] == p[..k]
      invariant forall i :: 0 <= i < r.Length && !(ro <= i < ro + k) ==> r[i] == old(r[i])
    {
      r[ro + k] := p[k];
      assert r[ro..ro + k + 1] == r[ro..ro + k] + [p[k]] && p[..k + 1] == p[..k] + [p[k]];
      k := k + 1;
    }
    assert p[..|p|] == p;
  }

  /** Splitting a limb string at k is division with remainder by B^k. */
  lemma SplitIsDivMod(s: seq<Limb>, k: nat)
    requires k <= |s|
    ensures Val(s) == Val(s[k..]) * Pow(B, k) + Val(s[..k]) && Val(s[..k]) < Pow(B, k)
  {
    hide *;
    assert s == s[..k] + s[k..];
    ValConcat(s[..k], s[k..]);
    ValBound(s[..k]);
  }

  /** The one-limb-at-a-time powers used by the Newton step on n = l + h limbs. */
  lemma NewtonPowers(n: nat, l: nat, h: nat)
    requires n >= 3 && l == (n - 1) / 2 && h == n - l
    ensures h >= l + 1 && h >= 2 && l >= 1
    ensures 8 <= B && 1 <= Pow(B, l) && B * Pow(B, l) <= Pow(B, h) && 0 < Pow(B, 2 * h - l)
    ensures Pow(B, h) * Pow(B, h) == Pow(B, 2 * h - l) * Pow(B, l)
    ensures Pow(B, l) * Pow(B, h) == Pow(B, n)
    ensures Pow(B, n) * Pow(B, n) == Pow(B, 2 * n)
    ensures Pow(B, h) * Pow(B, h) == Pow(B, 2 * h)
    ensures Pow(B, h) * Pow(B, h) * Pow(B, l) == Pow(B, n + h)
    ensures Pow(B, n) * Pow(B, h) == Pow(B, n + h)
  {
    hide *;
    BaseFacts();
    PowStep(B, l);
    PowMono(B, l + 1, h);
    PowMono(B, 0, l);
    PowMono(B, 0, 2 * h - l);
    PowAdd(B, h, h);
    PowAdd(B, 2 * h - l, l);
    PowAdd(B, l, h);
    PowAdd(B, n, n);
    PowAdd(B, 2 * h, l);
    PowAdd(B, n, h);
  }

  /** Top limb at least B/2 means the value is at least half of B^n. */
  lemma NormalizedValue(s: seq<Limb>)
    requires |s| >= 1 && s[|s| - 1] >= HALF
    ensures 0 < Val(s) < Pow(B, |s|) <= 2 * Val(s)
  {
    hide *;
    HalfDivisor(s, s);
    ValBound(s);
  }

  lemma SubWideArith(p: int, q: int, lo: int, hi: int, d: int, lo': int, hi': int, c: int, k: int)
    requires lo' == lo - d + c * p && hi' == hi - c + k * q
    ensures lo' + p * hi' == (lo + p * hi) - d + k * (p * q)
  {
    assert p * hi' == p * hi - c * p + k * (p * q);
  }

  /** t[0..m] -= b[bo..bo+n] with the borrow propagated through the upper limbs. */
  method SubWide(t: array<Limb>, m: nat, b: array<Limb>, bo: nat, n: nat)
    requires n < m <= t.Length && bo + n <= b.Length && t != b
    requires Val(t[..m]) >= Val(b[bo..bo + n])
    modifies t
    ensures Val(t[..m]) == old(Val(t[..m])) - Val(b[bo..bo + n])
    ensures forall i :: m <= i < t.Length ==> t[i] == old(t[i])
  {
    hide *;
    ghost var s0, V := t[..], Val(b[bo..bo + n]);
    ValSplit(s0, 0, n, m);
    assert s0[0..m] == t[..m] && s0[0..n] == t[0..0 + n] && s0[n..m] == t[n..n + (m - n)];
    var c := MpSub(t, 0, b, bo, n, 0);
    assert t[n..n + (m - n)] == s0[n..m];
    ghost var lo := t[0..n];
    BaseFacts();
    var k := MpSubUi(t, n, c, m - n);
    assert t[0..n] == lo;
    ghost var s1 := t[..];
    ValSplit(s1, 0, n, m);
    assert s1[0..m] == t[..m] && s1[0..n] == t[0..n] && s1[n..m] == t[n..n + (m - n)];
    PowAdd(B, n, m - n);
    SubWideArith(Pow(B, n), Pow(B, m - n), Val(s0[0..n]), Val(s0[n..m]), V, Val(s1[0..n]), Val(s1[n..m]), c, k);
    ValBound(t[..m]);
    if k == 1 {
      assert false;
    }
  }

  /** Decrement the half-size reciprocal until a * x drops below B^(n+h). */
  method RecipCorrect(t: array<Limb>, r: array<Limb>, xo: nat, a: array<Limb>, ao: nat, n: nat, h: nat)
    requires n >= 1 && h >= 1 && t.Length == n + h + 1 && xo + h + 1 <= r.Length && ao + n <= a.Length
    requires t != r && t != a && r != a
    requires Val(t[..]) == Val(a[ao..ao + n]) * Val(r[xo..xo + h + 1])
    requires Val(a[ao..ao + n]) > 0 && Pow(B, h) <= Val(r[xo..xo + h + 1])
    requires Pow(B, n + h) < Val(a[ao..ao + n]) * (Val(r[xo..xo + h + 1]) + 2)
    modifies t, r
    ensures Val(t[..]) == Val(a[ao..ao + n]) * Val(r[xo..xo + h + 1]) < Pow(B, n + h)
    ensures Pow(B, n + h) < Val(a[ao..ao + n]) * (Val(r[xo..xo + h + 1]) + 2)
    ensures Pow(B, h) <= Val(r[xo..xo + h + 1]) <= old(Val(r[xo..xo + h + 1]))
    ensures forall i :: 0 <= i < r.Length && !(xo <= i < xo + h + 1) ==> r[i] == old(r[i])
  {
    hide *;
    ghost var A, X0 := Val(a[ao..ao + n]), Val(r[xo..xo + h + 1]);
    ValBound(a[ao..ao + n]);
    PowAdd(B, n, h);
    while t[n + h] != 0
      invariant A == Val(a[ao..ao + n])
      invariant Val(t[..]) == A * Val(r[xo..xo + h + 1])
      invariant Pow(B, n + h) < A * (Val(r[xo..xo + h + 1]) + 2)
      invariant Pow(B, h) <= Val(r[xo..xo + h + 1]) <= X0
      invariant forall i :: 0 <= i < r.Length && !(xo <= i < xo + h + 1) ==> r[i] == old(r[i])
      decreases Val(r[xo..xo + h + 1])
    {
      ghost var X := Val(r[xo..xo + h + 1]);
      TopLimb(t[..], n + h);
      RecipCorrectArith(A, X, Pow(B, n), Pow(B, h), Pow(B, n + h));
      BaseFacts();
      var k := MpSubUi(r, xo, 1, h + 1);
      ValBound(r[xo..xo + h + 1]);
      if k == 1 {
        assert false;
      }
      assert t[..n + h + 1] == t[..];
      SubWide(t, n + h + 1, a, ao, n);
      assert t[..n + h + 1] == t[..];
    }
    TopLimb(t[..], n + h);
  }

  lemma RecipCorrectArith(A: int, X: int, bn: int, bh: int, bnh: int)
    requires 0 < A < bn && 0 < bh && bnh == bn * bh && A * X >= bnh
    ensures X > bh && A * X >= A && A * (X - 1) == A * X - A && bnh < A * (X - 1 + 2)
  {
    if X <= bh {
      MulMono(X, bh, A);
      MulStrict(A, bn, bh);
      assert false;
    }
    MulMono(1, X, A);
    MulDist(A, X, 1);
  }

  /** The top limb of m + 1 limbs is zero exactly when the value is below B^m. */
  lemma TopLimb(s: seq<Limb>, m: nat)
    requires |s| == m + 1
    ensures s[m] == 0 <==> Val(s) < Pow(B, m)
    ensures Val(s) == Val(s[..m]) + Pow(B, m) * s[m]
  {
    hide *;
    assert s == s[..m] + [s[m]];
    ValSnoc(s[..m], s[m]);
    ValBound(s[..m]);
    if s[m] > 0 {
      MulMono(1, s[m], Pow(B, m));
    }
  }

  /** t := B^m - t for 0 < t < B^m held in m + 1 limbs. */
  method NegateBelow(t: array<Limb>, m: nat)
    requires t.Length == m + 1 && 0 < Val(t[..]) < Pow(B, m)
    modifies t
    ensures Val(t[..]) == Pow(B, m) - old(Val(t[..]))
  {
    hide *;
    BaseFacts();
    ghost var T := Val(t[..]);
    assert t[0..0 + (m + 1)] == t[..];
    var k := MpNeg(t, 0, m + 1, 0);
    assert t[0..0 + (m + 1)] == t[..];
    ValBound(t[..]);
    PowStep(B, m);
    assert k == 1 by { if k == 0 { assert false; } }
    TopLimb(t[..], m);
    ghost var top, low := t[m], t[..m];
    assert t[..][..m] == low && t[..][m] == top;
    ValBound(low);
    NegateTop(B, Pow(B, m), T, Val(low), top);
    t[m] := AddW(t[m], 1);
    AddWFacts(top);
    TopLimb(t[..], m);
    assert t[..][..m] == low && t[..][m] == 0;
  }

  lemma NegateTop(b: int, p: int, T: int, low: int, top: int)
    requires 0 < p && 0 < T < p && 0 <= low < p && 0 <= top < b
    requires low + p * top == b * p - T
    ensures top == b - 1 && low == p - T
  {
    MulDist(p, b, 1);
    DivModUnique(p, top, low, b - 1, p - T);
  }

  /** The part of u at and above limb k, when the limbs from m on are zero. */
  lemma UpperLimbs(u: seq<Limb>, k: nat, j: nat, m: nat)
    requires k <= j <= m <= |u| && Val(u) < Pow(B, m)
    ensures Val(u[k..]) == Val(u[k..j]) + Pow(B, j - k) * Val(u[j..m])
    ensures Val(u[j..m]) < Pow(B, m - j)
  {
    hide *;
    SplitIsDivMod(u, m);
    if Val(u[m..]) > 0 {
      MulMono(1, Val(u[m..]), Pow(B, m));
      assert false;
    }
    var n := |u|;
    ValSplit(u, k, m, n);
    ValSplit(u, k, j, m);
    assert u[k..] == u[k..n] && u[m..] == u[m..n];
    ValBound(u[j..m]);
  }

  lemma RecipCombineArith(bl: int, bh: int, x: int, xl: int, top: int, q0: int, q1: int, xl': int, c: int, U: int,
      M: int, R: int)
    requires 0 < bl && 0 < bh && x == xl + bh * top && bh <= x && 0 <= xl < bh && 0 <= top
    requires xl' == xl + q1 - c * bh && 0 <= xl' && (c == 0 || c == 1) && 0 <= q0 && 0 <= q1
    requires U == q0 + bl * q1 && x * bl + U < 2 * (bl * bh)
    requires M == xl' + bh * top && R == q0 + bl * M
    ensures R == x * bl + U
  {
    if top == 0 {
      assert false;
    }
    MulMono(1, top, bh);
    MulDist(bl, x, q1);
    if c == 1 {
      MulMono(2 * bh, x + q1, bl);
      assert false;
    }
  }

  lemma RecipAssemble(lows: seq<Limb>, mid: seq<Limb>, xl: seq<Limb>, top: Limb, q: seq<Limb>, c: int, U: int)
    requires |mid| == |xl| == |q| && U == Val(lows) + Pow(B, |lows|) * Val(q) && (c == 0 || c == 1)
    requires Val(mid) == Val(xl) + Val(q) - c * Pow(B, |xl|) && Pow(B, |xl|) <= Val(xl + [top])
    requires Val(xl + [top]) * Pow(B, |lows|) + U < 2 * (Pow(B, |lows|) * Pow(B, |xl|))
    ensures Val(lows + (mid + [top])) == Val(xl + [top]) * Pow(B, |lows|) + U
  {
    hide *;
    BaseFacts();
    PowPositive(B, |lows|);
    PowPositive(B, |xl|);
    ValBound(xl);
    ValBound(mid);
    ValSnoc(xl, top);
    ValSnoc(mid, top);
    ValConcat(lows, mid + [top]);
    RecipCombineArith(Pow(B, |lows|), Pow(B, |xl|), Val(xl + [top]), Val(xl), top, Val(lows), Val(q), Val(mid), c, U,
                      Val(mid + [top]), Val(lows + (mid + [top])));
  }

  /** Assemble the reciprocal: low limbs copied from u, upper part added to the half-size one. */
  method RecipCombine(r: array<Limb>, ro: nat, n: nat, l: nat, h: nat, u: array<Limb>)
    requires l + h == n && l <= h && ro + n + 1 <= r.Length && u.Length == 3 * h + 2 && r != u
    requires Val(u[..]) < Pow(B, 3 * h) && Pow(B, h) <= Val(r[ro + l..ro + n + 1])
    requires Val(r[ro + l..ro + n + 1]) * Pow(B, l) + Val(u[2 * h - l..]) < 2 * (Pow(B, l) * Pow(B, h))
    modifies r
    ensures Val(r[ro..ro + n + 1]) == old(Val(r[ro + l..ro + n + 1])) * Pow(B, l) + Val(u[2 * h - l..])
    ensures forall i :: 0 <= i < r.Length && !(ro <= i < ro + n + 1) ==> r[i] == old(r[i])
  {
    hide *;
    var k := 2 * h - l;
    ghost var r0, us := r[..], u[..];
    CopyLimbs(r, ro, u, k, l);
    ghost var lows, xs, q := r[ro..ro + l], r0[ro + l..ro + n + 1], us[2 * h..3 * h];
    assert lows == us[k..2 * h];
    assert r[ro + l..ro + l + h] == xs[..h];
    UpperLimbs(us, k, 2 * h, 3 * h);
    var c := MpAdd(r, ro + l, u, 2 * h, h, 0);
    assert q == u[2 * h..2 * h + h];
    ghost var mid := r[ro + l..ro + l + h];
    assert r[ro..ro + n + 1] == lows + (mid + [xs[h]]);
    assert xs == xs[..h] + [xs[h]];
    RecipAssemble(lows, mid, xs[..h], xs[h], q, c, Val(us[k..]));
  }

  /** From the leading h limbs to all n limbs: the half-size reciprocal is nearly one for a. */
  lemma HalfRecip(s: seq<Limb>, l: nat, h: nat, x: nat)
    requires |s| == l + h && h >= 1 && s[l + h - 1] >= HALF && IsRecip(Val(s[l..]), x, h)
    ensures Pow(B, l + h + h) < Val(s) * (x + 2)
    ensures Pow(B, h) <= x < 2 * Pow(B, h)
  {
    hide Val, Pow;
    SplitIsDivMod(s, l);
    NormalizedValue(s[l..]);
    PowAdd(B, h, h);
    RecipRange(Val(s[l..]), x, Pow(B, h), Pow(B, h));
    PowAdd(B, 2 * h, l);
    assert l + h + h == 2 * h + l;
    HalfRecipArith(Val(s), Val(s[l..]), Val(s[..l]), Pow(B, l), x, Pow(B, 2 * h));
  }

  lemma HalfRecipArith(a: int, ah: int, al: int, bl: int, x: int, b2h: int)
    requires a == ah * bl + al && 0 <= al && 0 < bl && 0 <= x && b2h < ah * (x + 2)
    ensures b2h * bl < a * (x + 2)
  {
    MulStrict(b2h, ah * (x + 2), bl);
    MulMono(0, al, x + 2);
    HalfRecipPoly(ah, al, bl, x);
  }

  lemma HalfRecipPoly(ah: int, al: int, bl: int, x: int)
    ensures (ah * bl + al) * (x + 2) == (ah * (x + 2)) * bl + al * (x + 2)
  {}

  /** The product tm * xh leaves the two top limbs of its buffer clear. */
  lemma NewtonProductFits(b: int, bl: int, bh: int, a: int, t: int, tm: int, xh: int)
    requires 8 <= b <= bh && 0 < bl && 0 < a < bl * bh && 0 < t < 2 * a && 0 <= tm && tm * bl <= t && 0 <= xh < 2 * bh
    ensures tm * xh < bh * bh * bh
  {
    assert (2 * bh) * bl == 2 * (bl * bh);
    if tm >= 2 * bh {
      MulMono(2 * bh, tm, bl);
    }
    MulMono(tm, 2 * bh, xh);
    MulStrict(xh, 2 * bh, 2 * bh);
    assert (2 * bh) * (2 * bh) == 4 * (bh * bh);
    MulMono(1, bh, bh);
    MulMono(4, bh, bh * bh);
  }

  /** The limb strings of one Newton step satisfy the exact-arithmetic step. */
  lemma NewtonStepOnLimbs(s: seq<Limb>, l: nat, h: nat, xh: nat, ts: seq<Limb>, us: seq<Limb>)
    requires |s| >= 3 && l == (|s| - 1) / 2 && h == |s| - l && s[|s| - 1] >= HALF
    requires |ts| == |s| + h + 1 && |us| == 3 * h + 2
    requires xh < 2 * Pow(B, h)
    requires Val(s) * xh < Pow(B, |s| + h) < Val(s) * (xh + 2)
    requires Val(ts) == Pow(B, |s| + h) - Val(s) * xh
    requires Val(us) == Val(ts[l..]) * xh
    ensures Val(us) < Pow(B, 3 * h)
    ensures IsRecip(Val(s), xh * Pow(B, l) + Val(us[2 * h - l..]), |s|)
    ensures Pow(B, |s|) <= xh * Pow(B, l) + Val(us[2 * h - l..]) < 2 * (Pow(B, l) * Pow(B, h))
  {
    hide Val, Pow;
    var n, a, t := |s|, Val(s), Val(ts);
    var bl, bh, k := Pow(B, l), Pow(B, h), Pow(B, 2 * h - l);
    NewtonPowers(n, l, h);
    NormalizedValue(s);
    MulDist(a, xh, 2);
    SplitIsDivMod(ts, l);
    var tm, tl := Val(ts[l..]), Val(ts[..l]);
    PowStep(B, 1);
    PowMono(B, 1, h);
    NewtonProductFits(B, bl, bh, a, t, tm, xh);
    PowAdd(B, 2 * h, h);
    SplitIsDivMod(us, 2 * h - l);
    var q, rho := Val(us[2 * h - l..]), Val(us[..2 * h - l]);
    NewtonStep(B, bl, bh, k, a, xh, t, tm, tl, q, rho);
    RecipRange(a, xh * bl + q, Pow(B, n), Pow(B, n));
  }

  /** One Newton refinement: from a reciprocal of the leading h limbs, already in
      r[ro+l..], to one of all n limbs. */
  method RecipRefine(r: array<Limb>, ro: nat, a: array<Limb>, ao: nat, n: nat, l: nat, h: nat)
    requires n >= 3 && l == (n - 1) / 2 && h == n - l
    requires ro + n + 1 <= r.Length && ao + n <= a.Length && r != a && a[ao + n - 1] >= HALF
    requires IsRecip(Val(a[ao + l..ao + n]), Val(r[ro + l..ro + n + 1]), h)
    modifies r
    ensures IsRecip(Val(a[ao..ao + n]), Val(r[ro..ro + n + 1]), n)
    ensures forall i :: 0 <= i < r.Length && !(ro <= i < ro + n + 1) ==> r[i] == old(r[i])
  {
    hide *;
    ghost var s := a[ao..ao + n];
    assert s[l..] == a[ao + l..ao + n];
    HalfRecip(s, l, h, Val(r[ro + l..ro + n + 1]));
    NormalizedValue(s);
    assert r[ro + l..ro + n + 1] == r[ro + l..ro + l + h + 1];
    var t := new Limb[n + h + 1];
    MpMul(t, 0, a, ao, n, r, ro + l, h + 1);
    assert t[0..0 + n + (h + 1)] == t[..];
    RecipCorrect(t, r, ro + l, a, ao, n, h);
    ghost var xh := Val(r[ro + l..ro + l + h + 1]);
    ghost var xs := r[ro + l..ro + l + h + 1];
    PowMono(B, 0, h);
    PowStep(B, 0);
    BaseFacts();
    MulMono(1, xh, Val(s));
    NegateBelow(t, n + h);
    ghost var ts := t[..];
    var u := new Limb[3 * h + 2];
    MpMul(u, 0, t, l, n + h + 1 - l, r, ro + l, h + 1);
    assert u[0..0 + (n + h + 1 - l) + (h + 1)] == u[..];
    assert t[l..l + (n + h + 1 - l)] == ts[l..];
    assert a[ao..ao + n] == s;
    NewtonStepOnLimbs(s, l, h, xh, ts, u[..]);
    assert u[..][2 * h - l..] == u[2 * h - l..];
    assert r[ro + l..ro + n + 1] == xs;
    RecipCombine(r, ro, n, l, h, u);
  }

  lemma RecipBaseArith(a: int, bn: int, q: int, r: int)
    requires 0 < a < bn <= 2 * a && 8 <= bn
    requires bn * bn == q * a + r && 0 <= r < a
    ensures r != 0 ==> a * q < bn * bn < a * (q + 2)
    ensures r == 0 ==> a * (q - 1) < bn * bn < a * (q - 1 + 2)
    ensures 1 <= q <= 2 * bn
  {
    MulDist(a, q, 1);
    MulDist(a, q, 2);
    MulMono(1, bn, bn);
    if q <= 0 {
      MulMono(q, 0, a);
      assert false;
    }
    assert (2 * bn + 1) * a == bn * (2 * a) + a;
    if q >= 2 * bn + 1 {
      MulMono(2 * bn + 1, q, a);
      MulMono(bn, 2 * a, bn);
    }
  }

  /** B^m as m + 1 limbs. */
  lemma PowerLimbs(s: seq<Limb>, m: nat)
    requires |s| == m + 1 && s[m] == 1 && forall i :: 0 <= i < m ==> s[i] == 0
    ensures Val(s) == Pow(B, m)
  {
    hide *;
    TopLimb(s, m);
    ValZeros(s[..m]);
  }

  method CopyLimbs(r: array<Limb>, ro: nat, t: array<Limb>, o: nat, n: nat)
    requires ro + n <= r.Length && o + n <= t.Length && r != t
    modifies r
    ensures r[ro..ro + n] == t[o..o + n]
    ensures forall i :: 0 <= i < r.Length && !(ro <= i < ro + n) ==> r[i] == old(r[i])
  {
    var i := 0;
    while i < n
      invariant i <= n
      invariant r[ro..ro + i] == t[o..o + i]
      invariant forall j :: 0 <= j < r.Length && !(ro <= j < ro + i) ==> r[j] == old(r[j])
    {
      r[ro + i] := t[o + i];
      assert r[ro..ro + i + 1] == r[ro..ro + i] + [t[o + i]];
      assert t[o..o + i + 1] == t[o..o + i] + [t[o + i]];
      i := i + 1;
    }
  }

  /** A fresh limb array holding B^m. */
  method PowerOfBase(m: nat) returns (u: array<Limb>)
    ensures fresh(u) && u.Length == m + 1 && Val(u[..]) == Pow(B, m)
  {
    hide *;
    BaseFacts();
    u := new Limb[m + 1](i => 0);
    u[m] := 1;
    PowerLimbs(u[..], m);
  }

  lemma SmallDivisor(n: nat)
    ensures n < 50 ==> n < DIVNORM_LARGE_THRESHOLD
  {}

  /** Quotient t and remainder u of B^(2n) by a[ao..ao+n]. */
  method DividePower(a: array<Limb>, ao: nat, n: nat) returns (t: array<Limb>, u: array<Limb>)
    requires 1 <= n < 50 && ao + n <= a.Length && a[ao + n - 1] >= HALF
    ensures fresh(t) && fresh(u) && t.Length == n + 2 && u.Length == 2 * n + 1
    ensures Pow(B, 2 * n) == Val(t[..]) * Val(a[ao..ao + n]) + Val(u[..n])
    ensures Val(u[..n]) < Val(a[ao..ao + n])
    decreases 0, 1
  {
    hide *;
    SmallDivisor(n);
    u := PowerOfBase(2 * n);
    BaseFacts();
    t := new Limb[n + 2](i => 0);
    assert u[0..0 + (2 * n + 1)] == u[..];
    MpDivnorm(t, 0, u, 0, 2 * n + 1, a, ao, n);
    assert t[0..0 + (2 * n + 1 - n) + 1] == t[..] && u[0..0 + n] == u[..n];
  }

  /** The quotient (less one when the division is exact) is a reciprocal. */
  lemma RecipFromQuotient(d: seq<Limb>, ts: seq<Limb>, rem: nat)
    requires 1 <= |d| && d[|d| - 1] >= HALF && |ts| == |d| + 2
    requires Pow(B, 2 * |d|) == Val(ts) * Val(d) + rem && rem < Val(d)
    ensures Val(ts) == Val(ts[..|d| + 1]) >= 1
    ensures rem != 0 ==> IsRecip(Val(d), Val(ts), |d|)
    ensures rem == 0 ==> IsRecip(Val(d), Val(ts) - 1, |d|)
  {
    hide Val, Pow;
    var n := |d|;
    BaseFacts();
    NormalizedValue(d);
    PowAdd(B, n, n);
    PowMono(B, 1, n);
    PowStep(B, n);
    PowStep(B, 1);
    RecipBaseArith(Val(d), Pow(B, n), Val(ts), rem);
    MulMono(8, B, Pow(B, n));
    TopLimb(ts, n + 1);
  }

  /** Reciprocals of one or two limbs by one division: ceil(B^(2n) / a) - 1. */
  method RecipBase(r: array<Limb>, ro: nat, a: array<Limb>, ao: nat, n: nat)
    requires 1 <= n <= 2 && ro + n + 1 <= r.Length && ao + n <= a.Length && r != a && a[ao + n - 1] >= HALF
    modifies r
    ensures IsRecip(Val(a[ao..ao + n]), Val(r[ro..ro + n + 1]), n)
    ensures forall i :: 0 <= i < r.Length && !(ro <= i < ro + n + 1) ==> r[i] == old(r[i])
    decreases 0, 2
  {
    hide *;
    BaseFacts();
    var t, u := DividePower(a, ao, n);
    RecipFromQuotient(a[ao..ao + n], t[..], Val(u[..n]));
    CopyLimbs(r, ro, t, 0, n + 1);
    assert t[0..0 + (n + 1)] == t[..][..n + 1];
    assert r[ro..ro + n + 1] == r[ro..ro + (n + 1)];
    var nz := MpScanNz(u, 0, n);
    assert u[0..0 + n] == u[..n];
    if !nz {
      ghost var X := Val(r[ro..ro + (n + 1)]);
      var k := MpSubUi(r, ro, 1, n + 1);
      ValBound(r[ro..ro + (n + 1)]);
      if k == 1 {
        assert false;
      }
    }
  }

  /** The reciprocal of a[ao..ao+n] in n + 1 limbs. */
  method MpRecip(r: array<Limb>, ro: nat, a: array<Limb>, ao: nat, n: nat)
    requires n >= 1 && ro + n + 1 <= r.Length && ao + n <= a.Length && r != a && a[ao + n - 1] >= HALF
    modifies r
    ensures IsRecip(Val(a[ao..ao + n]), Val(r[ro..ro + n + 1]), n)
    ensures r[ro + n] == 1
    ensures forall i :: 0 <= i < r.Length && !(ro <= i < ro + n + 1) ==> r[i] == old(r[i])
    decreases 1, n
  {
    hide *;
    if n <= 2 {
      RecipBase(r, ro, a, ao, n);
    } else {
      var l := (n - 1) / 2;
      var h := n - l;
      MpRecip(r, ro + l, a, ao + l, h);
      assert a[ao + l..ao + l + h] == a[ao + l..ao + n];
      assert r[ro + l..ro + l + h + 1] == r[ro + l..ro + n + 1];
      RecipRefine(r, ro, a, ao, n, l, h);
    }
    RecipTopLimb(a[ao..ao + n], r[ro..ro + n + 1]);
  }

  lemma RecipTopLimb(d: seq<Limb>, xs: seq<Limb>)
    requires |d| >= 1 && d[|d| - 1] >= HALF && |xs| == |d| + 1 && IsRecip(Val(d), Val(xs), |d|)
    ensures xs[|d|] == 1 && Pow(B, |d|) <= Val(xs) < 2 * Pow(B, |d|)
  {
    hide Val, Pow;
    var n := |d|;
    NormalizedValue(d);
    PowAdd(B, n, n);
    RecipRange(Val(d), Val(xs), Pow(B, n), Pow(B, n));
    TopLimb(xs, n);
    ValBound(xs[..n]);
    if xs[n] >= 2 {
      MulMono(2, xs[n], Pow(B, n));
      assert false;
    }
  }

  const DIVNORM_LARGE_THRESHOLD: nat := 50

  /** Division by a normalised divisor, whichever algorithm is chosen. */
  method MpDivnorm(q: array<Limb>, qo: nat, a: array<Limb>, ao: nat, na: nat, b: array<Limb>, bo: nat, nb: nat)
    requires 1 <= nb <= na && ao + na <= a.Length && bo + nb <= b.Length && qo + (na - nb) + 1 <= q.Length
    requires a != b && q != a && q != b && b[bo + nb - 1] >= HALF
    modifies a, q
    ensures old(Val(a[ao..ao + na])) == Val(q[qo..qo + (na - nb) + 1]) * Val(b[bo..bo + nb]) + Val(a[ao..ao + nb])
    ensures Val(a[ao..ao + nb]) < Val(b[bo..bo + nb])
    ensures q[qo + (na - nb)] <= 1
    ensures forall i :: 0 <= i < a.Length && !(ao <= i < ao + na) ==> a[i] == old(a[i])
    ensures forall i :: 0 <= i < q.Length && !(qo <= i < qo + (na - nb) + 1) ==> q[i] == old(q[i])
    decreases if nb < DIVNORM_LARGE_THRESHOLD then 0 else 2, 0
  {
    hide Val, Pow, B, HALF;
    BaseFacts();
    if nb == 1 {
      ghost var s0 := a[ao..ao + na];
      var r := MpDiv1norm(q, qo, a, ao, na, b[bo], 0);
      a[ao] := r;
      assert b[bo..bo + 1] == [b[bo]] && a[ao..ao + 1] == [r];
      ValOne(b[bo]);
      ValOne(r);
      LeadingQuotientLimb(q[qo..qo + (na - nb) + 1], b[bo..bo + nb], na, Val(s0), r);
      ValBound(s0);
    } else if (if na - nb < nb then na - nb else nb) >= DIVNORM_LARGE_THRESHOLD {
      MpDivnormLarge(q, qo, a, ao, na, b, bo, nb);
    } else {
      MpDivnormBase(q, qo, a, ao, na, b, bo, nb);
    }
  }

  /** The leading quotient limb of a normalised division is 0 or 1. */
  lemma LeadingQuotientLimb(qs: seq<Limb>, d: seq<Limb>, na: nat, A: nat, r: nat)
    requires |d| >= 1 && d[|d| - 1] >= HALF && |qs| >= 1 && na == |qs| - 1 + |d|
    requires A == Val(qs) * Val(d) + r
    ensures A < Pow(B, na) ==> qs[|qs| - 1] <= 1
  {
    hide *;
    var m := |qs| - 1;
    NormalizedValue(d);
    TopLimb(qs, m);
    PowAdd(B, m, |d|);
    if qs[m] >= 2 {
      MulMono(2, qs[m], Pow(B, m));
      TooLarge(Val(qs), Val(d), Pow(B, m), Pow(B, |d|), A, r);
    }
  }

  lemma TooLarge(q: int, d: int, p: int, e: int, A: int, r: int)
    requires 0 <= p && 0 <= d && 0 <= r && 2 * p <= q && e <= 2 * d && A == q * d + r
    ensures p * e <= A
  {
    MulMono(2 * p, q, d);
    MulMono(e, 2 * d, p);
  }

  /** The truncated quotient never exceeds the exact one. N = B^n, M = B^nb, s and e
      are the limbs dropped from the product and from the dividend. */
  lemma ApproxQuotientBelow(N: int, M: int, s: int, e: int, A: int, V: int, D: int, X: int, At: int, Q: int)
    requires 0 < N && 0 < M && 0 < s && 0 < e && s * e == N * M && 0 <= At && 0 <= Q && 0 < D
    requires D * X <= N * N && At * e <= A && Q * s <= X * At && V * N <= D * M
    ensures Q * V <= A
  {
    MulMono(Q * s, X * At, D);
    MulMono(D * X, N * N, At);
    MulMono(Q * s * D, N * N * At, e);
    MulMono(At * e, A, N * N);
    MulMono(V * N, D * M, Q);
    ApproxQuotientPoly(N, M, s, e, D, X, At, Q, V, A);
    MulCancelLe(Q * (D * M), N * A, N);
    MulCancelLe(Q * V, A, N);
  }

  lemma ApproxQuotientPoly(N: int, M: int, s: int, e: int, D: int, X: int, At: int, Q: int, V: int, A: int)
    requires s * e == N * M
    ensures (X * At) * D == (D * X) * At && (Q * s) * D == Q * s * D
    ensures (N * N * At) * e == (N * N) * (At * e)
    ensures (Q * s * D) * e == (Q * (D * M)) * N
    ensures (N * N) * A == (N * A) * N
    ensures Q * (V * N) == (Q * V) * N
    ensures N * A == A * N
  {
    ApproxQuotientPoly1(s, e, D, Q);
    ApproxQuotientPoly2(N, M, D, Q);
  }

  lemma ApproxQuotientPoly1(s: int, e: int, D: int, Q: int)
    ensures (Q * s * D) * e == Q * D * (s * e)
  {}

  lemma ApproxQuotientPoly2(N: int, M: int, D: int, Q: int)
    ensures Q * D * (N * M) == (Q * (D * M)) * N
  {}

  /** ... and falls short of it by less than seven. */
  lemma ApproxQuotientNear(b: int, N: int, M: int, s: int, e: int, p: int, A: int, V: int, D: int, X: int,
      At: int, Q: int, slack: int)
    requires 8 <= b && 0 < N && 0 < M && 0 < s && 0 < e && 0 < p && s * e == N * M
    requires 0 <= At && 0 <= Q && 0 < D <= N && 0 <= X && 0 < V && 0 <= A
    requires D * X <= N * N < D * (X + 2)
    requires A < (At + 1) * e && X * At < (Q + 1) * s
    requires D * M <= V * N + slack * M && (slack == 0 || slack == 1)
    requires M <= 2 * V && A < M * p && p <= N && (slack == 1 ==> b * p <= N) && e <= V
    requires Q * V <= A
    ensures A < (Q + 7) * V
  {
    ApproxNearLower(N, M, s, e, A, D, X, At, Q);
    ApproxNearTerms(b, N, M, e, p, A, V, D, Q, slack);
    ApproxNearPoly(N, M, V, D, Q, slack);
    MulMono(D * M, V * N + slack * M, (Q + 1) * N);
    MulCancelLt(A, (Q + 7) * V, N * N);
  }

  lemma ApproxNearPoly(N: int, M: int, V: int, D: int, Q: int, slack: int)
    ensures (Q + 1) * (N * M) * D == (D * M) * ((Q + 1) * N)
    ensures (V * N + slack * M) * ((Q + 1) * N) == ((Q + 1) * V) * (N * N) + slack * ((Q + 1) * N * M)
    ensures ((Q + 7) * V) * (N * N) == ((Q + 1) * V) * (N * N) + 6 * (V * (N * N))
  {}

  lemma ApproxNearLower(N: int, M: int, s: int, e: int, A: int, D: int, X: int, At: int, Q: int)
    requires 0 < N && 0 < M && 0 < e && 0 < s && s * e == N * M && 0 < D && 0 <= X && 0 <= A
    requires D * X <= N * N < D * (X + 2)
    requires A < (At + 1) * e && X * At < (Q + 1) * s
    ensures A * (N * N) < (Q + 1) * (N * M) * D + 2 * (D * A) + e * (N * N)
  {
    MulStrict(X * At, (Q + 1) * s, e);
    MulDist(e, At, 1);
    MulMono(A - e, At * e, X);
    assert (Q + 1) * s * e == (Q + 1) * (s * e);
    assert (X * At) * e == X * (At * e);
    MulStrict(X * (A - e), (Q + 1) * (N * M), D);
    MulDist(D, X, 2);
    MulMono(N * N - 2 * D, D * X, A);
    MulMono(D * X, N * N, e);
    ApproxNearLowerPoly(N, D, X, A, e);
  }

  lemma ApproxNearLowerPoly(N: int, D: int, X: int, A: int, e: int)
    ensures (X * (A - e)) * D == (D * X) * A - (D * X) * e
    ensures (N * N - 2 * D) * A == A * (N * N) - 2 * (D * A)
    ensures (N * N) * e == e * (N * N)
  {}

  lemma ApproxNearTerms(b: int, N: int, M: int, e: int, p: int, A: int, V: int, D: int, Q: int, slack: int)
    requires 8 <= b && 0 < N && 0 < M && 0 < p && 0 <= Q && 0 < D <= N && 0 < V && 0 <= A
    requires M <= 2 * V && A < M * p && p <= N && (slack == 1 ==> b * p <= N) && e <= V
    requires slack == 0 || slack == 1
    requires Q * V <= A
    ensures 2 * (D * A) <= 4 * (V * (N * N))
    ensures e * (N * N) <= V * (N * N)
    ensures slack * ((Q + 1) * N * M) <= V * (N * N)
  {
    ApproxNearTerm1(N, M, p, A, V, D);
    MulMono(1, N, N);
    MulMono(e, V, N * N);
    if slack == 1 {
      ApproxNearTerm2(b, N, M, p, A, V, Q);
    }
  }

  lemma ApproxNearTerm1(N: int, M: int, p: int, A: int, V: int, D: int)
    requires 0 < N && 0 < M && 0 < D <= N && 0 <= A && M <= 2 * V && A < M * p && p <= N
    ensures 2 * (D * A) <= 4 * (V * (N * N))
  {
    MulMono(D, N, A);
    MulMono(p, N, M);
    ApproxNearTerm1End(N, M, A, V);
  }

  lemma ApproxNearTerm1End(N: int, M: int, A: int, V: int)
    requires 0 < N && A <= M * N && M <= 2 * V
    ensures N * A <= 2 * (V * (N * N))
  {
    MulMono(A, M * N, N);
    MulMono(1, N, N);
    MulMono(M, 2 * V, N * N);
    ApproxNearTerm1Poly(N, M, V);
  }

  lemma ApproxNearTerm1Poly(N: int, M: int, V: int)
    ensures N * (M * N) == M * (N * N)
    ensures (2 * V) * (N * N) == 2 * (V * (N * N))
  {}

  lemma ApproxNearTerm2(b: int, N: int, M: int, p: int, A: int, V: int, Q: int)
    requires 8 <= b && 0 < N && 0 < M && 0 < p && 0 <= Q && 0 < V
    requires M <= 2 * V && A < M * p && b * p <= N && Q * V <= A
    ensures (Q + 1) * N * M <= V * (N * N)
  {
    QuotientBelowTwice(M, p, A, V, Q);
    ApproxNearTerm2Mid(b, N, M, p, V, Q);
    MulMono((Q + 1) * M, N * V, N);
    ApproxNearTermsPoly(Q, N, M, V);
  }

  lemma QuotientBelowTwice(M: int, p: int, A: int, V: int, Q: int)
    requires 0 < p && 0 < V && M <= 2 * V && A < M * p && Q * V <= A
    ensures Q < 2 * p
  {
    MulMono(M, 2 * V, p);
    TwicePoly(p, V);
    MulCancelLt(Q, 2 * p, V);
  }

  lemma TwicePoly(p: int, V: int)
    ensures (2 * V) * p == (2 * p) * V
    ensures (2 * p) * (2 * V) == (4 * p) * V
  {}

  lemma ApproxNearTerm2Mid(b: int, N: int, M: int, p: int, V: int, Q: int)
    requires 8 <= b && 0 < M && 0 < p && 0 < V && M <= 2 * V && b * p <= N && Q < 2 * p
    ensures (Q + 1) * M <= N * V
  {
    MulMono(Q + 1, 2 * p, M);
    MulMono(M, 2 * V, 2 * p);
    MulMono(4, b, p);
    MulMono(4 * p, N, V);
    TwicePoly(p, V);
  }

  lemma ApproxNearTermsPoly(Q: int, N: int, M: int, V: int)
    ensures ((Q + 1) * M) * N == (Q + 1) * N * M
    ensures (N * V) * N == V * (N * N)
  {}

  /** inv approximates B^n / d from below: inv is the reciprocal of D, and D * B^nb is
      d * B^n, rounded up to the n leading limbs when d is longer. */
  ghost predicate IsApproxInverse(d: seq<Limb>, n: nat, inv: nat, D: nat, slack: nat)
  {
    && D * inv <= Pow(B, n) * Pow(B, n) < D * (inv + 2)
    && Val(d) * Pow(B, n) <= D * Pow(B, |d|) <= Val(d) * Pow(B, n) + slack * Pow(B, |d|)
    && 0 < D <= Pow(B, n)
    && slack <= 1 && (n >= |d| ==> slack == 0)
  }

  lemma PaddedInverse(d: seq<Limb>, n: nat, ds: seq<Limb>, inv: nat)
    requires 1 <= |d| <= n && |ds| == n && ds[n - |d|..] == d && (forall i :: 0 <= i < n - |d| ==> ds[i] == 0)
    requires IsRecip(Val(ds), inv, n)
    ensures IsApproxInverse(d, n, inv, Val(ds), 0)
  {
    hide Val, Pow;
    var z := n - |d|;
    SplitIsDivMod(ds, z);
    ValZeros(ds[..z]);
    PowAdd(B, z, |d|);
    PowAdd(B, n, n);
    ValBound(ds);
    MulAssoc(Val(d), Pow(B, z), Pow(B, |d|));
    if Val(ds) == 0 {
      assert false;
    }
  }

  lemma TruncatedInverse(d: seq<Limb>, n: nat, D: nat, inv: nat)
    requires 1 <= n < |d| && D == Val(d[|d| - n..]) + 1
    requires D * inv <= Pow(B, n) * Pow(B, n) < D * (inv + 2)
    ensures IsApproxInverse(d, n, inv, D, 1)
  {
    hide Val, Pow;
    var z := |d| - n;
    SplitIsDivMod(d, z);
    ValBound(d[z..]);
    PowAdd(B, z, n);
    var m := Val(d[z..]);
    TruncatedArith(m, Val(d[..z]), Pow(B, z), Pow(B, n), Val(d));
  }

  lemma TruncatedArith(m: int, lo: int, bz: int, bn: int, v: int)
    requires v == m * bz + lo && 0 <= lo < bz && 0 < bn
    ensures v * bn <= (m + 1) * (bz * bn) <= v * bn + bz * bn
  {
    MulMono(v, (m + 1) * bz, bn);
    MulMono(m * bz, v, bn);
    assert ((m + 1) * bz) * bn == (m + 1) * (bz * bn);
    assert (m * bz) * bn == m * (bz * bn);
    MulDist(bz, m, 1);
    MulDist(bz * bn, m, 1);
  }

  /** The approximate inverse of b[bo..bo+nb] on n + 1 limbs. */
  method ApproxInverse(b: array<Limb>, bo: nat, nb: nat, n: nat)
      returns (inv: array<Limb>, ghost D: nat, ghost slack: nat)
    requires n >= 1 && nb >= 1 && bo + nb <= b.Length && b[bo + nb - 1] >= HALF
    ensures fresh(inv) && inv.Length == n + 1
    ensures IsApproxInverse(b[bo..bo + nb], n, Val(inv[..]), D, slack)
    decreases 1, n + 1
  {
    hide *;
    BaseFacts();
    ghost var d := b[bo..bo + nb];
    inv := new Limb[n + 1](i => 0);
    var t := new Limb[n](i => 0);
    if n >= nb {
      CopyLimbs(t, n - nb, b, bo, nb);
      slack := 0;
      assert t[..][n - nb..] == t[n - nb..n - nb + nb] == d;
      D := Val(t[..]);
      assert t[n - 1] == d[nb - 1];
      MpRecip(inv, 0, t, 0, n);
      assert t[0..0 + n] == t[..] && inv[0..0 + n + 1] == inv[..];
      PaddedInverse(d, n, t[..], Val(inv[..]));
    } else {
      CopyLimbs(t, 0, b, bo + nb - n, n);
      ghost var top := d[nb - n..];
      assert t[0..0 + n] == top;
      slack := 1;
      D := Val(top) + 1;
      NormalizedValue(top);
      var c := MpAddUi(t, 0, 1, n);
      ValBound(top);
      ValBound(t[0..0 + n]);
      if c != 0 {
        inv[n] := 1;
        PowerLimbs(inv[..], n);
        UnitInverse(D, Pow(B, n), c, Val(t[0..0 + n]));
      } else {
        NormalizedFromValue(t[0..0 + n]);
        MpRecip(inv, 0, t, 0, n);
        assert inv[0..0 + n + 1] == inv[..];
        RecipUnfold(D, Val(inv[..]), n);
      }
      TruncatedInverse(d, n, D, Val(inv[..]));
    }
  }

  lemma RecipUnfold(a: nat, x: nat, n: nat)
    requires IsRecip(a, x, n)
    ensures a * x <= Pow(B, n) * Pow(B, n) < a * (x + 2)
  {
    hide Pow;
    PowAdd(B, n, n);
  }

  lemma UnitInverse(D: int, bn: int, c: int, v: int)
    requires 0 <= v && 1 <= c && D - c * bn == v && D <= bn && 0 < bn
    ensures D * bn <= bn * bn < D * (bn + 2)
  {
    MulMono(1, c, bn);
    MulDist(bn, bn, 2);
  }

  /** At least half of B^n means a normalised top limb. */
  lemma NormalizedFromValue(s: seq<Limb>)
    requires |s| >= 1 && Pow(B, |s|) <= 2 * Val(s)
    ensures s[|s| - 1] >= HALF
  {
    hide *;
    var m := |s| - 1;
    BaseFacts();
    TopLimb(s, m);
    ValBound(s[..m]);
    PowStep(B, m);
    if s[m] < HALF {
      MulMono(s[m] + 1, HALF, Pow(B, m));
      MulDist(Pow(B, m), s[m], 1);
      MulAssoc(2, HALF, Pow(B, m));
      assert false;
    }
  }

  /** Everything but the correction: an approximate quotient within seven of the exact one. */
  method ApproxQuotient(q: array<Limb>, qo: nat, a: array<Limb>, ao: nat, na: nat, b: array<Limb>, bo: nat, nb: nat)
    requires 1 <= nb < na && ao + na <= a.Length && bo + nb <= b.Length && qo + (na - nb) + 1 <= q.Length
    requires q != a && q != b && b[bo + nb - 1] >= HALF
    modifies q
    ensures Val(q[qo..qo + (na - nb) + 1]) * Val(b[bo..bo + nb]) <= Val(a[ao..ao + na])
    ensures Val(a[ao..ao + na]) < (Val(q[qo..qo + (na - nb) + 1]) + 7) * Val(b[bo..bo + nb])
    ensures forall i :: 0 <= i < q.Length && !(qo <= i < qo + (na - nb) + 1) ==> q[i] == old(q[i])
    decreases 1, na + 1
  {
    hide *;
    var nq := na - nb;
    var n := if nq < nb then nq + 1 else nq;
    var inv, D, slack := ApproxInverse(b, bo, nb, n);
    var t := new Limb[2 * (n + 1)];
    MpMul(t, 0, inv, 0, n + 1, a, ao + na - (n + 1), n + 1);
    assert t[0..0 + (n + 1) + (n + 1)] == t[..] && inv[0..0 + (n + 1)] == inv[..];
    CopyLimbs(q, qo, t, 2 * (n + 1) - (nq + 1), nq + 1);
    assert t[2 * n + 1 - nq..2 * n + 1 - nq + (nq + 1)] == t[..][2 * n + 1 - nq..];
    ghost var s := a[ao..ao + na];
    assert a[ao + na - (n + 1)..ao + na - (n + 1) + (n + 1)] == s[na - (n + 1)..];
    ApproxQuotientOnLimbs(s, b[bo..bo + nb], n, Val(inv[..]), D, slack, t[..]);
    assert q[qo..qo + nq + 1] == q[qo..qo + (nq + 1)];
  }

  lemma LargePowers(na: nat, nb: nat, n: nat)
    requires 1 <= nb < na && n == (if na - nb < nb then na - nb + 1 else na - nb)
    ensures Pow(B, 2 * n + 1 - (na - nb)) * Pow(B, na - n - 1) == Pow(B, n) * Pow(B, nb)
    ensures Pow(B, na) == Pow(B, nb) * Pow(B, na - nb)
    ensures Pow(B, na - nb) <= Pow(B, n)
    ensures n < nb ==> B * Pow(B, na - nb) <= Pow(B, n)
    ensures 2 * Pow(B, na - n - 1) <= Pow(B, nb)
  {
    hide *;
    BaseFacts();
    PowAdd(B, 2 * n + 1 - (na - nb), na - n - 1);
    PowAdd(B, n, nb);
    PowAdd(B, nb, na - nb);
    PowMono(B, na - nb, n);
    PowStep(B, na - nb);
    PowStrict(B, na - n - 1, nb);
  }

  lemma ApproxQuotientOnLimbs(s: seq<Limb>, d: seq<Limb>, n: nat, x: nat, D: nat, slack: nat, ts: seq<Limb>)
    requires 1 <= |d| < |s| && n == (if |s| - |d| < |d| then |s| - |d| + 1 else |s| - |d|)
    requires d[|d| - 1] >= HALF && |ts| == 2 * (n + 1) && n + 1 <= |s|
    requires IsApproxInverse(d, n, x, D, slack)
    requires Val(ts) == x * Val(s[|s| - (n + 1)..])
    ensures Val(ts[2 * n + 1 - (|s| - |d|)..]) * Val(d) <= Val(s)
    ensures Val(s) < (Val(ts[2 * n + 1 - (|s| - |d|)..]) + 7) * Val(d)
  {
    hide Val, Pow, B;
    var na, nb, nq := |s|, |d|, |s| - |d|;
    BaseFacts();
    LargePowers(na, nb, n);
    NormalizedValue(d);
    ValBound(s);
    SplitIsDivMod(s, na - (n + 1));
    SplitIsDivMod(ts, 2 * n + 1 - nq);
    var At, Q := Val(s[na - (n + 1)..]), Val(ts[2 * n + 1 - nq..]);
    var e, S := Pow(B, na - n - 1), Pow(B, 2 * n + 1 - nq);
    MulDist(e, At, 1);
    MulDist(S, Q, 1);
    ApproxQuotientBelow(Pow(B, n), Pow(B, nb), S, e, Val(s), Val(d), D, x, At, Q);
    ApproxQuotientNear(B, Pow(B, n), Pow(B, nb), S, e, Pow(B, nq), Val(s), Val(d), D, x, At, Q, slack);
  }

  /** Only the low limbs are subtracted; the result is exact because it is small. */
  lemma LowDifference(p: int, A: int, lowA: int, hiA: int, T: int, lowT: int, hiT: int, r: int, k: int)
    requires A == hiA * p + lowA && T == hiT * p + lowT && 0 <= A - T < p
    requires r == lowA - lowT + k * p && 0 <= r < p
    ensures r == A - T
  {
    MulDist(p, hiA, hiT);
    MulDist(p, hiA - hiT, k);
    DivModUnique(p, 0, A - T, hiA - hiT - k, r);
  }

  /** a[ao..ao+nb+1] := a - q * b, computed on nb + 1 limbs only. */
  method SubtractProduct(q: array<Limb>, qo: nat, nq: nat, a: array<Limb>, ao: nat, b: array<Limb>, bo: nat, nb: nat)
    requires 1 <= nb && 1 <= nq && ao + nb + nq <= a.Length && bo + nb <= b.Length && qo + nq + 1 <= q.Length
    requires q != a && a != b && q != b
    requires 0 <= Val(a[ao..ao + nb + nq]) - Val(q[qo..qo + nq + 1]) * Val(b[bo..bo + nb]) < Pow(B, nb + 1)
    modifies a
    ensures Val(a[ao..ao + nb + 1]) == old(Val(a[ao..ao + nb + nq])) - Val(q[qo..qo + nq + 1]) * Val(b[bo..bo + nb])
    ensures forall i :: 0 <= i < a.Length && !(ao <= i < ao + nb + 1) ==> a[i] == old(a[i])
  {
    hide *;
    var t := new Limb[nb + nq + 1];
    MpMul(t, 0, q, qo, nq + 1, b, bo, nb);
    assert t[0..0 + (nq + 1) + nb] == t[..];
    assert q[qo..qo + (nq + 1)] == q[qo..qo + nq + 1];
    ghost var s, ts := a[ao..ao + nb + nq], t[..];
    SplitIsDivMod(s, nb + 1);
    SplitIsDivMod(ts, nb + 1);
    assert s[..nb + 1] == a[ao..ao + (nb + 1)] && ts[..nb + 1] == t[0..0 + (nb + 1)];
    var k := MpSub(a, ao, t, 0, nb + 1, 0);
    ValBound(a[ao..ao + (nb + 1)]);
    LowDifference(Pow(B, nb + 1), Val(s), Val(s[..nb + 1]), Val(s[nb + 1..]), Val(ts), Val(ts[..nb + 1]),
                  Val(ts[nb + 1..]), Val(a[ao..ao + (nb + 1)]), k);
    assert a[ao..ao + (nb + 1)] == a[ao..ao + nb + 1];
  }

  /** Increment the quotient until the remainder is below the divisor. */
  method FixQuotient(q: array<Limb>, qo: nat, nq: nat, a: array<Limb>, ao: nat, b: array<Limb>,
      bo: nat, nb: nat, ghost A: nat)
    requires 1 <= nb && ao + nb + 1 <= a.Length && bo + nb <= b.Length && qo + nq + 1 <= q.Length
    requires q != a && a != b && q != b && b[bo + nb - 1] >= HALF && A < Pow(B, nb + nq)
    requires A == Val(q[qo..qo + nq + 1]) * Val(b[bo..bo + nb]) + Val(a[ao..ao + nb + 1])
    modifies q, a
    ensures A == Val(q[qo..qo + nq + 1]) * Val(b[bo..bo + nb]) + Val(a[ao..ao + nb])
    ensures Val(a[ao..ao + nb]) < Val(b[bo..bo + nb])
    ensures forall i :: 0 <= i < a.Length && !(ao <= i < ao + nb + 1) ==> a[i] == old(a[i])
    ensures forall i :: 0 <= i < q.Length && !(qo <= i < qo + nq + 1) ==> q[i] == old(q[i])
  {
    hide *;
    ghost var V, d := Val(b[bo..bo + nb]), b[bo..bo + nb];
    NormalizedValue(b[bo..bo + nb]);
    while true
      invariant V == Val(b[bo..bo + nb]) && d == b[bo..bo + nb]
      invariant A == Val(q[qo..qo + nq + 1]) * V + Val(a[ao..ao + nb + 1])
      invariant forall i :: 0 <= i < a.Length && !(ao <= i < ao + nb + 1) ==> a[i] == old(a[i])
      invariant forall i :: 0 <= i < q.Length && !(qo <= i < qo + nq + 1) ==> q[i] == old(q[i])
      decreases Val(a[ao..ao + nb + 1])
    {
      ghost var R := a[ao..ao + nb + 1];
      TopLimb(R, nb);
      assert R[..nb] == a[ao..ao + nb] && R[nb] == a[ao + nb];
      var c := MpCmp(a, ao, b, bo, nb);
      if a[ao + nb] == 0 && c < 0 {
        break;
      }
      assert Val(R) >= V;
      BorrowIntoTop(a, ao, b, bo, nb);
      QuotientRoom(q[qo..qo + nq + 1], d, nq, A, V, Val(R));
      BaseFacts();
      ghost var Q := Val(q[qo..qo + nq + 1]);
      assert q[qo..qo + nq + 1] == q[qo..qo + (nq + 1)];
      var k := MpAddUi(q, qo, 1, nq + 1);
      assert q[qo..qo + nq + 1] == q[qo..qo + (nq + 1)];
      NoCarry(Q + 1, Pow(B, nq + 1), k, Val(q[qo..qo + nq + 1]));
      MulDist(V, Q, 1);
    }
  }

  lemma NoCarry(v: int, p: int, k: int, r: int)
    requires 0 <= v < p && 0 <= k && r == v - k * p && 0 <= r
    ensures k == 0
  {
    if k >= 1 {
      MulMono(1, k, p);
    }
  }

  lemma QuotientRoom(qs: seq<Limb>, d: seq<Limb>, nq: nat, A: nat, V: nat, R: nat)
    requires |qs| == nq + 1 && |d| >= 1 && d[|d| - 1] >= HALF && V == Val(d) && A < Pow(B, |d| + nq)
    requires A == Val(qs) * V + R && R >= V
    ensures Val(qs) + 1 < Pow(B, nq + 1)
  {
    hide *;
    NormalizedValue(d);
    PowAdd(B, |d|, nq);
    MulDist(V, Val(qs), 1);
    QuotientBelowTwice(Pow(B, |d|), Pow(B, nq), A, V, Val(qs) + 1);
    PowStep(B, nq);
    BaseFacts();
    MulMono(8, B, Pow(B, nq));
  }

  /** a[ao..ao+nb+1] -= b on nb + 1 limbs, the borrow taken from the top limb. */
  method BorrowIntoTop(a: array<Limb>, ao: nat, b: array<Limb>, bo: nat, nb: nat)
    requires ao + nb + 1 <= a.Length && bo + nb <= b.Length && a != b
    requires Val(a[ao..ao + nb + 1]) >= Val(b[bo..bo + nb])
    modifies a
    ensures Val(a[ao..ao + nb + 1]) == old(Val(a[ao..ao + nb + 1])) - Val(b[bo..bo + nb])
    ensures forall i :: 0 <= i < a.Length && !(ao <= i < ao + nb + 1) ==> a[i] == old(a[i])
  {
    hide *;
    BaseFacts();
    ghost var R := a[ao..ao + nb + 1];
    TopLimb(R, nb);
    assert R[..nb] == a[ao..ao + nb] && R[nb] == a[ao + nb];
    ValBound(b[bo..bo + nb]);
    var k := MpSub(a, ao, b, bo, nb, 0);
    ValBound(a[ao..ao + nb]);
    if k == 1 && R[nb] == 0 {
      assert false;
    }
    var x, c := SubWord(a[ao + nb], k);
    if c == 1 {
      assert false;
    }
    a[ao + nb] := x;
    ghost var R' := a[ao..ao + nb + 1];
    TopLimb(R', nb);
    assert R'[..nb] == a[ao..ao + nb];
    MulDist(Pow(B, nb), x, k);
  }

  /** Subquadratic division: quotient and remainder are exact. */
  method MpDivnormLarge(q: array<Limb>, qo: nat, a: array<Limb>, ao: nat, na: nat, b: array<Limb>, bo: nat, nb: nat)
    requires 1 <= nb < na && ao + na <= a.Length && bo + nb <= b.Length && qo + (na - nb) + 1 <= q.Length
    requires a != b && q != a && q != b && b[bo + nb - 1] >= HALF
    modifies a, q
    ensures old(Val(a[ao..ao + na])) == Val(q[qo..qo + (na - nb) + 1]) * Val(b[bo..bo + nb]) + Val(a[ao..ao + nb])
    ensures Val(a[ao..ao + nb]) < Val(b[bo..bo + nb])
    ensures q[qo + (na - nb)] <= 1
    ensures forall i :: 0 <= i < a.Length && !(ao <= i < ao + na) ==> a[i] == old(a[i])
    ensures forall i :: 0 <= i < q.Length && !(qo <= i < qo + (na - nb) + 1) ==> q[i] == old(q[i])
    decreases 1, na + 2
  {
    hide *;
    var nq := na - nb;
    ghost var A, V := Val(a[ao..ao + na]), Val(b[bo..bo + nb]);
    ValBound(a[ao..ao + na]);
    ApproxQuotient(q, qo, a, ao, na, b, bo, nb);
    ghost var Q := Val(q[qo..qo + nq + 1]);
    assert a[ao..ao + nb + nq] == a[ao..ao + na];
    SmallDifference(b[bo..bo + nb], A, Q);
    SubtractProduct(q, qo, nq, a, ao, b, bo, nb);
    FixQuotient(q, qo, nq, a, ao, b, bo, nb, A);
    LeadingQuotientLimb(q[qo..qo + nq + 1], b[bo..bo + nb], na, A, Val(a[ao..ao + nb]));
  }

  lemma SmallDifference(d: seq<Limb>, A: nat, Q: nat)
    requires Q * Val(d) <= A < (Q + 7) * Val(d)
    ensures 0 <= A - Q * Val(d) < Pow(B, |d| + 1)
  {
    hide *;
    BaseFacts();
    ValBound(d);
    PowStep(B, |d|);
    MulDist(Val(d), Q, 7);
    MulMono(8, B, Pow(B, |d|));
  }
}
