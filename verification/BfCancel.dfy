/** Leading zeros of a difference (cpp/src/quickjs/libbf.c, count_cancelled_bits):
    the count bounds how many leading bits a subtraction can cancel. */
module BfCancel {
  import opened Powers
  import opened Limbs
  import opened Bits
  import opened Rounding
  import opened BfRound
  import opened BfZiv

  /** Exclusive or of the n low bits. */
  function Xor(x: nat, y: nat, n: nat): (r: nat)
  {
    if n == 0 then 0 else 2 * Xor(x / 2, y / 2, n - 1) + (x % 2 + y % 2) % 2
  }

  lemma {:induction false} XorBound(x: nat, y: nat, n: nat)
    ensures Xor(x, y, n) < Pow(2, n)
  {
    if n > 0 {
      XorBound(x / 2, y / 2, n - 1);
    }
  }

  /** The exclusive or is below 2^m exactly when the bits from m up agree. */
  lemma {:induction false} XorAgree(x: nat, y: nat, n: nat, m: nat)
    requires m <= n && x < Pow(2, n) && y < Pow(2, n)
    ensures Pow(2, m) > 0 && (Xor(x, y, n) < Pow(2, m) <==> x / Pow(2, m) == y / Pow(2, m))
    decreases n
  {
    PowPositive(2, m);
    if m == 0 {
      PowStep(2, 0);
      XorZero(x, y, n);
    } else {
      PowStep(2, m - 1);
      PowStep(2, n - 1);
      HalfOfDiv(x, m);
      HalfOfDiv(y, m);
      XorAgree(x / 2, y / 2, n - 1, m - 1);
    }
  }

  lemma HalfOfDiv(x: nat, m: nat)
    requires m >= 1
    ensures Pow(2, m) > 0 && Pow(2, m - 1) > 0 && x / Pow(2, m) == (x / 2) / Pow(2, m - 1)
  {
    hide Pow;
    PowPositive(2, m);
    PowPositive(2, m - 1);
    PowStep(2, m - 1);
    DivDiv(x, 2, Pow(2, m - 1));
  }

  lemma {:induction false} XorZero(x: nat, y: nat, n: nat)
    requires x < Pow(2, n) && y < Pow(2, n)
    ensures Xor(x, y, n) == 0 <==> x == y
    decreases n
  {
    if n > 0 {
      XorZero(x / 2, y / 2, n - 1);
    }
  }

  /** Leading zeros of a limb-wide word; LIMB_BITS for zero. */
  function Clz(x: nat): (c: nat)
    requires x < B
    ensures c <= LIMB_BITS
  {
    LIMB_BITS - BitLength(x, LIMB_BITS)
  }

  /** The number of significant bits of an x below 2^n. */
  function BitLength(x: nat, n: nat): (l: nat)
    ensures l <= n
  {
    if n == 0 || x == 0 then 0 else 1 + BitLength(x / 2, n - 1)
  }

  lemma {:induction false} BitLengthIs(x: nat, n: nat, m: nat)
    requires x < Pow(2, n)
    ensures BitLength(x, n) <= m <==> x < Pow(2, m)
    decreases n
  {
    PowStep(2, 0);
    PowPositive(2, m);
    if x > 0 && m > 0 {
      PowStep(2, n - 1);
      PowStep(2, m - 1);
      BitLengthIs(x / 2, n - 1, m - 1);
    }
  }

  lemma ClzIs(x: nat, c: nat)
    requires x < B && c <= LIMB_BITS
    ensures Clz(x) >= c <==> x < Pow(2, LIMB_BITS - c)
  {
    BaseIs();
    BitLengthIs(x, LIMB_BITS, LIMB_BITS - c);
  }

  /** Above k matching bits (zeros against ones) the rest of a difference is positive. */
  lemma Gap(h: nat, u: nat, v: nat)
    requires h >= 1 && u < 2 * h && v < 2 * h && !(u < h && v >= h)
    ensures h + 1 <= 2 * h + u - v < 4 * h
  {}

  /** The first differing bit of x > y, counted from the top. */
  lemma FirstDifference(x: Limb, y: Limb)
    requires x > y
    ensures Xor(x, y, LIMB_BITS) < B && Clz(Xor(x, y, LIMB_BITS)) + 1 <= LIMB_BITS
    ensures var p := LIMB_BITS - (Clz(Xor(x, y, LIMB_BITS)) + 1);
            Pow(2, p) > 0 && x - y == Pow(2, p) + x % Pow(2, p) - y % Pow(2, p)
  {
    hide *;
    BaseIs();
    var w := Xor(x, y, LIMB_BITS);
    XorBound(x, y, LIMB_BITS);
    XorZero(x, y, LIMB_BITS);
    ClzIs(w, LIMB_BITS);
    PowStep(2, 0);
    var c := Clz(w);
    ClzBelow(w);
    var p := LIMB_BITS - (c + 1);
    ClzIs(w, c);
    ClzIs(w, c + 1);
    XorAgree(x, y, LIMB_BITS, p);
    XorAgree(x, y, LIMB_BITS, p + 1);
    DivPow(x, p, 1);
    DivPow(y, p, 1);
    PowStep(2, p);
    PowPositive(2, p);
    DivModIdentity(x, Pow(2, p));
    DivModIdentity(y, Pow(2, p));
    DifferenceAt(x, y, Pow(2, p), x / Pow(2, p), y / Pow(2, p));
  }

  lemma ClzBelow(w: nat)
    requires w < B && !(Clz(w) >= LIMB_BITS)
    ensures Clz(w) < LIMB_BITS
  {}

  lemma DifferenceAt(x: int, y: int, P: int, q: int, s: int)
    requires P > 0 && x > y && x == q * P + x % P && y == s * P + y % P && q / 2 == s / 2 && q != s
    ensures x - y == P + x % P - y % P
  {
    if q < s {
      MulMono(q + 1, s, P);
      MulDist(P, q, 1);
      assert false;
    }
    assert q == s + 1;
    MulDist(P, s, 1);
  }

  /** Min(clz(x), clz(~y)) on the low p bits: how many leading positions hold a zero in x
      and a one in y. */
  function Matching(x: Limb, y: Limb, p: nat): (m: int)
    requires p <= LIMB_BITS
  {
    var P := Pow(2, p);
    PowPositive(2, p);
    LowFits(x, p);
    LowFits(B - 1 - y, p);
    var a, b := Clz(x % P), Clz((B - 1 - y) % P);
    (if a < b then a else b) - (LIMB_BITS - p)
  }

  lemma LowFits(x: Limb, p: nat)
    requires p <= LIMB_BITS
    ensures Pow(2, p) > 0 && x % Pow(2, p) <= x
  {
    PowPositive(2, p);
    DivModIdentity(x, Pow(2, p));
    MulMono(0, x / Pow(2, p), Pow(2, p));
  }

  /** (~y) & mask is the complement of the low bits of y. */
  lemma ComplementLow(y: Limb, p: nat)
    requires p <= LIMB_BITS
    ensures Pow(2, p) > 0 && (B - 1 - y) % Pow(2, p) == Pow(2, p) - 1 - y % Pow(2, p)
  {
    hide *;
    SplitBase(p);
    var P, T := Pow(2, p), Pow(2, LIMB_BITS - p);
    DivModIdentity(y, P);
    assert (T - 1 - y / P) * P == T * P - P - (y / P) * P by { ComplementPoly(T, P, y / P); }
    DivModIs(B - 1 - y, P, T - 1 - y / P, P - 1 - y % P);
  }

  lemma ComplementPoly(t: int, p: int, q: int)
    ensures (t - 1 - q) * p == t * p - p - q * p
  {}

  lemma MatchingIs(x: Limb, y: Limb, p: nat)
    requires p <= LIMB_BITS
    ensures Pow(2, p) > 0 && x % Pow(2, p) < B && 0 <= (B - 1 - y) % Pow(2, p) < B
    ensures Matching(x, y, p) + (LIMB_BITS - p) ==
            var a, b := Clz(x % Pow(2, p)), Clz((B - 1 - y) % Pow(2, p)); if a < b then a else b
  {
    hide Clz, Pow;
    PowPositive(2, p);
    LowFits(x, p);
    LowFits(B - 1 - y, p);
  }

  /** What is left of 2^p + x - y after the matching bits. */
  lemma MatchingGap(x: Limb, y: Limb, p: nat)
    requires p <= LIMB_BITS
    ensures 0 <= Matching(x, y, p) <= p && Pow(2, p) > 0
    ensures var k := p - Matching(x, y, p); var D := Pow(2, p) + x % Pow(2, p) - y % Pow(2, p);
            (k == 0 ==> D == 1) && (k >= 1 ==> Pow(2, k - 1) + 1 <= D < Pow(2, k + 1))
  {
    hide *;
    MatchingIs(x, y, p);
    ComplementLow(y, p);
    var P, u, v := Pow(2, p), x % Pow(2, p), (B - 1 - y) % Pow(2, p);
    var a := Matching(x, y, p) + (LIMB_BITS - p);
    DivModIdentity(x, P);
    DivModIdentity(B - 1 - y, P);
    ClzIs(u, LIMB_BITS - p);
    ClzIs(v, LIMB_BITS - p);
    ClzIs(u, a);
    ClzIs(v, a);
    var k := LIMB_BITS - a;
    PowPositive(2, k);
    PowStep(2, 0);
    if k >= 1 {
      ClzIs(u, a + 1);
      ClzIs(v, a + 1);
      PowStep(2, k - 1);
      PowStep(2, k);
      PowPositive(2, k - 1);
      Gap(Pow(2, k - 1), u, Pow(2, k) - 1 - v);
    }
  }

  // ---- leading limbs ----

  /** One more limb of leading bits. */
  lemma LeadingNext(v: nat, n: nat, k: nat)
    ensures Leading(v, n, k + LIMB_BITS) == Leading(v, n, k) * B + Window(v, n - k - LIMB_BITS)
  {
    if n >= k + LIMB_BITS {
      LeadingNextHigh(v, n - k - LIMB_BITS);
    } else if n > k {
      LeadingNextMiddle(v, n - k);
    } else {
      LeadingNextLow(v, k - n);
    }
  }

  lemma LeadingNextHigh(v: nat, c: nat)
    ensures Pow(2, c) > 0 && Pow(2, c + LIMB_BITS) > 0 && B > 0
    ensures v / Pow(2, c) == (v / Pow(2, c + LIMB_BITS)) * B + (v / Pow(2, c)) % B
  {
    hide *;
    PowPositive(2, c);
    PowPositive(2, c + LIMB_BITS);
    BasePositive();
    DivPow(v, c, LIMB_BITS);
    BaseIs();
    DivModIdentity(v / Pow(2, c), B);
  }

  lemma LeadingNextMiddle(v: nat, s: nat)
    requires 0 < s < LIMB_BITS
    ensures Pow(2, s) > 0 && B > 0
    ensures v * Pow(2, LIMB_BITS - s) == (v / Pow(2, s)) * B + (v * Pow(2, LIMB_BITS - s)) % B
  {
    hide *;
    SplitBase(s);
    BasePositive();
    var S, T := Pow(2, s), Pow(2, LIMB_BITS - s);
    ShiftHigh2(v, S, T);
    DivModIdentity(v, S);
    MiddlePoly(v / S, S, T, v % S);
  }

  lemma MiddlePoly(q: int, s: int, t: int, r: int)
    ensures (q * s + r) * t == q * (s * t) + r * t
  {}

  lemma LeadingNextLow(v: nat, d: nat)
    ensures Window(v, -(d as int) - LIMB_BITS) == 0
    ensures v * Pow(2, d + LIMB_BITS) == (v * Pow(2, d)) * B
    ensures d == 0 ==> v / Pow(2, 0) == v * Pow(2, 0)
  {
    hide Pow, B;
    PowStep(2, 0);
    DivByOne(v);
    ShiftedOut(v, d + LIMB_BITS);
    PowAdd(2, d, LIMB_BITS);
    BaseIs();
    assert Window(v, -(d as int) - LIMB_BITS) == (v * Pow(2, d + LIMB_BITS)) % B;
    LowPoly(v, Pow(2, d), B);
  }

  lemma LowPoly(v: int, p: int, b: int)
    ensures v * (p * b) == (v * p) * b
  {}

  /** Limb i from the top of a number of l limbs. */
  lemma TopLimbIs(tab: seq<Limb>, i: nat)
    ensures LimbOr0(tab, |tab| - 1 - i) == Window(Val(tab), |tab| * LIMB_BITS - i * LIMB_BITS - LIMB_BITS)
  {
    var pos := |tab| * LIMB_BITS - i * LIMB_BITS - LIMB_BITS;
    assert pos == (|tab| - 1 - i) * LIMB_BITS by { TopPoly(|tab|, i, LIMB_BITS); }
    GetBitsIs(tab, pos);
    MultipleDiv(|tab| - 1 - i);
  }

  lemma TopPoly(l: int, i: int, w: int)
    ensures l * w - i * w - w == (l - 1 - i) * w
  {}

  lemma MultipleDiv(k: int)
    ensures (k * LIMB_BITS) / LIMB_BITS == k && (k * LIMB_BITS) % LIMB_BITS == 0
  {
    DivModIs(k * LIMB_BITS, LIMB_BITS, k, 0);
  }

  /** The leading i limbs of a and, d bits lower, of b. */
  ghost function Lead(tab: seq<Limb>, d: nat, i: nat): (v: nat)
  {
    Leading(Val(tab), |tab| * LIMB_BITS + d, i * LIMB_BITS)
  }

  ghost function LeadDigit(tab: seq<Limb>, d: nat, i: nat): (v: Limb)
  {
    Window(Val(tab), |tab| * LIMB_BITS + d - i * LIMB_BITS - LIMB_BITS)
  }

  lemma LeadStep(tab: seq<Limb>, d: nat, i: nat)
    ensures Lead(tab, d, i + 1) == Lead(tab, d, i) * B + LeadDigit(tab, d, i)
  {
    hide Leading, Window, Pow;
    LeadingNext(Val(tab), |tab| * LIMB_BITS + d, i * LIMB_BITS);
    MulDist(LIMB_BITS, i, 1);
  }

  lemma LeadStart(tab: seq<Limb>, d: nat)
    ensures Lead(tab, d, 0) == 0
  {
    hide Pow;
    ValBound(tab);
    BasePow(|tab|);
    var n := |tab| * LIMB_BITS;
    PowMono(2, n, n + d);
    PowPositive(2, n + d);
    assert Lead(tab, d, 0) == Val(tab) / Pow(2, n + d);
    SmallDiv(Val(tab), Pow(2, n + d));
  }

  /** The magnitude on the scale of limb i from the top of a number with exponent e. */
  lemma LeadScaled(tab: seq<Limb>, expn: int, e: int, i: nat)
    requires e >= expn
    ensures var z := Rescale(Magnitude(tab, expn), i * LIMB_BITS - e); var a := Lead(tab, e - expn, i);
            a as real <= z < a as real + 1.0
  {
    hide Rescale, Leading;
    var n, k := |tab| * LIMB_BITS, i * LIMB_BITS;
    MagnitudeIs(tab, expn);
    RescaleTwice(Val(tab) as real, expn - n, k - e);
    assert expn - n + (k - e) == k - (n + (e - expn));
    LeadingFloor(Val(tab), n + (e - expn), k);
  }

  /** A gap of more than 2^j and less than 2^(j + 2) between the leading limbs is one between
      the numbers. */
  lemma LeadGap(ta: seq<Limb>, ea: int, tb: seq<Limb>, eb: int, i: nat, j: nat, n: int)
    requires ea >= eb && Pow(2, j) + 1 <= Lead(ta, 0, i) - Lead(tb, ea - eb, i) < Pow(2, j + 2)
    requires n + j + 1 == i * LIMB_BITS
    ensures Pow2(ea - n - 1) < Magnitude(ta, ea) - Magnitude(tb, eb) < Pow2(ea - n + 1)
  {
    hide *;
    var k := i * LIMB_BITS - ea;
    var x, y := Magnitude(ta, ea), Magnitude(tb, eb);
    LeadScaled(ta, ea, ea, i);
    LeadScaled(tb, eb, ea, i);
    PowRescaled(ea - n - 1, k);
    PowRescaled(ea - n + 1, k);
    assert ea - n - 1 + k == j && ea - n + 1 + k == j + 2;
    RescaleSum(y, Pow2(ea - n - 1), k);
    RescaleSum(y, Pow2(ea - n + 1), k);
    CompareScaled(x, y + Pow2(ea - n - 1), k);
    CompareScaled(y + Pow2(ea - n + 1), x, k);
  }

  lemma RescaleSum(x: real, y: real, k: int)
    ensures Rescale(x + y, k) == Rescale(x, k) + Rescale(y, k)
  {
    RealDistPlus(x, y, Pow2(k));
  }

  /** Far enough down the leading limbs hold everything, so unequal numbers have unequal
      leading limbs, and b has only zero limbs left. */
  lemma LeadEnds(ta: seq<Limb>, ea: int, tb: seq<Limb>, eb: int, i: nat)
    requires ea >= eb && Magnitude(ta, ea) > Magnitude(tb, eb) && i >= |ta| && i >= |tb| + (ea - eb)
    ensures Lead(ta, 0, i) != Lead(tb, ea - eb, i) && LeadDigit(tb, ea - eb, i) == 0
  {
    var d, k := ea - eb, i * LIMB_BITS - ea;
    MulMono(|ta|, i, LIMB_BITS);
    MulMono(|tb| + d, i, LIMB_BITS);
    MulDist(LIMB_BITS, |tb|, d);
    MulMono(1, LIMB_BITS, d);
    var pos := |tb| * LIMB_BITS + d - i * LIMB_BITS - LIMB_BITS;
    NegativeWindow(tb, pos);
    LeadExact(ta, ea, ea, i);
    LeadExact(tb, eb, ea, i);
    hide *;
    RescaleInjective(Magnitude(ta, ea), Magnitude(tb, eb), k);
  }

  lemma LeadExact(tab: seq<Limb>, expn: int, e: int, i: nat)
    requires e >= expn && i * LIMB_BITS >= |tab| * LIMB_BITS + (e - expn)
    ensures Rescale(Magnitude(tab, expn), i * LIMB_BITS - e) == Lead(tab, e - expn, i) as real
  {
    hide Rescale, Pow;
    var n, k := |tab| * LIMB_BITS, i * LIMB_BITS;
    MagnitudeIs(tab, expn);
    RescaleTwice(Val(tab) as real, expn - n, k - e);
    RescaleInt(Val(tab), k - (n + (e - expn)));
    PowStep(2, 0);
    DivByOne(Val(tab));
  }

  lemma BothPoly(a: int, b: int, x: int, y: int, w: int)
    ensures (a * w + x) - (b * w + y) == (a - b) * w + x - y
  {}

  /** count_cancelled_bits: the difference of the numbers lies between 2^(ea - n - 1) and
      2^(ea - n + 1), so it has n - 1 or n leading zeros. */
  method CountCancelledBits(ta: seq<Limb>, ea: int, tb: seq<Limb>, eb: int) returns (n: nat)
    requires 0 <= ea - eb <= 1 && Magnitude(ta, ea) > Magnitude(tb, eb)
    ensures Pow2(ea - n - 1) < Magnitude(ta, ea) - Magnitude(tb, eb) < Pow2(ea - n + 1)
  {
    hide *;
    ghost var d := ea - eb;
    ghost var limit := |ta| + |tb| + d;
    var i := 0;
    n := 0;
    LeadStart(ta, 0);
    LeadStart(tb, d);
    var v1, v2 := DigitPair(ta, ea, tb, eb, 0);
    while v1 == v2
      invariant 0 <= i <= limit && n == i * LIMB_BITS && Lead(ta, 0, i) == Lead(tb, d, i)
      invariant v1 == LeadDigit(ta, 0, i) && v2 == LeadDigit(tb, d, i)
      decreases limit - i
    {
      if i + 1 > limit {
        LeadEnds(ta, ea, tb, eb, i);
      }
      LeadStep(ta, 0, i);
      LeadStep(tb, d, i);
      MulDist(LIMB_BITS, i, 1);
      n := n + LIMB_BITS;
      i := i + 1;
      v1, v2 := DigitPair(ta, ea, tb, eb, i);
    }
    LeadStep(ta, 0, i);
    LeadStep(tb, d, i);
    if v1 < v2 {
      LeadOrder(ta, ea, tb, eb, i + 1);
      assert false;
    }
    FirstDifference(v1, v2);
    var p := Clz(Xor(v1, v2, LIMB_BITS)) + 1;
    n := n + p;
    p := LIMB_BITS - p;
    MatchingGap(v1, v2, p);
    MulDist(LIMB_BITS, i, 1);
    if p > 0 {
      var p1 := Matching(v1, v2, p);
      n := n + p1;
      if p1 != p {
        LeadGap(ta, ea, tb, eb, i + 1, p - p1 - 1, n);
        return;
      }
    }
    n := InLaterLimbs(ta, ea, tb, eb, i + 1);
  }

  /** The difference of the leading limbs is one; it stays one while a has zeros and b has
      ones. */
  method InLaterLimbs(ta: seq<Limb>, ea: int, tb: seq<Limb>, eb: int, i0: nat) returns (n: nat)
    requires 0 <= ea - eb <= 1 && Magnitude(ta, ea) > Magnitude(tb, eb)
    requires Lead(ta, 0, i0) - Lead(tb, ea - eb, i0) == 1
    ensures Pow2(ea - n - 1) < Magnitude(ta, ea) - Magnitude(tb, eb) < Pow2(ea - n + 1)
  {
    hide *;
    BaseFacts();
    ghost var d := ea - eb;
    ghost var limit := i0 + |ta| + |tb| + d;
    var i := i0;
    n := i * LIMB_BITS;
    var v1, v2 := DigitPair(ta, ea, tb, eb, i);
    while v1 == 0 && v2 == B - 1
      invariant i0 <= i <= limit && n == i * LIMB_BITS && Lead(ta, 0, i) - Lead(tb, d, i) == 1
      invariant v1 == LeadDigit(ta, 0, i) && v2 == LeadDigit(tb, d, i)
      decreases limit - i
    {
      if i + 1 > limit {
        LeadEnds(ta, ea, tb, eb, i);
      }
      LeadStep(ta, 0, i);
      LeadStep(tb, d, i);
      BothPoly(Lead(ta, 0, i), Lead(tb, d, i), v1, v2, B);
      MulDist(LIMB_BITS, i, 1);
      n := n + LIMB_BITS;
      i := i + 1;
      v1, v2 := DigitPair(ta, ea, tb, eb, i);
    }
    LaterGap(ta, ea, tb, eb, i, v1, v2);
    n := n + Matching(v1, v2, LIMB_BITS);
  }

  lemma LaterGap(ta: seq<Limb>, ea: int, tb: seq<Limb>, eb: int, i: nat, v1: Limb, v2: Limb)
    requires ea >= eb && Lead(ta, 0, i) - Lead(tb, ea - eb, i) == 1 && !(v1 == 0 && v2 == B - 1)
    requires v1 == LeadDigit(ta, 0, i) && v2 == LeadDigit(tb, ea - eb, i)
    ensures Matching(v1, v2, LIMB_BITS) >= 0
    ensures var n := i * LIMB_BITS + Matching(v1, v2, LIMB_BITS);
            Pow2(ea - n - 1) < Magnitude(ta, ea) - Magnitude(tb, eb) < Pow2(ea - n + 1)
  {
    hide *;
    var d, p1 := ea - eb, Matching(v1, v2, LIMB_BITS);
    BaseIs();
    MatchingGap(v1, v2, LIMB_BITS);
    SmallDiv(v1, B);
    SmallDiv(v2, B);
    LeadStep(ta, 0, i);
    LeadStep(tb, d, i);
    BothPoly(Lead(ta, 0, i), Lead(tb, d, i), v1, v2, B);
    MulDist(LIMB_BITS, i, 1);
    LeadGap(ta, ea, tb, eb, i + 1, LIMB_BITS - p1 - 1, i * LIMB_BITS + p1);
  }

  lemma LeadOrder(ta: seq<Limb>, ea: int, tb: seq<Limb>, eb: int, i: nat)
    requires ea >= eb && Lead(ta, 0, i) < Lead(tb, ea - eb, i)
    ensures Magnitude(ta, ea) < Magnitude(tb, eb)
  {
    hide *;
    LeadScaled(ta, ea, ea, i);
    LeadScaled(tb, eb, ea, i);
    CompareScaled(Magnitude(tb, eb), Magnitude(ta, ea), i * LIMB_BITS - ea);
  }

  /** The limbs at the i-th place from the top. */
  method DigitPair(ta: seq<Limb>, ea: int, tb: seq<Limb>, eb: int, i: nat) returns (v1: Limb, v2: Limb)
    requires ea >= eb
    ensures v1 == LeadDigit(ta, 0, i) && v2 == LeadDigit(tb, ea - eb, i)
  {
    hide GetBits, Window, LimbOr0;
    ghost var d := ea - eb;
    var bitOffset := |ta| * LIMB_BITS - 1 - i * LIMB_BITS;
    var bOffset := (|tb| - |ta|) * LIMB_BITS - (LIMB_BITS - 1) + ea - eb;
    OffsetIndex(|ta|, i);
    TopLimbIs(ta, i);
    MulDist(LIMB_BITS, |tb|, |ta|);
    GetBitsIs(tb, bitOffset + bOffset);
    v1 := LimbOr0(ta, bitOffset / LIMB_BITS);
    v2 := GetBits(tb, bitOffset + bOffset);
  }

  lemma OffsetIndex(l: int, i: int)
    ensures (l * LIMB_BITS - 1 - i * LIMB_BITS) / LIMB_BITS == l - 1 - i
  {
    assert l * LIMB_BITS - 1 - i * LIMB_BITS
      == (l - 1 - i) * LIMB_BITS + (LIMB_BITS - 1) by { TopPoly(l, i, LIMB_BITS); }
    DivModIs(l * LIMB_BITS - 1 - i * LIMB_BITS, LIMB_BITS, l - 1 - i, LIMB_BITS - 1);
  }
}
