/** Ziv's rounding test and loop (cpp/src/quickjs/libbf.c, bf_can_round,
    bf_ziv_rounding). */
module BfZiv {
  import opened Powers
  import opened Limbs
  import opened Bits
  import opened Rounding
  import opened BfRound

  ghost predicate ToNearest(mode: Mode) { mode == RNDN || mode == RNDNA }

  // ---- the test decides on n bits after the precision ----

  /** The n bits t after the precision do not allow to round: an error of one unit could
      reach a value where the rounding changes. */
  ghost predicate Blocked(nearest: bool, t: nat, n: nat)
    requires n >= 1
  {
    if nearest then t == Pow(2, n - 1) - 1 || t == Pow(2, n - 1) else t == 0 || t == Pow(2, n) - 1
  }

  /** u is w on a scale m times coarser. */
  ghost predicate ScaledTo(u: real, m: int, w: real) { u * m as real == w }

  /** Rounding at a scale m below which z and w coincide: z = w / m. */
  lemma FloorAtScale(z: real, m: nat, w: real, q: int)
    requires m > 0 && z * m as real == w && (q * m) as real <= w < ((q + 1) * m) as real
    ensures z.Floor == q && (z - q as real) * m as real == w - (q * m) as real
    ensures z - q as real >= 0.0
  {
    var f := z - q as real;
    assert f * m as real == w - (q * m) as real by { RealDist(z, q as real, m as real); }
    assert ((q + 1) * m) as real == (q * m) as real + m as real;
    FractionBounds(f, m as real, w - (q * m) as real);
  }

  /** Directed rounding strictly between two neighbours. */
  lemma DirectedBetween(mode: Mode, neg: bool, z: real, m: nat, w: real, q: int)
    requires !ToNearest(mode) && m > 0 && ScaledTo(z, m, w) && (q * m) as real < w < ((q + 1) * m) as real
    ensures RoundInt(mode, neg, z) == if AwayFromZero(mode, neg) then q + 1 else q
  {
    FloorAtScale(z, m, w, q);
    SignOf(z - q as real, m as real);
  }

  /** Directed rounding at a neighbour. */
  lemma DirectedAt(mode: Mode, neg: bool, z: real, m: nat, w: real, q: int)
    requires !ToNearest(mode) && m > 0 && ScaledTo(z, m, w) && w == (q * m) as real
    ensures RoundInt(mode, neg, z) == q
  {
    MulDist(m, q, 1);
    FloorAtScale(z, m, w, q);
    SignOf(z - q as real, m as real);
  }

  /** Nearest rounding on either side of the middle, strictly. */
  lemma NearestSide(mode: Mode, neg: bool, z: real, m: nat, h: nat, w: real, q: int)
    requires ToNearest(mode) && m == 2 * h && h > 0 && ScaledTo(z, m, w)
    requires (q * m) as real <= w < ((q + 1) * m) as real
    ensures w < (q * m + h) as real ==> RoundInt(mode, neg, z) == q
    ensures w > (q * m + h) as real ==> RoundInt(mode, neg, z) == q + 1
  {
    FloorAtScale(z, m, w, q);
    assert m as real == 2.0 * h as real;
    FractionCompare(z - q as real, w - (q * m) as real, h as real);
    assert (q * m + h) as real == (q * m) as real + h as real;
  }

  /** To nearest at the middle: down only to an even neighbour, and only in the mode RNDN. */
  lemma NearestTie(mode: Mode, neg: bool, z: real, m: nat, h: nat, w: real, q: int)
    requires ToNearest(mode) && m == 2 * h && h > 0 && ScaledTo(z, m, w) && w == (q * m + h) as real
    ensures RoundInt(mode, neg, z) == if mode == RNDN && q % 2 == 0 then q else q + 1
  {
    MulDist(m, q, 1);
    FloorAtScale(z, m, w, q);
    assert m as real == 2.0 * h as real;
    FractionHalf(z - q as real, m as real, h as real);
  }

  lemma FractionHalf(f: real, m: real, h: real)
    requires h > 0.0 && m == 2.0 * h && f * m == h
    ensures f == 0.5
  {
    DivideOut(f, 0.5, m);
  }

  /** An approximation z = q*m + t + f with m = 2h, and a value w at most one unit away from
      it, on the scale where the error bound is one. */
  ghost predicate Reach(z: real, w: real, q: nat, m: nat, t: nat)
  {
    && t < m && (q * m + t) as real <= z < (q * m + t) as real + 1.0
    && z - 1.0 <= w <= z + 1.0
  }

  /** The same with less than one unit. */
  ghost predicate Near(z: real, w: real, q: nat, m: nat, t: nat)
  {
    Reach(z, w, q, m, t) && z - 1.0 < w < z + 1.0
  }

  /** Between the neighbours; the lower one is reached only with an error of one unit. */
  lemma ReachDirected(z: real, w: real, q: nat, m: nat, t: nat)
    requires Reach(z, w, q, m, t) && 1 <= t && t + 2 <= m
    ensures (q * m) as real < z < ((q + 1) * m) as real && (q * m) as real <= w < ((q + 1) * m) as real
    ensures w == (q * m) as real ==> w == z - 1.0
  {
    MulDist(m, q, 1);
  }

  lemma ReachBelow(z: real, w: real, q: nat, m: nat, t: nat, h: nat)
    requires Reach(z, w, q, m, t) && m == 2 * h && t + 2 <= h
    ensures (q * m) as real <= z < (q * m + h) as real && (q * m) as real - 1.0 <= w < (q * m + h) as real
    ensures w == (q * m) as real - 1.0 ==> w == z - 1.0
  {}

  /** Above the middle, which is reached only with an error of one unit. */
  lemma ReachAbove(z: real, w: real, q: nat, m: nat, t: nat, h: nat)
    requires Reach(z, w, q, m, t) && m == 2 * h && t >= h + 1
    ensures (q * m + h) as real < z < ((q + 1) * m) as real && (q * m + h) as real <= w < ((q + 1) * m) as real + 1.0
    ensures w == (q * m + h) as real ==> w == z - 1.0
  {
    MulDist(m, q, 1);
  }

  // ---- soundness of the test ----

  lemma RoundsToIntro(mode: Mode, neg: bool, prec: nat, x: real, e: int, n: int)
    requires HasExp(x, e) && RoundInt(mode, neg, Rescale(x, prec - e)) == n
    ensures RoundsTo(mode, neg, prec, x, Scaled(n, e - prec))
  {
    hide HasExp, RoundInt, Rescale, Scaled;
  }

  /** From the scale of the error bound to a scale n bits coarser. */
  lemma Coarser(x: real, a: int, n: nat)
    ensures Rescale(x, a) * Pow(2, n) as real == Rescale(x, a + n)
  {
    hide Rescale;
    RescaleTwice(x, a, n);
    RescaleIsMul(Rescale(x, a), n);
  }

  lemma CoarserTo(x: real, a: int, n: nat)
    ensures ScaledTo(Rescale(x, a), Pow(2, n), Rescale(x, a + n))
  {
    hide Rescale;
    Coarser(x, a, n);
  }

  lemma RescaleIsMul(x: real, n: nat)
    ensures Rescale(x, n) == x * Pow(2, n) as real
  {
    Pow2IsPow(n);
  }

  /** Binades on the scale where 2^e becomes 2^k. */
  lemma ExpScaled(x: real, e: int, k: nat)
    requires k >= 1
    ensures HasExp(x, e) <==> Pow(2, k - 1) as real <= Rescale(x, k - e) < Pow(2, k) as real
  {
    hide Rescale, Pow2, Pow;
    PowRescaled(e - 1, k - e);
    PowRescaled(e, k - e);
    CompareScaled(Pow2(e - 1), x, k - e);
    CompareScaled(Pow2(e), x, k - e);
  }

  /** The quotient of the approximation keeps its top bit. */
  lemma QuotientBounds(z: real, q: nat, t: nat, prec: nat, n: nat)
    requires prec >= 1 && Pow(2, prec + n - 1) as real <= z < Pow(2, prec + n) as real
    requires t < Pow(2, n) && (q * Pow(2, n) + t) as real <= z < (q * Pow(2, n) + t) as real + 1.0
    ensures Pow(2, prec - 1) <= q < Pow(2, prec)
    ensures Pow(2, prec + n) == Pow(2, prec) * Pow(2, n) && Pow(2, prec + n - 1) == Pow(2, prec - 1) * Pow(2, n)
  {
    hide *;
    PowAdd(2, prec, n);
    PowAdd(2, prec - 1, n);
    PowPositive(2, n);
    var m, lo, hi := Pow(2, n), Pow(2, prec - 1), Pow(2, prec);
    assert q * m < hi * m;
    MulCancelLt(q, hi, m);
    MulDist(m, q, 1);
    assert lo * m < (q + 1) * m;
    MulCancelLt(lo, q + 1, m);
  }

  lemma ReachQuotient(z: real, w: real, q: nat, t: nat, prec: nat, n: nat)
    requires prec >= 1 && Pow(2, prec + n - 1) as real <= z < Pow(2, prec + n) as real && Reach(z, w, q, Pow(2, n), t)
    ensures Pow(2, prec - 1) <= q < Pow(2, prec)
    ensures Pow(2, prec + n) == Pow(2, prec) * Pow(2, n) && Pow(2, prec + n - 1) == Pow(2, prec - 1) * Pow(2, n)
  {
    hide Pow;
    QuotientBounds(z, q, t, prec, n);
  }

  lemma InBinade(w: real, q: nat, m: nat, lo: nat, hi: nat)
    requires lo <= q < hi && (q * m) as real <= w < ((q + 1) * m) as real
    ensures (lo * m) as real <= w < (hi * m) as real
  {
    MulMono(lo, q, m);
    MulMono(q + 1, hi, m);
  }

  lemma BelowNext(w: real, q: nat, m: nat, h: nat)
    requires w < (q * m + h) as real && m == 2 * h && h > 0
    ensures w < ((q + 1) * m) as real
  {
    MulDist(m, q, 1);
  }

  lemma BelowTop(w: real, q: nat, m: nat, hi: nat)
    requires q < hi && w < ((q + 1) * m) as real
    ensures w < (hi * m) as real
  {
    MulMono(q + 1, hi, m);
  }

  /** Directed modes: alike unless the value is the lower neighbour and is left upward. */
  lemma DirectedSound(mode: Mode, neg: bool, prec: nat, n: nat, x: real, r: real, e: int, q: nat, t: nat)
      returns (y: real)
    requires !ToNearest(mode) && prec >= 1 && n >= 2 && HasExp(x, e)
    requires Reach(Rescale(x, prec + n - e), Rescale(r, prec + n - e), q, Pow(2, n), t) && 1 <= t && t + 2 <= Pow(2, n)
    requires Rescale(r, prec + n - e) == (q * Pow(2, n)) as real ==> !AwayFromZero(mode, neg)
    ensures RoundsTo(mode, neg, prec, x, y) && RoundsTo(mode, neg, prec, r, y)
  {
    hide *;
    var k, m := prec + n, Pow(2, n);
    var z, w := Rescale(x, k - e), Rescale(r, k - e);
    ReachDirected(z, w, q, m, t);
    ExpScaled(x, e, k);
    ReachQuotient(z, w, q, t, prec, n);
    var y' := if AwayFromZero(mode, neg) then q + 1 else q;
    y := Scaled(y', e - prec);
    InBinade(w, q, m, Pow(2, prec - 1), Pow(2, prec));
    ExpScaled(r, e, k);
    CoarserTo(x, prec - e, n);
    CoarserTo(r, prec - e, n);
    PowPositive(2, n);
    DirectedBetween(mode, neg, Rescale(x, prec - e), m, z, q);
    if w == (q * m) as real {
      DirectedAt(mode, neg, Rescale(r, prec - e), m, w, q);
    } else {
      DirectedBetween(mode, neg, Rescale(r, prec - e), m, w, q);
    }
    RoundsToIntro(mode, neg, prec, x, e, y');
    RoundsToIntro(mode, neg, prec, r, e, y');
  }

  /** To nearest, below the middle: the value may lie just below the quotient, even in the
      binade below. */
  lemma NearestBelowSound(mode: Mode, neg: bool, prec: nat, n: nat, x: real, r: real, e: int, q: nat, t: nat)
      returns (y: real)
    requires ToNearest(mode) && prec >= 1 && n >= 2 && HasExp(x, e)
    requires Reach(Rescale(x, prec + n - e), Rescale(r, prec + n - e), q, Pow(2, n), t) && t + 2 <= Pow(2, n - 1)
    ensures RoundsTo(mode, neg, prec, x, y) && RoundsTo(mode, neg, prec, r, y)
  {
    hide *;
    var k, m, h := prec + n, Pow(2, n), Pow(2, n - 1);
    var z, w := Rescale(x, k - e), Rescale(r, k - e);
    PowStep(2, n - 1);
    PowPositive(2, n - 1);
    ReachBelow(z, w, q, m, t, h);
    ExpScaled(x, e, k);
    ReachQuotient(z, w, q, t, prec, n);
    y := Scaled(q, e - prec);
    BelowNext(z, q, m, h);
    BelowNext(w, q, m, h);
    CoarserTo(x, prec - e, n);
    NearestSide(mode, neg, Rescale(x, prec - e), m, h, z, q);
    RoundsToIntro(mode, neg, prec, x, e, q);
    ValueBelow(mode, neg, prec, n, r, e, q, w);
  }

  lemma ValueBelow(mode: Mode, neg: bool, prec: nat, n: nat, r: real, e: int, q: nat, w: real)
    requires ToNearest(mode) && prec >= 1 && n >= 2 && w == Rescale(r, prec + n - e)
    requires Pow(2, n) == 2 * Pow(2, n - 1)
      && (q * Pow(2, n)) as real - 1.0 <= w < (q * Pow(2, n) + Pow(2, n - 1)) as real
    requires Pow(2, prec - 1) <= q < Pow(2, prec) && w < ((q + 1) * Pow(2, n)) as real
    requires Pow(2, prec + n) == Pow(2, prec) * Pow(2, n) && Pow(2, prec + n - 1) == Pow(2, prec - 1) * Pow(2, n)
    ensures RoundsTo(mode, neg, prec, r, Scaled(q, e - prec))
  {
    hide *;
    var k, m, h := prec + n, Pow(2, n), Pow(2, n - 1);
    if w >= Pow(2, k - 1) as real {
      BelowTop(w, q, m, Pow(2, prec));
      ExpScaled(r, e, k);
      CoarserTo(r, prec - e, n);
      SameBinadeBelow(mode, neg, Rescale(r, prec - e), m, h, w, q, n);
      RoundsToIntro(mode, neg, prec, r, e, q);
    } else {
      LowerBinade(mode, neg, prec, n, r, e, q, w);
    }
  }

  lemma SameBinadeBelow(mode: Mode, neg: bool, z: real, m: nat, h: nat, w: real, q: nat, n: nat)
    requires ToNearest(mode) && n >= 2 && h == Pow(2, n - 1) && m == 2 * h && ScaledTo(z, m, w)
    requires (q * m) as real - 1.0 <= w < (q * m + h) as real
    ensures RoundInt(mode, neg, z) == q
  {
    hide RoundInt, Pow, ToNearest, ScaledTo;
    PowStep(2, n - 2);
    PowPositive(2, n - 2);
    MulDist(m, q, 1);
    if w >= (q * m) as real {
      NearestSide(mode, neg, z, m, h, w, q);
    } else {
      NearestSide(mode, neg, z, m, h, w, q - 1);
    }
  }

  lemma LowerBinade(mode: Mode, neg: bool, prec: nat, n: nat, r: real, e: int, q: nat, w: real)
    requires ToNearest(mode) && prec >= 1 && n >= 2 && w == Rescale(r, prec + n - e)
    requires Pow(2, prec - 1) <= q && (q * Pow(2, n)) as real - 1.0 <= w < Pow(2, prec + n - 1) as real
    requires Pow(2, prec + n - 1) == Pow(2, prec - 1) * Pow(2, n)
    ensures RoundsTo(mode, neg, prec, r, Scaled(q, e - prec))
  {
    hide HasExp, RoundsTo, Rescale, RoundInt, Pow, Scaled, ToNearest, ScaledTo;
    var k, m, h := prec + n, Pow(2, n), Pow(2, n - 1);
    PowStep(2, n - 1);
    PowStep(2, n - 2);
    PowPositive(2, n - 2);
    PowStep(2, prec - 1);
    MulMono(Pow(2, prec - 1), q, m);
    assert q == Pow(2, prec - 1) by {
      if q > Pow(2, prec - 1) {
        MulMono(Pow(2, prec - 1) + 1, q, m);
        MulDist(m, Pow(2, prec - 1), 1);
        assert false;
      }
    }
    PowStep(2, k - 2);
    PowPositive(2, k - 2);
    ExpScaled(r, e - 1, k - 1);
    assert k - 1 - (e - 1) == k - e;
    LowBinadeWidth(k);
    CoarserTo(r, prec - (e - 1), n - 1);
    assert prec - (e - 1) + (n - 1) == k - e;
    var p := Pow(2, prec);
    assert p * h == q * m;
    MulDist(h, p, 1);
    if w == ((p - 1) * h + Pow(2, n - 2)) as real {
      NearestTie(mode, neg, Rescale(r, prec - (e - 1)), h, Pow(2, n - 2), w, p - 1);
    } else {
      NearestSide(mode, neg, Rescale(r, prec - (e - 1)), h, Pow(2, n - 2), w, p - 1);
    }
    RoundsToIntro(mode, neg, prec, r, e - 1, p);
    BumpedScaled(prec, e - 1 - prec);
  }

  lemma LowBinadeWidth(k: nat)
    requires k >= 3
    ensures Pow(2, k - 2) >= 2 && Pow(2, k - 1) == 2 * Pow(2, k - 2)
  {
    PowStep(2, k - 2);
    PowMono(2, 1, k - 2);
    PowStep(2, 0);
  }

  /** To nearest, above the middle: the value may reach just above the next quotient, even
      in the binade above. */
  lemma NearestAboveSound(mode: Mode, neg: bool, prec: nat, n: nat, x: real, r: real, e: int, q: nat, t: nat)
      returns (y: real)
    requires ToNearest(mode) && prec >= 1 && n >= 2 && HasExp(x, e)
    requires Reach(Rescale(x, prec + n - e), Rescale(r, prec + n - e), q, Pow(2, n), t) && t >= Pow(2, n - 1) + 1
    requires Rescale(r, prec + n - e) == (q * Pow(2, n) + Pow(2, n - 1)) as real ==> mode != RNDN || q % 2 != 0
    ensures RoundsTo(mode, neg, prec, x, y) && RoundsTo(mode, neg, prec, r, y)
  {
    hide *;
    var k, m, h := prec + n, Pow(2, n), Pow(2, n - 1);
    var z, w := Rescale(x, k - e), Rescale(r, k - e);
    PowStep(2, n - 1);
    PowPositive(2, n - 1);
    ReachAbove(z, w, q, m, t, h);
    ExpScaled(x, e, k);
    ReachQuotient(z, w, q, t, prec, n);
    y := Scaled(q + 1, e - prec);
    CoarserTo(x, prec - e, n);
    NearestSide(mode, neg, Rescale(x, prec - e), m, h, z, q);
    RoundsToIntro(mode, neg, prec, x, e, q + 1);
    ValueAbove(mode, neg, prec, n, r, e, q, w);
  }

  lemma ValueAbove(mode: Mode, neg: bool, prec: nat, n: nat, r: real, e: int, q: nat, w: real)
    requires ToNearest(mode) && prec >= 1 && n >= 2 && w == Rescale(r, prec + n - e)
    requires Pow(2, n) == 2 * Pow(2, n - 1)
      && (q * Pow(2, n) + Pow(2, n - 1)) as real <= w < ((q + 1) * Pow(2, n)) as real + 1.0
    requires w == (q * Pow(2, n) + Pow(2, n - 1)) as real ==> mode != RNDN || q % 2 != 0
    requires Pow(2, prec - 1) <= q < Pow(2, prec)
    requires Pow(2, prec + n) == Pow(2, prec) * Pow(2, n) && Pow(2, prec + n - 1) == Pow(2, prec - 1) * Pow(2, n)
    ensures RoundsTo(mode, neg, prec, r, Scaled(q + 1, e - prec))
  {
    hide *;
    var k, m, h := prec + n, Pow(2, n), Pow(2, n - 1);
    if w < Pow(2, k) as real {
      PowPositive(2, n - 1);
      AboveLow(w, q, m, h, Pow(2, prec - 1));
      ExpScaled(r, e, k);
      CoarserTo(r, prec - e, n);
      SameBinadeAbove(mode, neg, Rescale(r, prec - e), m, h, w, q, n);
      RoundsToIntro(mode, neg, prec, r, e, q + 1);
    } else {
      UpperBinade(mode, neg, prec, n, r, e, q, w);
    }
  }

  lemma AboveLow(w: real, q: nat, m: nat, h: nat, lo: nat)
    requires lo <= q && (q * m + h) as real <= w
    ensures (lo * m) as real <= w
  {
    MulMono(lo, q, m);
  }

  lemma SameBinadeAbove(mode: Mode, neg: bool, z: real, m: nat, h: nat, w: real, q: nat, n: nat)
    requires ToNearest(mode) && n >= 2 && h == Pow(2, n - 1) && m == 2 * h && ScaledTo(z, m, w)
    requires (q * m + h) as real <= w < ((q + 1) * m) as real + 1.0
    requires w == (q * m + h) as real ==> mode != RNDN || q % 2 != 0
    ensures RoundInt(mode, neg, z) == q + 1
  {
    hide RoundInt, Pow, ToNearest, ScaledTo;
    PowStep(2, n - 2);
    PowPositive(2, n - 2);
    MulDist(m, q, 1);
    MulDist(m, q + 1, 1);
    if w == (q * m + h) as real {
      NearestTie(mode, neg, z, m, h, w, q);
    } else if w < ((q + 1) * m) as real {
      NearestSide(mode, neg, z, m, h, w, q);
    } else {
      NearestSide(mode, neg, z, m, h, w, q + 1);
    }
  }

  lemma UpperBinade(mode: Mode, neg: bool, prec: nat, n: nat, r: real, e: int, q: nat, w: real)
    requires ToNearest(mode) && prec >= 1 && n >= 2 && w == Rescale(r, prec + n - e)
    requires q < Pow(2, prec) && Pow(2, prec + n) as real <= w < ((q + 1) * Pow(2, n)) as real + 1.0
    requires Pow(2, prec + n) == Pow(2, prec) * Pow(2, n)
    ensures RoundsTo(mode, neg, prec, r, Scaled(q + 1, e - prec))
  {
    hide HasExp, RoundsTo, Rescale, RoundInt, Pow, Scaled, ToNearest, ScaledTo;
    var k, m := prec + n, Pow(2, n);
    PowStep(2, n);
    PowPositive(2, n - 1);
    PowStep(2, n - 1);
    PowStep(2, prec - 1);
    assert q + 1 == Pow(2, prec) by {
      if q + 1 < Pow(2, prec) {
        MulMono(q + 2, Pow(2, prec), m);
        MulDist(m, q + 1, 1);
        assert false;
      }
    }
    PowStep(2, k);
    PowPositive(2, k);
    ExpScaled(r, e + 1, k + 1);
    assert k + 1 - (e + 1) == k - e;
    WidePower(k);
    CoarserTo(r, prec - (e + 1), n + 1);
    assert prec - (e + 1) + (n + 1) == k - e;
    var p := Pow(2, prec - 1);
    assert p * (2 * m) == (q + 1) * m by { assert p * (2 * m) == (2 * p) * m; }
    MulDist(2 * m, p, 1);
    NearestSide(mode, neg, Rescale(r, prec - (e + 1)), 2 * m, m, w, p);
    RoundsToIntro(mode, neg, prec, r, e + 1, p);
    BumpedScaled(prec, e - prec);
  }

  lemma WidePower(k: nat)
    requires k >= 1
    ensures Pow(2, k) >= 2 && Pow(2, k + 1) == 2 * Pow(2, k)
  {
    PowStep(2, k);
    PowMono(2, 1, k);
    PowStep(2, 0);
  }

  // ---- the test on limbs ----

  /** The k leading bits of a v of n bits, with zeros beyond its last. */
  function Leading(v: nat, n: nat, k: nat): (a: nat)
  {
    if k <= n then v / Pow(2, n - k) else v * Pow(2, k - n)
  }

  lemma LeadingBit(v: nat, n: nat, k: nat, i: nat)
    ensures Bit(v, n - k + i) == Bit(Leading(v, n, k), i)
  {
    if k <= n {
      DivPow(v, n - k, i);
    } else {
      var d := k - n;
      PowPositive(2, i);
      if i >= d {
        ShiftedBitHigh(v, d, i);
      } else {
        ShiftedBitLow(v, d, i);
      }
    }
  }

  lemma ShiftedBitHigh(v: nat, d: nat, i: nat)
    requires i >= d
    ensures Pow(2, i) > 0 && Pow(2, i - d) > 0 && (v * Pow(2, d)) / Pow(2, i) == v / Pow(2, i - d)
  {
    hide *;
    PowAdd(2, d, i - d);
    PowPositive(2, d);
    PowPositive(2, i - d);
    PowPositive(2, i);
    var p, w := Pow(2, d), v * Pow(2, d);
    DivModIs(w, p, v, 0);
    DivDiv(w, p, Pow(2, i - d));
  }

  lemma ShiftedBitLow(v: nat, d: nat, i: nat)
    requires i < d
    ensures Pow(2, i) > 0 && ((v * Pow(2, d)) / Pow(2, i)) % 2 == 0
  {
    hide *;
    PowAdd(2, i, d - i);
    PowStep(2, d - i - 1);
    PowPositive(2, i);
    EvenProduct(v, Pow(2, i), Pow(2, d - i - 1));
    EvenQuotient(v * Pow(2, d), Pow(2, i), v * Pow(2, d - i - 1));
  }

  lemma EvenQuotient(w: int, p: int, u: int)
    requires p > 0 && w == (2 * u) * p
    ensures (w / p) % 2 == 0
  {
    DivModIs(w, p, 2 * u, 0);
  }

  lemma EvenProduct(v: int, p: int, h: int)
    ensures v * (p * (2 * h)) == (2 * (v * h)) * p
  {}

  /** All m low bits equal b exactly when the m low bits are all zeros or all ones. */
  lemma {:induction false} BitsPattern(a: nat, m: nat, b: nat)
    requires b <= 1
    ensures Pow(2, m) > 0
    ensures (forall i :: 0 <= i < m ==> Bit(a, i) == b) <==> a % Pow(2, m) == b * (Pow(2, m) - 1)
    decreases m
  {
    PowPositive(2, m);
    if m == 0 {
      PowStep(2, 0);
    } else {
      BitsPattern(a, m - 1, b);
      RoundBits(a, m);
      PowStep(2, m - 1);
      hide Bit, Pow;
      BitIs01(a, m - 1);
      PatternStep(a % Pow(2, m), a % Pow(2, m - 1), Pow(2, m - 1), Bit(a, m - 1), b);
      assert (forall i :: 0 <= i < m ==> Bit(a, i) == b) <==>
        (forall i :: 0 <= i < m - 1 ==> Bit(a, i) == b) && Bit(a, m - 1) == b;
    }
  }

  lemma PatternStep(t: nat, l: nat, h: nat, c: nat, b: nat)
    requires c <= 1 && b <= 1 && h >= 1 && l < h && t == c * h + l
    ensures t == b * (2 * h - 1) <==> l == b * (h - 1) && c == b
  {}

  lemma BlockedIff(nearest: bool, a: nat, n: nat)
    requires n >= 2
    ensures Pow(2, n) > 0 && Pow(2, n - 1) > 0
    ensures var b := if nearest then 1 - Bit(a, n - 1) else Bit(a, n - 1);
            Blocked(nearest, a % Pow(2, n), n) <==> a % Pow(2, n - 1) == b * (Pow(2, n - 1) - 1)
  {
    hide Bit, Pow;
    RoundBits(a, n);
    PowStep(2, n - 1);
    PowStep(2, n - 2);
    PowPositive(2, n - 2);
    BitIs01(a, n - 1);
  }

  /** bf_can_round on a nonzero finite number. */
  method CanRound(tab: seq<Limb>, prec: nat, mode: Mode, k: int) returns (ok: bool)
    requires prec >= 1
    ensures k < prec + 2 ==> !ok
    ensures k >= prec + 2 ==>
      (ok <==>
        Pow(2, k - prec) > 0
        && !Blocked(ToNearest(mode), Leading(Val(tab), |tab| * LIMB_BITS, k) % Pow(2, k - prec), k - prec))
  {
    hide *;
    if k < prec + 2 {
      return false;
    }
    var nearest := mode == RNDN || mode == RNDNA;
    ghost var size := |tab| * LIMB_BITS;
    ghost var a, n0 := Leading(Val(tab), size, k), k - prec;
    NearestIs(mode);
    BitsOf(tab, k, n0);
    var bitPos := |tab| * LIMB_BITS - 1 - prec;
    var n := k - prec;
    var bit := GetBit(tab, bitPos);
    bitPos, n := bitPos - 1, n - 1;
    if nearest {
      bit := 1 - bit;
    }
    BlockedIff(nearest, a, n0);
    BitsPattern(a, n0 - 1, bit);
    while n != 0
      invariant 0 <= n <= n0 - 1 && bitPos == size - k + (n - 1)
      invariant forall i :: n <= i < n0 - 1 ==> Bit(a, i) == bit
    {
      assert GetBit(tab, size - k + (n - 1)) == Bit(a, n - 1);
      if GetBit(tab, bitPos) != bit {
        return true;
      }
      bitPos, n := bitPos - 1, n - 1;
    }
    ok := false;
  }

  lemma NearestIs(mode: Mode)
    ensures ToNearest(mode) == (mode == RNDN || mode == RNDNA)
  {}

  /** The bits the test reads are those of the leading bits. */
  lemma BitsOf(tab: seq<Limb>, k: nat, n: nat)
    requires n >= 1
    ensures var size := |tab| * LIMB_BITS; var a := Leading(Val(tab), size, k);
            && (forall i :: 0 <= i < n ==> GetBit(tab, size - k + i) == Bit(a, i))
            && GetBit(tab, size - k + (n - 1)) == Bit(a, n - 1) <= 1
  {
    hide *;
    var size := |tab| * LIMB_BITS;
    var a := Leading(Val(tab), size, k);
    forall i | 0 <= i < n
      ensures GetBit(tab, size - k + i) == Bit(a, i)
    {
      GetBitIs(tab, size - k + i);
      LeadingBit(Val(tab), size, k, i);
    }
    BitIs01(a, n - 1);
  }

  /** The leading bits are the integer part on the scale of the error bound. */
  lemma LeadingFloor(v: nat, n: nat, k: nat)
    ensures var z, a := Rescale(v as real, k - n), Leading(v, n, k); a as real <= z < a as real + 1.0
  {
    if k < n {
      ScaledParts(v, n - k);
      assert k - n == -((n - k) as int);
    } else {
      RescaleInt(v, k - n);
      PowStep(2, 0);
    }
  }

  /** The value is at most one unit of 2^e away. */
  ghost predicate InReach(x: real, r: real, e: int)
  {
    x - Pow2(e) <= r <= x + Pow2(e)
  }

  /** The value is less than one unit away. */
  ghost predicate WithinUnit(x: real, r: real, e: int)
  {
    x - Pow2(e) < r < x + Pow2(e)
  }

  lemma UnitScaled(x: real, r: real, e: int)
    ensures r < x + Pow2(e) <==> Rescale(r, -e) < Rescale(x, -e) + 1.0
    ensures r <= x + Pow2(e) <==> Rescale(r, -e) <= Rescale(x, -e) + 1.0
    ensures x - Pow2(e) < r <==> Rescale(x, -e) - 1.0 < Rescale(r, -e)
    ensures x - Pow2(e) <= r <==> Rescale(x, -e) - 1.0 <= Rescale(r, -e)
    ensures WithinUnit(x, r, e) <==> Rescale(x, -e) - 1.0 < Rescale(r, -e) < Rescale(x, -e) + 1.0
  {
    UnitAdded(x, e);
    hide Pow2, Rescale;
    CompareScaled(r, x + Pow2(e), -e);
    CompareScaled(x + Pow2(e), r, -e);
    CompareScaled(r, x - Pow2(e), -e);
    CompareScaled(x - Pow2(e), r, -e);
  }

  lemma UnitAdded(x: real, e: int)
    ensures Rescale(x + Pow2(e), -e) == Rescale(x, -e) + 1.0
    ensures Rescale(x - Pow2(e), -e) == Rescale(x, -e) - 1.0
  {
    Pow2Add(e, -e);
    assert Pow2(0) == 1.0;
    hide Pow2;
    RealDistPlus(x, Pow2(e), Pow2(-e));
    RealDist(x, Pow2(e), Pow2(-e));
  }

  lemma RealDistPlus(a: real, b: real, c: real)
    ensures (a + b) * c == a * c + b * c
  {}

  lemma ReachIntro(tab: seq<Limb>, expn: int, prec: nat, n: nat, r: real)
    requires InReach(Magnitude(tab, expn), r, expn - (prec + n))
    ensures Pow(2, n) > 0
    ensures var a := Leading(Val(tab), |tab| * LIMB_BITS, prec + n);
            a / Pow(2, n) >= 0 &&
            Reach(Rescale(Magnitude(tab, expn), prec + n - expn), Rescale(r, prec + n - expn),
              a / Pow(2, n), Pow(2, n), a % Pow(2, n))
  {
    hide *;
    var k, size, x := prec + n, |tab| * LIMB_BITS, Magnitude(tab, expn);
    var a := Leading(Val(tab), size, k);
    PowPositive(2, n);
    DivModIdentity(a, Pow(2, n));
    InReachIs(x, r, expn - k);
    UnitScaled(x, r, expn - k);
    assert -(expn - k) == k - expn;
    MagnitudeScaled(tab, expn, k);
    LeadingFloor(Val(tab), size, k);
    ReachIs(Rescale(x, k - expn), Rescale(r, k - expn), a, Pow(2, n));
  }

  lemma InReachIs(x: real, r: real, e: int)
    ensures InReach(x, r, e) <==> x - Pow2(e) <= r <= x + Pow2(e)
    ensures WithinUnit(x, r, e) <==> x - Pow2(e) < r < x + Pow2(e)
  {}

  lemma ReachIs(z: real, w: real, a: nat, m: nat)
    requires m > 0 && a as real <= z < a as real + 1.0 && z - 1.0 <= w <= z + 1.0
    ensures a / m >= 0 && Reach(z, w, a / m, m, a % m)
  {
    DivModIdentity(a, m);
  }

  lemma NearIntro(tab: seq<Limb>, expn: int, prec: nat, n: nat, r: real)
    requires WithinUnit(Magnitude(tab, expn), r, expn - (prec + n))
    ensures Pow(2, n) > 0
    ensures var a := Leading(Val(tab), |tab| * LIMB_BITS, prec + n);
            a / Pow(2, n) >= 0 &&
            Near(Rescale(Magnitude(tab, expn), prec + n - expn), Rescale(r, prec + n - expn),
              a / Pow(2, n), Pow(2, n), a % Pow(2, n))
  {
    hide *;
    var k, x := prec + n, Magnitude(tab, expn);
    var a := Leading(Val(tab), |tab| * LIMB_BITS, k);
    InReachIs(x, r, expn - k);
    ReachIntro(tab, expn, prec, n, r);
    UnitScaled(x, r, expn - k);
    assert -(expn - k) == k - expn;
    NearIs(Rescale(x, k - expn), Rescale(r, k - expn), a / Pow(2, n), Pow(2, n), a % Pow(2, n));
  }

  lemma NearIs(z: real, w: real, q: nat, m: nat, t: nat)
    ensures Near(z, w, q, m, t) <==> Reach(z, w, q, m, t) && z - 1.0 < w < z + 1.0
  {
    hide Reach;
  }

  /** Halfway from an even integer to its upper neighbour. */
  predicate HalfAbove(z: real) { z.Floor % 2 == 0 && z == z.Floor as real + 0.5 }

  /** Halfway between two numbers of prec bits, the lower of which is even. */
  ghost predicate EvenMidpoint(prec: nat, r: real)
  {
    exists e :: HasExp(r, e) && HalfAbove(Rescale(r, prec - e))
  }

  /** A value that rounds downward although everything above it rounds further up. */
  ghost predicate TurnsUp(mode: Mode, neg: bool, prec: nat, r: real)
  {
    (AwayFromZero(mode, neg) && Representable(prec, r)) || (mode == RNDN && EvenMidpoint(prec, r))
  }

  lemma NeighbourTurnsUp(mode: Mode, neg: bool, prec: nat, r: real, e: int, q: nat)
    requires AwayFromZero(mode, neg) && q < Pow(2, prec) && Rescale(r, prec - e) == q as real
    ensures TurnsUp(mode, neg, prec, r)
  {
    hide AwayFromZero, Pow, Rescale, Scaled, EvenMidpoint;
    RescaleBack(r, prec - e);
    assert -(prec - e) == e - prec;
    ScaledIs(q, e - prec);
    assert r == Scaled(q, e - prec);
  }

  lemma MidpointTurnsUp(neg: bool, prec: nat, r: real, e: int)
    requires HasExp(r, e) && HalfAbove(Rescale(r, prec - e))
    ensures TurnsUp(RNDN, neg, prec, r)
  {
    hide HasExp, HalfAbove, Rescale, Representable;
  }

  /** Nothing above such a value rounds like it. */
  lemma TurnsUpDiffers(mode: Mode, neg: bool, prec: nat, r: real, x: real, y: real)
    requires prec >= 1 && TurnsUp(mode, neg, prec, r) && r < x
    ensures !(RoundsTo(mode, neg, prec, r, y) && RoundsTo(mode, neg, prec, x, y))
  {
    hide Representable, RoundsTo, AwayFromZero;
    if RoundsTo(mode, neg, prec, r, y) && RoundsTo(mode, neg, prec, x, y) {
      if AwayFromZero(mode, neg) && Representable(prec, r) {
        RoundUpLeast(mode, neg, prec, r, y, r);
        RoundUpLeast(mode, neg, prec, x, y, r);
        assert false;
      } else {
        MidpointLeaves(prec, neg, r, x, y);
      }
    }
  }

  lemma MidpointExp(prec: nat, r: real) returns (e: int)
    requires EvenMidpoint(prec, r)
    ensures HasExp(r, e) && HalfAbove(Rescale(r, prec - e))
  {
    hide HasExp, HalfAbove, Rescale;
    e :| HasExp(r, e) && HalfAbove(Rescale(r, prec - e));
  }

  lemma MidpointLeaves(prec: nat, neg: bool, r: real, x: real, y: real)
    requires prec >= 1 && EvenMidpoint(prec, r) && r < x
    ensures !(RoundsTo(RNDN, neg, prec, r, y) && RoundsTo(RNDN, neg, prec, x, y))
  {
    hide *;
    var e := MidpointExp(prec, r);
    var q := Rescale(r, prec - e).Floor;
    var k, v := prec - e, Scaled(q + 1, e - prec);
    HalfRounds(neg, Rescale(r, k));
    RoundsToIntro(RNDN, neg, prec, r, e, q);
    if RoundsTo(RNDN, neg, prec, r, y) && RoundsTo(RNDN, neg, prec, x, y) {
      RoundUnique(RNDN, neg, prec, r, y, Scaled(q, e - prec));
      ScaledBinade(r, e, prec);
      HalfBounds(Rescale(r, k), Pow(2, prec - 1), Pow(2, prec));
      UpperRepresentable(prec, q, e);
      RoundNearestClosest(RNDN, neg, prec, x, y, v);
      ScaledIs(q, e - prec);
      ScaledIs(q + 1, e - prec);
      assert -(e - prec) == k;
      Rounding.DistanceScaled(x, y, k);
      Rounding.DistanceScaled(x, v, k);
      CompareScaled(Rounding.Distance(x, y), Rounding.Distance(x, v), k);
      CompareScaled(x, r, k);
      BeyondHalf(Rescale(x, k), Rescale(r, k));
      assert false;
    }
  }

  lemma HalfRounds(neg: bool, z: real)
    requires HalfAbove(z)
    ensures RoundInt(RNDN, neg, z) == z.Floor
  {}

  lemma HalfBounds(z: real, lo: nat, hi: nat)
    requires HalfAbove(z) && lo as real <= z < hi as real
    ensures 0 <= z.Floor && z.Floor + 1 <= hi
  {}

  lemma UpperRepresentable(prec: nat, q: int, e: int)
    requires prec >= 1 && 0 <= q && q + 1 <= Pow(2, prec)
    ensures Representable(prec, Scaled(q + 1, e - prec))
  {
    hide Pow, Scaled;
    if q + 1 == Pow(2, prec) {
      PowerOfTwo(prec, e - prec);
    }
  }

  lemma BeyondHalf(z: real, h: real)
    requires HalfAbove(h) && z > h
    ensures Rounding.Distance(z, h.Floor as real) > Rounding.Distance(z, (h.Floor + 1) as real)
  {}

  /** Accepted by the test and at most one unit apart: both round to the same number unless the
      value lies a whole unit below and turns up. */
  lemma SameRounding(tab: seq<Limb>, expn: int, neg: bool, prec: nat, mode: Mode, k: nat, r: real) returns (y: real)
    requires TopSet(tab) && prec >= 1 && k >= prec + 2 && Pow(2, k - prec) > 0
    requires !Blocked(ToNearest(mode), Leading(Val(tab), |tab| * LIMB_BITS, k) % Pow(2, k - prec), k - prec)
    requires InReach(Magnitude(tab, expn), r, expn - k)
    requires !(r == Magnitude(tab, expn) - Pow2(expn - k) && TurnsUp(mode, neg, prec, r))
    ensures RoundsTo(mode, neg, prec, Magnitude(tab, expn), y) && RoundsTo(mode, neg, prec, r, y)
  {
    hide *;
    var n, x := k - prec, Magnitude(tab, expn);
    var a, m := Leading(Val(tab), |tab| * LIMB_BITS, k), Pow(2, n);
    var q, t := a / m, a % m;
    DivModIdentity(a, m);
    BlockedMeans(ToNearest(mode), t, n);
    MagnitudeExp(tab, expn);
    ReachIntro(tab, expn, prec, n, r);
    if ToNearest(mode) {
      if t + 2 <= Pow(2, n - 1) {
        y := NearestBelowSound(mode, neg, prec, n, x, r, expn, q, t);
      } else {
        NoEvenMidpoint(mode, neg, prec, n, x, r, expn, q, t);
        y := NearestAboveSound(mode, neg, prec, n, x, r, expn, q, t);
      }
    } else {
      NoNeighbour(mode, neg, prec, n, x, r, expn, q, t);
      y := DirectedSound(mode, neg, prec, n, x, r, expn, q, t);
    }
  }

  lemma UnitBelow(x: real, r: real, e: int, k: nat)
    requires Rescale(r, k - e) == Rescale(x, k - e) - 1.0
    ensures r == x - Pow2(e - k)
  {
    hide *;
    UnitScaled(x, r, e - k);
    assert -(e - k) == k - e;
  }

  lemma NoNeighbour(mode: Mode, neg: bool, prec: nat, n: nat, x: real, r: real, e: int, q: nat, t: nat)
    requires prec >= 1 && n >= 2 && HasExp(x, e) && 1 <= t && t + 2 <= Pow(2, n)
    requires Reach(Rescale(x, prec + n - e), Rescale(r, prec + n - e), q, Pow(2, n), t)
    requires !(r == x - Pow2(e - (prec + n)) && TurnsUp(mode, neg, prec, r))
    ensures Rescale(r, prec + n - e) == (q * Pow(2, n)) as real ==> !AwayFromZero(mode, neg)
  {
    hide *;
    var k, m := prec + n, Pow(2, n);
    var z, w := Rescale(x, k - e), Rescale(r, k - e);
    if w == (q * m) as real && AwayFromZero(mode, neg) {
      ReachDirected(z, w, q, m, t);
      UnitBelow(x, r, e, k);
      ExpScaled(x, e, k);
      ReachQuotient(z, w, q, t, prec, n);
      CoarserTo(r, prec - e, n);
      PowPositive(2, n);
      WholeDivided(Rescale(r, prec - e), q, m, w);
      NeighbourTurnsUp(mode, neg, prec, r, e, q);
      assert false;
    }
  }

  lemma WholeDivided(z: real, q: nat, m: nat, w: real)
    requires m > 0 && ScaledTo(z, m, w) && w == (q * m) as real
    ensures z == q as real
  {
    RealProducts(q, m);
    DivideOut(z, q as real, m as real);
  }

  lemma DivideOut(a: real, b: real, m: real)
    requires m > 0.0
    ensures a * m == b * m ==> a == b
  {
    assert (a - b) * m == a * m - b * m;
  }

  lemma NoEvenMidpoint(mode: Mode, neg: bool, prec: nat, n: nat, x: real, r: real, e: int, q: nat, t: nat)
    requires prec >= 1 && n >= 2 && HasExp(x, e) && t >= Pow(2, n - 1) + 1
    requires Reach(Rescale(x, prec + n - e), Rescale(r, prec + n - e), q, Pow(2, n), t)
    requires !(r == x - Pow2(e - (prec + n)) && TurnsUp(mode, neg, prec, r))
    ensures Rescale(r, prec + n - e) == (q * Pow(2, n) + Pow(2, n - 1)) as real ==> mode != RNDN || q % 2 != 0
  {
    hide *;
    var k, m, h := prec + n, Pow(2, n), Pow(2, n - 1);
    var z, w := Rescale(x, k - e), Rescale(r, k - e);
    if w == (q * m + h) as real && mode == RNDN && q % 2 == 0 {
      PowStep(2, n - 1);
      PowPositive(2, n - 1);
      ReachAbove(z, w, q, m, t, h);
      UnitBelow(x, r, e, k);
      ExpScaled(x, e, k);
      ReachQuotient(z, w, q, t, prec, n);
      MulDist(m, q, 1);
      InBinade(w, q, m, Pow(2, prec - 1), Pow(2, prec));
      ExpScaled(r, e, k);
      CoarserTo(r, prec - e, n);
      HalfDivided(Rescale(r, prec - e), q, m, h, w);
      MidpointTurnsUp(neg, prec, r, e);
      assert false;
    }
  }

  lemma HalfDivided(z: real, q: nat, m: nat, h: nat, w: real)
    requires m == 2 * h && h > 0 && ScaledTo(z, m, w) && w == (q * m + h) as real && q % 2 == 0
    ensures HalfAbove(z)
  {
    hide HalfAbove;
    RealProducts(q, m);
    RealDistPlus(q as real, 0.5, m as real);
    DivideOut(z, q as real + 0.5, m as real);
    HalfIs(z, q);
  }

  lemma HalfIs(z: real, q: int)
    requires z == q as real + 0.5 && q % 2 == 0
    ensures HalfAbove(z)
  {
    assert q as real < z < q as real + 1.0;
    FloorAt(z, q);
  }

  lemma FloorAt(z: real, q: int)
    requires q as real <= z < q as real + 1.0
    ensures z.Floor == q
  {}

  /** Exactly: when the test accepts the approximation x and the value r is at most one unit
      2^(EXP - k) away, both round to the same number, in every mode but faithful, unless r lies
      a whole unit below x and turns up. */
  lemma CanRoundExactly(tab: seq<Limb>, expn: int, neg: bool, prec: nat, mode: Mode, k: nat, r: real)
    requires TopSet(tab) && prec >= 1 && k >= prec + 2 && Pow(2, k - prec) > 0
    requires !Blocked(ToNearest(mode), Leading(Val(tab), |tab| * LIMB_BITS, k) % Pow(2, k - prec), k - prec)
    requires InReach(Magnitude(tab, expn), r, expn - k)
    ensures (exists y :: RoundsTo(mode, neg, prec, Magnitude(tab, expn), y) && RoundsTo(mode, neg, prec, r, y)) <==>
      !(r == Magnitude(tab, expn) - Pow2(expn - k) && TurnsUp(mode, neg, prec, r))
  {
    hide *;
    var x := Magnitude(tab, expn);
    if r == x - Pow2(expn - k) && TurnsUp(mode, neg, prec, r) {
      Pow2Pos(expn - k);
      forall y
        ensures !(RoundsTo(mode, neg, prec, x, y) && RoundsTo(mode, neg, prec, r, y))
      {
        TurnsUpDiffers(mode, neg, prec, r, x, y);
      }
    } else {
      var y := SameRounding(tab, expn, neg, prec, mode, k, r);
    }
  }

  /** So a strict bound is enough: the approximation and the value round to the same number. */
  lemma CanRoundSound(tab: seq<Limb>, expn: int, neg: bool, prec: nat, mode: Mode, k: nat, r: real) returns (y: real)
    requires TopSet(tab) && prec >= 1 && k >= prec + 2 && Pow(2, k - prec) > 0
    requires !Blocked(ToNearest(mode), Leading(Val(tab), |tab| * LIMB_BITS, k) % Pow(2, k - prec), k - prec)
    requires WithinUnit(Magnitude(tab, expn), r, expn - k)
    ensures RoundsTo(mode, neg, prec, Magnitude(tab, expn), y) && RoundsTo(mode, neg, prec, r, y)
  {
    hide *;
    InReachIs(Magnitude(tab, expn), r, expn - k);
    y := SameRounding(tab, expn, neg, prec, mode, k, r);
  }

  lemma BlockedMeans(nearest: bool, t: nat, n: nat)
    requires n >= 2 && t < Pow(2, n)
    ensures !Blocked(nearest, t, n) && nearest ==> t + 2 <= Pow(2, n - 1) || t >= Pow(2, n - 1) + 1
    ensures !Blocked(nearest, t, n) && !nearest ==> 1 <= t && t + 2 <= Pow(2, n)
  {
    hide Pow;
  }

  // ---- the loop ----

  /** What an approximating function returns for a working precision. */
  datatype Approx = Approx(tab: seq<Limb>, expn: int, exact: bool)

  /** The value itself, which may be zero (no limbs), or an approximation of x with an error
      below one unit of bit p. */
  ghost predicate Approximates(a: Approx, p: nat, x: real)
  {
    && (TopSet(a.tab) || (a.exact && a.tab == []))
    && if a.exact then Magnitude(a.tab, a.expn) == x else WithinUnit(Magnitude(a.tab, a.expn), x, a.expn - p)
  }

  /** ziv_extra_bits at the i-th try. */
  function Extra(i: nat): (n: nat)
    ensures n >= 32
  {
    PowPositive(2, i);
    32 * Pow(2, i)
  }

  /** The try with prec1 bits is not exact and does not allow to round. */
  ghost predicate Refused(a: Approx, prec: nat, mode: Mode, prec1: nat)
  {
    && !a.exact
    && (prec1 >= prec + 2 ==>
          Pow(2, prec1 - prec) > 0
            && Blocked(ToNearest(mode),
            Leading(Val(a.tab), |a.tab| * LIMB_BITS, prec1) % Pow(2, prec1 - prec), prec1 - prec))
  }

  /** Some try below `turns` is accepted. */
  ghost predicate Succeeds(f: nat -> Approx, prec: nat, mode: Mode, turns: nat)
  {
    exists i: nat :: i < turns && !Refused(f(prec + Extra(i)), prec, mode, prec + Extra(i))
  }

  /** bf_ziv_rounding: the working precision grows until the approximation is exact or can
      be rounded. `turns` bounds the number of tries: a result is found exactly when one of
      them is accepted, and it is x correctly rounded, whatever approximations f returns. */
  method ZivRounding(f: nat -> Approx, prec: nat, mode: Mode, neg: bool, turns: nat, ghost x: real)
      returns (found: bool, tab: seq<Limb>, expn: int)
    requires prec >= 1 && forall p: nat :: Approximates(f(p), p, x)
    ensures found <==> Succeeds(f, prec, mode, turns)
    ensures found && x == 0.0 ==> tab == []
    ensures found && x != 0.0 ==> TopSet(tab) && RoundsTo(mode, neg, prec, x, Magnitude(tab, expn))
  {
    hide *;
    var extra, i := 32, 0;
    ExtraIs(0);
    found, tab, expn := false, [], 0;
    while i < turns
      invariant 0 <= i && (i <= turns || turns == 0) && extra == Extra(i)
      invariant forall j: nat :: j < i ==> Refused(f(prec + Extra(j)), prec, mode, prec + Extra(j))
    {
      ExtraIs(i);
      var prec1 := prec + extra;
      var a := f(prec1);
      ApproximatesTop(a, prec1, x);
      ZeroApproximated(a, prec1, x);
      var ok := a.exact;
      if !ok {
        ok := CanRound(a.tab, prec, mode, prec1);
      }
      RefusedIs(a, prec, mode, prec1);
      if ok {
        SucceedsIntro(f, prec, mode, i, turns);
        if |a.tab| == 0 {
          return true, a.tab, a.expn;
        }
        var r := new Number(neg, a.expn, a.tab);
        ghost var y := r.Mag();
        r.MagIs();
        var _ := r.Round(prec, mode);
        r.MagIs();
        found, tab, expn := true, r.tab, r.expn;
        if !a.exact {
          ghost var y := CanRoundSound(a.tab, a.expn, neg, prec, mode, prec1, x);
          RoundUnique(mode, neg, prec, Magnitude(a.tab, a.expn), y, Magnitude(tab, expn));
        }
        return;
      }
      extra := extra * 2;
      i := i + 1;
    }
    NeverSucceeds(f, prec, mode, turns);
  }

  lemma ExtraIs(i: nat)
    ensures Extra(0) == 32 && Extra(i + 1) == Extra(i) * 2 && Extra(i) >= 32
  {
    PowStep(2, 0);
    PowStep(2, i);
  }

  lemma RefusedIs(a: Approx, prec: nat, mode: Mode, prec1: nat)
    requires prec1 >= prec + 2
    ensures Pow(2, prec1 - prec) > 0
    ensures Refused(a, prec, mode, prec1) <==>
            !a.exact && Blocked(ToNearest(mode),
              Leading(Val(a.tab), |a.tab| * LIMB_BITS, prec1) % Pow(2, prec1 - prec), prec1 - prec)
  {
    hide Blocked, Leading, Pow, Val;
    PowPositive(2, prec1 - prec);
  }

  lemma SucceedsIntro(f: nat -> Approx, prec: nat, mode: Mode, i: nat, turns: nat)
    requires i < turns && !Refused(f(prec + Extra(i)), prec, mode, prec + Extra(i))
    ensures Succeeds(f, prec, mode, turns)
  {
    hide Refused, Extra;
  }

  lemma NeverSucceeds(f: nat -> Approx, prec: nat, mode: Mode, turns: nat)
    requires forall j: nat :: j < turns ==> Refused(f(prec + Extra(j)), prec, mode, prec + Extra(j))
    ensures !Succeeds(f, prec, mode, turns)
  {
    hide Refused, Extra;
  }

  // ---- when the loop ends ----

  /** x on a scale where numbers of prec bits are the even integers, and midpoints between them
      the odd ones. */
  ghost function HalfUnits(x: real, prec: nat, e: int): (u: real) { Rescale(x, prec + 1 - e) }

  /** Where the rounding changes: at the numbers of prec bits, or at the midpoints. */
  ghost predicate Breakpoint(mode: Mode, prec: nat, x: real)
  {
    exists e :: HasExp(x, e) && OfParity(HalfUnits(x, prec, e), if ToNearest(mode) then 1 else 0)
  }

  predicate OfParity(u: real, par: int) { u == u.Floor as real && u.Floor % 2 == par }

  /** Less than two units of c away from j. */
  ghost predicate CloseTo(u: real, j: int, c: nat)
  {
    -2.0 < (u - j as real) * c as real < 2.0
  }

  predicate Within(w: real, X: int, d: real) { X as real - d < w < X as real + d }

  predicate JustAbove(w: real, X: int) { X as real <= w < X as real + 1.0 }

  predicate JustBelow(w: real, X: int) { X as real - 1.0 < w < X as real }

  predicate Between(w: real, X: int, Y: int) { X as real < w < Y as real }

  /** What the refusal says on the scale of the error bound: the value is within two of a
      multiple of m = 2h, or of h more than one. */
  lemma BlockedNear(nearest: bool, z: real, w: real, q: nat, m: nat, h: nat, t: nat, n: nat)
    requires n >= 1 && m == Pow(2, n) && h == Pow(2, n - 1) && Near(z, w, q, m, t) && Blocked(nearest, t, n)
    ensures nearest ==> Within(w, q * m + h, 2.0)
    ensures !nearest ==> Within(w, q * m, 2.0) || Within(w, (q + 1) * m, 2.0)
  {
    hide Pow;
    MulDist(m, q, 1);
  }

  /** The binade of a value within a unit of z, on the scale where that lies between 2^(k-1) and
      2^k: the same, or just across its end. */
  lemma NearbyExp(x: real, E: int, e: int, k: nat, z: real, q: nat, m: nat, t: nat)
    requires k >= 3 && Pow(2, k - 1) as real <= z < Pow(2, k) as real && HasExp(x, e)
      && Near(z, Rescale(x, k - E), q, m, t)
    ensures var w := Rescale(x, k - E);
            e == E || (e == E + 1 && JustAbove(w, Pow(2, k))) || (e == E - 1 && JustBelow(w, Pow(2, k - 1)))
  {
    hide HasExp, Rescale, Pow;
    var w := Rescale(x, k - E);
    assert z - 1.0 < w < z + 1.0;
    hide Near;
    WidePower(k - 2);
    WidePower(k - 1);
    PowStep(2, k);
    ExpScaled(x, E, k);
    ExpScaled(x, E + 1, k + 1);
    ExpScaled(x, E - 1, k - 1);
    assert k + 1 - (E + 1) == k - E && k - 1 - (E - 1) == k - E;
    if w >= Pow(2, k) as real {
      ExpUnique(x, e, E + 1);
    } else if w < Pow(2, k - 1) as real {
      ExpUnique(x, e, E - 1);
    } else {
      ExpUnique(x, e, E);
    }
  }

  /** From the scale of the error bound to half units. */
  lemma HalfUnitScale(x: real, prec: nat, n: nat, E: int)
    requires n >= 2
    ensures var w, c := Rescale(x, prec + n - E), Pow(2, n - 2);
            && ScaledTo(HalfUnits(x, prec, E), 2 * c, w)
            && ScaledTo(HalfUnits(x, prec, E + 1), 4 * c, w)
            && ScaledTo(HalfUnits(x, prec, E - 1), c, w)
  {
    hide Rescale, Pow;
    PowStep(2, n - 2);
    PowStep(2, n - 1);
    CoarserTo(x, prec + 1 - E, n - 1);
    CoarserTo(x, prec + 1 - (E + 1), n);
    CoarserTo(x, prec + 1 - (E - 1), n - 2);
    assert prec + 1 - E + (n - 1) == prec + n - E && prec + 1 - (E + 1) + n == prec + n - E
      && prec + 1 - (E - 1) + (n - 2) == prec + n - E;
  }

  lemma CloseFrom(u: real, j: int, c: nat, d: nat, w: real, X: int)
    requires ScaledTo(u, d * c, w) && d >= 1 && X == (j * d) * c && Within(w, X, 2.0)
    ensures CloseTo(u, j, c)
  {
    RealProducts(d, c);
    RealProducts(j * d, c);
    RealProducts(j, d);
    CloseReal(u, j as real, c as real, d as real, w, X as real);
  }

  lemma RealProducts(a: int, b: int)
    ensures (a * b) as real == a as real * b as real
  {}

  lemma CloseReal(u: real, j: real, c: real, d: real, w: real, X: real)
    requires u * (d * c) == w && X == (j * d) * c && X - 2.0 < w < X + 2.0 && d >= 1.0
    ensures -2.0 < (u - j) * c < 2.0
  {
    var v := (u - j) * c;
    DistanceScaled(u, j, c, d);
    ScaleUp(v, d);
  }

  lemma DistanceScaled(u: real, j: real, c: real, d: real)
    ensures ((u - j) * c) * d == u * (d * c) - (j * d) * c
  {
    assert (u - j) * c == u * c - j * c;
    assert (u * c) * d == u * (d * c) && (j * c) * d == (j * d) * c;
  }

  lemma ScaleUp(v: real, d: real)
    requires d >= 1.0
    ensures v >= 0.0 ==> v * d >= v
    ensures v <= 0.0 ==> v * d <= v
  {}

  /** The powers of the three scales. P = 2^(prec-1), c = 2^(n-2). */
  lemma RefusedPowers(prec: nat, n: nat)
    requires prec >= 1 && n >= 4
    ensures var c, P := Pow(2, n - 2), Pow(2, prec - 1);
            && c >= 4 && P >= 1 && Pow(2, n) == 4 * c && Pow(2, n - 1) == 2 * c
            && Pow(2, prec + n) == 2 * P * (4 * c) && Pow(2, prec + n - 1) == P * (4 * c)
  {
    hide *;
    PowStep(2, n - 1);
    PowStep(2, n - 2);
    WidePower(n - 3);
    PowPositive(2, prec - 1);
    PowAdd(2, prec, n);
    PowAdd(2, prec - 1, n);
    PowStep(2, prec - 1);
  }

  /** The three binades the value can lie in, d apart from that of the approximation.
      P = 2^(prec-1), m = 4c. */
  ghost predicate Placed(u: real, w: real, c: nat, P: nat, d: int)
  {
    || (d == 0 && ScaledTo(u, 2 * c, w))
    || (d == 1 && ScaledTo(u, 4 * c, w) && JustAbove(w, 2 * P * (4 * c)))
    || (d == -1 && ScaledTo(u, c, w) && JustBelow(w, P * (4 * c)))
  }

  lemma PlaceOf(prec: nat, n: nat, E: int, x: real, e: int, z: real, q: nat, t: nat)
    requires prec >= 1 && n >= 4 && HasExp(x, e) && Near(z, Rescale(x, prec + n - E), q, Pow(2, n), t)
    requires Pow(2, prec + n - 1) as real <= z < Pow(2, prec + n) as real
    ensures Placed(HalfUnits(x, prec, e), Rescale(x, prec + n - E), Pow(2, n - 2), Pow(2, prec - 1), e - E)
  {
    hide *;
    RefusedPowers(prec, n);
    NearbyExp(x, E, e, prec + n, z, q, Pow(2, n), t);
    HalfUnitScale(x, prec, n, E);
    PlacedIntro(HalfUnits(x, prec, e), Rescale(x, prec + n - E), Pow(2, n - 2), Pow(2, prec - 1), e - E);
  }

  lemma PlacedIntro(u: real, w: real, c: nat, P: nat, d: int)
    ensures d == 0 && ScaledTo(u, 2 * c, w) ==> Placed(u, w, c, P, d)
    ensures d == 1 && ScaledTo(u, 4 * c, w) && JustAbove(w, 2 * P * (4 * c)) ==> Placed(u, w, c, P, d)
    ensures d == -1 && ScaledTo(u, c, w) && JustBelow(w, P * (4 * c)) ==> Placed(u, w, c, P, d)
  {
    hide ScaledTo, JustAbove, JustBelow;
  }

  /** A refused try puts the value close to a breakpoint: within 2^(3-n). */
  lemma RefusedClose(tab: seq<Limb>, E: int, prec: nat, mode: Mode, n: nat, x: real, e: int) returns (j: int)
    requires TopSet(tab) && prec >= 1 && n >= 4 && HasExp(x, e) && WithinUnit(Magnitude(tab, E), x, E - (prec + n))
      && Pow(2, n) > 0
    requires Blocked(ToNearest(mode), Leading(Val(tab), |tab| * LIMB_BITS, prec + n) % Pow(2, n), n)
    ensures j % 2 == (if ToNearest(mode) then 1 else 0) && CloseTo(HalfUnits(x, prec, e), j, Pow(2, n - 2))
  {
    hide *;
    var k, A, a := prec + n, Magnitude(tab, E), Leading(Val(tab), |tab| * LIMB_BITS, prec + n);
    NearIntro(tab, E, prec, n, x);
    MagnitudeExp(tab, E);
    ExpScaled(A, E, k);
    j := RefusedNear(ToNearest(mode), prec, n, E, x, e, Rescale(A, k - E), a / Pow(2, n), a % Pow(2, n));
  }

  lemma RefusedNear(nearest: bool, prec: nat, n: nat, E: int, x: real, e: int, z: real, q: nat, t: nat) returns (j: int)
    requires prec >= 1 && n >= 4 && HasExp(x, e) && Near(z, Rescale(x, prec + n - E), q, Pow(2, n), t)
      && Blocked(nearest, t, n)
    requires Pow(2, prec + n - 1) as real <= z < Pow(2, prec + n) as real
    ensures j % 2 == (if nearest then 1 else 0) && CloseTo(HalfUnits(x, prec, e), j, Pow(2, n - 2))
  {
    hide *;
    var w := Rescale(x, prec + n - E);
    RefusedPowers(prec, n);
    PlaceOf(prec, n, E, x, e, z, q, t);
    BlockedNear(nearest, z, w, q, Pow(2, n), Pow(2, n - 1), t, n);
    if nearest {
      j := NearestCases(HalfUnits(x, prec, e), w, q, Pow(2, n - 2), Pow(2, prec - 1), e - E);
    } else if Within(w, q * Pow(2, n), 2.0) {
      j := DirectedCases(HalfUnits(x, prec, e), w, q, Pow(2, n - 2), Pow(2, prec - 1), e - E);
    } else {
      j := DirectedCases(HalfUnits(x, prec, e), w, q + 1, Pow(2, n - 2), Pow(2, prec - 1), e - E);
    }
  }

  lemma NearestCases(u: real, w: real, q: nat, c: nat, P: nat, d: int) returns (j: int)
    requires c >= 4 && P >= 1 && Placed(u, w, c, P, d) && Within(w, q * (4 * c) + 2 * c, 2.0)
    ensures j % 2 == 1 && CloseTo(u, j, c)
  {
    hide ScaledTo, CloseTo;
    j := 2 * q + 1;
    FarFromMiddle(w, q, c, 2 * P);
    FarFromMiddle(w, q, c, P);
    MiddlePoly(q, c);
    hide Within, JustAbove, JustBelow;
    CloseFrom(u, j, c, 2, w, q * (4 * c) + 2 * c);
  }

  lemma MiddlePoly(q: int, c: int)
    ensures q * (4 * c) + 2 * c == ((2 * q + 1) * 2) * c
  {}

  lemma DirectedCases(u: real, w: real, Q: nat, c: nat, P: nat, d: int) returns (j: int)
    requires c >= 4 && P >= 1 && Placed(u, w, c, P, d) && Within(w, Q * (4 * c), 2.0)
    ensures j % 2 == 0 && CloseTo(u, j, c)
  {
    hide ScaledTo, CloseTo, Within, JustAbove, JustBelow;
    EvenPoly(Q, P, c);
    AboveWithin(w, 2 * P * (4 * c));
    if d == 0 {
      j := 2 * Q;
      CloseFrom(u, j, c, 2, w, Q * (4 * c));
    } else if d == 1 {
      j := 2 * P;
      CloseFrom(u, j, c, 4, w, 2 * P * (4 * c));
    } else {
      j := 4 * Q;
      CloseFrom(u, j, c, 1, w, Q * (4 * c));
    }
  }

  lemma AboveWithin(w: real, X: int)
    ensures JustAbove(w, X) ==> Within(w, X, 2.0)
  {}

  lemma EvenPoly(Q: int, P: int, c: int)
    ensures Q * (4 * c) == ((2 * Q) * 2) * c && 2 * P * (4 * c) == ((2 * P) * 4) * c && Q * (4 * c) == ((4 * Q) * 1) * c
  {}

  lemma FarFromMiddle(w: real, q: nat, c: nat, M: nat)
    requires c >= 4
    ensures Within(w, q * (4 * c) + 2 * c, 2.0) ==> !JustAbove(w, M * (4 * c)) && !JustBelow(w, M * (4 * c))
  {
    Multiples(q, M, 4 * c);
  }

  lemma Multiples(a: int, b: int, m: int)
    requires m >= 0
    ensures a <= b - 1 ==> a * m <= b * m - m
    ensures a >= b + 1 ==> a * m >= b * m + m
    ensures a == b ==> a * m == b * m
  {
    if a <= b - 1 {
      MulMono(a + 1, b, m);
      MulDist(m, a, 1);
    } else if a >= b + 1 {
      MulMono(b + 1, a, m);
      MulDist(m, b, 1);
    }
  }

  /** A real that is no integer of a parity keeps a distance from all of them. */
  lemma Distance(u: real, par: int) returns (d: real)
    requires 0 <= par <= 1 && !OfParity(u, par)
    ensures d > 0.0 && forall j: int :: j % 2 == par ==> Apart(u, j, d)
  {
    var f := u.Floor;
    var l, r := u - f as real, (f + 1) as real - u;
    d := if f % 2 == par && l < r then l else r;
    forall j: int | j % 2 == par
      ensures Apart(u, j, d)
    {
      DistanceAt(u, par, j, d);
    }
  }

  predicate Apart(u: real, j: int, d: real) { u - j as real >= d || j as real - u >= d }

  lemma DistanceAt(u: real, par: int, j: int, d: real)
    requires 0 <= par <= 1 && !OfParity(u, par) && j % 2 == par
    requires var f := u.Floor; var l, r := u - f as real, (f + 1) as real - u;
      d == if f % 2 == par && l < r then l else r
    ensures Apart(u, j, d)
  {
    var f := u.Floor;
    assert f as real <= u < (f + 1) as real;
    if j < f {
      assert j as real <= f as real - 1.0;
    } else if j > f {
      assert j as real >= (f + 1) as real;
    }
  }

  lemma {:induction false} PowGrows(n: nat)
    ensures Pow(2, n) > n
  {
    if n > 0 {
      PowGrows(n - 1);
    }
  }

  /** c units of d are more than two. */
  ghost predicate Exceeds(c: nat, d: real) { Times(c as real, d) > 2.0 }

  ghost function Times(x: real, y: real): (z: real) { x * y }

  lemma TimesMore(a: real, b: real, d: real)
    requires d > 0.0
    ensures a < b ==> Times(a, d) < Times(b, d)
    ensures a <= b ==> Times(a, d) <= Times(b, d)
  {
    if a < b {
      RealStrict(a, b, d);
    }
  }

  lemma Archimedes(d: real) returns (N: nat)
    requires d > 0.0
    ensures Exceeds(N, d)
  {
    hide Times;
    var r := 2.0 / d;
    TwoOver(d, r);
    N := FloorAbove(r);
    TimesMore(r, N as real, d);
  }

  lemma FloorAbove(r: real) returns (N: nat)
    requires r > 0.0
    ensures N as real > r
  {
    N := r.Floor + 1;
  }

  lemma TwoOver(d: real, r: real)
    requires d > 0.0 && r == 2.0 / d
    ensures Times(r, d) == 2.0 && r > 0.0
  {}

  lemma ExceedsMore(c: nat, c': nat, d: real)
    requires c <= c' && d > 0.0 && Exceeds(c, d)
    ensures Exceeds(c', d)
  {
    hide Times;
    TimesMore(c as real, c' as real, d);
  }

  /** Powers outgrow any distance. */
  lemma FineEnough(d: real) returns (i: nat)
    requires d > 0.0
    ensures Extra(i) >= 4 && Exceeds(Pow(2, Extra(i) - 2), d)
  {
    hide Pow, Exceeds;
    i := Archimedes(d);
    PowGrows(i);
    assert Extra(i) == 32 * Pow(2, i);
    PowGrows(Extra(i) - 2);
    hide Extra;
    ExceedsMore(i, Pow(2, Extra(i) - 2), d);
  }

  lemma HasExpOf(a: Approx, p: nat, x: real) returns (e: int)
    requires Approximates(a, p, x) && !a.exact && p >= 3
    ensures HasExp(x, e)
  {
    hide *;
    ApproximatesTop(a, p, x);
    var E, A := a.expn, Magnitude(a.tab, a.expn);
    MagnitudeExp(a.tab, E);
    ExpScaled(A, E, p);
    var z, w := Rescale(A, p - E), Rescale(x, p - E);
    UnitScaled(A, x, E - p);
    assert -(E - p) == p - E;
    PowStep(2, p - 2);
    PowStep(2, p - 1);
    PowStep(2, p);
    WidePower(p - 2);
    ExpScaled(x, E, p);
    ExpScaled(x, E + 1, p + 1);
    ExpScaled(x, E - 1, p - 1);
    assert p + 1 - (E + 1) == p - E && p - 1 - (E - 1) == p - E;
    e := if w >= Pow(2, p) as real then E + 1 else if w < Pow(2, p - 1) as real then E - 1 else E;
  }

  lemma NotBreakpoint(mode: Mode, prec: nat, x: real, e: int)
    requires !Breakpoint(mode, prec, x) && HasExp(x, e)
    ensures !OfParity(HalfUnits(x, prec, e), if ToNearest(mode) then 1 else 0)
  {
    hide HasExp, HalfUnits, OfParity, ToNearest;
  }

  /** Unless x is a breakpoint, enough tries succeed. */
  lemma ZivStops(f: nat -> Approx, prec: nat, mode: Mode, x: real) returns (turns: nat)
    requires prec >= 1 && (forall p: nat :: Approximates(f(p), p, x)) && !Breakpoint(mode, prec, x)
    ensures Succeeds(f, prec, mode, turns)
  {
    hide *;
    ExtraIs(0);
    var a0, p0 := f(prec + Extra(0)), prec + Extra(0);
    if a0.exact {
      turns := 1;
      ExactAccepted(a0, prec, mode, p0);
      SucceedsIntro(f, prec, mode, 0, 1);
    } else {
      var e := HasExpOf(a0, p0, x);
      NotBreakpoint(mode, prec, x, e);
      var d := Distance(HalfUnits(x, prec, e), if ToNearest(mode) then 1 else 0);
      var i := FineEnough(d);
      turns := i + 1;
      AcceptedAt(f(prec + Extra(i)), prec, mode, Extra(i), x, e, d);
      SucceedsIntro(f, prec, mode, i, turns);
    }
  }

  lemma AcceptedAt(a: Approx, prec: nat, mode: Mode, n: nat, x: real, e: int, d: real)
    requires prec >= 1 && n >= 4 && Approximates(a, prec + n, x) && HasExp(x, e) && d > 0.0 && Exceeds(Pow(2, n - 2), d)
    requires forall j: int :: j % 2 == (if ToNearest(mode) then 1 else 0) ==> Apart(HalfUnits(x, prec, e), j, d)
    ensures !Refused(a, prec, mode, prec + n)
  {
    hide *;
    RefusedIs(a, prec, mode, prec + n);
    ApproximatesTop(a, prec + n, x);
    if Refused(a, prec, mode, prec + n) {
      var j := RefusedClose(a.tab, a.expn, prec, mode, n, x, e);
      TooClose(HalfUnits(x, prec, e), j, Pow(2, n - 2), d);
      assert false;
    }
  }

  lemma ExactAccepted(a: Approx, prec: nat, mode: Mode, p: nat)
    requires a.exact
    ensures !Refused(a, prec, mode, p)
  {}

  lemma TooClose(u: real, j: int, c: nat, d: real)
    requires d > 0.0 && Exceeds(c, d) && CloseTo(u, j, c)
    ensures !Apart(u, j, d)
  {
    hide Times, CloseTo;
    CloseIs(u, j, c);
    var v := u - j as real;
    TimesSwap(c as real, d);
    if c > 0 {
      TimesMore(d, v, c as real);
      TimesMore(d, -v, c as real);
      Negated(v, c as real);
    } else {
      TimesNone(d);
    }
  }

  lemma CloseIs(u: real, j: int, c: nat)
    requires CloseTo(u, j, c)
    ensures -2.0 < Times(u - j as real, c as real) < 2.0
  {}

  lemma TimesSwap(c: real, d: real)
    ensures Times(c, d) == Times(d, c)
  {}

  lemma TimesNone(d: real)
    ensures Times(0.0, d) == 0.0
  {}

  lemma Negated(v: real, c: real)
    ensures Times(-v, c) == -Times(v, c)
  {}

  // ---- when it does not ----

  /** Directed modes: an accepted try shows that x is no number of prec bits. */
  lemma AcceptedDirected(prec: nat, n: nat, E: int, x: real, e: int, z: real, q: nat, t: nat)
    requires prec >= 1 && n >= 4 && HasExp(x, e) && Near(z, Rescale(x, prec + n - E), q, Pow(2, n), t)
      && !Blocked(false, t, n)
    requires Pow(2, prec + n - 1) as real <= z < Pow(2, prec + n) as real
    ensures !OfParity(HalfUnits(x, prec, e), 0)
  {
    hide *;
    var w := Rescale(x, prec + n - E);
    RefusedPowers(prec, n);
    UnblockedDirected(z, w, q, Pow(2, n), t, n);
    NearIs(z, w, q, Pow(2, n), t);
    ReachQuotient(z, w, q, t, prec, n);
    PlaceOf(prec, n, E, x, e, z, q, t);
    WithinBinade(w, q, Pow(2, n), Pow(2, prec - 1), Pow(2, prec));
    PowStep(2, prec - 1);
    NotEven(HalfUnits(x, prec, e), w, q, Pow(2, n - 2), Pow(2, prec - 1), e - E);
  }

  lemma UnblockedDirected(z: real, w: real, q: nat, m: nat, t: nat, n: nat)
    requires n >= 2 && m == Pow(2, n) && Near(z, w, q, m, t) && !Blocked(false, t, n)
    ensures Between(w, q * m, (q + 1) * m)
  {
    hide Pow, Blocked;
    BlockedMeans(false, t, n);
    ReachDirected(z, w, q, m, t);
  }

  lemma WithinBinade(w: real, q: nat, m: nat, lo: nat, hi: nat)
    requires lo <= q < hi && Between(w, q * m, (q + 1) * m)
    ensures !JustAbove(w, hi * m) && !JustBelow(w, lo * m)
  {
    MulMono(lo, q, m);
    MulMono(q + 1, hi, m);
  }

  lemma NotEven(u: real, w: real, q: nat, c: nat, P: nat, d: int)
    requires c >= 1 && Placed(u, w, c, P, d) && !JustAbove(w, 2 * P * (4 * c)) && !JustBelow(w, P * (4 * c))
    requires Between(w, q * (4 * c), (q + 1) * (4 * c))
    ensures !OfParity(u, 0)
  {
    hide JustAbove, JustBelow;
    assert ScaledTo(u, 2 * c, w);
    hide Placed;
    if OfParity(u, 0) {
      var g := u.Floor / 2;
      WholeScaled(u, 2 * g, 2 * c, w);
      assert (2 * g) * (2 * c) == g * (4 * c);
      MulCancelLt(q, g, 4 * c);
      MulCancelLt(g, q + 1, 4 * c);
      assert false;
    }
  }

  lemma WholeScaled(u: real, g: int, m: int, w: real)
    requires ScaledTo(u, m, w) && u == g as real
    ensures w == (g * m) as real
  {
    RealProducts(g, m);
  }

  /** Nearest modes: an accepted try shows that x is no midpoint. */
  lemma AcceptedNearest(prec: nat, n: nat, E: int, x: real, e: int, z: real, q: nat, t: nat)
    requires prec >= 1 && n >= 4 && HasExp(x, e) && Near(z, Rescale(x, prec + n - E), q, Pow(2, n), t)
      && !Blocked(true, t, n)
    requires Pow(2, prec + n - 1) as real <= z < Pow(2, prec + n) as real
    ensures !OfParity(HalfUnits(x, prec, e), 1)
  {
    hide *;
    var w := Rescale(x, prec + n - E);
    RefusedPowers(prec, n);
    UnblockedNearest(z, w, q, Pow(2, n), Pow(2, n - 1), t, n);
    PlaceOf(prec, n, E, x, e, z, q, t);
    NotMiddle(HalfUnits(x, prec, e), w, q, Pow(2, n - 2), Pow(2, prec - 1), e - E);
  }

  /** Off the middle between q*m and the next multiple, though perhaps just outside. */
  predicate OffMiddle(w: real, q: int, m: int, h: int)
  {
    ((q * m) as real - 1.0 < w < (q * m + h) as real) || ((q * m + h) as real < w < (q * m + m) as real + 1.0)
  }

  lemma UnblockedNearest(z: real, w: real, q: nat, m: nat, h: nat, t: nat, n: nat)
    requires n >= 2 && m == Pow(2, n) && h == Pow(2, n - 1) && m == 2 * h && Near(z, w, q, m, t) && !Blocked(true, t, n)
    ensures OffMiddle(w, q, m, h)
  {
    hide Pow, Blocked;
    BlockedMeans(true, t, n);
    MulDist(m, q, 1);
    if t + 2 <= h {
      ReachBelow(z, w, q, m, t, h);
    } else {
      ReachAbove(z, w, q, m, t, h);
    }
  }

  lemma NotMiddle(u: real, w: real, q: nat, c: nat, P: nat, d: int)
    requires c >= 4 && Placed(u, w, c, P, d) && OffMiddle(w, q, 4 * c, 2 * c)
    ensures !OfParity(u, 1)
  {
    if OfParity(u, 1) {
      var g := u.Floor / 2;
      assert u == (2 * g + 1) as real && P * (4 * c) == (4 * P) * c;
      hide OfParity, OffMiddle, JustAbove, JustBelow, ScaledTo;
      if d == 0 {
        WholeScaled(u, 2 * g + 1, 2 * c, w);
        OddMiddle(g, q, c, w);
      } else if d == 1 {
        WholeScaled(u, 2 * g + 1, 4 * c, w);
        OddAbove(2 * g + 1, 2 * P, 4 * c, w);
      } else {
        WholeScaled(u, 2 * g + 1, c, w);
        OddBelow(2 * g + 1, 4 * P, c, w);
      }
      assert false;
    }
  }

  /** Odd multiples stay away from where the value lies. */
  lemma OddMiddle(g: int, q: int, c: int, w: real)
    requires c >= 4 && w == ((2 * g + 1) * (2 * c)) as real
    ensures !OffMiddle(w, q, 4 * c, 2 * c)
  {
    assert (2 * g + 1) * (2 * c) == g * (4 * c) + 2 * c;
    Multiples(g, q, 4 * c);
  }

  lemma OddAbove(a: int, M: int, m: int, w: real)
    requires m >= 4 && w == (a * m) as real && a != M
    ensures !JustAbove(w, M * m)
  {
    Multiples(a, M, m);
  }

  lemma OddBelow(a: int, M: int, m: int, w: real)
    requires m >= 4 && w == (a * m) as real
    ensures !JustBelow(w, M * m)
  {
    Multiples(a, M, m);
  }

  lemma BreakpointExp(mode: Mode, prec: nat, x: real) returns (e: int)
    requires Breakpoint(mode, prec, x)
    ensures HasExp(x, e) && OfParity(HalfUnits(x, prec, e), if ToNearest(mode) then 1 else 0)
  {
    hide HasExp, OfParity, HalfUnits, ToNearest;
    e :| HasExp(x, e) && OfParity(HalfUnits(x, prec, e), if ToNearest(mode) then 1 else 0);
  }

  /** At a breakpoint no try is accepted unless it is exact. */
  lemma RefusedAtBreakpoint(a: Approx, prec: nat, mode: Mode, n: nat, x: real)
    requires prec >= 1 && n >= 4 && Approximates(a, prec + n, x) && !a.exact && Breakpoint(mode, prec, x)
    ensures Refused(a, prec, mode, prec + n)
  {
    hide *;
    var e := BreakpointExp(mode, prec, x);
    ApproximatesTop(a, prec + n, x);
    RefusedIs(a, prec, mode, prec + n);
    var E, A := a.expn, Magnitude(a.tab, a.expn);
    var v := Leading(Val(a.tab), |a.tab| * LIMB_BITS, prec + n);
    NearIntro(a.tab, E, prec, n, x);
    MagnitudeExp(a.tab, E);
    ExpScaled(A, E, prec + n);
    var z, q, t := Rescale(A, prec + n - E), v / Pow(2, n), v % Pow(2, n);
    if !Blocked(ToNearest(mode), t, n) {
      if ToNearest(mode) {
        AcceptedNearest(prec, n, E, x, e, z, q, t);
      } else {
        AcceptedDirected(prec, n, E, x, e, z, q, t);
      }
      assert false;
    }
  }

  /** Exactly: some number of tries is enough if and only if x is no breakpoint or some try is
      exact. */
  lemma ZivStopsExactly(f: nat -> Approx, prec: nat, mode: Mode, x: real)
    requires prec >= 1 && forall p: nat :: Approximates(f(p), p, x)
    ensures (exists turns: nat :: Succeeds(f, prec, mode, turns)) <==>
      !Breakpoint(mode, prec, x) || exists i: nat :: f(prec + Extra(i)).exact
  {
    hide *;
    if !Breakpoint(mode, prec, x) {
      var turns := ZivStops(f, prec, mode, x);
    } else if i: nat :| f(prec + Extra(i)).exact {
      ExactAccepted(f(prec + Extra(i)), prec, mode, prec + Extra(i));
      SucceedsIntro(f, prec, mode, i, i + 1);
    } else {
      forall turns: nat
        ensures !Succeeds(f, prec, mode, turns)
      {
        forall j: nat | j < turns
          ensures Refused(f(prec + Extra(j)), prec, mode, prec + Extra(j))
        {
          ExtraIs(j);
          assert !f(prec + Extra(j)).exact;
          RefusedAtBreakpoint(f(prec + Extra(j)), prec, mode, Extra(j), x);
        }
        NeverSucceeds(f, prec, mode, turns);
      }
    }
  }

  lemma ApproximatesTop(a: Approx, p: nat, x: real)
    requires Approximates(a, p, x)
    ensures |a.tab| > 0 ==> TopSet(a.tab)
    ensures a.exact ==> Magnitude(a.tab, a.expn) == x
    ensures !a.exact ==> TopSet(a.tab) && WithinUnit(Magnitude(a.tab, a.expn), x, a.expn - p)
  {
    hide Magnitude, WithinUnit;
  }

  /** Only zero is approximated by no limbs. */
  lemma ZeroApproximated(a: Approx, p: nat, x: real)
    requires Approximates(a, p, x) && p >= 1
    ensures x == 0.0 <==> a.tab == []
  {
    hide *;
    ApproximatesTop(a, p, x);
    if |a.tab| == 0 {
      NoLimbs(a.tab, a.expn);
      NotTop(a.tab);
    } else {
      MagnitudeExp(a.tab, a.expn);
      ExpPositive(Magnitude(a.tab, a.expn), a.expn);
      if !a.exact {
        NearPositive(Magnitude(a.tab, a.expn), x, a.expn, p);
      }
    }
  }

  lemma NoLimbs(tab: seq<Limb>, expn: int)
    requires |tab| == 0
    ensures Magnitude(tab, expn) == 0.0
  {}

  lemma NotTop(tab: seq<Limb>)
    ensures TopSet(tab) ==> |tab| > 0
  {}

  lemma ExpPositive(x: real, e: int)
    requires HasExp(x, e)
    ensures x > 0.0
  {
    Pow2Pos(e - 1);
  }

  lemma NearPositive(z: real, x: real, e: int, p: nat)
    requires HasExp(z, e) && WithinUnit(z, x, e - p) && p >= 1
    ensures x > 0.0
  {
    Pow2Mono(e - p, e - 1);
  }

  // ---- the bound must be strict ----

  /** With an error of exactly one unit the test is not sound: 5/8 may be rounded to one bit
      away from zero according to the test, but 1/2, one unit below, rounds differently. */
  lemma StrictBoundNeeded() returns (tab: seq<Limb>, r: real, y: real, y': real)
    ensures TopSet(tab) && Pow(2, 2) > 0 && !Blocked(false, Leading(Val(tab), |tab| * LIMB_BITS, 3) % Pow(2, 2), 2)
    ensures Magnitude(tab, 0) - r == Pow2(-3)
    ensures RoundsTo(RNDA, false, 1, Magnitude(tab, 0), y) && RoundsTo(RNDA, false, 1, r, y') && y != y'
  {
    var p := Pow(2, LIMB_BITS - 3);
    EighthOfBase(p);
    tab := [5 * p];
    ValOne(5 * p);
    assert Val(tab) == 5 * p && |tab| * LIMB_BITS == LIMB_BITS;
    assert Leading(Val(tab), LIMB_BITS, 3) == 5 by { DivModIs(5 * p, p, 5, 0); }
    PowStep(2, 0);
    PowStep(2, 1);
    assert Pow(2, 2) == 4 && Pow(2, 1) == 2;
    SmallPowers();
    assert Magnitude(tab, 0) == 0.625 by {
      RescaleShift(5, LIMB_BITS - 3, -(LIMB_BITS as int));
      assert (5 * p) as real == (5 * Pow(2, LIMB_BITS - 3)) as real;
    }
    r, y, y' := 0.5, 1.0, 0.5;
    assert HasExp(0.625, 0) && HasExp(0.5, 0);
    assert Rescale(0.625, 1) == 1.25 && Rescale(0.5, 1) == 1.0;
    RoundsToIntro(RNDA, false, 1, 0.625, 0, 2);
    RoundsToIntro(RNDA, false, 1, 0.5, 0, 1);
  }

  lemma SmallPowers()
    ensures Pow2(0) == 1.0 && Pow2(1) == 2.0 && Pow2(-1) == 0.5 && Pow2(-2) == 0.25 && Pow2(-3) == 0.125
  {
    assert Pow2(0) == 1.0;
    assert Pow2(-1) == 0.5;
    assert Pow2(-2) == 0.25;
  }

  lemma EighthOfBase(p: nat)
    requires p == Pow(2, LIMB_BITS - 3)
    ensures B == 8 * p && HALF == 4 * p && p >= 1
  {
    PowAdd(2, LIMB_BITS - 3, 3);
    PowAdd(2, LIMB_BITS - 3, 2);
    PowPositive(2, LIMB_BITS - 3);
    PowStep(2, 0);
    PowStep(2, 1);
    PowStep(2, 2);
  }
}
