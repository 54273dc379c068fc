/** Correct rounding of magnitudes to a number of bits, as IEEE 754 defines it, with
    an unbounded exponent. The modes are those of cpp/src/quickjs/libbf.h except
    faithful rounding. */
module Rounding {
  import opened Powers

  datatype Mode = RNDN | RNDZ | RNDD | RNDU | RNDNA | RNDA

  // ---- powers of two as reals ----

  ghost function Pow2(e: int): (r: real)
    decreases if e < 0 then -e else e
  {
    if e == 0 then 1.0 else if e > 0 then 2.0 * Pow2(e - 1) else Pow2(e + 1) / 2.0
  }

  lemma {:induction false} Pow2Pos(e: int)
    ensures Pow2(e) > 0.0
    decreases if e < 0 then -e else e
  {
    if e > 0 {
      Pow2Pos(e - 1);
    } else if e < 0 {
      Pow2Pos(e + 1);
    }
  }

  lemma Pow2Next(e: int)
    ensures Pow2(e + 1) == 2.0 * Pow2(e)
  {}

  lemma {:induction false} Pow2Add(a: int, b: int)
    ensures Pow2(a + b) == Pow2(a) * Pow2(b)
    decreases if b < 0 then -b else b
  {
    if b > 0 {
      Pow2Add(a, b - 1);
      Pow2Next(a + b - 1);
      Pow2Next(b - 1);
      RealAssoc(Pow2(a), Pow2(b - 1));
    } else if b < 0 {
      Pow2Add(a, b + 1);
      Pow2Next(a + b);
      Pow2Next(b);
      RealAssoc(Pow2(a), Pow2(b));
    }
  }

  lemma RealAssoc(x: real, y: real)
    ensures x * (2.0 * y) == 2.0 * (x * y)
  {}

  lemma {:induction false} Pow2Mono(a: int, b: int)
    requires a <= b
    ensures Pow2(a) <= Pow2(b)
    decreases b - a
  {
    if a < b {
      Pow2Mono(a, b - 1);
      Pow2Next(b - 1);
      Pow2Pos(b - 1);
    }
  }

  lemma {:induction false} Pow2IsPow(n: nat)
    ensures Pow2(n) == Pow(2, n) as real
    decreases n
  {
    if n > 0 {
      Pow2IsPow(n - 1);
    }
  }

  // ---- rounding ----

  /** x in the binade below 2^e. */
  ghost predicate HasExp(x: real, e: int)
  {
    Pow2(e - 1) <= x < Pow2(e)
  }

  lemma ExpUnique(x: real, e: int, e': int)
    requires HasExp(x, e) && HasExp(x, e')
    ensures e == e'
  {
    if e < e' {
      Pow2Mono(e, e' - 1);
    } else if e' < e {
      Pow2Mono(e', e - 1);
    }
  }

  /** Whether the magnitude q + f, 0 <= f < 1, is rounded up to q + 1. */
  ghost predicate RoundsUp(mode: Mode, neg: bool, q: int, f: real)
  {
    match mode
    case RNDZ => false
    case RNDA => f > 0.0
    case RNDD => f > 0.0 && neg
    case RNDU => f > 0.0 && !neg
    case RNDN => f > 0.5 || (f == 0.5 && q % 2 == 1)
    case RNDNA => f >= 0.5
  }

  ghost function RoundInt(mode: Mode, neg: bool, z: real): (n: int)
  {
    var q := z.Floor;
    if RoundsUp(mode, neg, q, z - q as real) then q + 1 else q
  }

  /** y is the magnitude x of sign neg, rounded to prec bits. */
  ghost predicate RoundsTo(mode: Mode, neg: bool, prec: nat, x: real, y: real)
  {
    exists e :: HasExp(x, e) && y == Scaled(RoundInt(mode, neg, Rescale(x, prec - e)), e - prec)
  }

  ghost function Scaled(n: int, e: int): (r: real) { n as real * Pow2(e) }

  ghost function Rescale(x: real, e: int): (r: real) { x * Pow2(e) }

  lemma RoundUnique(mode: Mode, neg: bool, prec: nat, x: real, y: real, y': real)
    requires RoundsTo(mode, neg, prec, x, y) && RoundsTo(mode, neg, prec, x, y')
    ensures y == y'
  {
    hide Scaled, Rescale, RoundInt;
    var e :| HasExp(x, e) && y == Scaled(RoundInt(mode, neg, Rescale(x, prec - e)), e - prec);
    var e' :| HasExp(x, e') && y' == Scaled(RoundInt(mode, neg, Rescale(x, prec - e')), e' - prec);
    ExpUnique(x, e, e');
  }

  /** Numbers with prec significant bits. */
  ghost predicate Representable(prec: nat, w: real)
  {
    exists m: nat, e: int :: m < Pow(2, prec) && w == Scaled(m, e)
  }

  lemma RescaleBack(x: real, e: int)
    ensures Rescale(Rescale(x, e), -e) == x
  {
    Pow2Add(e, -e);
    assert Pow2(0) == 1.0;
    Cancel(x, Pow2(e), Pow2(-e));
  }

  lemma Cancel(x: real, p: real, q: real)
    requires p * q == 1.0
    ensures (x * p) * q == x
  {
    assert (x * p) * q == x * (p * q);
  }

  lemma RescaleTwice(x: real, a: int, b: int)
    ensures Rescale(Rescale(x, a), b) == Rescale(x, a + b)
  {
    Pow2Add(a, b);
    RealAssoc3(x, Pow2(a), Pow2(b));
  }

  lemma RealAssoc3(x: real, y: real, z: real)
    ensures (x * y) * z == x * (y * z)
  {}

  lemma RescaleMono(a: real, b: real, e: int)
    requires a <= b
    ensures Rescale(a, e) <= Rescale(b, e)
  {
    Pow2Pos(e);
    RealMono(a, b, Pow2(e));
  }

  lemma RescaleStrict(a: real, b: real, e: int)
    requires a < b
    ensures Rescale(a, e) < Rescale(b, e)
  {
    Pow2Pos(e);
    RealStrict(a, b, Pow2(e));
  }

  lemma RealMono(a: real, b: real, c: real)
    requires a <= b && c > 0.0
    ensures a * c <= b * c
  {}

  lemma RealStrict(a: real, b: real, c: real)
    requires a < b && c > 0.0
    ensures a * c < b * c
  {}

  lemma PowRescaled(e: int, k: int)
    requires e + k >= 0
    ensures Rescale(Pow2(e), k) == Pow(2, e + k) as real
  {
    Pow2Add(e, k);
    Pow2IsPow(e + k);
  }

  /** The scaled magnitude lies in the binade below 2^prec. */
  lemma ScaledBinade(x: real, e: int, prec: nat)
    requires HasExp(x, e) && prec >= 1
    ensures Pow(2, prec - 1) as real <= Rescale(x, prec - e) < Pow(2, prec) as real
  {
    hide Rescale, Pow2, Pow;
    PowRescaled(e - 1, prec - e);
    PowRescaled(e, prec - e);
    RescaleMono(Pow2(e - 1), x, prec - e);
    RescaleStrict(x, Pow2(e), prec - e);
  }

  predicate IsInt(r: real) { r == r.Floor as real }

  /** On the scale of the last bit of a magnitude below 2^e, a representable number is an
      integer or lies below the binade. */
  lemma RepresentableScaled(prec: nat, w: real, e: int)
    requires prec >= 1 && Representable(prec, w)
    ensures IsInt(Rescale(w, prec - e)) || Rescale(w, prec - e) < Pow(2, prec - 1) as real
  {
    hide Pow2, Pow;
    var m: nat, e': int :| m < Pow(2, prec) && w == Scaled(m, e');
    var k := e' + (prec - e);
    assert w == Rescale(m as real, e');
    hide Rescale, Scaled;
    RescaleTwice(m as real, e', prec - e);
    IntegerOrBelow(m, prec, k);
  }

  lemma IntegerOrBelow(m: nat, prec: nat, k: int)
    requires prec >= 1 && m < Pow(2, prec)
    ensures IsInt(Rescale(m as real, k)) || Rescale(m as real, k) < Pow(2, prec - 1) as real
  {
    hide Pow2, Pow, Rescale;
    if k >= 0 {
      RescaleInt(m, k);
    } else {
      PowRescaled(prec, -1);
      RescaleStrict(m as real, Pow(2, prec) as real, -1);
      RescaleDown(m, k);
      Pow2IsPow(prec);
    }
  }

  lemma RescaleInt(m: nat, k: nat)
    ensures Rescale(m as real, k) == (m * Pow(2, k)) as real
  {
    Pow2IsPow(k);
  }

  lemma RescaleDown(m: nat, k: int)
    requires k < 0
    ensures Rescale(m as real, k) <= Rescale(m as real, -1)
  {
    hide Pow2;
    Pow2Mono(k, -1);
    if m > 0 {
      RealMono(Pow2(k), Pow2(-1), m as real);
    }
  }

  ghost predicate TowardZero(mode: Mode, neg: bool)
  {
    mode == RNDZ || (mode == RNDD && !neg) || (mode == RNDU && neg)
  }

  ghost predicate AwayFromZero(mode: Mode, neg: bool)
  {
    mode == RNDA || (mode == RNDD && neg) || (mode == RNDU && !neg)
  }

  /** Comparing on the scale of the last bit is comparing. */
  lemma CompareScaled(a: real, b: real, k: int)
    ensures Rescale(a, k) <= Rescale(b, k) <==> a <= b
  {
    hide Rescale;
    if a <= b {
      RescaleMono(a, b, k);
    } else {
      RescaleStrict(b, a, k);
    }
  }

  lemma ScaledIs(n: int, e: int)
    ensures Scaled(n, e) == Rescale(n as real, e) && Rescale(Scaled(n, e), -e) == n as real
  {
    RescaleBack(n as real, e);
  }

  /** The rounded magnitude on the scale of the last bit. */
  lemma RoundScaled(mode: Mode, neg: bool, prec: nat, x: real, y: real) returns (e: int)
    requires RoundsTo(mode, neg, prec, x, y)
    ensures HasExp(x, e) && Rescale(y, prec - e) == RoundInt(mode, neg, Rescale(x, prec - e)) as real
  {
    hide Scaled, Rescale, RoundInt;
    e :| HasExp(x, e) && y == Scaled(RoundInt(mode, neg, Rescale(x, prec - e)), e - prec);
    ScaledIs(RoundInt(mode, neg, Rescale(x, prec - e)), e - prec);
    assert -(e - prec) == prec - e;
  }

  /** Integers and numbers below the binade, against the scaled magnitude z. */
  lemma FloorGreatest(z: real, v: real, low: int)
    requires low as real <= z && (IsInt(v) || v < low as real)
    ensures v <= z ==> v <= z.Floor as real
    ensures z <= v && !IsInt(z) ==> z.Floor as real + 1.0 <= v
  {
    var q := z.Floor;
    FloorAbove(low, z);
    if IsInt(v) {
      var n := v.Floor;
      if v <= z {
        FloorAbove(n, z);
      } else if q >= n {
        assert false;
      }
    }
  }

  lemma FloorAbove(n: int, z: real)
    requires n as real <= z
    ensures n <= z.Floor
  {}

  /** Toward zero: the greatest representable number not above x. */
  lemma RoundDownGreatest(mode: Mode, neg: bool, prec: nat, x: real, y: real, w: real)
    requires prec >= 1 && RoundsTo(mode, neg, prec, x, y) && TowardZero(mode, neg) && Representable(prec, w)
    ensures y <= x && (w <= x ==> w <= y)
  {
    hide Scaled, Rescale, Representable, Pow2, Pow, HasExp, RoundsTo;
    var e := RoundScaled(mode, neg, prec, x, y);
    var k := prec - e;
    ScaledBinade(x, e, prec);
    RepresentableScaled(prec, w, e);
    FloorGreatest(Rescale(x, k), Rescale(w, k), Pow(2, prec - 1));
    CompareScaled(w, x, k);
    CompareScaled(w, y, k);
    CompareScaled(y, x, k);
  }

  /** Away from zero: the least representable number not below x. */
  lemma RoundUpLeast(mode: Mode, neg: bool, prec: nat, x: real, y: real, w: real)
    requires prec >= 1 && RoundsTo(mode, neg, prec, x, y) && AwayFromZero(mode, neg) && Representable(prec, w)
    ensures x <= y && (x <= w ==> y <= w)
  {
    hide Scaled, Rescale, Representable, Pow2, Pow, HasExp, RoundsTo;
    var e := RoundScaled(mode, neg, prec, x, y);
    var k := prec - e;
    ScaledBinade(x, e, prec);
    RepresentableScaled(prec, w, e);
    FloorGreatest(Rescale(x, k), Rescale(w, k), Pow(2, prec - 1));
    CompareScaled(x, w, k);
    CompareScaled(y, w, k);
    CompareScaled(x, y, k);
  }

  ghost function Distance(x: real, y: real): (d: real) { if x <= y then y - x else x - y }

  lemma DistanceScaled(x: real, y: real, k: int)
    ensures Rescale(Distance(x, y), k) == Distance(Rescale(x, k), Rescale(y, k))
  {
    CompareScaled(x, y, k);
    assert Rescale(y - x, k) == Rescale(y, k) - Rescale(x, k);
    assert Rescale(x - y, k) == Rescale(x, k) - Rescale(y, k);
  }

  lemma NearestInt(mode: Mode, neg: bool, z: real, v: real, low: int)
    requires mode == RNDN || mode == RNDNA
    requires low as real <= z && (IsInt(v) || v < low as real)
    ensures Distance(z, RoundInt(mode, neg, z) as real) <= Distance(z, v)
  {
    FloorGreatest(z, v, low);
  }

  /** To nearest: no representable number is closer. */
  lemma RoundNearestClosest(mode: Mode, neg: bool, prec: nat, x: real, y: real, w: real)
    requires prec >= 1 && RoundsTo(mode, neg, prec, x, y) && (mode == RNDN || mode == RNDNA) && Representable(prec, w)
    ensures Distance(x, y) <= Distance(x, w)
  {
    hide Scaled, Rescale, Representable, Pow2, Pow, HasExp, RoundsTo, RoundInt, Distance;
    var e := RoundScaled(mode, neg, prec, x, y);
    var k := prec - e;
    ScaledBinade(x, e, prec);
    RepresentableScaled(prec, w, e);
    NearestInt(mode, neg, Rescale(x, k), Rescale(w, k), Pow(2, prec - 1));
    DistanceScaled(x, y, k);
    DistanceScaled(x, w, k);
    CompareScaled(Distance(x, y), Distance(x, w), k);
  }

  /** The result is representable. */
  lemma RoundRepresentable(mode: Mode, neg: bool, prec: nat, x: real, y: real)
    requires prec >= 1 && RoundsTo(mode, neg, prec, x, y)
    ensures Representable(prec, y)
  {
    hide Rescale, Pow2, Pow, HasExp, Scaled;
    var e :| HasExp(x, e) && y == Scaled(RoundInt(mode, neg, Rescale(x, prec - e)), e - prec);
    ScaledBinade(x, e, prec);
    var n := RoundInt(mode, neg, Rescale(x, prec - e));
    assert 0 <= n <= Pow(2, prec);
    if n == Pow(2, prec) {
      PowerOfTwo(prec, e - prec);
    }
  }

  lemma PowerOfTwo(prec: nat, e: int)
    requires prec >= 1
    ensures Representable(prec, Scaled(Pow(2, prec), e))
  {
    PowStep(2, prec - 1);
    PowMono(2, 1, prec);
    Pow2Next(e);
    hide Pow2, Pow;
    var m := Pow(2, prec - 1);
    PowPositive(2, prec - 1);
    assert Scaled(Pow(2, prec), e) == Scaled(m, e + 1) by { TwoOut(m as real, Pow2(e)); }
    assert m < Pow(2, prec);
  }

  lemma TwoOut(x: real, p: real)
    ensures (2.0 * x) * p == x * (2.0 * p)
  {}
}
