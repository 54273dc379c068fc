/** Rounding of floating point numbers held in limbs (cpp/src/quickjs/libbf.c,
    bf_get_rnd_add, __bf_round), with an unbounded exponent. */
module BfRound {
  import opened Powers
  import opened Limbs
  import opened Bits
  import opened Rounding

  /** Whether v, its s low bits dropped, is rounded up. */
  ghost predicate IntUp(mode: Mode, neg: bool, v: nat, s: nat)
    requires s >= 1
  {
    var q, r, h := v / Pow(2, s), v % Pow(2, s), Pow(2, s - 1);
    match mode
    case RNDZ => false
    case RNDA => r > 0
    case RNDD => r > 0 && neg
    case RNDU => r > 0 && !neg
    case RNDN => r > h || (r == h && q % 2 == 1)
    case RNDNA => r >= h
  }

  ghost function IntRound(mode: Mode, neg: bool, v: nat, s: nat): (n: nat)
    requires s >= 1
  {
    v / Pow(2, s) + if IntUp(mode, neg, v, s) then 1 else 0
  }

  /** v scaled down by 2^s has v / 2^s as integer part and v % 2^s over 2^s as fraction. */
  lemma ScaledParts(v: nat, s: nat)
    requires s >= 1
    ensures var z, p := Rescale(v as real, -(s as int)), Pow(2, s);
            && p > 0 && z.Floor == v / p
            && (z - (v / p) as real) * p as real == (v % p) as real
            && p == 2 * Pow(2, s - 1)
  {
    var z, p := Rescale(v as real, -(s as int)), Pow(2, s);
    PowStep(2, s - 1);
    PowPositive(2, s);
    Pow2IsPow(s);
    RescaleBack(v as real, -(s as int));
    assert z * p as real == v as real;
    hide *;
    DivModIdentity(v, p);
    FloorOf(z, p, v / p, v % p);
  }

  lemma FloorOf(z: real, p: nat, q: nat, r: nat)
    requires p > 0 && z * p as real == (q * p + r) as real && r < p
    ensures z.Floor == q && (z - q as real) * p as real == r as real
  {
    var f := z - q as real;
    assert f * p as real == r as real by { RealDist(z, q as real, p as real); }
    FractionBounds(f, p as real, r as real);
    assert 0.0 <= f < 1.0;
  }

  lemma RealDist(a: real, b: real, c: real)
    ensures (a - b) * c == a * c - b * c
  {}

  lemma FractionBounds(f: real, p: real, r: real)
    requires p > 0.0 && f * p == r && 0.0 <= r < p
    ensures 0.0 <= f < 1.0
  {
    if f < 0.0 {
      RealStrict(f, 0.0, p);
      assert false;
    } else if f >= 1.0 {
      RealMono(1.0, f, p);
      assert false;
    }
  }

  /** A fraction f = r / (2h) against zero and one half. */
  lemma FractionCompare(f: real, r: real, h: real)
    requires h > 0.0 && f * (2.0 * h) == r
    ensures (f > 0.0 <==> r > 0.0) && (f > 0.5 <==> r > h) && (f == 0.5 <==> r == h)
  {
    var d := f - 0.5;
    assert d * (2.0 * h) == r - h by { RealDist(f, 0.5, 2.0 * h); }
    SignOf(f, 2.0 * h);
    SignOf(d, 2.0 * h);
  }

  lemma SignOf(f: real, p: real)
    requires p > 0.0
    ensures (f > 0.0 <==> f * p > 0.0) && (f == 0.0 <==> f * p == 0.0)
  {
    if f > 0.0 {
      RealStrict(0.0, f, p);
    } else if f < 0.0 {
      RealStrict(f, 0.0, p);
    }
  }

  /** Rounding a magnitude on integers is rounding it. */
  lemma IntRoundIs(mode: Mode, neg: bool, v: nat, s: nat)
    requires s >= 1
    ensures RoundInt(mode, neg, Rescale(v as real, -(s as int))) == IntRound(mode, neg, v, s)
  {
    hide Rescale, Pow;
    ScaledParts(v, s);
    var z, h := Rescale(v as real, -(s as int)), Pow(2, s - 1);
    var q, r := v / Pow(2, s), v % Pow(2, s);
    FractionCompare(z - q as real, r as real, h as real);
  }

  /** Bits of v below and at position s - 1 decide. */
  lemma RoundBits(v: nat, s: nat)
    requires s >= 1
    ensures Pow(2, s) > 0 && Pow(2, s - 1) > 0
    ensures v % Pow(2, s) == Bit(v, s - 1) * Pow(2, s - 1) + v % Pow(2, s - 1)
    ensures v % Pow(2, s - 1) < Pow(2, s - 1)
    ensures Bit(v, s) == (v / Pow(2, s)) % 2
  {
    PowStep(2, s - 1);
    PowStep(2, 0);
    PowPositive(2, s);
    PowPositive(2, s - 1);
    DivPow(v, s - 1, 1);
  }

  /** bf_get_rnd_add, by the bit after the precision, whether any lower bit is set, and the
      last bit kept. */
  function RndAdd(mode: Mode, neg: bool, bit1: nat, bit0: bool, last: nat): (add: bool)
  {
    var inexact := bit1 == 1 || bit0;
    match mode
    case RNDZ => false
    case RNDN => bit1 == 1 && (bit0 || last == 1)
    case RNDD => neg && inexact
    case RNDU => !neg && inexact
    case RNDA => inexact
    case RNDNA => bit1 == 1
  }

  lemma RndAddIs(mode: Mode, neg: bool, v: nat, s: nat)
    requires s >= 1
    ensures Pow(2, s - 1) > 0 && Pow(2, s) > 0
    ensures RndAdd(mode, neg, Bit(v, s - 1), v % Pow(2, s - 1) != 0, Bit(v, s)) == IntUp(mode, neg, v, s)
    ensures (Bit(v, s - 1) == 1 || v % Pow(2, s - 1) != 0) <==> v % Pow(2, s) != 0
  {
    hide Pow, Bit;
    RoundBits(v, s);
    BitIs01(v, s - 1);
  }

  lemma BitIs01(v: nat, pos: int)
    ensures Bit(v, pos) == 0 || Bit(v, pos) == 1
  {}

  // ---- limbs ----

  /** A modulus that divides the base sees only the lowest limb. */
  lemma LowBits(s: seq<Limb>, p: nat)
    requires |s| > 0 && p <= LIMB_BITS
    ensures Pow(2, p) > 0 && Val(s) % Pow(2, p) == s[0] % Pow(2, p)
  {
    hide *;
    SplitBase(p);
    ValHead(s);
    BasePositive();
    LowPart(Val(s), Pow(2, p), Pow(2, LIMB_BITS - p));
  }

  /** scan_bit_nz: whether a bit from 0 to bitPos is set. */
  method ScanBitNz(tab: seq<Limb>, bitPos: int) returns (nz: bool)
    requires bitPos < |tab| * LIMB_BITS
    ensures bitPos < 0 ==> !nz
    ensures bitPos >= 0 ==> Pow(2, bitPos + 1) > 0 && (nz <==> Val(tab) % Pow(2, bitPos + 1) != 0)
  {
    hide *;
    NegativePos(bitPos);
    var pos := bitPos / LIMB_BITS;
    if pos < 0 {
      return false;
    }
    ScanParts(tab, bitPos);
    var p := bitPos % LIMB_BITS + 1;
    var v := tab[pos] % Pow(2, p);
    if v != 0 {
      return true;
    }
    ghost var low := tab[..pos];
    pos := pos - 1;
    while pos >= 0
      invariant -1 <= pos < |low| && low == tab[..|low|]
      invariant forall j :: pos < j < |low| ==> tab[j] == 0
    {
      if tab[pos] != 0 {
        assert low[pos] != 0;
        NonzeroLimb(low, pos);
        return true;
      }
      pos := pos - 1;
    }
    ValZeros(low);
    return false;
  }

  lemma NonzeroLimb(s: seq<Limb>, i: nat)
    requires i < |s| && s[i] != 0
    ensures Val(s) != 0
  {
    if Val(s) == 0 {
      ValZeroLimbs(s);
      assert false;
    }
  }

  lemma ScanParts(tab: seq<Limb>, bitPos: nat)
    requires bitPos < |tab| * LIMB_BITS
    ensures var pos, p := bitPos / LIMB_BITS, bitPos % LIMB_BITS + 1;
            && 0 <= pos < |tab| && 1 <= p <= LIMB_BITS && Pow(2, p) > 0 && Pow(2, bitPos + 1) > 0
            && (Val(tab) % Pow(2, bitPos + 1) != 0 <==> tab[pos] % Pow(2, p) != 0 || Val(tab[..pos]) != 0)
  {
    hide *;
    var pos, p := bitPos / LIMB_BITS, bitPos % LIMB_BITS + 1;
    PosSplit(bitPos);
    assert pos < |tab| by { LimbIndex(bitPos, pos, |tab|); }
    BasePow(pos);
    PowAdd(2, pos * LIMB_BITS, p);
    assert Pow(2, bitPos + 1) == Pow(B, pos) * Pow(2, p);
    PowPositive(2, p);
    BasePositive();
    PowPositive(B, pos);
    ValDrop(tab, pos);
    LowBits(tab[pos..], p);
    DivDiv(Val(tab), Pow(B, pos), Pow(2, p));
    NonzeroSum(tab[pos] % Pow(2, p), Pow(B, pos), Val(tab[..pos]));
  }

  lemma LimbIndex(bitPos: nat, pos: nat, n: nat)
    requires bitPos >= pos * LIMB_BITS && bitPos < n * LIMB_BITS
    ensures pos < n
  {
    if pos >= n {
      MulMono(n, pos, LIMB_BITS);
      assert false;
    }
  }

  lemma NonzeroSum(x: nat, b: nat, y: nat)
    requires b > 0
    ensures x * b + y != 0 <==> x != 0 || y != 0
  {
    if x > 0 {
      MulMono(1, x, b);
    }
  }

  /** Adds c at limb pos; the carry says whether it left the number. */
  method AddAt(tab: seq<Limb>, pos: nat, c: Limb) returns (t: seq<Limb>, carry: bool)
    requires pos < |tab|
    ensures |t| == |tab|
    ensures Val(t[pos..]) + (if carry then Pow(B, |tab| - pos) else 0) == Val(tab[pos..]) + c
  {
    hide *;
    BasePositive();
    t := tab;
    var i, k: Limb := pos, c;
    ValNil([]);
    assert tab[pos..pos] == [];
    PowStep(B, 0);
    while i < |t| && k != 0
      invariant pos <= i <= |t| == |tab| && t[i..] == tab[i..]
      invariant Val(t[pos..i]) + Pow(B, i - pos) * k == Val(tab[pos..i]) + c
      invariant i > pos ==> k <= 1
      decreases |t| - i
    {
      var v := AddW(t[i], k);
      var k' := if v < k then 1 else 0;
      AddWord(t[i], k);
      ghost var t0 := t;
      t := t[i := v];
      assert t[pos..i] == t0[pos..i];
      ValGrow(t, pos, i);
      ValGrow(tab, pos, i);
      PowStep(B, i - pos);
      AddChain(Pow(B, i - pos), B, v, k', tab[i], k);
      k := k';
      i := i + 1;
    }
    carry := k != 0;
    assert t[pos..] == t[pos..i] + t[i..] && tab[pos..] == tab[pos..i] + tab[i..];
    ValConcat(t[pos..i], t[i..]);
    ValConcat(tab[pos..i], tab[i..]);
  }

  lemma AddWord(x: Limb, k: Limb)
    ensures var v := AddW(x, k); v + B * (if v < k then 1 else 0) == x + k
  {}

  lemma AddChain(p: int, b: int, v: int, k': int, x: int, k: int)
    requires v + b * k' == x + k
    ensures p * v + (b * p) * k' == p * x + p * k
  {
    assert p * (v + b * k') == p * v + (b * p) * k';
    MulDist(p, x, k);
  }

  /** Shifts the limbs from pos up right by one bit, a one coming in at the top. */
  method ShiftInOne(tab: seq<Limb>, pos: nat) returns (t: seq<Limb>)
    requires pos < |tab|
    ensures |t| == |tab|
    ensures Val(t[pos..]) == Val(tab[pos..]) / 2 + HALF * Pow(B, |tab| - pos - 1)
  {
    hide *;
    BasePositive();
    BaseFacts();
    t := tab;
    var i, v: Limb := |tab|, 1;
    ValNil([]);
    assert tab[i..] == [];
    PowStep(B, 0);
    ghost var l := |tab|;
    while i > pos
      invariant pos <= i <= |tab| == |t| == l && t[..i] == tab[..i]
      invariant 2 * Val(t[i..]) + v % 2 == Val(tab[i..]) + Pow(B, l - i)
      invariant if i == l then v == 1 else v == tab[i]
    {
      i := i - 1;
      var a := tab[i];
      var x: Limb := Halve(a, v);
      HalveIs(a, v);
      t := t[i := x];
      assert t[i..] == [x] + t[i + 1..] && tab[i..] == [a] + tab[i + 1..];
      ValPrepend(x, t[i + 1..]);
      ValPrepend(a, tab[i + 1..]);
      PowStep(B, l - i - 1);
      HalveChain(B, Pow(B, l - i - 1), Val(t[i + 1..]), Val(tab[i + 1..]), v % 2, x, a);
      v := a;
    }
    PowStep(B, l - pos - 1);
    LowBit(tab, pos);
    HalveEnd(Val(t[pos..]), v % 2, Val(tab[pos..]), HALF, Pow(B, l - pos - 1));
  }

  /** (a >> 1) | (v << (LIMB_BITS - 1)). */
  function Halve(a: Limb, v: Limb): (x: Limb)
  {
    HalveFits(a);
    a / 2 + if v % 2 == 1 then HALF else 0
  }

  lemma HalveFits(a: Limb)
    ensures 0 <= a / 2 && a / 2 + HALF < B
  {
    hide *;
    BaseFacts();
  }

  lemma HalveIs(a: Limb, v: Limb)
    ensures 2 * Halve(a, v) + a % 2 == a + (v % 2) * B
  {
    BaseFacts();
    assert Halve(a, v) == a / 2 + if v % 2 == 1 then HALF else 0;
    hide *;
  }

  lemma ValPrepend(x: Limb, s: seq<Limb>)
    ensures Val([x] + s) == x + B * Val(s)
  {
    assert ([x] + s)[1..] == s;
  }

  lemma HalveChain(b: int, p: int, u: int, w: int, m: int, x: int, a: int)
    requires 2 * u + m == w + p && 2 * x + a % 2 == a + m * b
    ensures 2 * (x + b * u) + a % 2 == (a + b * w) + b * p
  {
    assert b * (2 * u + m) == b * (w + p);
    MulDist(b, 2 * u, m);
    MulDist(b, w, p);
    assert b * (2 * u) == 2 * (b * u);
  }

  lemma HalveEnd(u: int, m: int, w: int, h: int, p: int)
    requires 2 * u + m == w + (2 * h) * p && 0 <= m <= 1
    ensures w % 2 == m ==> u == w / 2 + h * p
  {
    assert (2 * h) * p == 2 * (h * p);
  }

  lemma LowBit(tab: seq<Limb>, pos: nat)
    requires pos < |tab|
    ensures Val(tab[pos..]) % 2 == tab[pos] % 2
  {
    PowStep(2, 0);
    LowBits(tab[pos..], 1);
  }

  /** Clears the p low bits of the limb at pos. */
  lemma Masked(tab: seq<Limb>, t: seq<Limb>, pos: nat, p: nat)
    requires pos < |tab| && p < LIMB_BITS && Pow(2, p) > 0 && 0 <= tab[pos] - tab[pos] % Pow(2, p) < B
    requires t == tab[pos := tab[pos] - tab[pos] % Pow(2, p)]
    ensures |t| == |tab| && Val(t[pos..]) == Val(tab[pos..]) - Val(tab[pos..]) % Pow(2, p)
  {
    hide *;
    var x := tab[pos] - tab[pos] % Pow(2, p);
    assert t[pos..] == [x] + tab[pos + 1..] && tab[pos..] == [tab[pos]] + tab[pos + 1..];
    ValPrepend(x, tab[pos + 1..]);
    ValPrepend(tab[pos], tab[pos + 1..]);
    LowBits(tab[pos..], p);
  }

  lemma MaskFits(x: Limb, m: nat)
    requires m > 0
    ensures 0 <= x - x % m < B
  {
    DivModIdentity(x, m);
    MulMono(0, x / m, m);
  }

  /** Drops zero limbs at the low end. */
  method Strip(tab: seq<Limb>, from: nat) returns (t: seq<Limb>)
    requires from < |tab| && Val(tab[from..]) != 0
    ensures 0 < |t| <= |tab| - from && t == tab[|tab| - |t|..] && t[0] != 0
    ensures Val(tab[from..]) == Val(t) * Pow(B, |tab| - from - |t|)
  {
    hide *;
    var i := from;
    assert tab[from..from] == [];
    ValNil([]);
    ValZeros(tab[from..i]);
    StripValue(tab, from, i);
    while tab[i] == 0
      invariant from <= i < |tab| && Val(tab[from..]) == Val(tab[i..]) * Pow(B, i - from)
      invariant forall j :: from <= j < i ==> tab[j] == 0
      decreases |tab| - i
    {
      if i + 1 == |tab| {
        AllZero(tab, from);
      }
      i := i + 1;
      StripValue(tab, from, i);
    }
    t := tab[i..];
  }

  lemma StripValue(tab: seq<Limb>, from: nat, i: nat)
    requires from <= i <= |tab| && forall j :: from <= j < i ==> tab[j] == 0
    ensures Val(tab[from..]) == Val(tab[i..]) * Pow(B, i - from)
  {
    hide *;
    assert tab[from..] == tab[from..i] + tab[i..];
    ValConcat(tab[from..i], tab[i..]);
    ValZeros(tab[from..i]);
    MulSwap(Pow(B, i - from), Val(tab[i..]));
  }

  lemma AllZero(tab: seq<Limb>, from: nat)
    requires from <= |tab| && forall j :: from <= j < |tab| ==> tab[j] == 0
    ensures Val(tab[from..]) == 0
  {
    hide *;
    ValZeros(tab[from..]);
  }

  // ---- magnitudes ----

  /** 0.tab times 2^expn. */
  ghost function Magnitude(tab: seq<Limb>, expn: int): (x: real)
  {
    Rescale(Val(tab) as real, expn - |tab| * LIMB_BITS)
  }

  /** The top bit is set. */
  ghost predicate TopSet(tab: seq<Limb>)
  {
    |tab| > 0 && tab[|tab| - 1] >= HALF
  }

  lemma TopLimb(tab: seq<Limb>)
    requires |tab| > 0
    ensures TopSet(tab) <==> Val(tab) >= HALF * Pow(B, |tab| - 1)
  {
    var n := |tab| - 1;
    BasePositive();
    PowPositive(B, n);
    hide HALF, Pow, Val, B;
    assert tab[0..] == tab && tab[0..n + 1] == tab;
    ValGrow(tab, 0, n);
    ValBound(tab[0..n]);
    MulSwap(Pow(B, n), tab[n]);
    if tab[n] >= HALF {
      MulMono(HALF, tab[n], Pow(B, n));
    } else {
      MulMono(tab[n] + 1, HALF, Pow(B, n));
      MulDist(Pow(B, n), tab[n], 1);
    }
  }

  lemma HalfPow(n: nat)
    requires n > 0
    ensures n * LIMB_BITS >= 1 && HALF * Pow(B, n - 1) == Pow(2, n * LIMB_BITS - 1)
      && Pow(B, n) == Pow(2, n * LIMB_BITS)
  {
    BasePow(n - 1);
    BasePow(n);
    MulDist(LIMB_BITS, n - 1, 1);
    MulMono(1, n, LIMB_BITS);
    PowAdd(2, LIMB_BITS - 1, (n - 1) * LIMB_BITS);
  }

  lemma TopBits(tab: seq<Limb>)
    requires TopSet(tab)
    ensures var n := |tab| * LIMB_BITS; n >= 1 && Pow(2, n - 1) <= Val(tab) < Pow(2, n)
  {
    hide *;
    TopSetIs(tab);
    TopLimb(tab);
    HalfPow(|tab|);
    ValBound(tab);
  }

  lemma TopSetIs(tab: seq<Limb>)
    requires TopSet(tab)
    ensures |tab| > 0
  {}

  lemma MagnitudeExp(tab: seq<Limb>, expn: int)
    requires TopSet(tab)
    ensures HasExp(Magnitude(tab, expn), expn)
  {
    hide TopSet, Pow2, Pow, Rescale, Val;
    var n := |tab| * LIMB_BITS;
    TopBits(tab);
    Pow2IsPow(n);
    Pow2IsPow(n - 1);
    Pow2Add(n - 1, expn - n);
    Pow2Add(n, expn - n);
    RescaleMono(Pow2(n - 1), Val(tab) as real, expn - n);
    RescaleStrict(Val(tab) as real, Pow2(n), expn - n);
    RescalePow(n - 1, expn - n);
    RescalePow(n, expn - n);
  }

  lemma RescalePow(a: int, b: int)
    ensures Rescale(Pow2(a), b) == Pow2(a + b)
  {
    Pow2Add(a, b);
  }

  lemma RescaleShift(q: nat, s: nat, k: int)
    ensures Rescale((q * Pow(2, s)) as real, k) == Rescale(q as real, s + k)
  {
    Pow2IsPow(s);
    Pow2Add(s, k);
    assert (q * Pow(2, s)) as real == q as real * Pow2(s);
    RealAssoc3(q as real, Pow2(s), Pow2(k));
  }

  /** Trailing zero limbs do not matter. */
  lemma MagnitudeStripped(w: nat, t: seq<Limb>, n: nat, expn: int)
    requires |t| <= n && w == Val(t) * Pow(B, n - |t|)
    ensures Rescale(w as real, expn - n * LIMB_BITS) == Magnitude(t, expn)
  {
    BasePow(n - |t|);
    RescaleShift(Val(t), (n - |t|) * LIMB_BITS, expn - n * LIMB_BITS);
    MulDist(LIMB_BITS, n, |t|);
  }

  /** The magnitude on the scale of its last of prec bits. */
  lemma MagnitudeScaled(tab: seq<Limb>, expn: int, prec: nat)
    ensures Rescale(Magnitude(tab, expn), prec - expn) == Rescale(Val(tab) as real, prec - |tab| * LIMB_BITS)
  {
    hide Rescale;
    RescaleTwice(Val(tab) as real, expn - |tab| * LIMB_BITS, prec - expn);
  }

  /** Rounding the integer significand rounds the magnitude. */
  lemma RoundsToInt(tab: seq<Limb>, expn: int, mode: Mode, neg: bool, prec: nat, s: nat)
    requires TopSet(tab) && s >= 1 && s + prec == |tab| * LIMB_BITS
    ensures RoundsTo(mode, neg, prec, Magnitude(tab, expn), Scaled(IntRound(mode, neg, Val(tab), s), expn - prec))
  {
    hide Magnitude, Rescale, Scaled, IntRound, HasExp, RoundInt, TopSet;
    MagnitudeExp(tab, expn);
    MagnitudeScaled(tab, expn, prec);
    IntRoundIs(mode, neg, Val(tab), s);
    assert prec - |tab| * LIMB_BITS == -(s as int);
  }

  /** Enough precision: nothing to round. */
  lemma RoundsToSelf(tab: seq<Limb>, expn: int, mode: Mode, neg: bool, prec: nat)
    requires TopSet(tab) && prec >= |tab| * LIMB_BITS
    ensures RoundsTo(mode, neg, prec, Magnitude(tab, expn), Magnitude(tab, expn))
  {
    hide Magnitude, Rescale, Scaled, HasExp, TopSet, RoundInt;
    var x, k: nat := Magnitude(tab, expn), prec - |tab| * LIMB_BITS;
    MagnitudeExp(tab, expn);
    MagnitudeScaled(tab, expn, prec);
    RescaleInt(Val(tab), k);
    RoundIntOfInt(mode, neg, Val(tab) * Pow(2, k));
    ScaledIs(Val(tab) * Pow(2, k), expn - prec);
    RescaleBack(x, prec - expn);
    assert -(prec - expn) == expn - prec;
  }

  lemma RoundIntOfInt(mode: Mode, neg: bool, n: int)
    ensures RoundInt(mode, neg, n as real) == n
  {}

  // ---- the significand ----

  /** Limb and bit of the last bit kept, and the limbs from there up. */
  lemma KeptPart(tab: seq<Limb>, prec: nat, s: nat)
    requires 1 <= prec && s + prec == |tab| * LIMB_BITS
    ensures var pos, sh := s / LIMB_BITS, s % LIMB_BITS;
            && 0 <= pos < |tab| && 0 <= sh < LIMB_BITS && Pow(2, sh) > 0 && Pow(2, s) > 0
            && (|tab| - pos) * LIMB_BITS == prec + sh
            && Val(tab) / Pow(2, s) == Val(tab[pos..]) / Pow(2, sh)
            && Pow(B, |tab| - pos) == Pow(2, prec) * Pow(2, sh)
            && HALF * Pow(B, |tab| - pos - 1) == Pow(2, prec - 1) * Pow(2, sh)
  {
    hide *;
    var pos, sh := s / LIMB_BITS, s % LIMB_BITS;
    PosSplit(s);
    LimbIndex(s, pos, |tab|);
    PowPositive(2, sh);
    PowPositive(2, s);
    BasePositive();
    PowPositive(B, pos);
    MulDist(LIMB_BITS, |tab|, pos);
    ValDrop(tab, pos);
    DivDiv(Val(tab), Pow(B, pos), Pow(2, sh));
    HalfPow(|tab| - pos);
    PowAdd(2, prec, sh);
    PowAdd(2, prec - 1, sh);
  }

  /** Clearing the bits not kept. */
  lemma MaskedQuotient(w: nat, m: nat)
    requires m > 0
    ensures w - w % m == (w / m) * m
  {
    DivModIdentity(w, m);
  }

  /** Adding one at the last bit kept without leaving the number, and leaving it. */
  lemma AddedOne(w: nat, m: nat, k: nat, u: nat, carry: bool)
    requires m > 0 && w < k * m && u + (if carry then k * m else 0) == w + m && u < k * m
    ensures !carry ==> u / m == w / m + 1 && w / m + 1 < k
    ensures carry ==> w / m + 1 == k && u < m
  {
    DivModIdentity(w, m);
    var q, r := w / m, w % m;
    MulDist(m, q, 1);
    if carry {
      assert q + 1 >= k by { if q + 1 < k { MulMono(q + 2, k, m); MulDist(m, q, 2); assert false; } }
      assert q < k by { if q >= k { MulMono(k, q, m); assert false; } }
    } else {
      DivModIs(u, m, q + 1, r);
      assert q + 1 < k by { if q + 1 >= k { MulMono(k, q + 1, m); assert false; } }
    }
  }

  lemma ShiftedIn(u: nat, m: nat, h: nat, w: nat)
    requires m > 0 && u < m && w == u / 2 + h * m
    ensures w - w % m == h * m
  {
    DivModIs(w, m, h, u / 2);
  }

  lemma DivLess(w: nat, m: nat, k: nat)
    requires m > 0 && w < k * m
    ensures w / m < k
  {
    DivModIdentity(w, m);
    if w / m >= k {
      MulMono(k, w / m, m);
      assert false;
    }
  }

  /** Limbs with the top bit set whose value, with n limbs, is q * 2^sh. */
  ghost predicate Holds(t: seq<Limb>, n: nat, w: int)
  {
    0 < |t| <= n && t[0] != 0 && TopSet(t) && Val(t) * Pow(B, n - |t|) == w
  }

  /** The rounded significand of a number with bits to drop: bit sh of limb pos is the last
      one kept, one is added there if `up`; `bump` says that the exponent grows by one. */
  method RoundLimbs(tab: seq<Limb>, prec: nat, pos: nat, sh: nat, up: bool) returns (t: seq<Limb>, bump: bool)
    requires TopSet(tab) && 1 <= prec && pos < |tab| && sh < LIMB_BITS && Pow(2, sh) > 0
    requires Pow(B, |tab| - pos) == Pow(2, prec) * Pow(2, sh)
      && HALF * Pow(B, |tab| - pos - 1) == Pow(2, prec - 1) * Pow(2, sh)
    ensures var q := Val(tab[pos..]) / Pow(2, sh) + (if up then 1 else 0);
            && (!bump ==> Holds(t, |tab| - pos, q * Pow(2, sh)))
            && (bump ==> q == Pow(2, prec) && Holds(t, |tab| - pos, Pow(2, prec - 1) * Pow(2, sh)))
  {
    hide *;
    ghost var m, n, w := Pow(2, sh), |tab| - pos, Val(tab[pos..]);
    ghost var q := w / m + if up then 1 else 0;
    ValBound(tab[pos..]);
    TopOfPart(tab, pos);
    TopKept(w, m, prec);
    t, bump := tab, false;
    if up {
      t, bump := AddOne(tab, prec, pos, sh);
    } else {
      MaskedQuotient(w, m);
    }
    ghost var v := Val(t[pos..]);
    var x := t[pos];
    MaskFits(x, Pow(2, sh));
    ghost var t1 := t;
    t := t[pos := x - x % Pow(2, sh)];
    Masked(t1, t, pos, sh);
    TopPositive(Val(t[pos..]), m, prec);
    ghost var full := t;
    t := Strip(t, pos);
    HoldsIntro(full, t, pos);
  }

  /** Adds one at the last bit kept; on overflow shifts the limbs right. */
  method AddOne(tab: seq<Limb>, prec: nat, pos: nat, sh: nat) returns (t: seq<Limb>, bump: bool)
    requires 1 <= prec && pos < |tab| && sh < LIMB_BITS && Pow(2, sh) > 0
    requires Pow(B, |tab| - pos) == Pow(2, prec) * Pow(2, sh)
      && HALF * Pow(B, |tab| - pos - 1) == Pow(2, prec - 1) * Pow(2, sh)
    ensures |t| == |tab|
    ensures var m, q := Pow(2, sh), Val(tab[pos..]) / Pow(2, sh) + 1;
            && (bump ==> q == Pow(2, prec))
            && Val(t[pos..]) - Val(t[pos..]) % m == (if bump then Pow(2, prec - 1) else q) * m
  {
    hide *;
    ghost var m, w := Pow(2, sh), Val(tab[pos..]);
    ValBound(tab[pos..]);
    LimbPower(sh);
    t, bump := AddAt(tab, pos, Pow(2, sh));
    ghost var u := Val(t[pos..]);
    ValBound(t[pos..]);
    AddedOne(w, m, Pow(2, prec), u, bump);
    MaskedQuotient(u, m);
    if bump {
      t := ShiftInOne(t, pos);
      ShiftedIn(u, m, Pow(2, prec - 1), Val(t[pos..]));
    }
  }

  lemma LimbPower(sh: nat)
    requires sh < LIMB_BITS
    ensures Pow(2, sh) < B
  {
    BaseIs();
    PowStrict(2, sh, LIMB_BITS);
  }

  lemma TopOfPart(tab: seq<Limb>, pos: nat)
    requires TopSet(tab) && pos < |tab|
    ensures Val(tab[pos..]) >= HALF * Pow(B, |tab| - pos - 1)
  {
    hide Val, Pow, HALF;
    TopLimb(tab[pos..]);
  }

  /** The quotient keeps the top bit. */
  lemma TopKept(w: nat, m: nat, prec: nat)
    requires m > 0 && prec >= 1 && w >= Pow(2, prec - 1) * m
    ensures w / m >= Pow(2, prec - 1) && (w / m) * m >= Pow(2, prec - 1) * m && (w / m + 1) * m >= Pow(2, prec - 1) * m
  {
    hide *;
    DivModIdentity(w, m);
    var h := Pow(2, prec - 1);
    if w / m < h {
      MulMono(w / m + 1, h, m);
      MulDist(m, w / m, 1);
      assert false;
    }
    MulMono(h, w / m, m);
    MulMono(h, w / m + 1, m);
  }

  lemma TopPositive(v: nat, m: nat, prec: nat)
    requires m > 0 && prec >= 1 && v >= Pow(2, prec - 1) * m
    ensures v > 0
  {
    PowPositive(2, prec - 1);
    MulMono(1, Pow(2, prec - 1), m);
  }

  lemma HoldsIntro(full: seq<Limb>, t: seq<Limb>, pos: nat)
    requires pos < |full| && 0 < |t| <= |full| - pos && t == full[|full| - |t|..] && t[0] != 0
    requires Val(full[pos..]) == Val(t) * Pow(B, |full| - pos - |t|)
    requires Val(full[pos..]) >= HALF * Pow(B, |full| - pos - 1)
    ensures Holds(t, |full| - pos, Val(full[pos..]))
  {
    hide Val, Pow, HALF;
    TopLimb(full[pos..]);
  }

  lemma HoldsMagnitude(t: seq<Limb>, n: nat, q: nat, sh: nat, prec: nat, expn: int)
    requires Holds(t, n, q * Pow(2, sh)) && n * LIMB_BITS == prec + sh
    ensures Magnitude(t, expn) == Scaled(q, expn - prec) && TopSet(t) && t[0] != 0
  {
    hide *;
    HoldsParts(t, n, q * Pow(2, sh));
    MagnitudeStripped(q * Pow(2, sh), t, n, expn);
    RescaleShift(q, sh, expn - n * LIMB_BITS);
    ScaledIs(q, expn - prec);
  }

  lemma HoldsParts(t: seq<Limb>, n: nat, w: int)
    requires Holds(t, n, w)
    ensures 0 < |t| <= n && t[0] != 0 && TopSet(t) && Val(t) * Pow(B, n - |t|) == w && w >= 0
  {
    hide TopSet, Val, Pow;
    MulMono(0, Val(t), Pow(B, n - |t|));
  }

  /** 2^(prec-1) one binade higher is 2^prec. */
  lemma BumpedScaled(prec: nat, e: int)
    requires prec >= 1
    ensures Scaled(Pow(2, prec - 1), e + 1) == Scaled(Pow(2, prec), e)
  {
    hide Pow2, Pow;
    PowStep(2, prec - 1);
    Pow2Next(e);
    TwoOut(Pow(2, prec - 1) as real, Pow2(e));
  }

  /** Whether rounding changes a magnitude. */
  lemma ExactIff(tab: seq<Limb>, expn: int, mode: Mode, neg: bool, prec: nat, s: nat)
    requires s >= 1 && s + prec == |tab| * LIMB_BITS
    ensures Pow(2, s) > 0
    ensures Scaled(IntRound(mode, neg, Val(tab), s), expn - prec) == Magnitude(tab, expn) <==> Val(tab) % Pow(2, s) == 0
  {
    hide *;
    var v, p, n := Val(tab), Pow(2, s), IntRound(mode, neg, Val(tab), s);
    PowPositive(2, s);
    DivModIdentity(v, p);
    IntRoundDef(mode, neg, v, s);
    ExactNotUp(mode, neg, v, s);
    RescaleShift(n, s, expn - |tab| * LIMB_BITS);
    ScaledIs(n, expn - prec);
    MagnitudeIs(tab, expn);
    RescaleInjective((n * p) as real, v as real, expn - |tab| * LIMB_BITS);
    MulDist(p, v / p, 1);
  }

  lemma ExactNotUp(mode: Mode, neg: bool, v: nat, s: nat)
    requires s >= 1
    ensures Pow(2, s) > 0 && (v % Pow(2, s) == 0 ==> !IntUp(mode, neg, v, s))
  {
    PowPositive(2, s - 1);
    PowPositive(2, s);
  }

  lemma MagnitudeIs(tab: seq<Limb>, expn: int)
    ensures Magnitude(tab, expn) == Rescale(Val(tab) as real, expn - |tab| * LIMB_BITS)
  {
    hide Rescale;
  }

  lemma RescaleInjective(x: real, y: real, k: int)
    ensures Rescale(x, k) == Rescale(y, k) <==> x == y
  {
    hide Rescale;
    CompareScaled(x, y, k);
    CompareScaled(y, x, k);
  }

  /** A nonzero finite number (bf_t): sign, exponent and limbs, changed in place. */
  class Number {
    var neg: bool
    var expn: int
    var tab: seq<Limb>

    constructor (neg: bool, expn: int, tab: seq<Limb>)
      ensures this.neg == neg && this.expn == expn && this.tab == tab
    {
      this.neg, this.expn, this.tab := neg, expn, tab;
    }

    ghost function Mag(): (x: real)
      reads this
    {
      Magnitude(tab, expn)
    }

    /** bf_get_rnd_add: whether to add one at the last of prec bits, and whether bits are
        lost. */
    method GetRndAdd(prec: nat, mode: Mode) returns (up: bool, inexact: bool)
      requires |tab| > 0 && prec >= 1
      ensures var n := |tab| * LIMB_BITS;
              && (prec >= n ==> !up && !inexact)
              && (prec < n ==> Pow(2, n - prec) > 0 && up == IntUp(mode, neg, Val(tab), n - prec)
                               && (inexact <==> Val(tab) % Pow(2, n - prec) != 0))
    {
      hide *;
      var n := |tab| * LIMB_BITS;
      GetBitIs(tab, n - 1 - prec);
      GetBitIs(tab, n - 1 - (prec - 1));
      if prec < n {
        RndAddIs(mode, neg, Val(tab), n - prec);
      }
      NoLowBits(Val(tab));
      BitAbove(Val(tab), n - 1 - prec);
      var bit0 := ScanBitNz(tab, n - 1 - (prec + 1));
      var bit1 := GetBit(tab, n - 1 - prec);
      var last := GetBit(tab, n - 1 - (prec - 1));
      up := RndAdd(mode, neg, bit1, bit0, last);
      inexact := bit1 == 1 || bit0;
      RndAddNone(mode, neg, last);
    }

    /** __bf_round: to prec bits; tells whether the value changed. */
    method Round(prec: nat, mode: Mode) returns (inexact: bool)
      requires prec >= 1 && TopSet(tab)
      modifies this
      ensures TopSet(tab) && tab[0] != 0 && neg == old(neg)
      ensures RoundsTo(mode, neg, prec, old(Mag()), Mag())
      ensures inexact <==> Mag() != old(Mag())
    {
      hide *;
      TopSetIs(tab);
      var n := |tab| * LIMB_BITS;
      var up;
      MagIs();
      up, inexact := GetRndAdd(prec, mode);
      ghost var tab0, expn0 := tab, expn;
      if prec >= n {
        RoundsToSelf(tab, expn, mode, neg, prec);
        TopNonzero(tab);
        tab := Strip(tab, 0);
        StrippedSame(tab0, tab, expn);
        MagIs();
      } else {
        var s := n - prec;
        var pos, sh := s / LIMB_BITS, s % LIMB_BITS;
        KeptPart(tab, prec, s);
        RoundsToInt(tab, expn, mode, neg, prec, s);
        ExactIff(tab, expn, mode, neg, prec, s);
        ghost var q := IntRound(mode, neg, Val(tab), s);
        IntRoundDef(mode, neg, Val(tab), s);
        var bump;
        tab, bump := RoundLimbs(tab, prec, pos, sh, up);
        if bump {
          expn := expn + 1;
          HoldsMagnitude(tab, |tab0| - pos, Pow(2, prec - 1), sh, prec, expn);
          BumpedScaled(prec, expn0 - prec);
        } else {
          HoldsMagnitude(tab, |tab0| - pos, q, sh, prec, expn);
        }
        MagIs();
      }
    }

    lemma MagIs()
      ensures Mag() == Magnitude(tab, expn)
    {
      hide Magnitude;
    }
  }

  lemma IntRoundDef(mode: Mode, neg: bool, v: nat, s: nat)
    requires s >= 1
    ensures Pow(2, s) > 0 && IntRound(mode, neg, v, s) == v / Pow(2, s) + if IntUp(mode, neg, v, s) then 1 else 0
  {
    hide IntUp;
  }

  lemma NoLowBits(v: nat)
    ensures Pow(2, 0) == 1 && v % 1 == 0
  {}

  lemma BitAbove(v: nat, pos: int)
    ensures pos < 0 ==> Bit(v, pos) == 0
  {}

  lemma RndAddNone(mode: Mode, neg: bool, last: nat)
    ensures !RndAdd(mode, neg, 0, false, last)
  {}

  lemma TopNonzero(tab: seq<Limb>)
    requires TopSet(tab)
    ensures Val(tab[0..]) != 0
  {
    hide Val;
    BaseFacts();
    assert tab[0..] == tab;
    NonzeroLimb(tab, |tab| - 1);
  }

  lemma StrippedSame(tab: seq<Limb>, t: seq<Limb>, expn: int)
    requires TopSet(tab) && 0 < |t| <= |tab| && t == tab[|tab| - |t|..]
      && Val(tab[0..]) == Val(t) * Pow(B, |tab| - 0 - |t|)
    ensures Magnitude(t, expn) == Magnitude(tab, expn) && TopSet(t)
  {
    hide Val, Pow, Rescale;
    assert tab[0..] == tab;
    MagnitudeStripped(Val(tab), t, |tab|, expn);
  }
}
