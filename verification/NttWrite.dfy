/** Writing digits of any width into limbs (cpp/src/quickjs/libbf.c, put_bits and
    the end of ntt_to_limb). */
module NttWrite {
  import opened Powers
  import opened Limbs
  import opened Bits
  import opened NttWord
  import opened NttDigits

  // ---- put_bits ----

  /** A number below 2^pos has no bit in the limb of pos from there up, and none above. */
  lemma ClearAbove(tab: seq<Limb>, pos: nat, i: nat, p: nat)
    requires i == pos / LIMB_BITS && p == pos % LIMB_BITS && i < |tab| && Val(tab) < Pow(2, pos)
    ensures tab[i] < Pow(2, p) && (i + 1 < |tab| ==> tab[i + 1] == 0)
  {
    hide *;
    PosSplit(pos);
    BasePositive();
    PowPositive(B, i);
    PowPositive(2, p);
    ValDrop(tab, i);
    DivBelow(Val(tab), Pow(B, i), Pow(2, p));
    MulSwap(Pow(B, i), Pow(2, p));
    assert tab[i..] == [tab[i]] + tab[i + 1..];
    HeadValue(tab[i], tab[i + 1..]);
    LimbPowerLe(p);
    TailZero(tab[i], Val(tab[i + 1..]), B, Pow(2, p));
    if i + 1 < |tab| {
      ValZeroLimbs(tab[i + 1..]);
      assert tab[i + 1] == tab[i + 1..][0];
    }
  }

  lemma HeadValue(x: Limb, s: seq<Limb>)
    ensures Val([x] + s) == x + B * Val(s)
  {
    assert ([x] + s)[1..] == s;
  }

  lemma LimbPowerLe(p: nat)
    requires p <= LIMB_BITS
    ensures Pow(2, p) <= B
  {
    BaseIs();
    PowMono(2, p, LIMB_BITS);
  }

  lemma TailZero(x: int, v: int, b: int, q: int)
    requires 0 <= x && 0 <= v && b > 0 && x + b * v < q <= b
    ensures v == 0 && x < q
  {
    if v >= 1 {
      MulMono(1, v, b);
      assert false;
    }
  }

  /** Changing limb i by d changes the value by d * B^i. */
  lemma ValUpdate(tab: seq<Limb>, i: nat, x: Limb)
    requires i < |tab|
    ensures Val(tab[i := x]) == Val(tab) + (x - tab[i]) * Pow(B, i)
  {
    hide Val, Pow, B;
    var t := tab[i := x];
    assert t[..i] == tab[..i] && t[i + 1..] == tab[i + 1..];
    assert t == t[..i] + ([x] + t[i + 1..]) && tab == tab[..i] + ([tab[i]] + tab[i + 1..]);
    ValConcat(t[..i], [x] + t[i + 1..]);
    ValConcat(tab[..i], [tab[i]] + tab[i + 1..]);
    HeadValue(x, t[i + 1..]);
    HeadValue(tab[i], tab[i + 1..]);
    UpdatePoly(Pow(B, i), x, tab[i], B * Val(tab[i + 1..]));
  }

  lemma UpdatePoly(p: int, x: int, y: int, t: int)
    ensures p * (x + t) == p * (y + t) + (x - y) * p
  {}

  /** val << p in two limbs. */
  lemma ShiftTwo(val: Limb, p: nat)
    requires p < LIMB_BITS
    ensures Pow(2, LIMB_BITS - p) > 0 && B > 0
    ensures (val * Pow(2, p)) % B + (val / Pow(2, LIMB_BITS - p)) * B == val * Pow(2, p)
    ensures 0 <= val / Pow(2, LIMB_BITS - p) < B && 0 <= (val * Pow(2, p)) % B <= B - Pow(2, p)
  {
    hide *;
    SplitBase(p);
    BasePositive();
    var S, T := Pow(2, p), Pow(2, LIMB_BITS - p);
    DivModIdentity(val, T);
    ShiftHigh2(val, T, S);
    ShiftTwoPoly(val / T, T, S, val % T);
    MulMono(val % T, T - 1, S);
    MulDist(S, T, 1);
    MulMono(0, val % T, S);
    DivLeq(val, T);
  }

  lemma DivLeq(x: nat, d: nat)
    requires d > 0
    ensures 0 <= x / d <= x
  {
    DivModIdentity(x, d);
    MulMono(1, d, x / d);
  }

  lemma ShiftTwoPoly(q: int, t: int, s: int, r: int)
    ensures (q * t + r) * s == r * s + q * (t * s)
  {}

  /** put_bits into bits that are still zero, cut off at the end of the buffer. */
  method PutBits(tab: seq<Limb>, pos: nat, val: Limb) returns (t: seq<Limb>)
    requires Val(tab) < Pow(2, pos)
    ensures |t| == |tab| && Pow(B, |tab|) > 0 && Val(t) == (Val(tab) + val * Pow(2, pos)) % Pow(B, |tab|)
  {
    hide *;
    var i, p := pos / LIMB_BITS, pos % LIMB_BITS;
    PosSplit(pos);
    BasePositive();
    PowPositive(B, |tab|);
    ShiftTwo(val, p);
    t := tab;
    ValBound(tab);
    if i < |tab| {
      ClearAbove(tab, pos, i, p);
      var lo := (val * Pow(2, p)) % B;
      t := t[i := t[i] + lo];
      ValUpdate(tab, i, tab[i] + lo);
      if p != 0 && i + 1 < |tab| {
        var hi := val / Pow(2, LIMB_BITS - p);
        ghost var t1 := t;
        t := t[i + 1 := t[i + 1] + hi];
        ValUpdate(t1, i + 1, hi);
      }
      PutFits(tab, t, pos, val, i, p);
    } else {
      PutBeyond(Val(tab), |tab|, pos, val, i, p);
    }
  }

  lemma PutFits(tab: seq<Limb>, t: seq<Limb>, pos: nat, val: Limb, i: nat, p: nat)
    requires i < |tab| == |t| && p < LIMB_BITS && Pow(2, pos) == Pow(B, i) * Pow(2, p) && Pow(2, LIMB_BITS - p) > 0
      && B > 0 && Pow(B, |tab|) > 0
    requires var lo, hi := (val * Pow(2, p)) % B, val / Pow(2, LIMB_BITS - p);
             && lo + hi * B == val * Pow(2, p) && 0 <= hi < B
             && Val(t) == Val(tab) + lo * Pow(B, i) + (if p != 0 && i + 1 < |tab| then hi * Pow(B, i + 1) else 0)
    ensures Val(t) == (Val(tab) + val * Pow(2, pos)) % Pow(B, |tab|)
  {
    hide *;
    var lo, hi := (val * Pow(2, p)) % B, val / Pow(2, LIMB_BITS - p);
    ZeroShift(val, p);
    PowStep(B, i);
    PutPoly(val, Pow(B, i), Pow(2, p), lo, hi, B);
    ValBound(t);
    if p != 0 && i + 1 < |tab| {
      SmallDiv(Val(t), Pow(B, |tab|));
    } else if p == 0 {
      assert hi * Pow(B, i + 1) == 0;
      SmallDiv(Val(t), Pow(B, |tab|));
    } else {
      DivModIs(Val(tab) + val * Pow(2, pos), Pow(B, |tab|), hi, Val(t));
    }
  }

  lemma ZeroShift(val: Limb, p: nat)
    requires p < LIMB_BITS && Pow(2, LIMB_BITS - p) > 0
    ensures p == 0 ==> val / Pow(2, LIMB_BITS - p) == 0
  {
    if p == 0 {
      BaseIs();
      SmallDiv(val, B);
    }
  }

  lemma PutPoly(val: int, b: int, s: int, lo: int, hi: int, B0: int)
    requires lo + hi * B0 == val * s
    ensures val * (b * s) == lo * b + hi * (B0 * b)
  {
    assert val * (b * s) == (val * s) * b;
    assert (lo + hi * B0) * b == lo * b + hi * (B0 * b);
  }

  lemma PutBeyond(v: nat, n: nat, pos: nat, val: nat, i: nat, p: nat)
    requires v < Pow(B, n) && i >= n && Pow(2, pos) == Pow(B, i) * Pow(2, p)
    ensures Pow(B, n) > 0 && v == (v + val * Pow(2, pos)) % Pow(B, n)
  {
    hide *;
    PowAdd(B, n, i - n);
    var k := Pow(B, i - n) * Pow(2, p);
    BeyondPoly(val, Pow(B, n), Pow(B, i - n), Pow(2, p));
    DivModIs(v + val * Pow(2, pos), Pow(B, n), val * k, v);
  }

  lemma BeyondPoly(val: int, a: int, b: int, c: int)
    ensures val * ((a * b) * c) == (val * (b * c)) * a
  {}

  // ---- one digit ----

  lemma ModAdd(x: int, y: int, m: int)
    requires m > 0
    ensures (x % m + y) % m == (x + y) % m
  {
    AddMultiple(x % m + y, x / m, m);
  }

  lemma ModLeq(x: nat, m: nat)
    requires m > 0
    ensures 0 <= x % m <= x
  {
    DivModIdentity(x, m);
    MulMono(0, x / m, m);
  }

  /** The limbs written so far stay below the next position. */
  lemma WrittenBelow(v: nat, w: nat, pos: nat, j: nat, M: nat, r: nat)
    requires v < Pow(2, pos) && w < Pow(B, j) && M > 0 && r == (v + w * Pow(2, pos)) % M
    ensures r < Pow(2, pos + j * LIMB_BITS) && Pow(2, pos + j * LIMB_BITS) == Pow(B, j) * Pow(2, pos)
  {
    hide *;
    BasePow(j);
    PowAdd(2, pos, j * LIMB_BITS);
    MulSwap(Pow(B, j), Pow(2, pos));
    MulMono(w + 1, Pow(B, j), Pow(2, pos));
    MulDist(Pow(2, pos), w, 1);
    MulMono(0, w, Pow(2, pos));
    ModLeq(v + w * Pow(2, pos), M);
  }

  lemma WriteStep(v: int, w: int, x: int, p: int, q: int, M: int, r: int)
    requires M > 0 && r == (v + w * p) % M
    ensures (r + x * (q * p)) % M == (v + (w + q * x) * p) % M
  {
    var s, t, z := v + w * p, x * (q * p), v + (w + q * x) * p;
    WritePoly(v, w, x, p, q);
    assert s + t == z;
    ModAdd(s, t, M);
  }

  lemma WritePoly(v: int, w: int, x: int, p: int, q: int)
    ensures v + w * p + x * (q * p) == v + (w + q * x) * p
  {}

  /** Place of the last limb of a digit. */
  lemma DigitPlace(dpl: nat)
    requires dpl >= 1
    ensures var n1 := (dpl - 1) / LIMB_BITS; var p := dpl - n1 * LIMB_BITS;
            n1 >= 0 && 1 <= p <= LIMB_BITS && dpl % LIMB_BITS == p % LIMB_BITS
  {
    var n1 := (dpl - 1) / LIMB_BITS;
    DivModIdentity(dpl - 1, LIMB_BITS);
    AddMultiple(dpl - n1 * LIMB_BITS, n1, LIMB_BITS);
  }

  /** The dpl low bits of a number, limb by limb. */
  lemma LowDigits(u: seq<Limb>, dpl: nat, n1: nat, p: nat)
    requires dpl == n1 * LIMB_BITS + p && 1 <= p <= LIMB_BITS && n1 < |u| && dpl % LIMB_BITS == p % LIMB_BITS
    ensures Pow(2, dpl) > 0 && Val(u) % Pow(2, dpl) == Val(u[..n1]) + Pow(B, n1) * MaskTop(u[n1], dpl)
  {
    hide *;
    BasePow(n1);
    BasePositive();
    PowAdd(2, n1 * LIMB_BITS, p);
    PowPositive(2, dpl);
    PowPositive(2, p);
    PowPositive(B, n1);
    ValDrop(u, n1);
    LimbAt(u, n1);
    DivDiv(Val(u), Pow(B, n1), Pow(2, p));
    DivModIdentity(Val(u), Pow(B, n1));
    MaskTopIs(Val(u) / Pow(B, n1), dpl, p);
    MulSwap(Pow(B, n1), MaskTop(u[n1], dpl));
  }

  /** Writes the dpl low bits of u at pos. */
  method WriteDigit(tab: seq<Limb>, pos: nat, u: seq<Limb>, dpl: nat) returns (t: seq<Limb>)
    requires Val(tab) < Pow(2, pos) && dpl >= 1 && (dpl - 1) / LIMB_BITS < |u|
    ensures |t| == |tab| && Pow(B, |tab|) > 0 && Pow(2, dpl) > 0
    ensures Val(t) == (Val(tab) + (Val(u) % Pow(2, dpl)) * Pow(2, pos)) % Pow(B, |tab|)
  {
    hide *;
    DigitPlace(dpl);
    var n1 := (dpl - 1) / LIMB_BITS;
    LowDigits(u, dpl, n1, dpl - n1 * LIMB_BITS);
    BasePositive();
    PowPositive(B, |tab|);
    ghost var M := Pow(B, |tab|);
    t := tab;
    var j, at := 0, pos;
    assert u[..0] == [];
    ValNil([]);
    ValBound(tab);
    SmallDiv(Val(tab), M);
    while j < n1
      invariant 0 <= j <= n1 && |t| == |tab| && at == pos + j * LIMB_BITS
      invariant Val(t) == (Val(tab) + Val(u[..j]) * Pow(2, pos)) % M
    {
      ValBound(u[..j]);
      WrittenBelow(Val(tab), Val(u[..j]), pos, j, M, Val(t));
      ghost var r := Val(t);
      t := PutBits(t, at, u[j]);
      WriteStep(Val(tab), Val(u[..j]), u[j], Pow(2, pos), Pow(B, j), M, r);
      assert u[..j + 1] == u[..j] + [u[j]];
      ValSnoc(u[..j], u[j]);
      MulDist(LIMB_BITS, j, 1);
      j, at := j + 1, at + LIMB_BITS;
    }
    ValBound(u[..n1]);
    WrittenBelow(Val(tab), Val(u[..n1]), pos, n1, M, Val(t));
    ghost var r := Val(t);
    MaskFitsLimb(u[n1], dpl);
    var top: Limb := MaskTop(u[n1], dpl);
    WriteStep(Val(tab), Val(u[..n1]), top, Pow(2, pos), Pow(B, n1), M, r);
    t := PutBits(t, at, top);
  }

  lemma MaskFitsLimb(x: Limb, dpl: nat)
    ensures 0 <= MaskTop(x, dpl) <= x
  {
    MaskTopDef(x, dpl);
    if dpl % LIMB_BITS != 0 {
      ModLeq(x, Pow(2, dpl % LIMB_BITS));
    }
  }

  // ---- the carry ----

  lemma ShiftDownStep(v: int, s: int, r0: int, w: int, x: int, b: int, y: int, o: int, p: int, lx: int, ly: int)
    requires v * s + r0 == w + lx * p && o * s == x - lx + ly * b
    ensures (v + p * o) * s + r0 == (w + p * x) + ly * (b * p)
  {
    assert (v + p * o) * s == v * s + p * (o * s);
    assert p * (x - lx + ly * b) == p * x - lx * p + ly * (b * p);
  }

  /** (x >> p) | (y << (LIMB_BITS - p)). */
  method ShiftWordDown(x: Limb, y: Limb, p: nat) returns (o: Limb)
    requires 1 <= p < LIMB_BITS
    ensures Pow(2, p) > 0 && o * Pow(2, p) == x - x % Pow(2, p) + (y % Pow(2, p)) * B
  {
    hide *;
    SplitBase(p);
    BasePositive();
    var S, T := Pow(2, p), Pow(2, LIMB_BITS - p);
    DivModIdentity(x, S);
    DivModIdentity(y, S);
    DivBelow(x, S, T);
    ShiftHigh2(y, S, T);
    MulMono(y % S + 1, S, T);
    MulDist(T, y % S, 1);
    MulMono(0, y % S, T);
    o := x / S + (y * T) % B;
    ShiftDownPoly(x / S, y % S, T, S);
  }

  lemma ShiftDownPoly(q: int, r: int, t: int, s: int)
    ensures (q + r * t) * s == q * s + r * (s * t)
  {}

  /** The limbs shifted right by p bits, 1 <= p < LIMB_BITS. */
  method ShiftLimbs(s: seq<Limb>, p: nat) returns (o: seq<Limb>)
    requires 1 <= p < LIMB_BITS && |s| > 0
    ensures |o| == |s| && Pow(2, p) > 0 && Val(o) == Val(s) / Pow(2, p)
  {
    hide *;
    PowPositive(2, p);
    ghost var S := Pow(2, p);
    o := [];
    ValNil(o);
    assert s[..0] == [];
    PowStep(B, 0);
    ghost var r0 := s[0] % S;
    DivModIdentity(s[0], S);
    while |o| < |s|
      invariant |o| <= |s|
      invariant Val(o) * S + r0 == Val(s[..|o|]) + (if |o| < |s| then s[|o|] % S else 0) * Pow(B, |o|)
      decreases |s| - |o|
    {
      var k := |o|;
      var y := if k + 1 < |s| then s[k + 1] else 0;
      var x := ShiftWordDown(s[k], y, p);
      SmallDiv(0, S);
      ValSnoc(o, x);
      assert s[..k + 1] == s[..k] + [s[k]];
      ValSnoc(s[..k], s[k]);
      PowStep(B, k);
      ShiftDownStep(Val(o), S, r0, Val(s[..k]), s[k], B, y, x, Pow(B, k), s[k] % S, y % S);
      o := o + [x];
    }
    assert s[..|s|] == s;
    DivModIs(Val(s), S, Val(o), r0);
  }

  /** u >> dpl, in as many limbs. */
  method ShiftDown(u: seq<Limb>, dpl: nat) returns (c: seq<Limb>)
    requires dpl >= 1 && (dpl - 1) / LIMB_BITS < |u|
    ensures |c| == |u| && Pow(2, dpl) > 0 && Val(c) == Val(u) / Pow(2, dpl)
  {
    hide *;
    DigitPlace(dpl);
    var n1 := (dpl - 1) / LIMB_BITS;
    var p := dpl - n1 * LIMB_BITS;
    PowPositive(2, dpl);
    LimbRemainder(p);
    ShiftParts(u, n1, p, dpl);
    if dpl % LIMB_BITS == 0 {
      c := u[n1 + 1..] + Zero(n1 + 1);
      ZeroPad(u[n1 + 1..], n1 + 1);
    } else {
      c := ShiftLimbs(u[n1..], p);
      ZeroPad(c, n1);
      c := c + Zero(n1);
    }
  }

  function Zero(n: nat): (z: seq<Limb>)
    ensures |z| == n
  {
    seq(n, _ => 0)
  }

  lemma ZeroPad(s: seq<Limb>, n: nat)
    ensures Val(s + Zero(n)) == Val(s)
  {
    ValConcat(s, Zero(n));
    ValZeros(Zero(n));
  }

  lemma ShiftParts(u: seq<Limb>, n1: nat, p: nat, dpl: nat)
    requires dpl == n1 * LIMB_BITS + p && 1 <= p <= LIMB_BITS && n1 < |u|
    ensures Pow(2, p) > 0 && Pow(2, dpl) > 0 && Val(u) / Pow(2, dpl) == Val(u[n1..]) / Pow(2, p)
    ensures p == LIMB_BITS ==> Val(u) / Pow(2, dpl) == Val(u[n1 + 1..])
  {
    hide *;
    BasePow(n1);
    BasePositive();
    BaseIs();
    PowAdd(2, n1 * LIMB_BITS, p);
    PowPositive(2, dpl);
    PowPositive(2, p);
    PowPositive(B, n1);
    ValDrop(u, n1);
    DivDiv(Val(u), Pow(B, n1), Pow(2, p));
    if p == LIMB_BITS {
      ValHead(u[n1..]);
      assert u[n1..][1..] == u[n1 + 1..];
    }
  }
}
