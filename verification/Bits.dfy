/** Single bits and limb-wide windows of limb sequences at any bit position
    (cpp/src/quickjs/libbf.c, get_bit, get_bits, scan_bit_nz). */
module Bits {
  import opened Powers
  import opened Limbs

  /** Bit pos of v; positions below zero hold zeros. */
  function Bit(v: nat, pos: int): (b: nat)
    ensures b <= 1
  {
    if pos < 0 then 0 else (v / Pow(2, pos)) % 2
  }

  /** The LIMB_BITS bits of v from position pos up; positions below zero hold zeros. */
  function Window(v: nat, pos: int): (w: Limb)
  {
    if pos >= 0 then (v / Pow(2, pos)) % B else (v * Pow(2, -pos)) % B
  }

  lemma {:induction false} BasePow(k: nat)
    ensures Pow(B, k) == Pow(2, k * LIMB_BITS)
  {
    hide *;
    if k == 0 {
      PowZero(B);
      PowZero(2);
    } else {
      PowStep(B, k - 1);
      BasePow(k - 1);
      BaseIs();
      PowAdd(2, LIMB_BITS, (k - 1) * LIMB_BITS);
      MulDist(LIMB_BITS, k - 1, 1);
    }
  }

  lemma PowZero(b: nat)
    ensures Pow(b, 0) == 1
  {}

  lemma BaseIs()
    ensures B == Pow(2, LIMB_BITS)
  {}

  /** Powers of two split the base. */
  lemma SplitBase(p: nat)
    requires p <= LIMB_BITS
    ensures var S, T := Pow(2, p), Pow(2, LIMB_BITS - p); S > 0 && T > 0 && S * T == B && T * S == B
  {
    hide *;
    BaseIs();
    PowAdd(2, p, LIMB_BITS - p);
    PowPositive(2, p);
    PowPositive(2, LIMB_BITS - p);
    MulSwap(Pow(2, p), Pow(2, LIMB_BITS - p));
  }

  lemma MulSwap(x: int, y: int)
    ensures x * y == y * x
  {}

  lemma DivDiv(v: nat, a: nat, b: nat)
    requires a > 0 && b > 0
    ensures a * b > 0 && (v / a) / b == v / (a * b)
    ensures v % (a * b) == ((v / a) % b) * a + v % a
  {
    var q, r := v / a, v % a;
    var q', r' := q / b, q % b;
    DivModIdentity(v, a);
    DivModIdentity(q, b);
    DivDivArith(v, a, b, q, r, q', r');
  }

  lemma DivDivArith(v: int, a: int, b: int, q: int, r: int, q': int, r': int)
    requires a > 0 && b > 0 && v == q * a + r && 0 <= r < a && q == q' * b + r' && 0 <= r' < b
    ensures a * b > 0 && v / (a * b) == q' && v % (a * b) == r' * a + r
  {
    assert a * b > 0;
    assert v == q' * (a * b) + (r' * a + r) by { DivDivPoly(a, b, q', r', r); }
    MulMono(r' + 1, b, a);
    MulMono(0, r', a);
    DivModIs(v, a * b, q', r' * a + r);
  }

  lemma DivDivPoly(a: int, b: int, q: int, r: int, s: int)
    ensures (q * b + r) * a + s == q * (a * b) + (r * a + s)
  {}

  lemma DivPow(v: nat, a: nat, b: nat)
    ensures (v / Pow(2, a)) / Pow(2, b) == v / Pow(2, a + b)
    ensures v % Pow(2, a + b) == ((v / Pow(2, a)) % Pow(2, b)) * Pow(2, a) + v % Pow(2, a)
  {
    PowAdd(2, a, b);
    DivDiv(v, Pow(2, a), Pow(2, b));
  }

  /** Dividing by B^i drops the i low limbs. */
  lemma ValDrop(s: seq<Limb>, i: nat)
    requires i <= |s|
    ensures Val(s) / Pow(B, i) == Val(s[i..]) && Val(s) % Pow(B, i) == Val(s[..i])
  {
    assert s == s[..i] + s[i..];
    ValConcat(s[..i], s[i..]);
    ValBound(s[..i]);
    assert Pow(B, i) * Val(s[i..]) == Val(s[i..]) * Pow(B, i);
    DivModIs(Val(s), Pow(B, i), Val(s[i..]), Val(s[..i]));
  }

  lemma ValHead(s: seq<Limb>)
    requires |s| > 0
    ensures Val(s) % B == s[0] && Val(s) / B == Val(s[1..])
  {
    assert B * Val(s[1..]) == Val(s[1..]) * B;
    DivModIs(Val(s), B, Val(s[1..]), s[0]);
  }

  lemma LimbAt(s: seq<Limb>, i: nat)
    requires i < |s|
    ensures s[i] == (Val(s) / Pow(B, i)) % B
  {
    ValDrop(s, i);
    ValHead(s[i..]);
  }

  /** get_bit. */
  function GetBit(tab: seq<Limb>, pos: int): (b: nat)
  {
    var i := pos / LIMB_BITS;
    if i < 0 || i >= |tab| then 0 else (tab[i] / Pow(2, pos % LIMB_BITS)) % 2
  }

  lemma PosSplit(pos: nat)
    ensures pos == (pos / LIMB_BITS) * LIMB_BITS + pos % LIMB_BITS && 0 <= pos % LIMB_BITS < LIMB_BITS
      && pos / LIMB_BITS >= 0
    ensures Pow(2, pos) == Pow(B, pos / LIMB_BITS) * Pow(2, pos % LIMB_BITS)
  {
    var i, p := pos / LIMB_BITS, pos % LIMB_BITS;
    DivModIdentity(pos, LIMB_BITS);
    BasePow(i);
    PowAdd(2, i * LIMB_BITS, p);
  }

  lemma NegativePos(pos: int)
    ensures pos / LIMB_BITS < 0 <==> pos < 0
  {}

  /** Bits below the top of a limb are bits of what the limb is the remainder of. */
  lemma BitOfLimb(v: nat, p: nat)
    requires p < LIMB_BITS
    ensures Pow(2, p) > 0 && B > 0 && ((v % B) / Pow(2, p)) % 2 == (v / Pow(2, p)) % 2
  {
    hide *;
    SplitBase(p);
    BasePositive();
    PowPositive(2, LIMB_BITS - p - 1);
    var S, T, h := Pow(2, p), Pow(2, LIMB_BITS - p), Pow(2, LIMB_BITS - p - 1);
    PowStep(2, LIMB_BITS - p - 1);
    LowPart(v, S, T);
    EvenModulus(v / S, h);
  }

  /** The low S*T of v, divided by S. */
  lemma LowPart(v: nat, S: nat, T: nat)
    requires S > 0 && T > 0
    ensures S * T > 0 && (v % (S * T)) / S == (v / S) % T && (v % (S * T)) % S == v % S
  {
    DivDiv(v, S, T);
    DivModIdentity(v, S);
    DivModIs(v % (S * T), S, (v / S) % T, v % S);
  }

  lemma EvenModulus(q: nat, h: nat)
    requires h > 0
    ensures (q % (2 * h)) % 2 == q % 2
  {
    var k, r := q / (2 * h), q % (2 * h);
    DivModIdentity(q, 2 * h);
    assert k * (2 * h) == 2 * (k * h);
    assert q == 2 * (k * h) + r;
  }

  lemma GetBitIs(tab: seq<Limb>, pos: int)
    ensures GetBit(tab, pos) == Bit(Val(tab), pos)
  {
    NegativePos(pos);
    if pos >= 0 {
      var i, p := pos / LIMB_BITS, pos % LIMB_BITS;
      PosSplit(pos);
      BitParts(tab, pos);
      GetBitAt(tab, pos, i, p);
    }
  }

  lemma GetBitAt(tab: seq<Limb>, pos: nat, i: nat, p: nat)
    requires i == pos / LIMB_BITS && p == pos % LIMB_BITS && p < LIMB_BITS
    requires Pow(2, p) > 0 && Pow(2, pos) > 0
    requires Val(tab) / Pow(2, pos) == ((Val(tab) / Pow(B, i)) / Pow(2, p))
    ensures (if i < |tab| then (tab[i] / Pow(2, p)) % 2 else 0) == (Val(tab) / Pow(2, pos)) % 2
  {
    hide *;
    if i < |tab| {
      LimbAt(tab, i);
      BitOfLimb(Val(tab) / Pow(B, i), p);
    } else {
      ValBound(tab);
      BasePositive();
      PowMono(B, |tab|, i);
      SmallDiv(Val(tab), Pow(B, i));
      SmallDiv(0, Pow(2, p));
    }
  }

  lemma BasePositive()
    ensures B >= 1
  {}

  lemma BitParts(tab: seq<Limb>, pos: nat)
    ensures var i, p := pos / LIMB_BITS, pos % LIMB_BITS;
            Pow(2, p) > 0 && Pow(2, pos) > 0 && Val(tab) / Pow(2, pos) == (Val(tab) / Pow(B, i)) / Pow(2, p)
  {
    var i, p := pos / LIMB_BITS, pos % LIMB_BITS;
    PosSplit(pos);
    DivDiv(Val(tab), Pow(B, i), Pow(2, p));
  }

  lemma SmallDiv(v: nat, d: nat)
    requires v < d
    ensures v / d == 0 && v % d == v
  {
    DivModIs(v, d, 0, v);
  }

  /** get_limbz at a possibly negative index. */
  function LimbOr0(tab: seq<Limb>, i: int): (x: Limb)
  {
    if 0 <= i < |tab| then tab[i] else 0
  }

  /** Two neighbouring limbs shifted together; the operands of the OR share no bit. */
  function Joined(x: Limb, y: Limb, p: nat): (w: int)
    requires 1 <= p < LIMB_BITS
  {
    BasePositive();
    PowPositive(2, p);
    x / Pow(2, p) + (y * Pow(2, LIMB_BITS - p)) % B
  }

  /** get_bits. */
  function GetBits(tab: seq<Limb>, pos: int): (w: int)
  {
    var i, p := pos / LIMB_BITS, pos % LIMB_BITS;
    if p == 0 then LimbOr0(tab, i) else Joined(LimbOr0(tab, i), LimbOr0(tab, i + 1), p)
  }

  lemma LimbOr0Is(tab: seq<Limb>, i: nat)
    ensures LimbOr0(tab, i) == (Val(tab) / Pow(B, i)) % B
  {
    if i < |tab| {
      LimbAt(tab, i);
    } else {
      ValBound(tab);
      PowMono(B, |tab|, i);
      SmallDiv(Val(tab), Pow(B, i));
      BaseFacts();
      SmallDiv(0, B);
    }
  }

  /** Joining two neighbouring limbs x + y*B of v at bit p. */
  lemma JoinWindow(v: nat, p: nat)
    requires 1 <= p < LIMB_BITS
    ensures B > 0 && Pow(2, p) > 0 && (v / Pow(2, p)) % B == Joined(v % B, (v / B) % B, p)
  {
    hide *;
    SplitBase(p);
    BasePositive();
    var S, T := Pow(2, p), Pow(2, LIMB_BITS - p);
    JoinedIs(v % B, (v / B) % B, p);
    LowPart(v, S, T);
    DivDiv(v, S, T);
    DivDiv(v / S, T, S);
    ShiftHigh(v / B, S, T);
    DivModIdentity(v / S, T);
  }

  lemma JoinedIs(x: Limb, y: Limb, p: nat)
    requires 1 <= p < LIMB_BITS
    ensures Pow(2, p) > 0 && B > 0 && Joined(x, y, p) == x / Pow(2, p) + (y * Pow(2, LIMB_BITS - p)) % B
  {}

  lemma ShiftHigh(q: nat, S: nat, T: nat)
    requires S > 0 && T > 0 && S * T == B
    ensures ((q % B) * T) % B == (q % S) * T
  {
    var y := q % B;
    DivDiv(q, S, T);
    var k := (q / S) % T;
    assert y == k * S + q % S;
    assert y * T == k * (S * T) + (q % S) * T by { ShiftHighPoly(k, S, T, q % S); }
    MulMono(q % S + 1, S, T);
    MulMono(0, q % S, T);
    assert (q % S + 1) * T == (q % S) * T + T by { MulDist(T, q % S, 1); }
    DivModIs(y * T, B, k, (q % S) * T);
  }

  lemma ShiftHighPoly(k: int, S: int, T: int, r: int)
    ensures (k * S + r) * T == k * (S * T) + r * T
  {}

  /** get_bits returns the window of the value, at every position. */
  lemma GetBitsIs(tab: seq<Limb>, pos: int)
    ensures GetBits(tab, pos) == Window(Val(tab), pos)
  {
    var i, p := pos / LIMB_BITS, pos % LIMB_BITS;
    if pos >= 0 {
      PosSplit(pos);
      BitParts(tab, pos);
      WindowAt(tab, pos, i, p);
    } else if pos > -(LIMB_BITS as int) {
      assert i == -1 && p == LIMB_BITS + pos;
      WindowLow(tab, p);
    } else {
      NegativeWindow(tab, pos);
    }
  }

  lemma WindowAt(tab: seq<Limb>, pos: nat, i: nat, p: nat)
    requires i == pos / LIMB_BITS && p == pos % LIMB_BITS && p < LIMB_BITS && Pow(2, p) > 0 && Pow(2, pos) > 0
    requires Val(tab) / Pow(2, pos) == (Val(tab) / Pow(B, i)) / Pow(2, p)
    ensures (if p == 0 then LimbOr0(tab, i) else Joined(LimbOr0(tab, i), LimbOr0(tab, i + 1), p))
      == (Val(tab) / Pow(2, pos)) % B
  {
    hide *;
    PowStep(2, 0);
    BasePositive();
    PowPositive(B, i);
    DivByOne(Val(tab) / Pow(B, i));
    LimbOr0Is(tab, i);
    if p > 0 {
      LimbOr0Is(tab, i + 1);
      NextLimb(Val(tab), i);
      JoinWindow(Val(tab) / Pow(B, i), p);
    }
  }

  lemma NextLimb(v: nat, i: nat)
    ensures v / Pow(B, i + 1) == (v / Pow(B, i)) / B
  {
    hide *;
    PowStep(B, i);
    BasePositive();
    assert Pow(B, i) > 0;
    assert B * Pow(B, i) == Pow(B, i) * B;
    DivDiv(v, Pow(B, i), B);
  }

  lemma WindowLow(tab: seq<Limb>, p: nat)
    requires 1 <= p < LIMB_BITS
    ensures Joined(LimbOr0(tab, -1), LimbOr0(tab, 0), p) == (Val(tab) * Pow(2, LIMB_BITS - p)) % B
  {
    var v, S, T := Val(tab), Pow(2, p), Pow(2, LIMB_BITS - p);
    SplitBase(p);
    BasePositive();
    assert Joined(LimbOr0(tab, -1), LimbOr0(tab, 0), p) == 0 / S + (LimbOr0(tab, 0) * T) % B;
    PowStep(B, 0);
    hide *;
    LimbOr0Is(tab, 0);
    DivModIdentity(v, 1);
    DivByOne(v);
    ShiftHigh(v, S, T);
    ShiftHigh2(v, S, T);
    SmallDiv(0, S);
  }

  lemma DivByOne(v: nat)
    ensures v / 1 == v
  {}

  lemma ShiftHigh2(q: nat, S: nat, T: nat)
    requires S > 0 && T > 0 && S * T == B
    ensures (q * T) % B == (q % S) * T
  {
    DivModIdentity(q, S);
    var k, r := q / S, q % S;
    assert q * T == k * (S * T) + r * T by { ShiftHighPoly(k, S, T, r); }
    MulMono(r + 1, S, T);
    MulMono(0, r, T);
    assert (r + 1) * T == r * T + T by { MulDist(T, r, 1); }
    DivModIs(q * T, B, k, r * T);
  }

  lemma NegativeWindow(tab: seq<Limb>, pos: int)
    requires pos <= -(LIMB_BITS as int)
    ensures GetBits(tab, pos) == 0 && Window(Val(tab), pos) == 0
  {
    var v, p := Val(tab), pos % LIMB_BITS;
    ShiftedOut(v, -pos);
    if p != 0 {
      Below(pos, p);
      JoinedZero(p);
    }
  }

  lemma JoinedZero(p: nat)
    requires 1 <= p < LIMB_BITS
    ensures Joined(0, 0, p) == 0
  {
    BasePositive();
    SmallDiv(0, Pow(2, p));
    SmallDiv(0, B);
    assert 0 * Pow(2, LIMB_BITS - p) == 0;
  }

  lemma ShiftedOut(v: nat, n: nat)
    requires n >= LIMB_BITS
    ensures B > 0 && (v * Pow(2, n)) % B == 0
  {
    hide *;
    PowAdd(2, LIMB_BITS, n - LIMB_BITS);
    BaseIs();
    BasePositive();
    var k := Pow(2, n - LIMB_BITS);
    ShiftedOutPoly(v, B, k);
    DivModIs(v * Pow(2, n), B, v * k, 0);
  }

  lemma ShiftedOutPoly(v: int, b: int, k: int)
    ensures v * (b * k) == (v * k) * b + 0
  {}

  lemma Below(pos: int, p: int)
    requires pos <= -(LIMB_BITS as int) && p == pos % LIMB_BITS && p != 0
    ensures pos / LIMB_BITS + 1 < 0
  {}
}
