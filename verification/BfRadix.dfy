/** Divide-and-conquer radix conversion of integers (cpp/src/quickjs/libbf.c,
    bf_integer_from_radix_rec, bf_integer_to_radix_rec, bf_pow_ui): the two directions
    undo each other. Integers stand for numbers of unlimited precision. */
module BfRadix {
  import opened Powers
  import opened Limbs
  import opened Bits
  import opened NttInit
  import opened Rounding

  // ---- digits ----

  /** The value of digits, least significant first, in radix R. */
  function Poly(s: seq<Limb>, R: nat): (v: nat)
  {
    if s == [] then 0 else s[0] + R * Poly(s[1..], R)
  }

  predicate DigitsBelow(s: seq<Limb>, R: nat)
  {
    forall i :: 0 <= i < |s| ==> s[i] < R
  }

  lemma {:induction false} PolyConcat(s: seq<Limb>, t: seq<Limb>, R: nat)
    ensures Poly(s + t, R) == Poly(s, R) + Pow(R, |s|) * Poly(t, R)
  {
    if s == [] {
      assert s + t == t;
      PowStep(R, 0);
    } else {
      PolyConcat(s[1..], t, R);
      assert (s + t)[1..] == s[1..] + t;
      PowStep(R, |s| - 1);
      hide Pow, Poly;
      ConcatPoly(R, Poly(s[1..], R), Pow(R, |s| - 1), Poly(t, R));
    }
  }

  lemma ConcatPoly(r: int, v: int, p: int, w: int)
    ensures r * (v + p * w) == r * v + (r * p) * w
  {}

  lemma {:induction false} PolyBound(s: seq<Limb>, R: nat)
    requires DigitsBelow(s, R) && R >= 1
    ensures Poly(s, R) < Pow(R, |s|)
  {
    if s != [] {
      PolyBound(s[1..], R);
      PowStep(R, |s| - 1);
      var v, p := Poly(s[1..], R), Pow(R, |s| - 1);
      hide Pow, Poly;
      MulMono(v + 1, p, R);
      MulDist(R, v, 1);
    }
  }

  /** Digits are determined by the value. */
  lemma {:induction false} PolyUnique(s: seq<Limb>, t: seq<Limb>, R: nat)
    requires |s| == |t| && DigitsBelow(s, R) && DigitsBelow(t, R) && Poly(s, R) == Poly(t, R)
    ensures s == t
  {
    if s != [] {
      MulSwap(R, Poly(s[1..], R));
      MulSwap(R, Poly(t[1..], R));
      DivModUnique(R, Poly(s[1..], R), s[0], Poly(t[1..], R), t[0]);
      PolyUnique(s[1..], t[1..], R);
      assert s == [s[0]] + s[1..] && t == [t[0]] + t[1..];
    }
  }

  lemma PolySmall(x: Limb, y: Limb, R: nat)
    ensures Poly([x], R) == x && Poly([x, y], R) == x + R * y
  {
    assert [x, y][1..] == [y] && [y][1..] == [] && [x][1..] == [];
  }

  // ---- how the digits are split ----

  /** n0 >> level. */
  function Part(n0: nat, level: nat): (f: nat) { n0 / Pow(2, level) }

  /** The low half at a level: the same wherever in the recursion the level is visited. */
  function LowCount(n0: nat, level: nat): (n2: nat)
  {
    ((n0 * 2) / Pow(2, level + 1) + 1) / 2
  }

  /** The lengths that occur at a level. */
  predicate AtLevel(n: nat, level: nat, n0: nat)
  {
    n >= 1 && (n == Part(n0, level) || n == Part(n0, level) + 1)
  }

  lemma LevelStart(n0: nat)
    requires n0 >= 1
    ensures AtLevel(n0, 0, n0)
  {
    PowStep(2, 0);
    assert n0 / 1 == n0;
  }

  lemma LevelPositive(n: nat, level: nat, n0: nat)
    requires AtLevel(n, level, n0)
    ensures n >= 1
  {}

  lemma PartNext(n0: nat, level: nat)
    ensures Part(n0, level + 1) == Part(n0, level) / 2
    ensures LowCount(n0, level) == (Part(n0, level) + 1) / 2
  {
    hide Pow;
    PowStep(2, level);
    PowPositive(2, level);
    DivDiv(n0, Pow(2, level), 2);
    MulSwap(Pow(2, level), 2);
    DivModIdentity(n0, Pow(2, level));
    DoubleOver(n0, Pow(2, level));
  }

  lemma DoubleOver(n: nat, p: nat)
    requires p > 0
    ensures (n * 2) / (2 * p) == n / p
  {
    DivModIdentity(n, p);
    var q, r := n / p, n % p;
    assert n * 2 == q * (2 * p) + 2 * r by { assert (q * p) * 2 == q * (2 * p); }
    DivModIs(n * 2, 2 * p, q, 2 * r);
  }

  /** Both parts are nonempty, of lengths that belong to the next level. */
  lemma SplitFits(n: nat, level: nat, n0: nat)
    requires AtLevel(n, level, n0) && n >= 2
    ensures 1 <= LowCount(n0, level) < n && n - LowCount(n0, level) <= LowCount(n0, level) + 1
    ensures AtLevel(LowCount(n0, level), level + 1, n0) && AtLevel(n - LowCount(n0, level), level + 1, n0)
  {
    hide Part, LowCount;
    PartNext(n0, level);
  }

  /** A level with something to split is within the table of powers. */
  lemma LevelBound(n: nat, level: nat, n0: nat)
    requires AtLevel(n, level, n0) && n >= 2
    ensures level < CeilLog2(n0) + 1
  {
    hide Pow, CeilLog2;
    PowPositive(2, level);
    CeilLog2Is(n0, CeilLog2(n0));
    DivModIdentity(n0, Pow(2, level));
    if level > CeilLog2(n0) {
      PowStrict(2, CeilLog2(n0), level);
      SmallPart(n0, Pow(2, level));
      assert false;
    }
  }

  lemma SmallPart(n0: nat, p: nat)
    requires p > 0
    ensures n0 < p ==> n0 / p == 0
  {
    if n0 < p {
      DivModIs(n0, p, 0, n0);
    }
  }

  // ---- powers ----

  lemma PowBits(a: nat, b: nat, i: nat, r: nat)
    requires r == Pow(a, b / Pow(2, i + 1))
    ensures var h := b / Pow(2, i); Pow(a, h) == if h % 2 == 1 then r * r * a else r * r
  {
    hide Pow;
    PowStep(2, i);
    PowPositive(2, i);
    var h := b / Pow(2, i);
    DivModIdentity(b, Pow(2, i));
    DivDiv(b, Pow(2, i), 2);
    MulSwap(Pow(2, i), 2);
    var g := h / 2;
    PowAdd(a, g, g);
    PowStep(a, g + g);
    MulSwap(a, r * r);
  }

  /** bf_pow_ui: by squaring, from the top bit of b down. */
  method PowUi(a: nat, b: nat) returns (r: nat)
    ensures r == Pow(a, b)
  {
    if b == 0 {
      return 1;
    }
    hide Pow;
    r := a;
    var i: int := BitCount(b) - 1;
    BitCountIs(b, BitCount(b));
    BitCountIs(b, BitCount(b) - 1);
    TopBit(b, BitCount(b) - 1);
    PowStep(a, 0);
    while i > 0
      invariant 0 <= i && r == Pow(a, b / Pow(2, i))
    {
      i := i - 1;
      PowBits(a, b, i, r);
      r := r * r;
      if (b / Pow(2, i)) % 2 == 1 {
        r := r * a;
      }
    }
    PowStep(2, 0);
    assert b / 1 == b;
  }

  lemma TopBit(b: nat, n: int)
    requires n >= 0 ==> Pow(2, n) <= b < Pow(2, n + 1)
    ensures n >= 0 ==> b / Pow(2, n) == 1
  {
    if n >= 0 {
      PowStep(2, n);
      hide Pow;
      DivModIs(b, Pow(2, n), 1, b - Pow(2, n));
    }
  }

  /** Entry l, once filled (it is zero before), is the power that level l uses. */
  ghost predicate PowersOk(pow: seq<nat>, n0: nat, R: nat)
  {
    forall l :: 0 <= l < |pow| ==> PowerOk(pow[l], l, n0, R)
  }

  ghost predicate PowerOk(p: nat, l: nat, n0: nat, R: nat)
  {
    p == 0 || p == Pow(R, LowCount(n0, l))
  }

  /** The power for a level, computed on the first visit. */
  method PowerAt(pow: array<nat>, level: nat, n0: nat, R: nat) returns (p: nat)
    requires level < pow.Length && R >= 1 && PowersOk(pow[..], n0, R)
    modifies pow
    ensures p == Pow(R, LowCount(n0, level)) && PowersOk(pow[..], n0, R)
  {
    hide Pow, LowCount;
    assert PowerOk(pow[..][level], level, n0, R);
    if pow[level] == 0 {
      var q := PowUi(R, LowCount(n0, level));
      ghost var old0 := pow[..];
      pow[level] := q;
      assert pow[..] == old0[level := q];
    }
    p := pow[level];
  }

  // ---- from radix ----

  /** bf_integer_from_radix_rec on the n digits from off on. */
  method FromRadixRec(tab: seq<Limb>, off: nat, n: nat, level: nat, n0: nat, R: nat, pow: array<nat>) returns (r: nat)
    requires AtLevel(n, level, n0) && off + n <= |tab| && R >= 1 && pow.Length >= CeilLog2(n0) + 2
      && PowersOk(pow[..], n0, R)
    modifies pow
    ensures r == Poly(tab[off..off + n], R) && PowersOk(pow[..], n0, R)
    decreases n
  {
    hide *;
    LevelPositive(n, level, n0);
    if n == 1 {
      assert tab[off..off + n] == [tab[off]];
      PolySmall(tab[off], 0, R);
      return tab[off];
    }
    LevelBound(n, level, n0);
    SplitFits(n, level, n0);
    var n2 := LowCount(n0, level);
    var n1 := n - n2;
    var p := PowerAt(pow, level, n0, R);
    r := FromRadixRec(tab, off + n2, n1, level + 1, n0, R, pow);
    r := r * p;
    var t := FromRadixRec(tab, off, n2, level + 1, n0, R, pow);
    r := r + t;
    assert tab[off..off + n] == tab[off..off + n2] + tab[off + n2..off + n];
    PolyConcat(tab[off..off + n2], tab[off + n2..off + n], R);
    MulSwap(p, Poly(tab[off + n2..off + n], R));
  }

  /** bf_integer_from_radix, with the radix R of one limb. */
  method IntegerFromRadix(tab: seq<Limb>, R: nat) returns (r: nat)
    requires |tab| >= 1 && R >= 1
    ensures r == Poly(tab, R)
  {
    hide *;
    LevelStart(|tab|);
    var pow := new nat[CeilLog2(|tab|) + 2](_ => 0);
    EmptyPowers(pow[..], |tab|, R);
    r := FromRadixRec(tab, 0, |tab|, 0, |tab|, R, pow);
    assert tab[0..|tab|] == tab;
  }

  lemma EmptyPowers(pow: seq<nat>, n0: nat, R: nat)
    requires forall l :: 0 <= l < |pow| ==> pow[l] == 0
    ensures PowersOk(pow, n0, R)
  {}

  // ---- to radix ----

  // ---- the quotient by the reciprocal ----

  /** A number rounded to nearest differs from the value by at most its 2^prec-th part. */
  lemma RelativeError(prec: nat, v: real, y: real)
    requires prec >= 1 && RoundsTo(RNDN, false, prec, v, y)
    ensures v > 0.0 && -v <= Product(y - v, Pow(2, prec)) <= v
  {
    hide *;
    var e := RoundScaled(RNDN, false, prec, v, y);
    var k, p := prec - e, Pow(2, prec);
    ScaledBinade(v, e, prec);
    PowStep(2, prec - 1);
    PowPositive(2, prec - 1);
    NearestWithin(Rescale(v, k));
    ErrorScaled(y, v, k, p);
    HalfError(Rescale(y, k) - Rescale(v, k), Rescale(v, k), Pow(2, prec - 1), p);
    CompareScaled(Product(y - v, p), v, k);
    CompareScaled(-v, Product(y - v, p), k);
    NegativeScaled(v, k);
    RescaleZero(k);
    CompareScaled(v, 0.0, k);
  }

  ghost function Product(x: real, m: int): (z: real) { x * m as real }

  lemma NearestWithin(z: real)
    ensures -0.5 <= RoundInt(RNDN, false, z) as real - z <= 0.5
  {}

  lemma ErrorScaled(y: real, v: real, k: int, p: int)
    ensures Rescale(Product(y - v, p), k) == Product(Rescale(y, k) - Rescale(v, k), p)
  {
    var c := Pow2(k);
    assert (y - v) * c == y * c - v * c;
    assert ((y - v) * p as real) * c == ((y - v) * c) * p as real;
  }

  lemma HalfError(d: real, z: real, h: int, p: int)
    requires -0.5 <= d <= 0.5 && p == 2 * h && h > 0 && z >= h as real
    ensures -z <= Product(d, p) <= z
  {
    hide Product;
    HalfOf(d, p);
  }

  lemma HalfOf(d: real, p: int)
    requires -0.5 <= d <= 0.5 && p > 0
    ensures -(p as real) <= Product(d, p) + Product(d, p) <= p as real
  {
    var c := p as real;
    RealMul(d + d, 1.0, c);
    RealMul(-1.0, d + d, c);
    assert (d + d) * c == d * c + d * c;
  }

  lemma RealMul(a: real, b: real, c: real)
    requires a <= b && c >= 0.0
    ensures a * c <= b * c
  {}

  lemma NegativeScaled(v: real, k: int)
    ensures Rescale(-v, k) == -Rescale(v, k)
  {}

  lemma RescaleZero(k: int)
    ensures Rescale(0.0, k) == 0.0
  {}

  /** What the reciprocal B_inv and the product Q give: inv is 1 / R^n2 and x the product a * inv,
      rounded to nearest with the precisions of the source. */
  ghost predicate Quotient(est: int, a: nat, R: nat, bits: nat, n1: nat, n2: nat, inv: real, x: real)
    requires R >= 1
  {
    && RoundsTo(RNDN, false, (n2 + 1) * bits + 2, Inverse(Pow(R, n2)), inv)
    && RoundsTo(RNDN, false, n1 * bits, Product(inv, a), x) && est == x.Floor
  }

  ghost function Inverse(b: nat): (i: real)
    requires b > 0
  {
    1.0 / b as real
  }

  /** Then at most two corrections are needed. */
  lemma FewCorrections(est: int, a: nat, R: nat, bits: nat, n1: nat, n2: nat, inv: real, x: real)
    requires 2 <= R <= Pow(2, bits) && 1 <= n1 <= n2 + 1 && a < Pow(R, n2 + n1)
    requires Quotient(est, a, R, bits, n1, n2, inv, x)
    ensures Pow(R, n2) > 0 && -2 <= a / Pow(R, n2) - est <= 2
  {
    hide *;
    QuotientIs(est, a, R, bits, n1, n2, inv, x);
    PowPositive(R, n2);
    var b, N, P := Pow(R, n2), Pow(2, n1 * bits), Pow(2, (n2 + 1) * bits + 2);
    BitsPositive(R, bits);
    MulMono(1, n1, bits);
    MulMono(n1, n2 + 1, bits);
    PowMono(2, n1 * bits + 2, (n2 + 1) * bits + 2);
    FourTimes(n1 * bits);
    PowPositive(2, n1 * bits);
    RelativeError((n2 + 1) * bits + 2, Inverse(b), inv);
    RelativeError(n1 * bits, Product(inv, a), x);
    PartsBelow(a, R, n2, n1);
    PowerBelow(R, bits, n1);
    DivModIdentity(a, b);
    Close(a, b, a / b, a % b, N, P, Inverse(b), inv, Product(inv, a), x);
  }

  lemma QuotientIs(est: int, a: nat, R: nat, bits: nat, n1: nat, n2: nat, inv: real, x: real)
    requires R >= 1 && Quotient(est, a, R, bits, n1, n2, inv, x)
    ensures Pow(R, n2) > 0 && RoundsTo(RNDN, false, (n2 + 1) * bits + 2, Inverse(Pow(R, n2)), inv)
    ensures RoundsTo(RNDN, false, n1 * bits, Product(inv, a), x) && est == x.Floor
  {
    hide RoundsTo, Product, Pow, Inverse;
  }

  lemma BitsPositive(R: nat, bits: nat)
    requires 2 <= R <= Pow(2, bits)
    ensures bits >= 1
  {}

  lemma FourTimes(n: nat)
    ensures Pow(2, n + 2) == 4 * Pow(2, n)
  {}

  lemma {:induction false} PowerBelow(R: nat, bits: nat, n: nat)
    requires R <= Pow(2, bits)
    ensures n * bits >= 0 && Pow(R, n) <= Pow(2, n * bits)
  {
    hide *;
    MulMono(0, n, bits);
    if n == 0 {
      PowZero(R);
      PowZero(2);
    } else {
      PowerBelow(R, bits, n - 1);
      PowStep(R, n - 1);
      MulDist(bits, n - 1, 1);
      PowAdd(2, bits, (n - 1) * bits);
      MulMono(R, Pow(2, bits), Pow(R, n - 1));
      MulMono(Pow(R, n - 1), Pow(2, (n - 1) * bits), Pow(2, bits));
    }
  }

  /** The two rounding errors add up to less than three halves. */
  lemma Close(a: nat, b: nat, q: nat, r: nat, N: nat, P: nat, i: real, inv: real, u: real, x: real)
    requires b > 0 && a == q * b + r && r < b && q < N && 4 * N <= P && i == Inverse(b) && u == Product(inv, a)
    requires -i <= Product(inv - i, P) <= i && -u <= Product(x - u, N) <= u
    ensures -2 <= q - x.Floor <= 2
  {
    hide *;
    var t := Product(i, a);
    InverseTimes(a, b, q, r);
    ProductError(inv, i, a, P);
    SmallError(u - t, t, N, P);
    RoundError(x - u, u, t, N);
    FloorNear(x, t, q);
  }

  /** a / b lies between its quotient and the next integer. */
  lemma InverseTimes(a: nat, b: nat, q: nat, r: nat)
    requires b > 0 && a == q * b + r && r < b
    ensures q as real <= Product(Inverse(b), a) < q as real + 1.0
  {
    var t := Product(Inverse(b), a);
    TimesInverse(a, b);
    assert t * b as real == a as real;
    assert (q * b) as real == q as real * b as real;
    assert (q as real + 1.0) * b as real == q as real * b as real + b as real;
    if t < q as real {
      RealLess(t, q as real, b as real);
    }
    if t >= q as real + 1.0 {
      RealMul(q as real + 1.0, t, b as real);
    }
  }

  lemma TimesInverse(a: nat, b: nat)
    requires b > 0
    ensures Product(Inverse(b), a) * b as real == a as real
  {
    var i, c, d := Inverse(b), a as real, b as real;
    assert i * d == 1.0;
    assert (i * c) * d == (i * d) * c;
  }

  lemma RealLess(a: real, b: real, c: real)
    requires a < b && c > 0.0
    ensures a * c < b * c
  {}

  lemma ProductError(inv: real, i: real, a: nat, P: nat)
    requires -i <= Product(inv - i, P) <= i
    ensures -Product(i, a) <= Product(Product(inv, a) - Product(i, a), P) <= Product(i, a)
  {
    var d, c, p := inv - i, a as real, P as real;
    assert inv * c - i * c == d * c;
    assert (d * c) * p == (d * p) * c;
    RealMul(d * p, i, c);
    RealMul(-i, d * p, c);
  }

  lemma SmallError(d: real, t: real, N: nat, P: nat)
    requires 0.0 <= t < N as real && 4 * N <= P && -t <= Product(d, P) <= t
    ensures -0.25 < d < 0.25
  {
    var c := P as real;
    assert Product(d, P) == d * c && 0.25 * c >= N as real;
    if d >= 0.25 {
      RealMul(0.25, d, c);
    }
    if d <= -0.25 {
      RealMul(d, -0.25, c);
    }
  }

  lemma RoundError(d: real, u: real, t: real, N: nat)
    requires N >= 1 && 0.0 <= t < N as real && -0.25 < u - t < 0.25 && -u <= Product(d, N) <= u
    ensures -1.25 < d < 1.25
  {
    var c := N as real;
    assert c >= 1.0 && Product(d, N) == d * c && 1.25 * c >= c + 0.25;
    if d >= 1.25 {
      RealMul(1.25, d, c);
    }
    if d <= -1.25 {
      RealMul(d, -1.25, c);
    }
  }

  lemma FloorNear(x: real, t: real, q: nat)
    requires q as real <= t < q as real + 1.0 && -1.5 < x - t < 1.5
    ensures -2 <= q - x.Floor <= 2
  {}

  /** A first quotient, and the corrections that make it exact whatever it was. */
  method CorrectQuotient(a: nat, b: nat, q0: int) returns (q: nat, r: nat, ghost corrections: nat)
    requires b > 0
    ensures q == a / b && r == a % b
    ensures corrections == if q0 <= q then q - q0 else q0 - q
  {
    hide *;
    var rest := a - q0 * b;
    var add := 0;
    corrections := 0;
    while rest < 0
      invariant a == (q0 + add) * b + rest && add <= 0 && corrections == -add && (add < 0 ==> rest < b)
      decreases -rest
    {
      MulDist(b, q0 + add, 1);
      rest := rest + b;
      add, corrections := add - 1, corrections + 1;
    }
    while rest >= b
      invariant a == (q0 + add) * b + rest && rest >= 0 && (add < 0 ==> rest < b && corrections == -add)
      invariant add >= 0 ==> corrections == add
      decreases rest
    {
      MulDist(b, q0 + add, 1);
      rest := rest - b;
      add, corrections := add + 1, corrections + 1;
    }
    DivModIs(a, b, q0 + add, rest);
    DivModIdentity(a, b);
    q, r := q0 + add, rest;
  }

  /** The parts of a number below R^n. */
  lemma PartsBelow(a: nat, R: nat, n2: nat, n1: nat)
    requires R >= 1 && a < Pow(R, n2 + n1)
    ensures Pow(R, n2) > 0 && a / Pow(R, n2) < Pow(R, n1) && a % Pow(R, n2) < Pow(R, n2)
    ensures a == a % Pow(R, n2) + Pow(R, n2) * (a / Pow(R, n2))
  {
    hide *;
    PowPositive(R, n2);
    PowAdd(R, n2, n1);
    DivModIdentity(a, Pow(R, n2));
    MulSwap(Pow(R, n2), a / Pow(R, n2));
    if a / Pow(R, n2) >= Pow(R, n1) {
      MulMono(Pow(R, n1), a / Pow(R, n2), Pow(R, n2));
      MulSwap(Pow(R, n1), Pow(R, n2));
      assert false;
    }
  }

  /** One or two digits, read off the low limbs of a. */
  method SmallDigits(a: nat, n: nat, R: nat) returns (s: seq<Limb>)
    requires 1 <= n <= 2 && 2 <= R < B && a < Pow(R, n)
    ensures |s| == n && DigitsBelow(s, R) && Poly(s, R) == a
  {
    hide *;
    BasePositive();
    PowStep(R, 0);
    PowStep(R, 1);
    if n == 1 {
      DivModIs(a, B, 0, a);
      s := [a % B];
      PolySmall(a, 0, R);
      DigitsOne(a, 0, R);
    } else {
      SmallQuotient(a, R);
      var low, high := a % B, (a / B) % B;
      DivModIdentity(a, B);
      var t := high * B + low;
      s := [t % R, t / R];
      PolySmall(t % R, t / R, R);
      DigitsOne(t % R, t / R, R);
      DivModIdentity(a, R);
      MulSwap(R, t / R);
    }
  }

  lemma DigitsOne(x: Limb, y: Limb, R: nat)
    ensures x < R ==> DigitsBelow([x], R)
    ensures x < R && y < R ==> DigitsBelow([x, y], R)
  {}

  lemma SmallQuotient(a: nat, R: nat)
    requires 2 <= R < B && a < R * R
    ensures 0 <= a / R < R && 0 <= a % R < R && 0 <= a / B < B && a / B == (a / B) % B
  {
    hide *;
    DivModIdentity(a, R);
    DivModIdentity(a, B);
    if a / R >= R {
      MulMono(R, a / R, R);
      assert false;
    }
    if a / B >= B {
      MulMono(B, a / B, B);
      MulMono(R, B, R);
      MulMono(R, B, B);
      assert false;
    }
    DivModIs(a / B, B, 0, a / B);
  }

  /** Every quotient that is not zero comes from the reciprocal. */
  ghost predicate ByReciprocal(estimate: (nat, nat, nat) -> int, R: nat, n0: nat)
    requires R >= 1
  {
    forall level, n1, a :: EstimateOk(estimate(level, n1, a), a, R, n1, LowCount(n0, level))
  }

  ghost predicate EstimateOk(est: int, a: nat, R: nat, n1: nat, n2: nat)
    requires R >= 1
  {
    if a == 0 then est == 0 else exists inv, x :: Quotient(est, a, R, CeilLog2(R), n1, n2, inv, x)
  }

  lemma EstimateNear(est: int, a: nat, R: nat, n1: nat, n2: nat)
    requires 2 <= R && 1 <= n1 <= n2 + 1 && a < Pow(R, n2 + n1) && EstimateOk(est, a, R, n1, n2)
    ensures Pow(R, n2) > 0 && -2 <= a / Pow(R, n2) - est <= 2
  {
    hide Quotient, Pow, CeilLog2;
    PowPositive(R, n2);
    CeilLog2Is(R, CeilLog2(R));
    if a == 0 {
      SmallDiv(0, Pow(R, n2));
    } else {
      var inv, x :| Quotient(est, a, R, CeilLog2(R), n1, n2, inv, x);
      FewCorrections(est, a, R, CeilLog2(R), n1, n2, inv, x);
    }
  }

  lemma EstimateAt(estimate: (nat, nat, nat) -> int, R: nat, n0: nat, level: nat, n1: nat, a: nat)
    requires R >= 1 && ByReciprocal(estimate, R, n0)
    ensures EstimateOk(estimate(level, n1, a), a, R, n1, LowCount(n0, level))
  {
    hide EstimateOk, LowCount;
  }

  function Larger(x: nat, y: nat): (r: nat)
    ensures r >= x && r >= y && (r == x || r == y)
  {
    if x >= y then x else y
  }

  /** bf_integer_to_radix_rec: n digits of a into out, from off on, whatever the quotient by the
      memoised reciprocal is. No step corrects a quotient more often than `most`; that is twice
      with the reciprocal of the source. */
  method ToRadixRec(pow: array<nat>, out: array<Limb>, off: nat, a: nat, n: nat, level: nat, n0: nat, R: nat,
                    estimate: (nat, nat, nat) -> int) returns (ghost most: nat)
    requires AtLevel(n, level, n0) && off + n <= out.Length && 2 <= R < B && pow.Length >= CeilLog2(n0) + 2
      && PowersOk(pow[..], n0, R)
    requires a < Pow(R, n)
    modifies pow, out
    ensures DigitsBelow(out[off..off + n], R) && Poly(out[off..off + n], R) == a && PowersOk(pow[..], n0, R)
    ensures ByReciprocal(estimate, R, n0) ==> most <= 2
    ensures forall i :: 0 <= i < out.Length && !(off <= i < off + n) ==> out[i] == old(out[i])
    decreases n
  {
    hide *;
    LevelPositive(n, level, n0);
    if n <= 2 {
      var s := SmallDigits(a, n, R);
      out[off] := s[0];
      if n == 2 {
        out[off + 1] := s[1];
      }
      assert out[off..off + n] == s;
      return 0;
    }
    LevelBound(n, level, n0);
    SplitFits(n, level, n0);
    var n2 := LowCount(n0, level);
    var n1 := n - n2;
    var p := PowerAt(pow, level, n0, R);
    PartsBelow(a, R, n2, n1);
    var q, r, corrections := CorrectQuotient(a, p, estimate(level, n1, a));
    if ByReciprocal(estimate, R, n0) {
      EstimateAt(estimate, R, n0, level, n1, a);
      EstimateNear(estimate(level, n1, a), a, R, n1, n2);
    }
    most := ToRadixRec(pow, out, off + n2, q, n1, level + 1, n0, R, estimate);
    most := Larger(most, corrections);
    ghost var high := out[off + n2..off + n];
    ghost var more := ToRadixRec(pow, out, off, r, n2, level + 1, n0, R, estimate);
    most := Larger(most, more);
    assert out[off + n2..off + n] == high;
    JoinDigits(out[off..off + n2], high, out[off..off + n], R);
  }

  lemma JoinDigits(low: seq<Limb>, high: seq<Limb>, s: seq<Limb>, R: nat)
    requires s == low + high && DigitsBelow(low, R) && DigitsBelow(high, R)
    ensures DigitsBelow(s, R) && Poly(s, R) == Poly(low, R) + Pow(R, |low|) * Poly(high, R)
  {
    PolyConcat(low, high, R);
  }

  /** bf_integer_to_radix. */
  method IntegerToRadix(a: nat, n: nat, R: nat, estimate: (nat, nat, nat) -> int)
      returns (s: seq<Limb>, ghost most: nat)
    requires n >= 1 && 2 <= R < B && a < Pow(R, n)
    ensures |s| == n && DigitsBelow(s, R) && Poly(s, R) == a
    ensures ByReciprocal(estimate, R, n) ==> most <= 2
  {
    hide *;
    LevelStart(n);
    BasePositive();
    var pow := new nat[CeilLog2(n) + 2](_ => 0);
    var out := new Limb[n](_ => 0);
    EmptyPowers(pow[..], n, R);
    most := ToRadixRec(pow, out, 0, a, n, 0, n, R, estimate);
    s := out[..];
    assert out[0..0 + n] == out[..];
  }

  // ---- round trips ----

  /** To radix after from radix gives the digits back. */
  method DigitsRoundTrip(tab: seq<Limb>, R: nat, estimate: (nat, nat, nat) -> int) returns (v: nat, s: seq<Limb>)
    requires |tab| >= 1 && 2 <= R < B && DigitsBelow(tab, R)
    ensures s == tab
  {
    hide *;
    v := IntegerFromRadix(tab, R);
    PolyBound(tab, R);
    var digits, _ := IntegerToRadix(v, |tab|, R, estimate);
    s := digits;
    PolyUnique(s, tab, R);
  }

  /** From radix after to radix gives the integer back. */
  method ValueRoundTrip(a: nat, n: nat, R: nat, estimate: (nat, nat, nat) -> int) returns (s: seq<Limb>, v: nat)
    requires n >= 1 && 2 <= R < B && a < Pow(R, n)
    ensures v == a && |s| == n
  {
    hide *;
    var digits, _ := IntegerToRadix(a, n, R, estimate);
    s := digits;
    v := IntegerFromRadix(s, R);
  }
}
