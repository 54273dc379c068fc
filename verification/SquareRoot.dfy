/** Integer square root with remainder: the table-driven one-limb root, the
    two-limb base case and the Karatsuba recursion (cpp/src/quickjs/libbf.c,
    mp_sqrtrem1 to mp_sqrtrem). */
module SquareRoot {
  import opened Powers
  import opened Limbs
  import opened LimbOps
  import opened LargeDivision

  /** s and r are the root and remainder of a. */
  ghost predicate IsSqrtRem(a: int, s: int, r: int)
  {
    a == s * s + r && 0 <= r <= 2 * s
  }

  /** Root and remainder are determined by a: s is the floor of the square root. */
  lemma SqrtRemUnique(a: int, s: int, r: int, s': int, r': int)
    requires IsSqrtRem(a, s, r) && IsSqrtRem(a, s', r')
    ensures s == s' && r == r'
  {
    if s < s' {
      SquareGap(s, s');
    } else if s' < s {
      SquareGap(s', s);
    }
  }

  lemma SquareGap(s: int, t: int)
    requires 0 <= s < t
    ensures s * s + 2 * s + 1 <= t * t
  {
    MulMono(s + 1, t, s + 1);
    MulMono(s + 1, t, t);
    assert (s + 1) * (s + 1) == s * s + 2 * s + 1;
  }

  /** One Karatsuba level: the root s1 of the high half, a quotient by 2 * s1 and at
      most one correction give the root of (s1^2 + r1) * beta^2 + a1 * beta + a0. */
  lemma KaratsubaStep(beta: int, s1: int, r1: int, a1: int, a0: int, q: int, u: int)
    requires 0 < beta <= 2 * s1 && 0 <= r1 <= 2 * s1 && 0 <= a1 < beta && 0 <= a0 < beta
    requires r1 * beta + a1 == 2 * (q * s1) + u && 0 <= u < 2 * s1
    ensures 0 <= q <= beta
    ensures var s, r := s1 * beta + q, u * beta + a0 - q * q;
            && (s1 * s1 + r1) * (beta * beta) + a1 * beta + a0 == s * s + r
            && (r >= 0 ==> r <= 2 * s)
            && (r < 0 ==> 0 <= r + 2 * s - 1 <= 2 * (s - 1) && s >= 1)
  {
    KaratsubaQuotient(beta, s1, r1, a1, q, u);
    KaratsubaIdentity(beta, s1, r1, a1, a0, q, u);
    KaratsubaRange(beta, s1, a0, q, u);
  }

  lemma KaratsubaQuotient(beta: int, s1: int, r1: int, a1: int, q: int, u: int)
    requires 0 < beta <= 2 * s1 && 0 <= r1 <= 2 * s1 && 0 <= a1 < beta
    requires r1 * beta + a1 == 2 * (q * s1) + u && 0 <= u < 2 * s1
    ensures 0 <= q <= beta
  {
    MulMono(0, r1, beta);
    MulMono(r1, 2 * s1, beta);
    if q < 0 {
      MulMono(q, -1, s1);
      assert false;
    }
    assert (2 * s1) * beta == 2 * (s1 * beta);
    if q > beta {
      MulMono(beta + 1, q, s1);
      MulDist(s1, beta, 1);
    }
  }

  lemma KaratsubaIdentity(beta: int, s1: int, r1: int, a1: int, a0: int, q: int, u: int)
    requires r1 * beta + a1 == 2 * (q * s1) + u
    ensures (s1 * s1 + r1) * (beta * beta) + a1 * beta + a0
         == (s1 * beta + q) * (s1 * beta + q) + (u * beta + a0 - q * q)
  {
    KaratsubaPoly1(beta, s1, r1, a1);
    KaratsubaPoly2(beta, s1, q, u);
  }

  lemma KaratsubaPoly1(beta: int, s1: int, r1: int, a1: int)
    ensures (s1 * s1 + r1) * (beta * beta) + a1 * beta == s1 * s1 * (beta * beta) + (r1 * beta + a1) * beta
  {}

  lemma KaratsubaPoly2(beta: int, s1: int, q: int, u: int)
    ensures s1 * s1 * (beta * beta) + (2 * (q * s1) + u) * beta == (s1 * beta + q) * (s1 * beta + q) + u * beta - q * q
  {}

  lemma KaratsubaRange(beta: int, s1: int, a0: int, q: int, u: int)
    requires 0 < beta <= 2 * s1 && 0 <= a0 < beta && 0 <= q <= beta && 0 <= u < 2 * s1
    ensures var s, r := s1 * beta + q, u * beta + a0 - q * q;
            && (r >= 0 ==> r <= 2 * s)
            && (r < 0 ==> 0 <= r + 2 * s - 1 <= 2 * (s - 1) && s >= 1)
  {
    MulMono(u + 1, 2 * s1, beta);
    MulDist(beta, u, 1);
    MulMono(0, u, beta);
    MulMono(1, s1, beta);
    DoubleAssoc(beta, s1);
    KaratsubaSquare(beta, s1, q);
  }

  lemma KaratsubaSquare(beta: int, s1: int, q: int)
    requires 0 < beta <= 2 * s1 && 0 <= q <= beta
    ensures 0 <= q * q <= 2 * (beta * s1) && (q == 0 ==> q * q == 0)
  {
    MulMono(0, q, q);
    MulMono(q, beta, q);
    MulMono(q, beta, beta);
    MulMono(beta, 2 * s1, beta);
    DoubleAssoc(beta, s1);
  }

  const ROW0: seq<nat> := [128, 128, 129, 130, 131, 132, 133, 134, 135, 136, 137, 138, 139, 140, 141, 142]
  const ROW1: seq<nat> := [143, 144, 144, 145, 146, 147, 148, 149, 150, 150, 151, 152, 153, 154, 155, 155]
  const ROW2: seq<nat> := [156, 157, 158, 159, 160, 160, 161, 162, 163, 163, 164, 165, 166, 167, 167, 168]
  const ROW3: seq<nat> := [169, 170, 170, 171, 172, 173, 173, 174, 175, 176, 176, 177, 178, 178, 179, 180]
  const ROW4: seq<nat> := [181, 181, 182, 183, 183, 184, 185, 185, 186, 187, 187, 188, 189, 189, 190, 191]
  const ROW5: seq<nat> := [192, 192, 193, 193, 194, 195, 195, 196, 197, 197, 198, 199, 199, 200, 201, 201]
  const ROW6: seq<nat> := [202, 203, 203, 204, 204, 205, 206, 206, 207, 208, 208, 209, 209, 210, 211, 211]
  const ROW7: seq<nat> := [212, 212, 213, 214, 214, 215, 215, 216, 217, 217, 218, 218, 219, 219, 220, 221]
  const ROW8: seq<nat> := [221, 222, 222, 223, 224, 224, 225, 225, 226, 226, 227, 227, 228, 229, 229, 230]
  const ROW9: seq<nat> := [230, 231, 231, 232, 232, 233, 234, 234, 235, 235, 236, 236, 237, 237, 238, 238]
  const ROW10: seq<nat> := [239, 240, 240, 241, 241, 242, 242, 243, 243, 244, 244, 245, 245, 246, 246, 247]
  const ROW11: seq<nat> := [247, 248, 248, 249, 249, 250, 250, 251, 251, 252, 252, 253, 253, 254, 254, 255]

  /** The 16-to-8-bit root table, sixteen entries a row. */
  function SqrtTable(i: nat): (t: nat)
    requires i < 192
  {
    TableRow(i / 16)[i % 16]
  }

  function TableRow(k: nat): (row: seq<nat>)
    requires k < 12
    ensures |row| == 16
  {
    match k
    case 0 => ROW0
    case 1 => ROW1
    case 2 => ROW2
    case 3 => ROW3
    case 4 => ROW4
    case 5 => ROW5
    case 6 => ROW6
    case 7 => ROW7
    case 8 => ROW8
    case 9 => ROW9
    case 10 => ROW10
    case _ => ROW11
  }

  /** An entry is the root of its 16-bit argument or one below it. */
  ghost predicate EntryOk(t: nat, x: nat)
  {
    t * t <= 256 * x && 256 * x + 255 < (t + 2) * (t + 2) && 128 <= t <= 255
  }

  lemma Row0Ok(i: nat)
    requires i < 16
    ensures |ROW0| == 16 && EntryOk(ROW0[i], i + 64)
  {}

  lemma Row1Ok(i: nat)
    requires i < 16
    ensures |ROW1| == 16 && EntryOk(ROW1[i], i + 80)
  {}

  lemma Row2Ok(i: nat)
    requires i < 16
    ensures |ROW2| == 16 && EntryOk(ROW2[i], i + 96)
  {}

  lemma Row3Ok(i: nat)
    requires i < 16
    ensures |ROW3| == 16 && EntryOk(ROW3[i], i + 112)
  {}

  lemma Row4Ok(i: nat)
    requires i < 16
    ensures |ROW4| == 16 && EntryOk(ROW4[i], i + 128)
  {}

  lemma Row5Ok(i: nat)
    requires i < 16
    ensures |ROW5| == 16 && EntryOk(ROW5[i], i + 144)
  {}

  lemma Row6Ok(i: nat)
    requires i < 16
    ensures |ROW6| == 16 && EntryOk(ROW6[i], i + 160)
  {}

  lemma Row7Ok(i: nat)
    requires i < 16
    ensures |ROW7| == 16 && EntryOk(ROW7[i], i + 176)
  {}

  lemma Row8Ok(i: nat)
    requires i < 16
    ensures |ROW8| == 16 && EntryOk(ROW8[i], i + 192)
  {}

  lemma Row9Ok(i: nat)
    requires i < 16
    ensures |ROW9| == 16 && EntryOk(ROW9[i], i + 208)
  {}

  lemma Row10Ok(i: nat)
    requires i < 16
    ensures |ROW10| == 16 && EntryOk(ROW10[i], i + 224)
  {}

  lemma Row11Ok(i: nat)
    requires i < 16
    ensures |ROW11| == 16 && EntryOk(ROW11[i], i + 240)
  {}

  lemma SqrtTableOk(i: nat)
    requires i < 192
    ensures EntryOk(SqrtTable(i), i + 64)
  {
    hide EntryOk;
    TableRowOk(i / 16, i % 16);
  }

  lemma TableRowOk(k: nat, j: nat)
    requires k < 12 && j < 16
    ensures EntryOk(TableRow(k)[j], 16 * k + j + 64)
  {
    hide EntryOk;
    match k
    case 0 => Row0Ok(j);
    case 1 => Row1Ok(j);
    case 2 => Row2Ok(j);
    case 3 => Row3Ok(j);
    case 4 => Row4Ok(j);
    case 5 => Row5Ok(j);
    case 6 => Row6Ok(j);
    case 7 => Row7Ok(j);
    case 8 => Row8Ok(j);
    case 9 => Row9Ok(j);
    case 10 => Row10Ok(j);
    case _ => Row11Ok(j);
  }

  lemma Pow2Values()
    ensures Pow(2, 8) == 256 && Pow(2, 16) == 65536 && Pow(2, 24) == 0x100_0000 && Pow(2, 32) == 0x1_0000_0000
    ensures LIMB_BITS == 64 ==> B == 0x1_0000_0000_0000_0000
    ensures LIMB_BITS == 32 ==> B == 0x1_0000_0000
  {
    hide Pow;
    PowStep(2, 0);
    PowStep(2, 1);
    PowStep(2, 2);
    PowStep(2, 3);
    PowAdd(2, 4, 4);
    PowAdd(2, 8, 8);
    PowAdd(2, 16, 8);
    PowAdd(2, 16, 16);
    PowAdd(2, 32, 32);
  }

  /** The value one level up: (s1^2 + r1) * beta^2 + a1 * beta + a0. */
  ghost function LevelValue(s1: int, r1: int, a1: int, a0: int, beta: int): int
  {
    (s1 * s1 + r1) * (beta * beta) + a1 * beta + a0
  }

  /** Uncorrected root and remainder, and the correction. */
  lemma LevelResult(beta: int, s1: int, r1: int, a1: int, a0: int, q: int, u: int)
    requires 0 < beta <= 2 * s1 && 0 <= r1 <= 2 * s1 && 0 <= a1 < beta && 0 <= a0 < beta
    requires r1 * beta + a1 == q * (2 * s1) + u && 0 <= u < 2 * s1
    ensures 0 <= q <= beta
    ensures var s, r, v := s1 * beta + q, u * beta + a0 - q * q, LevelValue(s1, r1, a1, a0, beta);
            && (r >= 0 ==> IsSqrtRem(v, s, r))
            && (r < 0 ==> IsSqrtRem(v, s - 1, r + 2 * s - 1) && s >= 1)
  {
    hide IsSqrtRem;
    DoubleAssoc(q, s1);
    KaratsubaStep(beta, s1, r1, a1, a0, q, u);
    CorrectRoot(LevelValue(s1, r1, a1, a0, beta), s1 * beta + q, u * beta + a0 - q * q);
  }

  lemma DoubleAssoc(q: int, s: int)
    ensures q * (2 * s) == 2 * (q * s)
  {}

  /** Replacing s by s - 1 moves 2 * s - 1 into the remainder. */
  lemma CorrectRoot(v: int, s: int, r: int)
    requires v == s * s + r
    requires r >= 0 ==> r <= 2 * s
    requires r < 0 ==> 0 <= r + 2 * s - 1 <= 2 * (s - 1)
    ensures r >= 0 ==> IsSqrtRem(v, s, r)
    ensures r < 0 ==> IsSqrtRem(v, s - 1, r + 2 * s - 1)
  {
    assert (s - 1) * (s - 1) == s * s - 2 * s + 1;
  }

  /** One word-sized level: machine words, the remainder wrapping below zero and its
      sign read off the top bit. */
  method SqrtWordStep(s1: Limb, r1: Limb, a1: Limb, a0: Limb, beta: Limb) returns (s: Limb, r: Limb)
    requires 0 < beta <= 2 * s1 && r1 <= 2 * s1 && a1 < beta && a0 < beta
    requires 2 * (s1 * beta) + 2 * beta < HALF && beta * beta <= HALF
    ensures IsSqrtRem(LevelValue(s1, r1, a1, a0, beta), s, r)
  {
    hide *;
    BaseFacts();
    var q, u := WordQuotient(s1, r1, a1, beta);
    ghost var v := LevelValue(s1, r1, a1, a0, beta);
    WordStepFacts(beta, s1, r1, a1, a0, q, u, s1 * beta + q, u * beta + a0, q * q, HALF);
    s, r := CorrectWord(s1 * beta + q, u * beta + a0, q * q);
  }

  method WordQuotient(s1: Limb, r1: Limb, a1: Limb, beta: Limb) returns (q: nat, u: nat)
    requires s1 > 0
    ensures r1 * beta + a1 == q * (2 * s1) + u && u < 2 * s1
  {
    MulMono(0, r1, beta);
    var num: nat := r1 * beta + a1;
    DivModIdentity(num, 2 * s1);
    q, u := num / (2 * s1), num % (2 * s1);
  }

  lemma WordStepFacts(beta: int, s1: int, r1: int, a1: int, a0: int, q: int, u: int, S: int, X: int, Y: int, half: int)
    requires 0 < beta <= 2 * s1 && 0 <= r1 <= 2 * s1 && 0 <= a1 < beta && 0 <= a0 < beta
    requires r1 * beta + a1 == q * (2 * s1) + u && 0 <= u < 2 * s1
    requires S == s1 * beta + q && X == u * beta + a0 && Y == q * q
    requires 2 * (s1 * beta) + 2 * beta < half && beta * beta <= half
    ensures 0 <= X < half && 0 <= Y <= half && 0 <= S && 2 * S < half
    ensures X < Y ==> S >= 1 && X - Y + 2 * S - 1 >= 0
    ensures X >= Y ==> IsSqrtRem(LevelValue(s1, r1, a1, a0, beta), S, X - Y)
    ensures X < Y ==> IsSqrtRem(LevelValue(s1, r1, a1, a0, beta), S - 1, X - Y + 2 * S - 1)
  {
    hide *;
    LevelResult(beta, s1, r1, a1, a0, q, u);
    SqrtWordBounds(s1, beta, q, u, a0);
    LevelRange(LevelValue(s1, r1, a1, a0, beta), S, X - Y);
  }

  lemma LevelRange(v: int, s: int, r: int)
    requires r < 0 ==> IsSqrtRem(v, s - 1, r + 2 * s - 1)
    ensures r < 0 ==> 0 <= r + 2 * s - 1 <= 2 * (s - 1)
  {}

  /** Remainder x - y in wrapped machine arithmetic; if its sign bit is set, one correction. */
  method CorrectWord(s0: Limb, x: Limb, y: Limb) returns (s: Limb, r: Limb)
    requires x < HALF && y <= HALF && 2 * s0 < HALF
    requires x < y ==> s0 >= 1 && x - y + 2 * s0 - 1 >= 0
    ensures x >= y ==> s == s0 && r == x - y
    ensures x < y ==> s == s0 - 1 && r == x - y + 2 * s0 - 1
  {
    BaseFacts();
    s := s0;
    r := SubW(x, y);
    if r >= HALF {
      s := s - 1;
      r := AddW(r, 2 * s + 1);
    }
  }

  lemma SqrtWordBounds(s1: int, beta: int, q: int, u: int, a0: int)
    requires 0 < beta && 0 <= q <= beta && 0 <= u < 2 * s1 && 0 <= a0 < beta
    ensures 0 <= q * q <= beta * beta && 0 <= u * beta && u * beta + a0 < 2 * (s1 * beta) && 0 <= s1 * beta
  {
    MulMono(0, q, q);
    MulMono(q, beta, q);
    MulMono(q, beta, beta);
    MulMono(u + 1, 2 * s1, beta);
    MulMono(0, u, beta);
    MulMono(0, s1, beta);
    MulDist(beta, u, 1);
    assert (2 * s1) * beta == 2 * (s1 * beta);
  }

  /** The 16-bit table step: root and remainder of a 16-bit number at least 2^14. */
  method SqrtTableStep(x: Limb) returns (s: Limb, r: Limb)
    requires 0x4000 <= x < 0x1_0000
    ensures IsSqrtRem(x, s, r) && 128 <= s <= 255
  {
    Pow2Values();
    SqrtTableOk(x / 256 - 64);
    s := SqrtTable(x / 256 - 64);
    TableStepArith(x, s);
    r := x - s * s;
    if r > 2 * s {
      r := r - (2 * s + 1);
      s := s + 1;
    }
  }

  lemma TableStepArith(x: int, s: int)
    requires 0 <= x < 0x1_0000 && s * s <= 256 * (x / 256) && 256 * (x / 256) + 255 < (s + 2) * (s + 2)
      && 128 <= s <= 255
    ensures s * s <= x < (s + 2) * (s + 2)
    ensures x > s * s + 2 * s ==> x - s * s - (2 * s + 1) <= 2 * (s + 1) && s + 1 <= 255
    ensures (s + 1) * (s + 1) == s * s + 2 * s + 1
  {
    assert (s + 2) * (s + 2) == s * s + 4 * s + 4;
  }

  /** a >> k for a 32-bit-or-wider limb: the leading 32 bits decide the shorter prefixes. */
  lemma Leading32(a: Limb)
    ensures LIMB_BITS >= 32 && Pow(2, LIMB_BITS - 32) > 0
    ensures var y := a / Pow(2, LIMB_BITS - 32);
            y < 0x1_0000_0000 && a / Pow(2, LIMB_BITS - 16) == y / 0x1_0000 && a / Pow(2, LIMB_BITS - 24) == y / 0x100
    ensures 4 * a >= B ==> a / Pow(2, LIMB_BITS - 32) >= 0x4000_0000
  {
    var p := Pow(2, LIMB_BITS - 32);
    Pow2Values();
    PowAdd(2, LIMB_BITS - 32, 32);
    PowAdd(2, LIMB_BITS - 32, 16);
    PowAdd(2, LIMB_BITS - 32, 8);
    DivDiv(a, p, 0x1_0000);
    DivDiv(a, p, 0x100);
    DivBelowBound(a, p, 0x1_0000_0000);
    if 4 * a >= B {
      DivAboveBound(a, p, 0x4000_0000);
    }
  }

  lemma DivDiv(a: nat, p: nat, q: nat)
    requires p > 0 && q > 0
    ensures p * q > 0 && a / (p * q) == (a / p) / q
  {
    MulMono(1, p, q);
    DivModIdentity(a, p);
    DivModIdentity(a / p, q);
    DivDivArith(a, p, q, a / p, a % p, (a / p) / q, (a / p) % q);
  }

  lemma DivDivArith(a: int, p: int, q: int, x: int, r: int, y: int, t: int)
    requires 0 < p && 0 < q && a == x * p + r && 0 <= r < p && x == y * q + t && 0 <= t < q && 0 < p * q
    ensures a / (p * q) == y
  {
    DivDivPoly(p, q, y, t);
    MulMono(t + 1, q, p);
    MulMono(0, t, p);
    MulDist(p, t, 1);
    DivModIs(a, p * q, y, t * p + r);
  }

  lemma DivDivPoly(p: int, q: int, y: int, t: int)
    ensures (y * q + t) * p == y * (p * q) + t * p
  {}

  lemma DivBelowBound(a: nat, p: nat, m: nat)
    requires p > 0 && a < p * m
    ensures a / p < m
  {
    DivModIdentity(a, p);
    if a / p >= m {
      MulMono(m, a / p, p);
      assert false;
    }
  }

  lemma DivAboveBound(a: nat, p: nat, m: nat)
    requires p > 0 && p * m <= a
    ensures a / p >= m
  {
    DivModIdentity(a, p);
    if a / p < m {
      MulMono(a / p + 1, m, p);
      MulDist(p, a / p, 1);
      assert false;
    }
  }

  /** Root and remainder of one limb whose two leading bits are not both zero. */
  method MpSqrtrem1(a: Limb) returns (s: Limb, r: Limb)
    requires 4 * a >= B
    ensures IsSqrtRem(a, s, r)
  {
    hide *;
    Pow2Values();
    BaseFacts();
    Leading32(a);
    var y: Limb := a / Pow(2, LIMB_BITS - 32);
    var s1, r1 := SqrtTableStep(a / Pow(2, LIMB_BITS - 16));
    Level16(y, s1, r1);
    s, r := SqrtWordStep(s1, r1, (a / Pow(2, LIMB_BITS - 24)) % 0x100, y % 0x100, 0x100);
    if LIMB_BITS == 64 {
      SqrtRemRange(y, s, r);
      Level32(a, s, r);
      s, r := SqrtWordStep(s, r, (a / 0x1_0000) % 0x1_0000, a % 0x1_0000, 0x1_0000);
    } else {
      PowStep(2, 0);
    }
  }

  lemma Level16(y: int, s1: int, r1: int)
    requires 0 <= y && IsSqrtRem(y / 0x1_0000, s1, r1)
    ensures LevelValue(s1, r1, (y / 0x100) % 0x100, y % 0x100, 0x100) == y
    ensures r1 <= 2 * s1
  {}

  lemma Level32(a: int, s1: int, r1: int)
    requires 0 <= a && IsSqrtRem(a / Pow(2, 32), s1, r1)
    ensures LevelValue(s1, r1, (a / 0x1_0000) % 0x1_0000, a % 0x1_0000, 0x1_0000) == a
    ensures r1 <= 2 * s1
  {
    Pow2Values();
  }

  lemma SqrtRemRange(y: int, s: int, r: int)
    requires IsSqrtRem(y, s, r) && 0x4000_0000 <= y < 0x1_0000_0000
    ensures 0x8000 <= s < 0x1_0000 && 0 <= r <= 2 * s
  {
    if s >= 0x1_0000 {
      MulMono(0x1_0000, s, s);
      assert false;
    }
    if s < 0x8000 {
      MulMono(s, 0x7fff, s);
      assert false;
    }
  }

  /** The root of a number below m^2 is below m; that of one at least (m/2)^2 is at least m/2. */
  lemma RootRange(v: int, s: int, r: int, m: int)
    requires IsSqrtRem(v, s, r) && 0 < m && m % 2 == 0
    ensures v < m * m ==> s < m
    ensures m * m <= 4 * v ==> m <= 2 * s
  {
    var h := m / 2;
    if s >= m {
      MulMono(m, s, s);
      MulMono(m, s, m);
    }
    if s < h {
      MulMono(s + 1, h, s + 1);
      MulMono(s + 1, h, h);
      assert (s + 1) * (s + 1) == s * s + 2 * s + 1;
      assert (2 * h) * (2 * h) == 4 * (h * h);
    }
  }

  lemma HalfWord()
    ensures var beta := Pow(2, LIMB_BITS / 2); beta * beta == B && 0 < beta < B && beta % 2 == 0
  {
    hide Pow;
    PowAdd(2, LIMB_BITS / 2, LIMB_BITS / 2);
    PowStep(2, LIMB_BITS / 2 - 1);
    PowStrict(2, LIMB_BITS / 2, LIMB_BITS);
    assert LIMB_BITS / 2 + LIMB_BITS / 2 == LIMB_BITS;
  }

  /** A signed value in a double word. */
  lemma DoubleWordSign(b: int, h: int, x: int)
    requires b == 2 * h && 4 <= h && -b <= x < 2 * b
    ensures 0 < b * b
    ensures x >= 0 ==> x % (b * b) == x && x / b < h
    ensures x < 0 ==> x % (b * b) == x + b * b && (x + b * b) / b >= h
  {
    MulMono(8, b, b);
    if x >= 0 {
      DivModIs(x, b * b, 0, x);
      DivModIdentity(x, b);
      if x / b >= h {
        MulMono(h, x / b, b);
        MulMono(4, h, b);
      }
    } else {
      DivModIs(x, b * b, -1, x + b * b);
      MulDist(b, b, 1);
      DivAboveBound(x + b * b, b, b - 1);
    }
  }

  /** The uncorrected root, its remainder x - y in wrapped double words, one correction. */
  method CorrectDouble(S: nat, x: nat, y: nat) returns (s: Limb, r: nat)
    requires S <= B && x < 2 * B && y <= B
    requires x >= y ==> S < B && x - y <= 2 * S
    requires x < y ==> S >= 1 && 0 <= x - y + 2 * S - 1 <= 2 * (S - 1)
    ensures x >= y ==> s == S && r == x - y
    ensures x < y ==> s == S - 1 && r == x - y + 2 * S - 1
  {
    hide Pow;
    BaseFacts();
    DoubleWordSign(B, HALF, x - y);
    s := if S < B then S else S - B;
    r := (x - y) % (B * B);
    if r / B >= HALF {
      s := SubW(s, 1);
      MulMono(8, B, B);
      DivModIs(x - y + B * B + 2 * s + 1, B * B, 1, x - y + 2 * s + 1);
      r := (r + 2 * s + 1) % (B * B);
    }
  }

  lemma TwoLimbStep(beta: int, b: int, s1: int, r1: int, a1: int, a0: int, q: int, u: int)
    requires beta * beta == b && 0 < beta && beta % 2 == 0 && IsSqrtRem(a1, s1, r1) && 0 <= a1 < b && b <= 4 * a1
      && 0 <= a0 < b
    requires r1 * beta + a0 / beta == q * (2 * s1) + u && 0 <= u < 2 * s1
    ensures var S, X, Y, v := s1 * beta + q, u * beta + a0 % beta, q * q, a1 * b + a0;
            && 0 <= q <= beta && 0 <= S <= b && 0 <= X < 2 * b && 0 <= Y <= b
            && (X >= Y ==> S < b && IsSqrtRem(v, S, X - Y))
            && (X < Y ==> S >= 1 && IsSqrtRem(v, S - 1, X - Y + 2 * S - 1))
  {
    var S, X, Y, v := s1 * beta + q, u * beta + a0 % beta, q * q, a1 * b + a0;
    RootRange(a1, s1, r1, beta);
    DivModIdentity(a0, beta);
    DivBelowBound(a0, beta, beta);
    LevelResult(beta, s1, r1, a0 / beta, a0 % beta, q, u);
    TwoLimbValue(beta, b, s1, r1, a1, a0);
    SqrtWordBounds(s1, beta, q, u, a0 % beta);
    MulMono(s1 + 1, beta, beta);
    MulDist(beta, s1, 1);
    MulMono(a1 + 1, b, b);
    MulDist(b, a1, 1);
    if X >= Y {
      RootEvenRange(v, S, X - Y, b);
    }
  }

  lemma RootEvenRange(v: int, s: int, r: int, m: int)
    requires IsSqrtRem(v, s, r) && 0 < m && v < m * m
    ensures s < m
  {
    if s >= m {
      MulMono(m, s, s);
      MulMono(m, s, m);
    }
  }

  lemma TwoLimbValue(beta: int, b: int, s1: int, r1: int, a1: int, a0: int)
    requires beta * beta == b && 0 < beta && a1 == s1 * s1 + r1 && 0 <= a0
    ensures LevelValue(s1, r1, a0 / beta, a0 % beta, beta) == a1 * b + a0
  {
    DivModIdentity(a0, beta);
  }

  /** Root of the two limbs a[ao..ao+2]: the root to sa[so], the remainder to a[ao]
      with its high limb returned. */
  method MpSqrtrem2(sa: array<Limb>, so: nat, a: array<Limb>, ao: nat) returns (rh: Limb)
    requires so < sa.Length && ao + 2 <= a.Length && sa != a && 4 * a[ao + 1] >= B
    modifies sa, a
    ensures rh <= 1
    ensures IsSqrtRem(old(a[ao + 1]) * B + old(a[ao]), sa[so], rh * B + a[ao])
    ensures forall i :: 0 <= i < sa.Length && i != so ==> sa[i] == old(sa[i])
    ensures forall i :: 0 <= i < a.Length && i != ao ==> a[i] == old(a[i])
  {
    hide *;
    var a0, a1 := a[ao], a[ao + 1];
    HalfWord();
    var beta: Limb := Pow(2, LIMB_BITS / 2);
    var s1, r1 := MpSqrtrem1(a1);
    DivModIdentity(a0, beta);
    DivBelowBound(a0, beta, beta);
    RootRange(a1, s1, r1, beta);
    var q, u := WordQuotient(s1, r1, a0 / beta, beta);
    TwoLimbStep(beta, B, s1, r1, a1, a0, q, u);
    var y: nat := if q >= beta then B else q * q;
    LevelRange(a1 * B + a0, s1 * beta + q, u * beta + a0 % beta - y);
    RootRemainder(a1 * B + a0, s1 * beta + q, u * beta + a0 % beta - y);
    var s, r := CorrectDouble(s1 * beta + q, u * beta + a0 % beta, y);
    sa[so] := s;
    DivModIdentity(r, B);
    RootRemainder(a1 * B + a0, s, r);
    HighLimbSmall(r, B, s);
    a[ao] := r % B;
    rh := r / B;
  }

  lemma RootRemainder(v: int, s: int, r: int)
    ensures IsSqrtRem(v, s, r) ==> 0 <= r <= 2 * s
  {}

  lemma HighLimbSmall(r: int, b: int, s: int)
    requires 2 <= b && 0 <= r <= 2 * s && s < b
    ensures r / b <= 1 && 0 <= r / b && 0 <= r % b < b
  {
    DivModIdentity(r, b);
    DivBelowBound(r, b, 2);
  }

  lemma HalveQuotient(bl: int, s1: int, t: int, top: int, qh: int, low: int, ql: int, rem: int, num: int)
    requires num == (t + bl * (top + qh)) * s1 + rem && 0 <= top + qh
    requires low * 2 + ql == t + ((top + qh) % 2) * bl
    ensures num == ((low + bl * ((top + qh) / 2)) * (2 * s1)) + (rem + ql * s1)
  {
    var k := top + qh;
    assert k == 2 * (k / 2) + k % 2;
    HalvePoly(bl, k / 2, k % 2);
    assert t + bl * k == 2 * (low + bl * (k / 2)) + ql;
    HalvePoly2(low + bl * (k / 2), ql, s1);
  }

  lemma HalvePoly(bl: int, x: int, y: int)
    ensures bl * (2 * x + y) == 2 * (bl * x) + y * bl
  {}

  lemma HalvePoly2(x: int, ql: int, s1: int)
    ensures (2 * x + ql) * s1 == x * (2 * s1) + ql * s1
  {}

  /** Divide the high remainder (its top bit in qh) and the next l limbs by 2 * s1:
      divide by the normalised s1, halve the quotient, and give back one s1 if it was
      odd. Quotient: sa[so..so+l] with top bit qh'; remainder: a[ao+l..ao+l+h] with
      top bit rh. */
  method SqrtDivide(sa: array<Limb>, so: nat, a: array<Limb>, ao: nat, n: nat, l: nat, h: nat,
      tmp: array<Limb>, qh: Limb)
      returns (qh': Limb, rh: Limb)
    requires n >= 2 && l == n / 2 && h == n - l
    requires so + n <= sa.Length && ao + 2 * n <= a.Length && l + 1 <= tmp.Length
    requires sa != a && tmp != a && tmp != sa && qh <= 1 && sa[so + n - 1] >= HALF
    requires Val(a[ao + 2 * l..ao + 2 * l + h]) + qh * Pow(B, h) <= 2 * Val(sa[so + l..so + n])
    modifies sa, a, tmp
    ensures qh' <= 1 && rh <= 1
    ensures sa[so + l..so + n] == old(sa[so + l..so + n])
    ensures var s1 := Val(sa[so + l..so + n]);
            var q, u := Val(sa[so..so + l]) + Pow(B, l) * qh', Val(a[ao + l..ao + l + h]) + rh * Pow(B, h);
            && u < 2 * s1
            && old(Val(a[ao + 2 * l..ao + 2 * l + h]) + qh * Pow(B, h)) * Pow(B, l) + old(Val(a[ao + l..ao + 2 * l]))
               == q * (2 * s1) + u
    ensures forall i :: 0 <= i < sa.Length && !(so <= i < so + l) ==> sa[i] == old(sa[i])
    ensures forall i :: 0 <= i < a.Length && !(ao + l <= i < ao + l + n) ==> a[i] == old(a[i])
  {
    hide *;
    BaseFacts();
    ghost var ss := sa[so + l..so + n];
    ghost var s1 := Val(ss);
    ghost var num := (Val(a[ao + 2 * l..ao + 2 * l + h]) + qh * Pow(B, h)) * Pow(B, l) + Val(a[ao + l..ao + 2 * l]);
    var top := DivideByRoot(sa, so, a, ao, n, l, h, tmp, qh);
    assert sa[so + l..so + n] == ss;
    CopyLimbs(sa, so, tmp, 0, l);
    assert sa[so + l..so + n] == ss;
    var k := top + qh;
    ghost var t := Val(tmp[0..l]);
    assert tmp[0..0 + l] == tmp[0..l];
    PowStep(2, 0);
    var ql := MpShr(sa, so, l, 1, k % 2);
    assert sa[so + l..so + n] == ss;
    qh' := k / 2;
    ghost var rem := Val(a[ao + l..ao + l + h]);
    HalveQuotient(Pow(B, l), s1, t, top, qh, Val(sa[so..so + l]), ql, rem, num);
    if ql != 0 {
      rh := MpAdd(a, ao + l, sa, so + l, h, 0);
      assert sa[so + l..so + l + h] == ss;
    } else {
      rh := 0;
    }
  }

  lemma JoinQuotient(bl: int, bh: int, low: int, r1: int, qh: int, s1: int, x: int, a1: int, hi: int, q: int,
      top: int, t: int, rem: int)
    requires r1 == low + qh * bh && hi == r1 - qh * s1 && x == a1 + bl * hi
    requires x == q * s1 + rem && q == t + bl * top
    ensures (low + qh * bh) * bl + a1 == (t + bl * (top + qh)) * s1 + rem
  {
    JoinPoly(bl, r1, qh, s1, top, t);
  }

  lemma JoinPoly(bl: int, r1: int, qh: int, s1: int, top: int, t: int)
    ensures bl * (r1 - qh * s1) == r1 * bl - (bl * qh) * s1
    ensures (t + bl * (top + qh)) * s1 == (t + bl * top) * s1 + (bl * qh) * s1
  {}

  lemma DivisionJoined(a1: seq<Limb>, hi: seq<Limb>, t: seq<Limb>, top: Limb, low: int, r1: int, qh: int, s1: int,
      bh: int, rem: int)
    requires r1 == low + qh * bh && Val(hi) == r1 - qh * s1
    requires Val(a1 + hi) == Val(t + [top]) * s1 + rem && |t| == |a1|
    ensures (low + qh * bh) * Pow(B, |a1|) + Val(a1) == (Val(t) + Pow(B, |a1|) * (top + qh)) * s1 + rem
  {
    hide *;
    ValConcat(a1, hi);
    ValSnoc(t, top);
    JoinQuotient(Pow(B, |a1|), bh, low, r1, qh, s1, Val(a1 + hi), Val(a1), Val(hi), Val(t + [top]), top, Val(t), rem);
  }

  /** Subtract the root once from the remainder if that has a top bit, which the borrow then cancels. */
  method TakeRoot(sa: array<Limb>, so: nat, a: array<Limb>, ao: nat, h: nat, qh: Limb, ghost s1: nat)
    requires so + h <= sa.Length && ao + h <= a.Length && sa != a && qh <= 1 && s1 == Val(sa[so..so + h])
    requires Val(a[ao..ao + h]) + qh * Pow(B, h) <= 2 * s1
    modifies a
    ensures Val(a[ao..ao + h]) == old(Val(a[ao..ao + h])) + qh * Pow(B, h) - qh * s1
    ensures forall i :: 0 <= i < a.Length && !(ao <= i < ao + h) ==> a[i] == old(a[i])
  {
    hide *;
    ValBound(sa[so..so + h]);
    if qh != 0 {
      var k := MpSub(a, ao, sa, so, h, 0);
      ValBound(a[ao..ao + h]);
      if k == 0 {
        assert false;
      }
    }
  }

  /** The division by s1 itself: quotient tmp[0..l], top quotient limb returned. */
  method DivideByRoot(sa: array<Limb>, so: nat, a: array<Limb>, ao: nat, n: nat, l: nat, h: nat,
      tmp: array<Limb>, qh: Limb)
      returns (top: Limb)
    requires n >= 2 && l == n / 2 && h == n - l
    requires so + n <= sa.Length && ao + 2 * n <= a.Length && l + 1 <= tmp.Length
    requires sa != a && tmp != a && tmp != sa && qh <= 1 && sa[so + n - 1] >= HALF
    requires Val(a[ao + 2 * l..ao + 2 * l + h]) + qh * Pow(B, h) <= 2 * Val(sa[so + l..so + n])
    modifies a, tmp
    ensures top <= 1 && Val(a[ao + l..ao + l + h]) < Val(sa[so + l..so + n])
    ensures old(Val(a[ao + 2 * l..ao + 2 * l + h]) + qh * Pow(B, h)) * Pow(B, l) + old(Val(a[ao + l..ao + 2 * l]))
         == (Val(tmp[0..l]) + Pow(B, l) * (top + qh)) * Val(sa[so + l..so + n]) + Val(a[ao + l..ao + l + h])
    ensures forall i :: 0 <= i < a.Length && !(ao + l <= i < ao + l + n) ==> a[i] == old(a[i])
  {
    hide *;
    ghost var ss := sa[so + l..so + n];
    assert ss == sa[so + l..so + l + h];
    ghost var s1, low, a1s := Val(ss), Val(a[ao + 2 * l..ao + 2 * l + h]), a[ao + l..ao + 2 * l];
    ghost var r1 := low + qh * Pow(B, h);
    TakeRoot(sa, so + l, a, ao + 2 * l, h, qh, s1);
    assert a[ao + l..ao + 2 * l] == a1s;
    ghost var hi := a[ao + 2 * l..ao + 2 * l + h];
    assert a[ao + l..ao + l + n] == a1s + hi;
    MpDivnorm(tmp, 0, a, ao + l, n, sa, so + l, h);
    top := tmp[l];
    assert tmp[0..0 + (n - h) + 1] == tmp[0..l] + [top];
    DivisionJoined(a1s, hi, tmp[0..l], top, low, r1, qh, s1, Pow(B, h), Val(a[ao + l..ao + l + h]));
  }

  lemma BorrowUpArith(p: int, pm: int, lo: int, hi: int, lo': int, hi': int, c: int, k: int, d: int, L: int, L': int,
      w: int)
    requires lo' == lo - d + c * p && hi' == hi - c + k * pm
    requires L == lo + p * hi && L' == lo' + p * hi' && w == p * pm
    ensures L' == L - d + k * w
  {
    SubWideArith(p, pm, lo, hi, d, lo', hi', c, k);
  }

  /** A difference on the low limbs and the borrow on the upper ones make one on all. */
  lemma BorrowUp(s0: seq<Limb>, s2: seq<Limb>, lo: nat, m: nat, hi: nat, d: int, c: int, k: int)
    requires lo <= m <= hi <= |s0| == |s2|
    requires Val(s2[lo..m]) == Val(s0[lo..m]) - d + c * Pow(B, m - lo)
    requires Val(s2[m..hi]) == Val(s0[m..hi]) - c + k * Pow(B, hi - m)
    ensures Val(s2[lo..hi]) == Val(s0[lo..hi]) - d + k * Pow(B, hi - lo)
  {
    hide *;
    ValSplit(s0, lo, m, hi);
    ValSplit(s2, lo, m, hi);
    PowAdd(B, m - lo, hi - m);
    BorrowUpArith(Pow(B, m - lo), Pow(B, hi - m), Val(s0[lo..m]), Val(s0[m..hi]), Val(s2[lo..m]), Val(s2[m..hi]), c, k,
                  d, Val(s0[lo..hi]), Val(s2[lo..hi]), Pow(B, hi - lo));
  }

  /** The low limbs: q is B^l, or the square of its limbs is formed in the upper half of a. */
  method SubtractSquareLow(sa: array<Limb>, so: nat, a: array<Limb>, ao: nat, n: nat, l: nat, qh: Limb, ghost q: nat)
      returns (c: Limb)
    requires 1 <= l && 2 * l <= n && so + l <= sa.Length && ao + 2 * n <= a.Length && sa != a
    requires qh <= 1 && q == Val(sa[so..so + l]) + Pow(B, l) * qh <= Pow(B, l)
    modifies a
    ensures c <= 1 && Val(a[ao..ao + 2 * l]) == old(Val(a[ao..ao + 2 * l])) - q * q + c * Pow(B, 2 * l)
    ensures forall i :: 0 <= i < a.Length && !(ao <= i < ao + 2 * l) && !(ao + n <= i < ao + 2 * n) ==>
              a[i] == old(a[i])
  {
    hide *;
    BaseFacts();
    ghost var as0 := a[..];
    if qh != 0 {
      c := qh;
      assert q == Pow(B, l);
      PowAdd(B, l, l);
    } else {
      MpMul(a, ao + n, sa, so, l, sa, so, l);
      assert a[ao + n..ao + n + l + l] == a[ao + n..ao + n + 2 * l];
      assert a[ao..ao + 2 * l] == as0[ao..ao + 2 * l];
      c := MpSub(a, ao, a, ao + n, 2 * l, 0);
    }
    assert as0[ao..ao + 2 * l] == old(a[ao..ao + 2 * l]);
  }

  /** a[ao..ao+n] -= q^2 for q = sa[so..so+l] + qh * B^l at most B^l, the square formed
      in the unused upper half of a; the borrow is taken from rh, wrapping. */
  method SqrtSubtractSquare(sa: array<Limb>, so: nat, a: array<Limb>, ao: nat, n: nat, l: nat, qh: Limb, rh: Limb)
      returns (rh': Limb, ghost k: nat)
    requires 1 <= l && 2 * l <= n && so + l <= sa.Length && ao + 2 * n <= a.Length && sa != a
    requires qh <= 1 && rh <= 1
    requires Val(sa[so..so + l]) + Pow(B, l) * qh <= Pow(B, l)
    modifies a
    ensures k <= 1 && rh' == (if rh >= k then rh - k else B - 1)
    ensures var q := Val(sa[so..so + l]) + Pow(B, l) * qh;
            Val(a[ao..ao + n]) == old(Val(a[ao..ao + n])) - q * q + k * Pow(B, n)
    ensures forall i :: 0 <= i < a.Length && !(ao <= i < ao + 2 * n) ==> a[i] == old(a[i])
  {
    hide *;
    BaseFacts();
    ghost var q: nat := Val(sa[so..so + l]) + Pow(B, l) * qh;
    var m := ao + 2 * l;
    ghost var as0 := a[..];
    var c := SubtractSquareLow(sa, so, a, ao, n, l, qh, q);
    ghost var as1 := a[..];
    assert as1[m..ao + n] == as0[m..ao + n];
    assert as1[m..ao + n] == a[m..m + (n - 2 * l)];
    var k1 := MpSubUi(a, m, c, n - 2 * l);
    k := k1;
    ghost var as2 := a[..];
    assert as2[ao..m] == as1[ao..m];
    assert as2[m..ao + n] == a[m..m + (n - 2 * l)];
    BorrowUp(as0, as2, ao, m, ao + n, q * q, c, k1);
    assert as2[ao..ao + n] == a[ao..ao + n] && as0[ao..ao + n] == old(a[ao..ao + n]);
    var b: Limb;
    rh', b := SubWord(rh, k1);
  }

  lemma FoldRemainder(v: int, s: int, p: int, low: int, c1: int, c2: int)
    requires 0 <= low < p && 0 <= c1 && 0 <= c2 && v == low + (c1 + c2 - 1) * p && 0 <= v <= 2 * s && s < p
    ensures 1 <= c1 + c2 <= 2
  {
    if c1 + c2 < 1 {
      MulMono(c1 + c2 - 1, -1, p);
    }
    if c1 + c2 > 2 {
      MulMono(2, c1 + c2 - 1, p);
    }
  }

  lemma WrapRoot(S: int, s: int, kc: int, k3: int, S': int, p: int)
    requires S == s - kc * p && S' == S - 1 + k3 * p && 0 <= S' < p && 0 <= s - 1 < p
    ensures S' == s - 1
  {
    MulDist(p, k3, kc);
    DivModUnique(p, k3 - kc, s - 1, 0, S');
  }

  lemma RemainderSum(x: int, x1: int, x2: int, S: int, c1: int, c2: int, p: int)
    requires x1 + c1 * p == x + S * 2 && x2 == x1 + 1 - c2 * p
    ensures x2 + (c1 + c2 - 1) * p == x - p + 2 * S + 1
  {
    assert (c1 + c2 - 1) * p == c1 * p + c2 * p - p;
  }

  /** The single correction: root down by one, remainder up by 2 * root + 1. The
      remainder is a[ao..ao+n] - B^n on entry. */
  method SqrtCorrect(sa: array<Limb>, so: nat, a: array<Limb>, ao: nat, n: nat, ghost s: int, ghost kc: int)
      returns (rh: Limb)
    requires n >= 1 && so + n <= sa.Length && ao + n <= a.Length && sa != a
    requires Val(sa[so..so + n]) == s - kc * Pow(B, n) && 0 <= s - 1 < Pow(B, n)
    requires 0 <= Val(a[ao..ao + n]) - Pow(B, n) + 2 * s - 1 <= 2 * (s - 1)
    modifies sa, a
    ensures rh <= 1 && Val(sa[so..so + n]) == s - 1
    ensures Val(a[ao..ao + n]) + rh * Pow(B, n) == old(Val(a[ao..ao + n])) - Pow(B, n) + 2 * s - 1
    ensures forall i :: 0 <= i < sa.Length && !(so <= i < so + n) ==> sa[i] == old(sa[i])
    ensures forall i :: 0 <= i < a.Length && !(ao <= i < ao + n) ==> a[i] == old(a[i])
  {
    hide *;
    BaseFacts();
    ghost var p, S, x := Pow(B, n), Val(sa[so..so + n]), Val(a[ao..ao + n]);
    var k3 := MpSubUi(sa, so, 1, n);
    ValBound(sa[so..so + n]);
    WrapRoot(S, s, kc, k3, Val(sa[so..so + n]), p);
    ghost var ss := sa[so..so + n];
    var c1 := MpAddMul1(a, ao, sa, so, n, 2);
    ghost var x1 := Val(a[ao..ao + n]);
    var c2 := MpAddUi(a, ao, 1, n);
    assert sa[so..so + n] == ss;
    RemainderSum(x, x1, Val(a[ao..ao + n]), Val(ss), c1, c2, p);
    ValBound(a[ao..ao + n]);
    FoldRemainder(x - p + 2 * s - 1, s - 1, p, Val(a[ao..ao + n]), c1, c2);
    rh := WrapTop(c1, c2);
  }

  /** rh = -1 + c1 + c2 in wrapped limbs. */
  method WrapTop(c1: Limb, c2: Limb) returns (rh: Limb)
    requires 1 <= c1 + c2 <= 2
    ensures rh == c1 + c2 - 1
  {
    BaseFacts();
    rh := AddW(AddW(B - 1, c1), c2);
  }

  /** The 2n-limb radicand seen from the split at l limbs. */
  lemma RadicandSplit(v: seq<Limb>, n: nat, l: nat, s1: int, r1: int)
    requires |v| == 2 * n && 2 * l <= n && IsSqrtRem(Val(v[2 * l..]), s1, r1)
    ensures Val(v) == LevelValue(s1, r1, Val(v[l..2 * l]), Val(v[..l]), Pow(B, l))
    ensures Val(v[l..2 * l]) < Pow(B, l) && Val(v[..l]) < Pow(B, l)
  {
    hide Val, Pow, B;
    assert v == v[..l] + v[l..];
    ValConcat(v[..l], v[l..]);
    assert v[l..] == v[l..2 * l] + v[2 * l..];
    ValConcat(v[l..2 * l], v[2 * l..]);
    ValBound(v[l..2 * l]);
    ValBound(v[..l]);
    RadicandPoly(Pow(B, l), Val(v[..l]), Val(v[l..2 * l]), s1 * s1 + r1);
  }

  lemma RadicandPoly(b: int, x: int, y: int, z: int)
    ensures x + b * (y + b * z) == z * (b * b) + y * b + x
  {}

  /** Top limb at least B/4: the value is at least a quarter of B^(2n), its root normalised. */
  lemma RadicandNormalized(v: seq<Limb>, n: nat)
    requires n >= 1 && |v| == 2 * n && 4 * v[2 * n - 1] >= B
    ensures Pow(B, n) * Pow(B, n) <= 4 * Val(v) && Val(v) < Pow(B, n) * Pow(B, n)
    ensures Pow(B, n) % 2 == 0
  {
    hide *;
    BaseFacts();
    TopLimb(v, 2 * n - 1);
    ValBound(v);
    PowStep(B, 2 * n - 1);
    PowMono(B, 0, 2 * n - 1);
    PowStep(B, 0);
    PowAdd(B, n, n);
    assert n + n == 2 * n - 1 + 1;
    PowEven(n);
    QuarterArith(B, Pow(B, 2 * n - 1), v[2 * n - 1], Val(v[..2 * n - 1]));
  }

  lemma QuarterArith(b: int, p: int, top: int, low: int)
    requires 0 <= low && b <= 4 * top && 0 <= p
    ensures b * p <= 4 * (low + p * top)
  {
    MulMono(b, 4 * top, p);
    MulAssoc(4, top, p);
  }

  lemma PowEven(n: nat)
    requires n >= 1
    ensures Pow(B, n) % 2 == 0 && Pow(B, n) > 0
  {
    hide Pow;
    BaseFacts();
    assert Pow(B, n) > 0;
    PowStep(B, n - 1);
    MulAssoc(2, HALF, Pow(B, n - 1));
    DivModIs(Pow(B, n), 2, HALF * Pow(B, n - 1), 0);
  }

  lemma RootLimbsNormalized(v: int, ss: seq<Limb>, r: int)
    requires |ss| >= 1 && IsSqrtRem(v, Val(ss), r) && Pow(B, |ss|) * Pow(B, |ss|) <= 4 * v && Pow(B, |ss|) % 2 == 0
    ensures ss[|ss| - 1] >= HALF && Pow(B, |ss|) <= 2 * Val(ss)
  {
    hide *;
    PowEven(|ss|);
    RootRange(v, Val(ss), r, Pow(B, |ss|));
    NormalizedFromValue(ss);
  }

  /** A 2n-limb radicand v split at l limbs, with the root s1 of its high part known. */
  ghost predicate LevelInput(n: nat, l: nat, v: int, s1: int, r1: int, a1: int, a0: int)
    requires l <= n
  {
    && v == LevelValue(s1, r1, a1, a0, Pow(B, l)) && v < Pow(B, n) * Pow(B, n)
    && Pow(B, n - l) <= 2 * s1 && 0 <= r1 <= 2 * s1 && 0 <= a1 < Pow(B, l) && 0 <= a0 < Pow(B, l)
  }

  lemma LevelInputRange(n: nat, l: nat, v: int, s1: int, r1: int, a1: int, a0: int)
    requires l <= n && LevelInput(n, l, v, s1, r1, a1, a0)
    ensures r1 <= 2 * s1
  {}

  /** What the recursive call on the high part establishes. */
  lemma LevelInputIntro(v: seq<Limb>, n: nat, l: nat, ss: seq<Limb>, r1: int)
    requires n >= 1 && |v| == 2 * n && 2 * l <= n && |ss| == n - l && 4 * v[2 * n - 1] >= B
    requires IsSqrtRem(Val(v[2 * l..]), Val(ss), r1)
    ensures LevelInput(n, l, Val(v), Val(ss), r1, Val(v[l..2 * l]), Val(v[..l]))
    ensures ss[n - l - 1] >= HALF
  {
    hide Pow, B, Val, LevelValue, IsSqrtRem;
    RadicandNormalized(v, n);
    RadicandNormalized(v[2 * l..], n - l);
    RootLimbsNormalized(Val(v[2 * l..]), ss, r1);
    RadicandSplit(v, n, l, Val(ss), r1);
    RootRemainder(Val(v[2 * l..]), Val(ss), r1);
  }

  /** Everything one level computes, in integers. */
  lemma LevelOnLimbs(n: nat, l: nat, v: int, s1: int, r1: int, a1: int, a0: int, q: int, u: int)
    requires 1 <= l && 2 * l <= n && LevelInput(n, l, v, s1, r1, a1, a0)
    requires r1 * Pow(B, l) + a1 == q * (2 * s1) + u && 0 <= u < 2 * s1
    ensures 0 <= q <= Pow(B, l)
    ensures var s, r := s1 * Pow(B, l) + q, u * Pow(B, l) + a0 - q * q;
            && (r >= 0 ==> IsSqrtRem(v, s, r) && 0 <= s < Pow(B, n))
            && (r < 0 ==>
               IsSqrtRem(v, s - 1, r + 2 * s - 1) && 0 <= s - 1 < Pow(B, n) && 0 <= r + 2 * s - 1 <= 2 * (s - 1))
  {
    hide Pow, B, LevelValue, IsSqrtRem;
    BaseFacts();
    PowMono(B, l, n - l);
    LevelResult(Pow(B, l), s1, r1, a1, a0, q, u);
    var s, r := s1 * Pow(B, l) + q, u * Pow(B, l) + a0 - q * q;
    LevelRange(v, s, r);
    RootRemainder(v, s, r);
    if r >= 0 {
      RootEvenRange(v, s, r, Pow(B, n));
    } else {
      RootEvenRange(v, s - 1, r + 2 * s - 1, Pow(B, n));
    }
  }

  lemma RemainderJoin(n: nat, l: nat, as1: seq<Limb>, a0: int, rh: int)
    requires l <= n == |as1| && a0 == Val(as1[..l])
    ensures Val(as1) + rh * Pow(B, n) == (Val(as1[l..]) + rh * Pow(B, n - l)) * Pow(B, l) + a0
  {
    hide *;
    SplitIsDivMod(as1, l);
    PowAdd(B, n - l, l);
    RemainderJoinPoly(Pow(B, l), Pow(B, n - l), Val(as1[l..]), rh);
  }

  lemma RemainderJoinPoly(bl: int, bh: int, x: int, rh: int)
    ensures (x + rh * bh) * bl == x * bl + rh * (bh * bl)
  {}

  lemma RootJoin(ss: seq<Limb>, n: nat, l: nat, s1: int, qh: int, kc: int)
    requires l <= n == |ss| && Val(ss[l..]) == s1 + qh - kc * Pow(B, n - l)
    ensures Val(ss) == s1 * Pow(B, l) + (Val(ss[..l]) + Pow(B, l) * qh) - kc * Pow(B, n)
  {
    hide *;
    SplitIsDivMod(ss, l);
    PowAdd(B, n - l, l);
    RootJoinPoly(Pow(B, l), Pow(B, n - l), s1, qh, kc);
  }

  lemma RootJoinPoly(bl: int, bh: int, s1: int, qh: int, kc: int)
    ensures (s1 + qh - kc * bh) * bl == s1 * bl + bl * qh - kc * (bh * bl)
  {}

  /** From the high half's root to the whole root (everything after the recursive call). */
  method SqrtLift(sa: array<Limb>, so: nat, a: array<Limb>, ao: nat, n: nat, l: nat, h: nat,
      tmp: array<Limb>, qh0: Limb, ghost v: nat)
      returns (rh: Limb)
    requires n >= 2 && l == n / 2 && h == n - l
    requires so + n <= sa.Length && ao + 2 * n <= a.Length && l + 1 <= tmp.Length
    requires sa != a && tmp != a && tmp != sa && qh0 <= 1 && sa[so + n - 1] >= HALF
    requires LevelInput(n, l, v, Val(sa[so + l..so + n]), Val(a[ao + 2 * l..ao + 2 * l + h]) + qh0 * Pow(B, h),
                        Val(a[ao + l..ao + 2 * l]), Val(a[ao..ao + l]))
    modifies sa, a, tmp
    ensures rh <= 1
    ensures IsSqrtRem(v, Val(sa[so..so + n]), Val(a[ao..ao + n]) + rh * Pow(B, n))
    ensures forall i :: 0 <= i < sa.Length && !(so <= i < so + n) ==> sa[i] == old(sa[i])
    ensures forall i :: 0 <= i < a.Length && !(ao <= i < ao + 2 * n) ==> a[i] == old(a[i])
  {
    hide *;
    BaseFacts();
    ghost var s1, r1 := Val(sa[so + l..so + n]), Val(a[ao + 2 * l..ao + 2 * l + h]) + qh0 * Pow(B, h);
    ghost var a1, a0s := Val(a[ao + l..ao + 2 * l]), a[ao..ao + l];
    LevelInputRange(n, l, v, s1, r1, a1, Val(a0s));
    var qh, rh1 := SqrtDivide(sa, so, a, ao, n, l, h, tmp, qh0);
    ghost var q, u := Val(sa[so..so + l]) + Pow(B, l) * qh, Val(a[ao + l..ao + l + h]) + rh1 * Pow(B, h);
    ghost var bl := Pow(B, l);
    LevelOnLimbs(n, l, v, s1, r1, a1, Val(a0s), q, u);
    ghost var s, r := s1 * bl + q, u * bl + Val(a0s) - q * q;
    ghost var as1 := a[ao..ao + n];
    assert as1[..l] == a0s && as1[l..] == a[ao + l..ao + l + h];
    RemainderJoin(n, l, as1, Val(a0s), rh1);
    rh := SqrtFinish(sa, so, a, ao, n, l, qh, rh1, v, s1, s, r);
  }

  /** Root s = s1 * B^l + q put together, q^2 subtracted, and the correction if needed. */
  method SqrtFinish(sa: array<Limb>, so: nat, a: array<Limb>, ao: nat, n: nat, l: nat, qh: Limb, rh1: Limb,
                    ghost v: int, ghost s1: int, ghost s: int, ghost r: int) returns (rh: Limb)
    requires 1 <= l && 2 * l <= n && so + n <= sa.Length && ao + 2 * n <= a.Length && sa != a && qh <= 1 && rh1 <= 1
    requires var q := Val(sa[so..so + l]) + Pow(B, l) * qh;
             && q <= Pow(B, l) && s1 == Val(sa[so + l..so + n]) && s == s1 * Pow(B, l) + q
             && r == Val(a[ao..ao + n]) + rh1 * Pow(B, n) - q * q
    requires r >= 0 ==> IsSqrtRem(v, s, r) && 0 <= s < Pow(B, n)
    requires r < 0 ==> IsSqrtRem(v, s - 1, r + 2 * s - 1) && 0 <= s - 1 < Pow(B, n) && 0 <= r + 2 * s - 1 <= 2 * (s - 1)
    modifies sa, a
    ensures rh <= 1
    ensures IsSqrtRem(v, Val(sa[so..so + n]), Val(a[ao..ao + n]) + rh * Pow(B, n))
    ensures forall i :: 0 <= i < sa.Length && !(so <= i < so + n) ==> sa[i] == old(sa[i])
    ensures forall i :: 0 <= i < a.Length && !(ao <= i < ao + 2 * n) ==> a[i] == old(a[i])
  {
    hide *;
    BaseFacts();
    var h := n - l;
    ghost var qs := sa[so..so + l];
    assert sa[so + l..so + l + h] == sa[so + l..so + n];
    var kc := MpAddUi(sa, so + l, qh, h);
    ghost var ss := sa[so..so + n];
    assert ss[l..] == sa[so + l..so + l + h] && ss[..l] == sa[so..so + l] == qs;
    RootJoin(ss, n, l, s1, qh, kc);
    ghost var k: nat;
    rh, k := SqrtSubtractSquare(sa, so, a, ao, n, l, qh, rh1);
    assert sa[so..so + n] == ss;
    ghost var x := Val(a[ao..ao + n]);
    SqrtLiftEnd(r, Pow(B, n), x, rh1, k);
    ValBound(a[ao..ao + n]);
    SignOfRemainder(r, Pow(B, n), x, rh1, k);
    if rh >= HALF {
      assert r + 2 * s - 1 == x - Pow(B, n) + 2 * s - 1;
      rh := SqrtCorrect(sa, so, a, ao, n, s, kc);
      assert Val(a[ao..ao + n]) + rh * Pow(B, n) == r + 2 * s - 1;
    } else {
      NoRootOverflow(s, kc, Pow(B, n), Val(ss));
      assert Val(a[ao..ao + n]) + rh * Pow(B, n) == r;
    }
  }

  lemma SqrtLiftEnd(r: int, p: int, x: int, rh: int, k: int)
    requires x == r - rh * p + k * p
    ensures r == x + (rh - k) * p
  {
    MulDist(p, rh, k);
  }

  lemma SignOfRemainder(r: int, p: int, x: int, rh: int, k: int)
    requires r == x + (rh - k) * p && 0 <= x < p && 0 <= rh <= 1 && 0 <= k <= 1
    ensures r < 0 <==> rh < k
  {}

  lemma NoRootOverflow(s: int, kc: int, p: int, S: int)
    requires S == s - kc * p && 0 <= kc && 0 <= S && 0 <= s < p
    ensures kc == 0
  {
    if kc >= 1 {
      MulMono(1, kc, p);
    }
  }

  lemma LevelInputAt(s: seq<Limb>, ao: nat, n: nat, l: nat, ss: seq<Limb>, r1: int)
    requires n >= 1 && ao + 2 * n <= |s| && 2 * l <= n && |ss| == n - l && 4 * s[ao + 2 * n - 1] >= B
    requires IsSqrtRem(Val(s[ao + 2 * l..ao + 2 * n]), Val(ss), r1)
    ensures LevelInput(n, l, Val(s[ao..ao + 2 * n]), Val(ss), r1, Val(s[ao + l..ao + 2 * l]), Val(s[ao..ao + l]))
    ensures ss[n - l - 1] >= HALF
  {
    hide *;
    RadicandSlices(s, ao, n, l);
    LevelInputIntro(s[ao..ao + 2 * n], n, l, ss, r1);
  }

  /** The root of the high half, in place: what is left to do for the whole. */
  method SqrtHigh(sa: array<Limb>, so: nat, a: array<Limb>, ao: nat, n: nat, l: nat, tmp: array<Limb>)
      returns (qh: Limb)
    requires n >= 2 && l == n / 2 && so + n <= sa.Length && ao + 2 * n <= a.Length && l + 1 <= tmp.Length
    requires sa != a && tmp != a && tmp != sa && 4 * a[ao + 2 * n - 1] >= B
    modifies sa, a, tmp
    ensures qh <= 1 && sa[so + n - 1] >= HALF
    ensures LevelInput(n, l, old(Val(a[ao..ao + 2 * n])), Val(sa[so + l..so + n]),
                       Val(a[ao + 2 * l..ao + 2 * l + (n - l)]) + qh * Pow(B, n - l),
                       Val(a[ao + l..ao + 2 * l]), Val(a[ao..ao + l]))
    ensures forall i :: 0 <= i < sa.Length && !(so <= i < so + n) ==> sa[i] == old(sa[i])
    ensures forall i :: 0 <= i < a.Length && !(ao <= i < ao + 2 * n) ==> a[i] == old(a[i])
    decreases n, 0
  {
    hide *;
    var h := n - l;
    ghost var s0 := a[..];
    assert a[ao + 2 * l..ao + 2 * l + 2 * h] == s0[ao + 2 * l..ao + 2 * n];
    qh := MpSqrtremRec(sa, so + l, a, ao + 2 * l, h, tmp);
    assert a[ao..ao + l] == s0[ao..ao + l];
    assert a[ao + l..ao + 2 * l] == s0[ao + l..ao + 2 * l];
    ghost var ss := sa[so + l..so + n];
    assert sa[so + l..so + l + h] == ss;
    LevelInputAt(s0, ao, n, l, ss, Val(a[ao + 2 * l..ao + 2 * l + h]) + qh * Pow(B, h));
    assert ss[n - l - 1] == sa[so + n - 1];
  }

  /** Karatsuba square root of a[ao..ao+2n]: root in sa[so..so+n], remainder in
      a[ao..ao+n] with its top bit returned. */
  method MpSqrtremRec(sa: array<Limb>, so: nat, a: array<Limb>, ao: nat, n: nat, tmp: array<Limb>) returns (rh: Limb)
    requires n >= 1 && so + n <= sa.Length && ao + 2 * n <= a.Length && n / 2 + 1 <= tmp.Length
    requires sa != a && tmp != a && tmp != sa && 4 * a[ao + 2 * n - 1] >= B
    modifies sa, a, tmp
    ensures rh <= 1
    ensures IsSqrtRem(old(Val(a[ao..ao + 2 * n])), Val(sa[so..so + n]), Val(a[ao..ao + n]) + rh * Pow(B, n))
    ensures forall i :: 0 <= i < sa.Length && !(so <= i < so + n) ==> sa[i] == old(sa[i])
    ensures forall i :: 0 <= i < a.Length && !(ao <= i < ao + 2 * n) ==> a[i] == old(a[i])
    decreases n, 1
  {
    hide *;
    if n == 1 {
      rh := SqrtTwoLimbs(sa, so, a, ao);
      assert ao + 2 * n == ao + 2;
    } else {
      var l := n / 2;
      ghost var v := Val(a[ao..ao + 2 * n]);
      var qh := SqrtHigh(sa, so, a, ao, n, l, tmp);
      rh := SqrtLift(sa, so, a, ao, n, l, n - l, tmp, qh, v);
    }
  }

  lemma RadicandSlices(s: seq<Limb>, ao: nat, n: nat, l: nat)
    requires 2 * l <= n && ao + 2 * n <= |s|
    ensures s[ao..ao + 2 * n][..l] == s[ao..ao + l]
    ensures s[ao..ao + 2 * n][l..2 * l] == s[ao + l..ao + 2 * l]
    ensures s[ao..ao + 2 * n][2 * l..] == s[ao + 2 * l..ao + 2 * n]
  {
    SubSlice(s, ao, 2 * n, 0, l);
    SubSlice(s, ao, 2 * n, l, 2 * l);
    SubSlice(s, ao, 2 * n, 2 * l, 2 * n);
  }

  lemma SubSlice(s: seq<Limb>, o: nat, m: nat, i: nat, j: nat)
    requires o + m <= |s| && i <= j <= m
    ensures s[o..o + m][i..j] == s[o + i..o + j]
  {
    var t := s[o..o + m];
    assert forall k :: 0 <= k < m ==> t[k] == s[o + k];
    assert forall k :: 0 <= k < j - i ==> t[i..j][k] == t[i + k];
  }

  /** The two-limb case in terms of values. */
  method SqrtTwoLimbs(sa: array<Limb>, so: nat, a: array<Limb>, ao: nat) returns (rh: Limb)
    requires so + 1 <= sa.Length && ao + 2 <= a.Length && sa != a && 4 * a[ao + 1] >= B
    modifies sa, a
    ensures rh <= 1
    ensures IsSqrtRem(old(Val(a[ao..ao + 2])), Val(sa[so..so + 1]), Val(a[ao..ao + 1]) + rh * Pow(B, 1))
    ensures forall i :: 0 <= i < sa.Length && i != so ==> sa[i] == old(sa[i])
    ensures forall i :: 0 <= i < a.Length && !(ao <= i < ao + 2) ==> a[i] == old(a[i])
  {
    hide *;
    TwoLimbs(a[ao..ao + 2]);
    rh := MpSqrtrem2(sa, so, a, ao);
    assert sa[so..so + 1] == [sa[so]] && a[ao..ao + 1] == [a[ao]];
    ValOne(sa[so]);
    ValOne(a[ao]);
    PowStep(B, 0);
  }

  lemma TwoLimbs(v: seq<Limb>)
    requires |v| == 2
    ensures Val(v) == v[1] * B + v[0]
  {
    hide *;
    assert v == [v[0]] + [v[1]];
    ValCons(v[0], [v[1]]);
    ValOne(v[1]);
  }

  /** mp_sqrtrem: the top bit of the remainder goes to limb n of a. */
  method MpSqrtrem(sa: array<Limb>, a: array<Limb>, n: nat)
    requires n >= 1 && n <= sa.Length && 2 * n <= a.Length && sa != a && 4 * a[2 * n - 1] >= B
    modifies sa, a
    ensures IsSqrtRem(old(Val(a[..2 * n])), Val(sa[..n]), Val(a[..n + 1]))
  {
    hide *;
    BaseFacts();
    var tmp := new Limb[n / 2 + 1](i => 0);
    assert a[0..0 + 2 * n] == a[..2 * n];
    var rh := MpSqrtremRec(sa, 0, a, 0, n, tmp);
    ghost var low := a[0..0 + n];
    a[n] := rh;
    assert a[..n + 1] == low + [rh] && sa[..n] == sa[0..0 + n];
    ValSnoc(low, rh);
  }
}
