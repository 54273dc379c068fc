/** Finite sums, congruences and roots of unity: the algebra behind the number
    theoretic transform. */
module NttSums {
  import opened Powers

  // ---- congruences ----

  ghost predicate Cg(a: int, b: int, m: int)
  {
    exists k: int :: Off(a, b, m, k)
  }

  ghost predicate Off(a: int, b: int, m: int, k: int) { a == b + k * m }

  lemma CgIntro(a: int, b: int, m: int, k: int)
    requires a == b + k * m
    ensures Cg(a, b, m)
  {
    assert Off(a, b, m, k);
  }

  lemma CgRefl(a: int, m: int)
    ensures Cg(a, a, m)
  {
    CgIntro(a, a, m, 0);
  }

  lemma CgSym(a: int, b: int, m: int)
    requires Cg(a, b, m)
    ensures Cg(b, a, m)
  {
    var k :| Off(a, b, m, k);
    CgIntro(b, a, m, -k);
  }

  lemma CgTrans(a: int, b: int, c: int, m: int)
    requires Cg(a, b, m) && Cg(b, c, m)
    ensures Cg(a, c, m)
  {
    var k :| Off(a, b, m, k);
    var l :| Off(b, c, m, l);
    MulDist(m, k, l);
    CgIntro(a, c, m, k + l);
  }

  lemma CgAdd(a: int, b: int, c: int, d: int, m: int)
    requires Cg(a, b, m) && Cg(c, d, m)
    ensures Cg(a + c, b + d, m) && Cg(a - c, b - d, m)
  {
    var k :| Off(a, b, m, k);
    var l :| Off(c, d, m, l);
    MulDist(m, k, l);
    CgIntro(a + c, b + d, m, k + l);
    CgIntro(a - c, b - d, m, k - l);
  }

  lemma CgMul(a: int, b: int, c: int, d: int, m: int)
    requires Cg(a, b, m) && Cg(c, d, m)
    ensures Cg(a * c, b * d, m)
  {
    var k :| Off(a, b, m, k);
    var l :| Off(c, d, m, l);
    MulPoly(b, d, k, l, m);
    CgIntro(a * c, b * d, m, b * l + k * d + k * (l * m));
  }

  lemma MulPoly(b: int, d: int, k: int, l: int, m: int)
    ensures (b + k * m) * (d + l * m) == b * d + (b * l + k * d + k * (l * m)) * m
  {
    assert (b + k * m) * (d + l * m) == b * d + b * (l * m) + (k * m) * d + (k * m) * (l * m);
    assert (b * l + k * d + k * (l * m)) * m == (b * l) * m + (k * d) * m + (k * (l * m)) * m;
    assert b * (l * m) == (b * l) * m && (k * m) * d == (k * d) * m;
    assert (k * m) * (l * m) == (k * (l * m)) * m;
  }

  lemma CgScale(a: int, b: int, c: int, m: int)
    requires Cg(a, b, m)
    ensures Cg(c * a, c * b, m) && Cg(a * c, b * c, m)
  {
    CgRefl(c, m);
    CgMul(c, c, a, b, m);
    CgMul(a, b, c, c, m);
  }

  lemma CgMod(a: int, m: int)
    requires m > 0
    ensures Cg(a % m, a, m)
  {
    CgIntro(a % m, a, m, -(a / m));
  }

  /** Congruent residues are equal. */
  lemma CgSmall(a: int, b: int, m: int)
    requires m > 0 && Cg(a, b, m) && 0 <= a < m && 0 <= b < m
    ensures a == b
  {
    var k :| Off(a, b, m, k);
    DivModUnique(m, 0, a, k, b);
  }

  // ---- sums ----

  ghost function Sum(n: nat, f: int -> int): (s: int)
  {
    if n == 0 then 0 else Sum(n - 1, f) + f(n - 1)
  }

  lemma {:induction false} SumSame(n: nat, f: int -> int, g: int -> int)
    requires forall i :: 0 <= i < n ==> f(i) == g(i)
    ensures Sum(n, f) == Sum(n, g)
  {
    if n > 0 {
      SumSame(n - 1, f, g);
    }
  }

  lemma {:induction false} SumCg(n: nat, f: int -> int, g: int -> int, m: int)
    requires forall i :: 0 <= i < n ==> Cg(f(i), g(i), m)
    ensures Cg(Sum(n, f), Sum(n, g), m)
  {
    hide Cg;
    if n == 0 {
      CgRefl(0, m);
    } else {
      SumCg(n - 1, f, g, m);
      CgAdd(Sum(n - 1, f), Sum(n - 1, g), f(n - 1), g(n - 1), m);
    }
  }

  lemma {:induction false} SumScale(n: nat, f: int -> int, g: int -> int, c: int)
    requires forall i :: 0 <= i < n ==> g(i) == c * f(i)
    ensures Sum(n, g) == c * Sum(n, f)
  {
    if n > 0 {
      SumScale(n - 1, f, g, c);
      MulDist(c, Sum(n - 1, f), f(n - 1));
    }
  }

  lemma {:induction false} SumPlus(n: nat, f: int -> int, g: int -> int, h: int -> int)
    requires forall i :: 0 <= i < n ==> h(i) == f(i) + g(i)
    ensures Sum(n, h) == Sum(n, f) + Sum(n, g)
  {
    if n > 0 {
      SumPlus(n - 1, f, g, h);
    }
  }

  lemma {:induction false} SumZero(n: nat, f: int -> int)
    requires forall i :: 0 <= i < n ==> f(i) == 0
    ensures Sum(n, f) == 0
  {
    if n > 0 {
      SumZero(n - 1, f);
    }
  }

  lemma {:induction false} SumSplit(n: nat, k: nat, f: int -> int, g: int -> int)
    requires forall i :: 0 <= i < k ==> g(i) == f(n + i)
    ensures Sum(n + k, f) == Sum(n, f) + Sum(k, g)
    decreases k
  {
    if k > 0 {
      SumSplit(n, k - 1, f, g);
    }
  }

  /** Rows of a matrix of n by k, and its columns. */
  ghost function Row(F: (int, int) -> int, k: nat): (r: int -> int)
  {
    (i: int) => Sum(k, Left(F, i))
  }

  ghost function Left(F: (int, int) -> int, i: int): (r: int -> int)
  {
    (j: int) => F(i, j)
  }

  ghost function Column(F: (int, int) -> int, n: nat): (r: int -> int)
  {
    (j: int) => Sum(n, Right(F, j))
  }

  ghost function Right(F: (int, int) -> int, j: int): (r: int -> int)
  {
    (i: int) => F(i, j)
  }

  lemma RowIs(F: (int, int) -> int, n: nat, i: int)
    ensures Row(F, n)(i) == Sum(n, Left(F, i))
  {
    hide Sum;
  }

  lemma ColumnIs(F: (int, int) -> int, n: nat, j: int)
    ensures Column(F, n)(j) == Sum(n, Right(F, j))
  {
    hide Sum;
  }

  lemma RightIs(F: (int, int) -> int, i: int, j: int)
    ensures Right(F, j)(i) == F(i, j)
  {}

  /** The order of summation does not matter. */
  lemma {:induction false} SumSwap(n: nat, k: nat, F: (int, int) -> int)
    ensures Sum(n, Row(F, k)) == Sum(k, Column(F, n))
    decreases n
  {
    if n == 0 {
      SumZero(k, Column(F, 0));
    } else {
      SumSwap(n - 1, k, F);
      assert Row(F, k)(n - 1) == Sum(k, Left(F, n - 1));
      SumPlus(k, Column(F, n - 1), Left(F, n - 1), Column(F, n));
    }
  }

  /** f on n1 blocks of length n2. */
  ghost function Blocks(f: int -> int, n2: nat): (F: (int, int) -> int)
  {
    (a: int, j: int) => f(a * n2 + j)
  }

  lemma {:induction false} SumBlocks(n1: nat, n2: nat, f: int -> int)
    ensures Sum(n1 * n2, f) == Sum(n1, Row(Blocks(f, n2), n2))
    decreases n1
  {
    if n1 > 0 {
      SumBlocks(n1 - 1, n2, f);
      MulDist(n2, n1, 1);
      MulMono(0, n1 - 1, n2);
      LastBlock(n1, n2, (n1 - 1) * n2, f);
    }
  }

  lemma LastBlock(n1: nat, n2: nat, n: nat, f: int -> int)
    requires n1 > 0 && n == (n1 - 1) * n2
    ensures Sum(n + n2, f) == Sum(n, f) + Row(Blocks(f, n2), n2)(n1 - 1)
  {
    hide Sum;
    var g := Left(Blocks(f, n2), n1 - 1);
    SumSplit(n, n2, f, g);
  }

  ghost function Shifted(f: int -> int, s: int, n: nat): (g: int -> int)
    requires n > 0
  {
    (a: int) => f((a + s) % n)
  }

  /** Summing around a cycle may start anywhere. */
  lemma SumCycle(n: nat, f: int -> int, s: int)
    requires n > 0
    ensures Sum(n, Shifted(f, s, n)) == Sum(n, f)
  {
    hide Sum;
    var r := s % n;
    CycleCut(n, f, s, r);
    SumSplit(r, n - r, f, Tail(f, r));
  }

  lemma CycleCut(n: nat, f: int -> int, s: int, r: nat)
    requires n > 0 && r == s % n
    ensures Sum(n, Shifted(f, s, n)) == Sum(n - r, Tail(f, r)) + Sum(r, f)
  {
    hide Sum;
    var g := Shifted(f, s, n);
    var high := Tail(g, n - r);
    SumSplit(n - r, r, g, high);
    CycleFirst(n, f, s, r, g);
    CycleLast(n, f, s, r, g);
  }

  lemma CycleFirst(n: nat, f: int -> int, s: int, r: nat, g: int -> int)
    requires n > 0 && r == s % n && g == Shifted(f, s, n)
    ensures Sum(n - r, g) == Sum(n - r, Tail(f, r))
  {
    hide Sum;
    forall a | 0 <= a < n - r
      ensures g(a) == Tail(f, r)(a)
    {
      CycleLow(a, s, n, r);
    }
    SumSame(n - r, g, Tail(f, r));
  }

  lemma CycleLast(n: nat, f: int -> int, s: int, r: nat, g: int -> int)
    requires n > 0 && r == s % n && g == Shifted(f, s, n)
    ensures Sum(r, Tail(g, n - r)) == Sum(r, f)
  {
    hide Sum;
    forall a | 0 <= a < r
      ensures Tail(g, n - r)(a) == f(a)
    {
      CycleHigh(a, s, n, r);
    }
    SumSame(r, Tail(g, n - r), f);
  }

  ghost function Tail(f: int -> int, d: int): (g: int -> int)
  {
    (a: int) => f(d + a)
  }

  lemma CycleLow(a: int, s: int, n: int, r: int)
    requires 0 <= a < n - r && n > 0 && r == s % n
    ensures (a + s) % n == r + a
  {
    DivModIs(a + s, n, s / n, a + r);
  }

  lemma CycleHigh(a: int, s: int, n: int, r: int)
    requires 0 <= a < r && n > 0 && r == s % n
    ensures (n - r + a + s) % n == a
  {
    MulDist(n, s / n, 1);
    DivModIs(n - r + a + s, n, s / n + 1, a);
  }

  ghost function Stride(f: int -> int, n2: nat, t: int, n: nat): (g: int -> int)
    requires n > 0
  {
    (a: int) => f((a * n2 + t) % n)
  }

  ghost function Plain(f: int -> int, n2: nat, t: int): (g: int -> int)
  {
    (a: int) => f(a * n2 + t)
  }

  /** Stepping by n2 around a cycle of n1*n2 visits the residue class of the start. */
  lemma SumStride(n1: nat, n2: nat, f: int -> int, t: int)
    requires n1 > 0 && n2 > 0 && n1 * n2 > 0
    ensures Sum(n1, Stride(f, n2, t, n1 * n2)) == Sum(n1, Plain(f, n2, t % n2))
  {
    var g := Plain(f, n2, t % n2);
    var q := t / n2;
    SumCycle(n1, g, q);
    var h := Stride(f, n2, t, n1 * n2);
    forall a | 0 <= a < n1
      ensures h(a) == Shifted(g, q, n1)(a)
    {
      StrideIndex(a, t, n1, n2);
    }
    SumSame(n1, h, Shifted(g, q, n1));
  }

  lemma StrideIndex(a: int, t: int, n1: int, n2: int)
    requires n1 > 0 && n2 > 0 && n1 * n2 > 0
    ensures (a * n2 + t) % (n1 * n2) == ((a + t / n2) % n1) * n2 + t % n2
  {
    var q, r := t / n2, t % n2;
    var k, s := (a + q) / n1, (a + q) % n1;
    assert a + q == k * n1 + s && t == q * n2 + r;
    StridePoly(a, q, r, k, s, n1, n2);
    MulMono(s + 1, n1, n2);
    MulMono(0, s, n2);
    MulDist(n2, s, 1);
    DivModIs(a * n2 + t, n1 * n2, k, s * n2 + r);
  }

  lemma StridePoly(a: int, q: int, r: int, k: int, s: int, n1: int, n2: int)
    requires a + q == k * n1 + s
    ensures a * n2 + (q * n2 + r) == k * (n1 * n2) + (s * n2 + r)
  {
    assert (a + q) * n2 == (k * n1 + s) * n2;
    MulDist(n2, a, q);
    assert (k * n1 + s) * n2 == k * (n1 * n2) + s * n2;
  }

  // ---- powers of a root ----

  ghost function Pw(w: nat, e: int): (r: int) { if e < 0 then 1 else Pow(w, e) }

  lemma PwAdd(w: nat, a: nat, b: nat)
    ensures Pw(w, a + b) == Pw(w, a) * Pw(w, b)
  {
    PowAdd(w, a, b);
  }

  lemma {:induction false} PwCycle(w: nat, n: nat, t: nat, m: int)
    requires Cg(Pw(w, n), 1, m)
    ensures Cg(Pw(w, n * t), 1, m)
    decreases t
  {
    hide Cg, Pow;
    if t == 0 {
      PowStep(w, 0);
      CgRefl(1, m);
    } else {
      PwCycle(w, n, t - 1, m);
      MulDist(n, t, 1);
      MulMono(0, n, t - 1);
      PwAdd(w, n, n * (t - 1));
      CgMul(Pw(w, n), 1, Pw(w, n * (t - 1)), 1, m);
    }
  }

  /** Exponents matter modulo n only. */
  lemma PwMod(w: nat, n: nat, a: nat, b: nat, m: int)
    requires n > 0 && Cg(Pw(w, n), 1, m) && a % n == b % n
    ensures Cg(Pw(w, a), Pw(w, b), m)
  {
    hide Cg, Pow;
    PwReduce(w, n, a, m);
    PwReduce(w, n, b, m);
    CgSym(Pw(w, b), Pw(w, b % n), m);
    CgTrans(Pw(w, a), Pw(w, a % n), Pw(w, b), m);
  }

  lemma PwReduce(w: nat, n: nat, a: nat, m: int)
    requires n > 0 && Cg(Pw(w, n), 1, m)
    ensures Cg(Pw(w, a), Pw(w, a % n), m)
  {
    hide Cg, Pow;
    DivModIdentity(a, n);
    assert (a / n) * n == n * (a / n);
    PwCycle(w, n, a / n, m);
    PwAdd(w, n * (a / n), a % n);
    CgScale(Pw(w, n * (a / n)), 1, Pw(w, a % n), m);
  }
}
