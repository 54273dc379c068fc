/** Cyclic convolution under the transform: folding along a root of unity turns a
    cyclic convolution into shorter ones, and can be undone. */
module NttConvolution {
  import opened Powers
  import opened NttSums

  /** Cyclic convolution of length n. */
  ghost function Conv(f: int -> int, g: int -> int, n: nat): (h: int -> int)
    requires n > 0
  {
    (c: int) => Sum(n, ConvTerm(f, g, n, c))
  }

  ghost function ConvTerm(f: int -> int, g: int -> int, n: nat, c: int): (h: int -> int)
    requires n > 0
  {
    (x: int) => f(x) * g((c - x) % n)
  }

  /** f twisted by the powers of w^i. */
  ghost function Twist(f: int -> int, w: nat, i: int): (g: int -> int)
  {
    (x: int) => f(x) * Pw(w, i * x)
  }

  /** The i-th row after transforming the columns of an n1 by n2 matrix: with n2 = 1 it is
      the i-th coefficient of the transform. */
  ghost function Fold(f: int -> int, w: nat, n1: nat, n2: nat, i: int): (g: int -> int)
  {
    (j: int) => Sum(n1, Plain(Twist(f, w, i), n2, j))
  }

  ghost function FoldedTerm(f: int -> int, g: int -> int, w: nat, n2: nat, n: nat, i: int,
      j: int): (F: (int, int) -> int)
    requires n > 0
  {
    (a: int, x: int) => f(x) * g((a * n2 + j - x) % n) * Pw(w, i * (a * n2 + j))
  }

  /** A power of w on the folded index is the product of those on the two factors. */
  lemma ExponentSplit(w: nat, n: nat, i: nat, c: nat, x: nat, m: int)
    requires n > 0 && Cg(Pw(w, n), 1, m)
    ensures (c - x) % n >= 0 && Cg(Pw(w, i * c), Pw(w, i * x) * Pw(w, i * ((c - x) % n)), m)
  {
    hide Cg, Pow, Pw;
    var y := (c - x) % n;
    MulMono(0, i, x);
    MulMono(0, i, y);
    MulMono(0, i, c);
    PwAdd(w, i * x, i * y);
    ExponentMod(i, c, x, y, n);
    PwMod(w, n, i * c, i * x + i * y, m);
  }

  lemma ExponentMod(i: int, c: int, x: int, y: int, n: int)
    requires n > 0 && y == (c - x) % n
    ensures (i * c) % n == (i * x + i * y) % n
  {
    var k := (c - x) / n;
    assert c == x + y + k * n;
    ExponentPoly(i, x, y, k, n);
    var q, r := (i * x + i * y) / n, (i * x + i * y) % n;
    assert i * x + i * y == q * n + r;
    MulDist(n, q, i * k);
    DivModIs(i * c, n, q + i * k, r);
  }

  lemma ExponentPoly(i: int, x: int, y: int, k: int, n: int)
    ensures i * (x + y + k * n) == i * x + i * y + (i * k) * n
  {}

  /** One term of the folded convolution. */
  lemma TermSplit(f: int -> int, g: int -> int, w: nat, n1: nat, n2: nat, i: nat, j: nat, a: nat, x: nat, m: int)
    requires n1 * n2 > 0 && Cg(Pw(w, n1 * n2), 1, m)
    ensures Cg(FoldedTerm(f, g, w, n2, n1 * n2, i, j)(a, x),
               Twist(f, w, i)(x) * Stride(Twist(g, w, i), n2, j - x, n1 * n2)(a), m)
  {
    hide Cg, Pow, Pw;
    var n, c := n1 * n2, a * n2 + j;
    MulMono(0, a, n2);
    ExponentSplit(w, n, i, c, x, m);
    var y := (c - x) % n;
    assert a * n2 + (j - x) == c - x;
    assert Stride(Twist(g, w, i), n2, j - x, n)(a) == g(y) * Pw(w, i * y);
    assert FoldedTerm(f, g, w, n2, n, i, j)(a, x) == f(x) * g(y) * Pw(w, i * c);
    CgScale(Pw(w, i * c), Pw(w, i * x) * Pw(w, i * y), f(x) * g(y), m);
    TermPoly(f(x), g(y), Pw(w, i * x), Pw(w, i * y));
  }

  lemma TermPoly(f: int, g: int, p: int, q: int)
    ensures (f * g) * (p * q) == (f * p) * (g * q)
  {}

  /** For one x: the sum over the rows. */
  lemma ColumnSum(f: int -> int, g: int -> int, w: nat, n1: nat, n2: nat, i: nat, j: nat, x: nat, m: int)
    requires n1 > 0 && n2 > 0 && n1 * n2 > 0 && Cg(Pw(w, n1 * n2), 1, m)
    ensures Cg(Column(FoldedTerm(f, g, w, n2, n1 * n2, i, j), n1)(x),
      Twist(f, w, i)(x) * Fold(g, w, n1, n2, i)((j - x) % n2), m)
  {
    hide *;
    var tg := Twist(g, w, i);
    FoldAt(g, w, n1, n2, i, (j - x) % n2);
    SumStride(n1, n2, tg, j - x);
    ColumnTerms(f, g, w, n1, n2, n1 * n2, i, j, x, m);
  }

  lemma ColumnTerms(f: int -> int, g: int -> int, w: nat, n1: nat, n2: nat, n: nat, i: nat, j: nat, x: nat, m: int)
    requires n == n1 * n2 > 0 && Cg(Pw(w, n), 1, m)
    ensures Cg(Column(FoldedTerm(f, g, w, n2, n, i, j), n1)(x),
      Twist(f, w, i)(x) * Sum(n1, Stride(Twist(g, w, i), n2, j - x, n)), m)
  {
    hide *;
    var T := FoldedTerm(f, g, w, n2, n, i, j);
    var e, s := Twist(f, w, i)(x), Stride(Twist(g, w, i), n2, j - x, n);
    forall a | 0 <= a < n1
      ensures Cg(Right(T, x)(a), Scaled(s, e)(a), m)
    {
      TermSplit(f, g, w, n1, n2, i, j, a, x, m);
      RightIs(T, a, x);
      ScaledIs(s, e, a);
    }
    SumCg(n1, Right(T, x), Scaled(s, e), m);
    ColumnIs(T, n1, x);
    ScaledSum(n1, s, e);
  }

  lemma FoldAt(f: int -> int, w: nat, n1: nat, n2: nat, i: int, k: int)
    ensures Fold(f, w, n1, n2, i)(k) == Sum(n1, Plain(Twist(f, w, i), n2, k))
  {
    hide Sum;
  }

  lemma ScaledIs(f: int -> int, c: int, a: int)
    ensures Scaled(f, c)(a) == c * f(a)
  {}

  ghost function Scaled(f: int -> int, c: int): (g: int -> int)
  {
    (x: int) => c * f(x)
  }

  ghost function Product(e: int -> int, G: int -> int, n2: nat, j: int): (h: int -> int)
    requires n2 > 0
  {
    (x: int) => e(x) * G((j - x) % n2)
  }

  /** Summing over all x, class by class. */
  lemma ClassSum(e: int -> int, G: int -> int, n1: nat, n2: nat, j: int)
    requires n1 > 0 && n2 > 0
    ensures n1 * n2 >= 0 && Sum(n1 * n2, Product(e, G, n2, j)) == Sum(n2, ConvTerm(ClassTotal(e, n1, n2), G, n2, j))
  {
    hide *;
    MulMono(0, n1, n2);
    var h := Product(e, G, n2, j);
    SumBlocks(n1, n2, h);
    SumSwap(n1, n2, Blocks(h, n2));
    forall u | 0 <= u < n2
      ensures Column(Blocks(h, n2), n1)(u) == ConvTerm(ClassTotal(e, n1, n2), G, n2, j)(u)
    {
      ClassAt(e, G, n1, n2, j, u);
    }
    SumSame(n2, Column(Blocks(h, n2), n1), ConvTerm(ClassTotal(e, n1, n2), G, n2, j));
  }

  lemma ClassAt(e: int -> int, G: int -> int, n1: nat, n2: nat, j: int, u: int)
    requires n2 > 0
    ensures Column(Blocks(Product(e, G, n2, j), n2), n1)(u) == ConvTerm(ClassTotal(e, n1, n2), G, n2, j)(u)
  {
    hide Sum;
    var h := Product(e, G, n2, j);
    var c, r := G((j - u) % n2), Right(Blocks(h, n2), u);
    forall a | 0 <= a < n1
      ensures r(a) == c * Plain(e, n2, u)(a)
    {
      ClassTerm(e, G, n2, j, u, a);
    }
    SumScale(n1, Plain(e, n2, u), r, c);
    assert Column(Blocks(h, n2), n1)(u) == Sum(n1, r);
    assert ConvTerm(ClassTotal(e, n1, n2), G, n2, j)(u) == Sum(n1, Plain(e, n2, u)) * c;
  }

  lemma ClassTerm(e: int -> int, G: int -> int, n2: nat, j: int, u: int, a: int)
    requires n2 > 0
    ensures Right(Blocks(Product(e, G, n2, j), n2), u)(a) == G((j - u) % n2) * Plain(e, n2, u)(a)
  {
    var h, y := Product(e, G, n2, j), a * n2 + u;
    ClassIndex(a, u, j, n2);
    RightIs(Blocks(h, n2), a, u);
    assert Blocks(h, n2)(a, u) == h(y);
    assert Plain(e, n2, u)(a) == e(y);
    ProductAt(e, G, n2, j, y);
    Commute(e(y), G((j - u) % n2));
  }

  lemma Commute(a: int, b: int)
    ensures a * b == b * a
  {}

  ghost function ClassTotal(e: int -> int, n1: nat, n2: nat): (g: int -> int)
  {
    (u: int) => Sum(n1, Plain(e, n2, u))
  }

  lemma ClassIndex(a: int, u: int, j: int, n2: int)
    requires n2 > 0
    ensures (j - (a * n2 + u)) % n2 == (j - u) % n2
  {
    var q, r := (j - u) / n2, (j - u) % n2;
    MulDist(n2, q, a);
    DivModIs(j - (a * n2 + u), n2, q - a, r);
  }

  /** Folding a convolution gives the convolution of the folded operands. */
  lemma FoldConv(f: int -> int, g: int -> int, w: nat, n1: nat, n2: nat, i: nat, j: nat, m: int)
    requires n1 > 0 && n2 > 0 && n1 * n2 > 0 && Cg(Pw(w, n1 * n2), 1, m) && j < n2
    ensures Cg(Fold(Conv(f, g, n1 * n2), w, n1, n2, i)(j), Conv(Fold(f, w, n1, n2, i), Fold(g, w, n1, n2, i), n2)(j), m)
  {
    hide *;
    var n := n1 * n2;
    var T := FoldedTerm(f, g, w, n2, n, i, j);
    var e, G := Twist(f, w, i), Fold(g, w, n1, n2, i);
    FoldIsRows(f, g, w, n1, n2, i, j);
    SumSwap(n1, n, T);
    forall x | 0 <= x < n
      ensures Cg(Column(T, n1)(x), Product(e, G, n2, j)(x), m)
    {
      ColumnSum(f, g, w, n1, n2, i, j, x, m);
      ProductAt(e, G, n2, j, x);
    }
    SumCg(n, Column(T, n1), Product(e, G, n2, j), m);
    ClassSum(e, G, n1, n2, j);
    forall u | 0 <= u < n2
      ensures ConvTerm(ClassTotal(e, n1, n2), G, n2, j)(u) == ConvTerm(Fold(f, w, n1, n2, i), G, n2, j)(u)
    {
      FoldIsClass(f, w, n1, n2, i, G, j, u);
    }
    SumSame(n2, ConvTerm(ClassTotal(e, n1, n2), G, n2, j), ConvTerm(Fold(f, w, n1, n2, i), G, n2, j));
    ConvAt(Fold(f, w, n1, n2, i), G, n2, j);
  }

  lemma ProductAt(e: int -> int, G: int -> int, n2: nat, j: int, x: int)
    requires n2 > 0
    ensures Product(e, G, n2, j)(x) == e(x) * G((j - x) % n2)
  {}

  lemma FoldIsClass(f: int -> int, w: nat, n1: nat, n2: nat, i: int, G: int -> int, j: int, u: int)
    requires n2 > 0
    ensures ConvTerm(ClassTotal(Twist(f, w, i), n1, n2), G, n2, j)(u) == ConvTerm(Fold(f, w, n1, n2, i), G, n2, j)(u)
  {
    hide Sum;
  }

  lemma ConvAt(f: int -> int, g: int -> int, n: nat, c: int)
    requires n > 0
    ensures Conv(f, g, n)(c) == Sum(n, ConvTerm(f, g, n, c))
  {
    hide Sum;
  }

  lemma FoldIsRows(f: int -> int, g: int -> int, w: nat, n1: nat, n2: nat, i: nat, j: nat)
    requires n1 * n2 > 0
    ensures Fold(Conv(f, g, n1 * n2), w, n1, n2, i)(j) == Sum(n1, Row(FoldedTerm(f, g, w, n2, n1 * n2, i, j), n1 * n2))
  {
    var n := n1 * n2;
    var l, r := Plain(Twist(Conv(f, g, n), w, i), n2, j), Row(FoldedTerm(f, g, w, n2, n, i, j), n);
    assert Fold(Conv(f, g, n), w, n1, n2, i)(j) == Sum(n1, l) by { hide Sum; }
    hide *;
    forall a | 0 <= a < n1
      ensures l(a) == r(a)
    {
      RowTerm(f, g, w, n2, n, i, j, a);
    }
    SumSame(n1, l, r);
  }

  lemma RowTerm(f: int -> int, g: int -> int, w: nat, n2: nat, n: nat, i: nat, j: int, a: int)
    requires n > 0
    ensures Plain(Twist(Conv(f, g, n), w, i), n2, j)(a) == Row(FoldedTerm(f, g, w, n2, n, i, j), n)(a)
  {
    hide *;
    var c := a * n2 + j;
    var p := Pw(w, i * c);
    var T := FoldedTerm(f, g, w, n2, n, i, j);
    PlainConv(f, g, w, n2, n, i, j, a, c, p);
    RowIs(T, n, a);
    forall x | 0 <= x < n
      ensures Left(T, a)(x) == p * ConvTerm(f, g, n, c)(x)
    {
      LeftTerm(f, g, w, n2, n, i, j, a, c, p, x);
    }
    SumScale(n, ConvTerm(f, g, n, c), Left(T, a), p);
  }

  lemma PlainConv(f: int -> int, g: int -> int, w: nat, n2: nat, n: nat, i: nat, j: int, a: int, c: int, p: int)
    requires n > 0 && c == a * n2 + j && p == Pw(w, i * c)
    ensures Plain(Twist(Conv(f, g, n), w, i), n2, j)(a) == p * Sum(n, ConvTerm(f, g, n, c))
  {
    hide Sum, Pw;
  }

  lemma LeftTerm(f: int -> int, g: int -> int, w: nat, n2: nat, n: nat, i: nat, j: int, a: int, c: int, p: int, x: int)
    requires n > 0 && c == a * n2 + j && p == Pw(w, i * c)
    ensures Left(FoldedTerm(f, g, w, n2, n, i, j), a)(x) == p * ConvTerm(f, g, n, c)(x)
  {
    hide Pw;
    MoveFactor(f(x), g((c - x) % n), p);
  }

  lemma MoveFactor(a: int, b: int, p: int)
    ensures (a * b) * p == p * (a * b)
  {}

  // ---- geometric sums ----

  ghost function Geometric(z: nat, d: nat): (f: int -> int)
  {
    (i: int) => Pw(z, i * d)
  }

  /** z has order 2^k, by way of z^(2^(k-1)) = -1. */
  ghost predicate Root(z: nat, k: nat, m: int)
  {
    if k == 0 then Cg(Pw(z, 1), 1, m) else Cg(Pw(z, Pow(2, k - 1)), -1, m)
  }

  lemma RootCycle(z: nat, k: nat, m: int)
    requires Root(z, k, m)
    ensures Cg(Pw(z, Pow(2, k)), 1, m)
  {
    hide *;
    RootIs(z, k, m);
    PowStep(2, 0);
    if k > 0 {
      var h := Pow(2, k - 1);
      PowStep(2, k - 1);
      PwAdd(z, h, h);
      CgMul(Pw(z, h), -1, Pw(z, h), -1, m);
    }
  }

  lemma RootIs(z: nat, k: nat, m: int)
    ensures k == 0 ==> (Root(z, k, m) <==> Cg(Pw(z, 1), 1, m))
    ensures k > 0 ==> (Root(z, k, m) <==> Cg(Pw(z, Pow(2, k - 1)), -1, m))
  {
    hide Cg, Pw, Pow;
  }

  lemma {:induction false} PwPw(w: nat, a: nat, b: nat)
    ensures Pw(Pow(w, a), b) == Pw(w, a * b)
    decreases b
  {
    if b == 0 {
      PowStep(w, 0);
      PowStep(Pow(w, a), 0);
    } else {
      PwPw(w, a, b - 1);
      MulDist(a, b, 1);
      MulMono(0, a, b - 1);
      PowStep(Pow(w, a), b - 1);
      PwAdd(w, a, a * (b - 1));
    }
  }

  /** The sum of the powers of z^d over a whole cycle vanishes unless d is zero. */
  lemma {:induction false} GeometricZero(z: nat, k: nat, d: nat, m: int)
    requires k >= 1 && 0 < d < Pow(2, k) && Root(z, k, m)
    ensures Cg(Sum(Pow(2, k), Geometric(z, d)), 0, m)
    decreases k
  {
    hide *;
    var h, s := Pow(2, k - 1), if d % 2 == 1 then -1 else 1;
    PowStep(2, k - 1);
    PowPositive(2, k - 1);
    RootIs(z, k, m);
    var f := Geometric(z, d);
    HalvesSum(z, h, d, m);
    if d % 2 == 0 {
      EvenZero(z, k, d, m);
      CgScale(Sum(h, f), 0, 2, m);
      CgTrans(Sum(h + h, f), 2 * Sum(h, f), 0, m);
    }
  }

  /** The upper half of the sum cancels or repeats the lower one. */
  lemma HalvesSum(z: nat, h: nat, d: nat, m: int)
    requires Cg(Pw(z, h), -1, m)
    ensures Cg(Sum(h + h, Geometric(z, d)), if d % 2 == 1 then 0 else 2 * Sum(h, Geometric(z, d)), m)
  {
    hide *;
    var s := if d % 2 == 1 then -1 else 1;
    var f := Geometric(z, d);
    var g := Tail(f, h);
    HalfPower(z, h, d, m);
    TailSplit(f, h);
    forall i | 0 <= i < h
      ensures Cg(g(i), Scaled(f, s)(i), m)
    {
      UpperTerm(z, h, d, i, m);
    }
    SumCg(h, g, Scaled(f, s), m);
    ScaledSum(h, f, s);
    CgRefl(Sum(h, f), m);
    CgAdd(Sum(h, f), Sum(h, f), Sum(h, g), s * Sum(h, f), m);
  }

  lemma TailSplit(f: int -> int, h: nat)
    ensures Sum(h + h, f) == Sum(h, f) + Sum(h, Tail(f, h))
  {
    hide Sum;
    SumSplit(h, h, f, Tail(f, h));
  }

  lemma ScaledSum(n: nat, f: int -> int, s: int)
    ensures Sum(n, Scaled(f, s)) == s * Sum(n, f)
  {
    hide Sum;
    SumScale(n, f, Scaled(f, s), s);
  }

  /** z^(h*d) is -1 or 1. */
  lemma HalfPower(z: nat, h: nat, d: nat, m: int)
    requires Cg(Pw(z, h), -1, m)
    ensures h * d >= 0 && Cg(Pw(z, h * d), if d % 2 == 1 then -1 else 1, m)
  {
    hide Cg, Pow, Pw;
    PwAdd(z, h, h);
    CgMul(Pw(z, h), -1, Pw(z, h), -1, m);
    var c := d / 2;
    PwCycle(z, h + h, c, m);
    MulMono(0, h, d);
    MulMono(0, h + h, c);
    if d % 2 == 1 {
      assert h * d == (h + h) * c + h by { OddPoly(h, c, d); }
      PwAdd(z, (h + h) * c, h);
      CgMul(Pw(z, (h + h) * c), 1, Pw(z, h), -1, m);
    } else {
      assert h * d == (h + h) * c by { OddPoly(h, c, d); }
    }
  }

  lemma OddPoly(h: int, c: int, d: int)
    ensures d == 2 * c + 1 ==> h * d == (h + h) * c + h
    ensures d == 2 * c ==> h * d == (h + h) * c
  {}

  lemma UpperTerm(z: nat, h: nat, d: nat, i: nat, m: int)
    requires h * d >= 0 && Cg(Pw(z, h * d), if d % 2 == 1 then -1 else 1, m)
    ensures var s := if d % 2 == 1 then -1 else 1;
            Cg(Tail(Geometric(z, d), h)(i), Scaled(Geometric(z, d), s)(i), m)
  {
    var s := if d % 2 == 1 then -1 else 1;
    assert Tail(Geometric(z, d), h)(i) == Pw(z, (h + i) * d) && Scaled(Geometric(z, d), s)(i) == s * Pw(z, i * d);
    hide *;
    MulDist(d, h, i);
    MulMono(0, i, d);
    PwAdd(z, h * d, i * d);
    CgScale(Pw(z, h * d), s, Pw(z, i * d), m);
  }

  /** An even d is the same sum for z*z and half the length. */
  lemma EvenZero(z: nat, k: nat, d: nat, m: int)
    requires k >= 1 && 0 < d < Pow(2, k) && d % 2 == 0 && Root(z, k, m)
    ensures Cg(Sum(Pow(2, k - 1), Geometric(z, d)), 0, m)
    decreases k, 0
  {
    hide Sum, Cg, Pow, Pw, Root;
    PowStep(2, k - 1);
    PowStep(2, 0);
    var d' := d / 2;
    assert k >= 2;
    SquareRoot(z, k, m);
    forall i | 0 <= i < Pow(2, k - 1)
      ensures Geometric(z, d)(i) == Geometric(Pow(z, 2), d')(i)
    {
      SquareTerm(z, d, d', i);
    }
    SumSame(Pow(2, k - 1), Geometric(z, d), Geometric(Pow(z, 2), d'));
    GeometricZero(Pow(z, 2), k - 1, d', m);
  }

  lemma SquareRoot(z: nat, k: nat, m: int)
    requires k >= 2 && Root(z, k, m)
    ensures Root(Pow(z, 2), k - 1, m)
  {
    hide Cg, Pow, Pw;
    PowStep(2, k - 2);
    PwPw(z, 2, Pow(2, k - 2));
  }

  lemma SquareTerm(z: nat, d: nat, d': nat, i: nat)
    requires d == 2 * d'
    ensures Geometric(z, d)(i) == Geometric(Pow(z, 2), d')(i)
  {
    hide Pow, Pw;
    MulMono(0, i, d');
    PwPw(z, 2, i * d');
    assert i * d == 2 * (i * d');
  }

  // ---- unfolding ----

  /** w^e v^e = 1. */
  lemma {:induction false} InversePowers(w: nat, v: nat, e: nat, m: int)
    requires Cg(w * v, 1, m)
    ensures Cg(Pw(w, e) * Pw(v, e), 1, m)
    decreases e
  {
    if e == 0 {
      PowStep(w, 0);
      PowStep(v, 0);
      CgRefl(1, m);
    } else {
      InversePowers(w, v, e - 1, m);
      PowStep(w, e - 1);
      PowStep(v, e - 1);
      hide Cg, Pow;
      CgMul(w * v, 1, Pw(w, e - 1) * Pw(v, e - 1), 1, m);
      TermPoly(w, v, Pow(w, e - 1), Pow(v, e - 1));
    }
  }

  /** w^(c+e) v^e = w^c. */
  lemma PartlyInverse(w: nat, v: nat, c: nat, e: nat, m: int)
    requires Cg(w * v, 1, m)
    ensures Cg(Pw(w, c + e) * Pw(v, e), Pw(w, c), m) && Cg(Pw(w, e) * Pw(v, c + e), Pw(v, c), m)
  {
    hide Cg, Pow, Pw;
    InversePowers(w, v, e, m);
    PwAdd(w, c, e);
    PwAdd(v, c, e);
    CgScale(Pw(w, e) * Pw(v, e), 1, Pw(w, c), m);
    CgScale(Pw(w, e) * Pw(v, e), 1, Pw(v, c), m);
    InversePoly(Pw(w, c), Pw(w, e), Pw(v, c), Pw(v, e));
  }

  lemma InversePoly(a: int, b: int, c: int, d: int)
    ensures a * (b * d) == (a * b) * d && (b * d) * c == b * (c * d)
  {}

  ghost function Kernel(w: nat, v: nat, y: nat, x: nat): (f: int -> int)
  {
    (i: int) => Pw(w, i * y) * Pw(v, i * x)
  }

  /** The kernel is a geometric sum in w or in v. */
  lemma KernelTerm(w: nat, v: nat, n2: nat, y: nat, x: nat, i: nat, d: nat, m: int)
    requires Cg(w * v, 1, m)
    ensures y == x + d * n2 ==> Cg(Kernel(w, v, y, x)(i), Geometric(Pow(w, n2), d)(i), m)
    ensures x == y + d * n2 ==> Cg(Kernel(w, v, y, x)(i), Geometric(Pow(v, n2), d)(i), m)
  {
    assert Kernel(w, v, y, x)(i) == Pw(w, i * y) * Pw(v, i * x);
    assert Geometric(Pow(w, n2), d)(i) == Pw(Pow(w, n2), i * d) && Geometric(Pow(v, n2), d)(i) == Pw(Pow(v, n2), i * d);
    hide *;
    MulMono(0, i, x);
    MulMono(0, i, y);
    MulMono(0, i, d);
    MulMono(0, n2, i * d);
    PwPw(w, n2, i * d);
    PwPw(v, n2, i * d);
    KernelPoly(i, x, y, d, n2);
    PartlyInverse(w, v, n2 * (i * d), i * x, m);
    PartlyInverse(w, v, n2 * (i * d), i * y, m);
  }

  lemma KernelPoly(i: int, x: int, y: int, d: int, n2: int)
    ensures i * (x + d * n2) == n2 * (i * d) + i * x && i * (y + d * n2) == n2 * (i * d) + i * y
  {}

  lemma KernelSum(w: nat, v: nat, k1: nat, n2: nat, a: nat, b: nat, j: nat, m: int)
    requires Cg(w * v, 1, m) && Root(Pow(w, n2), k1, m) && Root(Pow(v, n2), k1, m) && a < Pow(2, k1) && b < Pow(2, k1)
    ensures a * n2 + j >= 0 && b * n2 + j >= 0
    ensures Cg(Sum(Pow(2, k1), Kernel(w, v, b * n2 + j, a * n2 + j)), if a == b then Pow(2, k1) else 0, m)
  {
    hide *;
    var n1, x, y := Pow(2, k1), a * n2 + j, b * n2 + j;
    MulMono(0, a, n2);
    MulMono(0, b, n2);
    var d := if b >= a then b - a else a - b;
    MulDist(n2, a, d);
    MulDist(n2, b, d);
    var z := if b >= a then Pow(w, n2) else Pow(v, n2);
    forall i | 0 <= i < n1
      ensures Cg(Kernel(w, v, y, x)(i), Geometric(z, d)(i), m)
    {
      KernelTerm(w, v, n2, y, x, i, d, m);
    }
    SumCg(n1, Kernel(w, v, y, x), Geometric(z, d), m);
    if a == b {
      GeometricOnes(n1, z);
    } else {
      PowStep(2, 0);
      GeometricZero(z, k1, d, m);
      CgTrans(Sum(n1, Kernel(w, v, y, x)), Sum(n1, Geometric(z, d)), 0, m);
    }
  }

  lemma {:induction false} GeometricOnes(n: nat, z: nat)
    ensures Sum(n, Geometric(z, 0)) == n
  {
    if n > 0 {
      GeometricOnes(n - 1, z);
      PowStep(z, 0);
      assert (n - 1) * 0 == 0;
    }
  }

  ghost function UnfoldTerm(h: int -> int, w: nat, v: nat, n2: nat, j: int, x: int): (F: (int, int) -> int)
  {
    (i: int, b: int) => h(b * n2 + j) * Pw(w, i * (b * n2 + j)) * Pw(v, i * x)
  }

  /** Row i of the inverse: column j of the folded rows, twisted back. */
  ghost function Back(C: (int, int) -> int, v: nat, j: int, x: int): (f: int -> int)
  {
    (i: int) => C(i, j) * Pw(v, i * x)
  }

  ghost function FoldRows(h: int -> int, w: nat, n1: nat, n2: nat): (C: (int, int) -> int)
  {
    (i: int, j: int) => Fold(h, w, n1, n2, i)(j)
  }

  lemma {:induction false} SumSingle(n: nat, f: int -> int, a: nat, m: int)
    requires a < n && forall i :: 0 <= i < n && i != a ==> Cg(f(i), 0, m)
    ensures Cg(Sum(n, f), f(a), m)
    decreases n
  {
    hide Cg;
    if a == n - 1 {
      SumVanish(n - 1, f, m);
      CgRefl(f(a), m);
      CgAdd(Sum(n - 1, f), 0, f(a), f(a), m);
    } else {
      SumSingle(n - 1, f, a, m);
      CgAdd(Sum(n - 1, f), f(a), f(n - 1), 0, m);
    }
  }

  lemma {:induction false} SumVanish(n: nat, f: int -> int, m: int)
    requires forall i :: 0 <= i < n ==> Cg(f(i), 0, m)
    ensures Cg(Sum(n, f), 0, m)
  {
    hide Cg;
    if n == 0 {
      CgRefl(0, m);
    } else {
      SumVanish(n - 1, f, m);
      CgAdd(Sum(n - 1, f), 0, f(n - 1), 0, m);
    }
  }

  lemma UnfoldRow(h: int -> int, w: nat, v: nat, n1: nat, n2: nat, j: int, x: int, i: int)
    ensures Row(UnfoldTerm(h, w, v, n2, j, x), n1)(i) == Back(FoldRows(h, w, n1, n2), v, j, x)(i)
  {
    hide Sum, Pw;
    var T := UnfoldTerm(h, w, v, n2, j, x);
    var p := Pw(v, i * x);
    forall b | 0 <= b < n1
      ensures Left(T, i)(b) == p * Plain(Twist(h, w, i), n2, j)(b)
    {
    }
    SumScale(n1, Plain(Twist(h, w, i), n2, j), Left(T, i), p);
    assert Fold(h, w, n1, n2, i)(j) == Sum(n1, Plain(Twist(h, w, i), n2, j));
  }

  lemma UnfoldColumn(h: int -> int, w: nat, v: nat, n1: nat, n2: nat, j: nat, x: nat, b: nat)
    requires b * n2 + j >= 0
    ensures Column(UnfoldTerm(h, w, v, n2, j, x), n1)(b) == h(b * n2 + j) * Sum(n1, Kernel(w, v, b * n2 + j, x))
  {
    hide Sum, Pw;
    var T, y := UnfoldTerm(h, w, v, n2, j, x), b * n2 + j;
    forall i | 0 <= i < n1
      ensures Right(T, b)(i) == h(y) * Kernel(w, v, y, x)(i)
    {
      AssocPoly(h(y), Pw(w, i * y), Pw(v, i * x));
    }
    SumScale(n1, Kernel(w, v, y, x), Right(T, b), h(y));
  }

  lemma AssocPoly(a: int, b: int, c: int)
    ensures a * b * c == a * (b * c)
  {}

  /** Unfolding what was folded multiplies by n1. */
  lemma UnfoldFold(h: int -> int, w: nat, v: nat, k1: nat, n2: nat, a: nat, j: nat, m: int)
    requires Cg(w * v, 1, m) && Root(Pow(w, n2), k1, m) && Root(Pow(v, n2), k1, m) && a < Pow(2, k1)
    ensures a * n2 + j >= 0
    ensures Cg(Sum(Pow(2, k1), Back(FoldRows(h, w, Pow(2, k1), n2), v, j, a * n2 + j)), Pow(2, k1) * h(a * n2 + j), m)
  {
    hide *;
    MulMono(0, a, n2);
    var n1, x := Pow(2, k1), a * n2 + j;
    var T := UnfoldTerm(h, w, v, n2, j, x);
    forall i | 0 <= i < n1
      ensures Row(T, n1)(i) == Back(FoldRows(h, w, n1, n2), v, j, x)(i)
    {
      UnfoldRow(h, w, v, n1, n2, j, x, i);
    }
    SumSame(n1, Row(T, n1), Back(FoldRows(h, w, n1, n2), v, j, x));
    SumSwap(n1, n1, T);
    forall b | 0 <= b < n1
      ensures Cg(Column(T, n1)(b), if b == a then h(x) * n1 else 0, m)
    {
      KernelSum(w, v, k1, n2, a, b, j, m);
      UnfoldColumn(h, w, v, n1, n2, j, x, b);
      var y := b * n2 + j;
      CgScale(Sum(n1, Kernel(w, v, y, x)), if a == b then n1 else 0, h(y), m);
    }
    SumSingle(n1, Column(T, n1), a, m);
    CgTrans(Sum(n1, Column(T, n1)), Column(T, n1)(a), h(x) * n1, m);
  }
}
