/** Multiplication by number theoretic transforms (cpp/src/quickjs/libbf.c,
    ntt_to_limb, bf_get_fft_size, fft_mul, integer variant) computes the exact
    product. */
module NttMul {
  import opened Powers
  import opened Bits
  import opened NttSums
  import opened NttConvolution
  import opened NttConv
  import opened NttDigits

  // ---- digits and values ----

  /** The digits of v in base 2^dpl. */
  ghost function Digits(v: nat, dpl: nat): (f: int -> int)
  {
    (i: int) => if i < 0 then 0 else Digit(v, dpl, i)
  }

  /** The value of a list of coefficients at T. */
  ghost function Weighted(f: int -> int, T: nat): (g: int -> int)
  {
    (i: int) => f(i) * Pw(T, i)
  }

  lemma PowOfPow(dpl: nat, i: nat)
    ensures i * dpl >= 0 && Pw(Pow(2, dpl), i) == Pow(2, i * dpl)
  {
    MulMono(0, i, dpl);
    PwPw(2, dpl, i);
    MulSwap(dpl, i);
  }

  lemma {:induction false} DigitsValue(v: nat, dpl: nat, n: nat)
    ensures n * dpl >= 0 && Pow(2, n * dpl) > 0
    ensures Sum(n, Weighted(Digits(v, dpl), Pow(2, dpl))) == v % Pow(2, n * dpl)
    decreases n
  {
    MulMono(0, n, dpl);
    PowPositive(2, n * dpl);
    var f := Weighted(Digits(v, dpl), Pow(2, dpl));
    if n == 0 {
      PowStep(2, 0);
    } else {
      DigitsValue(v, dpl, n - 1);
      MulDist(dpl, n, 1);
      DivPow(v, (n - 1) * dpl, dpl);
      PowOfPow(dpl, n - 1);
      assert f(n - 1) == Digit(v, dpl, n - 1) * Pw(Pow(2, dpl), n - 1);
      assert Sum(n, f) == Sum(n - 1, f) + f(n - 1);
      hide Sum, Pow, Weighted, Digits;
    }
  }

  lemma DigitsWhole(v: nat, dpl: nat, n: nat)
    requires v < Pow(2, n * dpl)
    ensures Sum(n, Weighted(Digits(v, dpl), Pow(2, dpl))) == v
  {
    hide *;
    DigitsValue(v, dpl, n);
    SmallDiv(v, Pow(2, n * dpl));
  }

  /** Nothing beyond the first na and nb coefficients, and no room to wrap around. */
  ghost predicate Fits(f: int -> int, g: int -> int, na: nat, nb: nat, n: nat)
  {
    na + nb <= n + 1 && (forall x :: na <= x < n ==> f(x) == 0) && (forall y :: nb <= y < n ==> g(y) == 0)
  }

  /** Inner terms of the value of a convolution, for one x. */
  ghost function Inner(f: int -> int, g: int -> int, T: nat, n: nat): (F: (int, int) -> int)
    requires n > 0
  {
    (i: int, x: int) => f(x) * g((i - x) % n) * Pw(T, i)
  }

  ghost function Placed(g: int -> int, T: nat, n: nat, x: int): (h: int -> int)
    requires n > 0
  {
    (y: int) => g(y) * Pw(T, (x + y) % n)
  }

  lemma PlacedShift(f: int -> int, g: int -> int, T: nat, n: nat, x: nat, s: int, i: nat)
    requires n > 0 && x < n && i < n && s + x == 0
    ensures Right(Inner(f, g, T, n), x)(i) == f(x) * Shifted(Placed(g, T, n, x), s, n)(i)
  {
    hide *;
    var y := (i + s) % n;
    PlaceBack(x, i, n);
    InnerAt(f, g, T, n, x, i);
    PlacedAt(g, T, n, x, y);
    ShiftedAt(Placed(g, T, n, x), s, n, i);
    AssocPoly(f(x), g(y), Pw(T, i));
  }

  lemma InnerAt(f: int -> int, g: int -> int, T: nat, n: nat, x: int, i: int)
    requires n > 0
    ensures Right(Inner(f, g, T, n), x)(i) == f(x) * g((i - x) % n) * Pw(T, i)
  {
    hide Pw;
    assert Inner(f, g, T, n)(i, x) == f(x) * g((i - x) % n) * Pw(T, i);
  }

  lemma PlacedAt(g: int -> int, T: nat, n: nat, x: int, y: int)
    requires n > 0
    ensures Placed(g, T, n, x)(y) == g(y) * Pw(T, (x + y) % n)
  {
    hide Pw;
  }

  lemma ShiftedAt(h: int -> int, s: int, n: nat, i: int)
    requires n > 0
    ensures Shifted(h, s, n)(i) == h((i + s) % n)
  {}

  lemma PlaceBack(x: int, i: int, n: int)
    requires 0 <= i < n
    ensures (x + (i - x) % n) % n == i
  {
    var q := (i - x) / n;
    DivModIs(x + (i - x) % n, n, -q, i);
  }

  /** Without wrap-around a placed factor is only shifted. */
  lemma PlacedPlain(g: int -> int, T: nat, n: nat, x: nat, y: nat)
    requires n > 0 && y < n && (g(y) == 0 || x + y < n)
    ensures Placed(g, T, n, x)(y) == Pw(T, x) * Weighted(g, T)(y)
  {
    hide *;
    PlacedAt(g, T, n, x, y);
    WeightedAt(g, T, y);
    if g(y) != 0 {
      DivModIs(x + y, n, 0, x + y);
      PwAdd(T, x, y);
      PlacedPoly(g(y), Pw(T, x), Pw(T, y));
    }
  }

  lemma PlacedPoly(g: int, p: int, q: int)
    ensures g * (p * q) == p * (g * q)
  {}

  lemma WeightedAt(g: int -> int, T: nat, y: int)
    ensures Weighted(g, T)(y) == g(y) * Pw(T, y)
  {
    hide Pw;
  }

  lemma InnerColumn(f: int -> int, g: int -> int, T: nat, na: nat, nb: nat, n: nat, x: nat)
    requires n > 0 && x < n && Fits(f, g, na, nb, n)
    ensures Column(Inner(f, g, T, n), n)(x) == Weighted(f, T)(x) * Sum(n, Weighted(g, T))
  {
    hide *;
    var F, G := Inner(f, g, T, n), Placed(g, T, n, x);
    var s: int := 0 - x;
    forall i | 0 <= i < n
      ensures Right(F, x)(i) == f(x) * Shifted(G, s, n)(i)
    {
      PlacedShift(f, g, T, n, x, s, i);
    }
    SumScale(n, Shifted(G, s, n), Right(F, x), f(x));
    SumCycle(n, G, s);
    ColumnIs(F, n, x);
    WeightedAt(f, T, x);
    FitsFirst(f, g, na, nb, n, x);
    if f(x) != 0 {
      PlacedSum(f, g, T, na, nb, n, x);
      AssocPoly(f(x), Pw(T, x), Sum(n, Weighted(g, T)));
    }
  }

  lemma ColumnIs(F: (int, int) -> int, n: nat, x: int)
    ensures Column(F, n)(x) == Sum(n, Right(F, x))
  {
    hide Sum;
  }

  lemma FitsFirst(f: int -> int, g: int -> int, na: nat, nb: nat, n: nat, x: nat)
    requires Fits(f, g, na, nb, n) && x < n
    ensures f(x) != 0 ==> x < na
  {}

  lemma PlacedSum(f: int -> int, g: int -> int, T: nat, na: nat, nb: nat, n: nat, x: nat)
    requires n > 0 && x < na && Fits(f, g, na, nb, n)
    ensures Sum(n, Placed(g, T, n, x)) == Pw(T, x) * Sum(n, Weighted(g, T))
  {
    assert na + nb <= n + 1 && forall y :: nb <= y < n ==> g(y) == 0;
    hide *;
    forall y | 0 <= y < n
      ensures Placed(g, T, n, x)(y) == Pw(T, x) * Weighted(g, T)(y)
    {
      PlacedPlain(g, T, n, x, y);
    }
    SumScale(n, Weighted(g, T), Placed(g, T, n, x), Pw(T, x));
  }

  /** The value of the convolution is the product of the values. */
  lemma ConvValue(f: int -> int, g: int -> int, T: nat, na: nat, nb: nat, n: nat)
    requires n > 0 && Fits(f, g, na, nb, n)
    ensures Sum(n, Weighted(Conv(f, g, n), T)) == Sum(n, Weighted(f, T)) * Sum(n, Weighted(g, T))
  {
    hide *;
    var F := Inner(f, g, T, n);
    forall i | 0 <= i < n
      ensures Weighted(Conv(f, g, n), T)(i) == Row(F, n)(i)
    {
      InnerRow(f, g, T, n, i);
    }
    SumSame(n, Weighted(Conv(f, g, n), T), Row(F, n));
    SumSwap(n, n, F);
    var s := Sum(n, Weighted(g, T));
    forall x | 0 <= x < n
      ensures Column(F, n)(x) == s * Weighted(f, T)(x)
    {
      InnerColumn(f, g, T, na, nb, n, x);
      MulSwap(Weighted(f, T)(x), s);
    }
    SumScale(n, Weighted(f, T), Column(F, n), s);
    MulSwap(s, Sum(n, Weighted(f, T)));
  }

  lemma InnerRow(f: int -> int, g: int -> int, T: nat, n: nat, i: nat)
    requires n > 0
    ensures Weighted(Conv(f, g, n), T)(i) == Row(Inner(f, g, T, n), n)(i)
  {
    hide *;
    var F, p := Inner(f, g, T, n), Pw(T, i);
    WeightedAt(Conv(f, g, n), T, i);
    ConvAt(f, g, n, i);
    RowIs(F, n, i);
    forall x | 0 <= x < n
      ensures Left(F, i)(x) == p * ConvTerm(f, g, n, i)(x)
    {
      ConvTermAt(f, g, n, i, x);
      InnerLeft(f, g, T, n, x, i);
      MulSwap(f(x) * g((i - x) % n), p);
    }
    SumScale(n, ConvTerm(f, g, n, i), Left(F, i), p);
    MulSwap(Sum(n, ConvTerm(f, g, n, i)), p);
  }

  lemma InnerLeft(f: int -> int, g: int -> int, T: nat, n: nat, x: int, i: int)
    requires n > 0
    ensures Left(Inner(f, g, T, n), i)(x) == f(x) * g((i - x) % n) * Pw(T, i)
  {
    hide Pw;
    assert Inner(f, g, T, n)(i, x) == f(x) * g((i - x) % n) * Pw(T, i);
  }

  /** Coefficients of a product of digits below T are below n * T^2. */
  lemma {:induction false} SumBound(n: nat, h: int -> int, c: nat)
    requires forall x :: 0 <= x < n ==> 0 <= h(x) <= c
    ensures 0 <= Sum(n, h) <= n * c
  {
    if n > 0 {
      SumBound(n - 1, h, c);
      MulDist(c, n, 1);
    }
  }

  lemma ConvBound(f: int -> int, g: int -> int, n: nat, T: nat, i: int)
    requires n > 0 && T > 0 && (forall x :: 0 <= x < n ==> 0 <= f(x) < T) && (forall x :: 0 <= x < n ==> 0 <= g(x) < T)
    ensures 0 <= Conv(f, g, n)(i) < n * (T * T)
  {
    hide Sum, Conv;
    ConvAt(f, g, n, i);
    var h, c := ConvTerm(f, g, n, i), (T - 1) * (T - 1);
    forall x | 0 <= x < n
      ensures 0 <= h(x) <= c
    {
      var y := (i - x) % n;
      MulMono(0, f(x), g(y));
      MulMono(f(x), T - 1, g(y));
      MulMono(g(y), T - 1, T - 1);
    }
    MulMono(0, T - 1, T - 1);
    SumBound(n, h, c);
    MulStrict(T - 1, T, T);
    MulMono(T - 1, T, T - 1);
    MulStrict(c, T * T, n);
  }
}
