/** Cyclic convolution by transforms (cpp/src/quickjs/libbf.c, mul_trig,
    ntt_fft_partial, ntt_vec_mul, ntt_conv, integer variant). */
module NttConv {
  import opened Powers
  import opened NttWord
  import opened NttSums
  import opened NttConvolution
  import opened NttFft

  // ---- congruent operands ----

  lemma ConvCg(f: int -> int, f': int -> int, g: int -> int, g': int -> int, n: nat, c: int, m: int)
    requires n > 0 && (forall x :: 0 <= x < n ==> Cg(f(x), f'(x), m)) && (forall x :: 0 <= x < n ==> Cg(g(x), g'(x), m))
    ensures Cg(Conv(f, g, n)(c), Conv(f', g', n)(c), m)
  {
    hide *;
    ConvAt(f, g, n, c);
    ConvAt(f', g', n, c);
    forall x | 0 <= x < n
      ensures Cg(ConvTerm(f, g, n, c)(x), ConvTerm(f', g', n, c)(x), m)
    {
      var y := (c - x) % n;
      ConvTermAt(f, g, n, c, x);
      ConvTermAt(f', g', n, c, x);
      CgMul(f(x), f'(x), g(y), g'(y), m);
    }
    SumCg(n, ConvTerm(f, g, n, c), ConvTerm(f', g', n, c), m);
  }

  lemma ConvTermAt(f: int -> int, g: int -> int, n: nat, c: int, x: int)
    requires n > 0
    ensures ConvTerm(f, g, n, c)(x) == f(x) * g((c - x) % n)
  {}

  // ---- twisting a column ----

  /** mul_trig: element i times c^i. */
  method MulTrig(x: seq<nat>, c: nat, m: nat) returns (y: seq<nat>)
    requires Modulus(m) && m > 1 && c < m && forall i :: 0 <= i < |x| ==> x[i] < 2 * m
    ensures |y| == |x| && forall i :: 0 <= i < |y| ==> y[i] < 2 * m && Cg(y[i], x[i] * Pw(c, i), m)
  {
    hide *;
    PFacts();
    ModulusIs(m);
    y := [];
    var c0 := 1;
    PwZero(c);
    CgRefl(1, m);
    while |y| < |x|
      invariant |y| <= |x| && 0 <= c0 < m && Cg(c0, Pw(c, |y|), m)
      invariant forall i :: 0 <= i < |y| ==> y[i] < 2 * m && Cg(y[i], x[i] * Pw(c, i), m)
      decreases |x| - |y|
    {
      var i := |y|;
      MulModFastIs(c0, x[i], m);
      MulSwap2(x[i], c0);
      MulFastSwap(x[i], c0, m);
      var v := MulModFast(x[i], c0, m, Quotient(m));
      TwistedValue(x[i], c0, Pw(c, i), m);
      MulModFast2Is(c0, c, m);
      NextPower(c0, c, i, m);
      y := y + [v];
      c0 := MulModFast2(c0, c, m, Quotient2(c, m));
    }
  }

  lemma MulFastSwap(a: int, b: int, m: int)
    requires a * b == b * a
    ensures MulModFast(a, b, m, if m > 0 then Quotient(m) else 0)
      == MulModFast(b, a, m, if m > 0 then Quotient(m) else 0)
  {
    hide ModFast, Quotient;
  }

  lemma TwistedValue(x: nat, c0: nat, p: int, m: nat)
    requires m > 0 && Cg(c0, p, m)
    ensures 0 <= (c0 * x) % m < m && Cg((c0 * x) % m, x * p, m)
  {
    hide Cg;
    CgMod(c0 * x, m);
    CgScale(c0, p, x, m);
    MulSwap2(x, c0);
    CgTrans((c0 * x) % m, x * c0, x * p, m);
  }

  // ---- columns ----

  function ColumnOf(buf: seq<nat>, n1: nat, n2: nat, j: nat): (x: seq<nat>)
    requires |buf| == n1 * n2 && j < n2
    ensures |x| == n1
  {
    seq(n1, i requires 0 <= i < n1 => ColumnIndex(n1, n2, i, j); buf[i * n2 + j])
  }

  lemma ColumnIndex(n1: nat, n2: nat, i: nat, j: nat)
    requires i < n1 && j < n2
    ensures 0 <= i * n2 + j < n1 * n2 && (i * n2 + j) / n2 == i && (i * n2 + j) % n2 == j
  {
    MulMono(0, i, n2);
    MulMono(i + 1, n1, n2);
    MulDist(n2, i, 1);
    DivModIs(i * n2 + j, n2, i, j);
  }

  /** Transform of column j, then the twist by w^(ji): row i of the folded matrix. */
  lemma ForwardColumn(buf: seq<nat>, x: seq<nat>, t: seq<nat>, y: seq<nat>, w: nat, w1: nat, c: nat, n1: nat,
      n2: nat, j: nat, i: nat, m: nat)
    requires |buf| == n1 * n2 && j < n2 && i < n1 && x == ColumnOf(buf, n1, n2, j)
    requires Transform(x, t, w1, m) && Cg(w1, Pw(w, n2), m) && Cg(c, Pw(w, j), m)
    requires |y| == n1 && Cg(y[i], t[i] * Pw(c, i), m)
    ensures Cg(y[i], Fold(At(buf), w, n1, n2, i)(j), m)
  {
    assert |t| == n1 && Cg(t[i], Coefficient(At(x), w1, n1, i), m);
    hide *;
    PwCong(c, w, j, i, m);
    CgMul(t[i], Coefficient(At(x), w1, n1, i), Pw(c, i), Pw(w, j * i), m);
    CgTrans(y[i], t[i] * Pw(c, i), Coefficient(At(x), w1, n1, i) * Pw(w, j * i), m);
    ColumnFold(buf, x, w, w1, n1, n2, j, i, m);
    CgTrans(y[i], Coefficient(At(x), w1, n1, i) * Pw(w, j * i), Fold(At(buf), w, n1, n2, i)(j), m);
  }

  lemma ColumnFold(buf: seq<nat>, x: seq<nat>, w: nat, w1: nat, n1: nat, n2: nat, j: nat, i: nat, m: nat)
    requires |buf| == n1 * n2 && j < n2 && i < n1 && x == ColumnOf(buf, n1, n2, j) && Cg(w1, Pw(w, n2), m)
    ensures j * i >= 0 && Cg(Coefficient(At(x), w1, n1, i) * Pw(w, j * i), Fold(At(buf), w, n1, n2, i)(j), m)
  {
    MulMono(0, j, i);
    var p := Pw(w, j * i);
    var f, g := Twist(At(x), w1, i), Plain(Twist(At(buf), w, i), n2, j);
    assert Coefficient(At(x), w1, n1, i) == Sum(n1, f)
      && Fold(At(buf), w, n1, n2, i)(j) == Sum(n1, g) by { hide Sum, Pw; }
    hide *;
    forall a | 0 <= a < n1
      ensures Cg(NttConvolution.Scaled(f, p)(a), g(a), m)
    {
      ColumnFoldTerm(buf, x, w, w1, n1, n2, j, i, a, m);
    }
    SumCg(n1, NttConvolution.Scaled(f, p), g, m);
    ScaledSum(n1, f, p);
    MulSwap2(Sum(n1, f), p);
  }

  lemma ColumnFoldTerm(buf: seq<nat>, x: seq<nat>, w: nat, w1: nat, n1: nat, n2: nat, j: nat, i: nat, a: nat, m: nat)
    requires |buf| == n1 * n2 && j < n2 && i < n1 && a < n1 && x == ColumnOf(buf, n1, n2, j) && Cg(w1, Pw(w, n2), m)
      && j * i >= 0
    ensures Cg(NttConvolution.Scaled(Twist(At(x), w1, i), Pw(w, j * i))(a), Plain(Twist(At(buf), w, i), n2, j)(a), m)
  {
    ColumnIndex(n1, n2, a, j);
    var y := a * n2 + j;
    var v, p := buf[y], Pw(w, j * i);
    assert x[a] == v;
    assert NttConvolution.Scaled(Twist(At(x), w1, i), p)(a) == p * (v * Pw(w1, i * a));
    assert Plain(Twist(At(buf), w, i), n2, j)(a) == v * Pw(w, i * y);
    hide *;
    MulMono(0, i, a);
    PwCong(w1, w, n2, i * a, m);
    PwAdd(w, n2 * (i * a), j * i);
    ColumnPoly(i, a, n2, j);
    CgScale(Pw(w1, i * a), Pw(w, n2 * (i * a)), p * v, m);
    ColumnAssoc(p, v, Pw(w1, i * a), Pw(w, n2 * (i * a)));
  }

  lemma ColumnPoly(i: int, a: int, n2: int, j: int)
    ensures n2 * (i * a) + j * i == i * (a * n2 + j)
  {}

  lemma ColumnAssoc(p: int, v: int, q: int, r: int)
    ensures p * (v * q) == (p * v) * q && (p * v) * r == v * (r * p)
  {}

  ghost function RowsOf(buf: seq<nat>, n2: nat): (C: (int, int) -> int)
  {
    (i: int, j: int) => At(buf)(i * n2 + j)
  }

  /** The twist by v^(ji), then the inverse transform of column j. */
  lemma InverseColumn(buf: seq<nat>, x: seq<nat>, t: seq<nat>, y: seq<nat>, v: nat, v1: nat, c: nat, n1: nat,
      n2: nat, j: nat, a: nat, m: nat)
    requires |buf| == n1 * n2 && j < n2 && a < n1 && x == ColumnOf(buf, n1, n2, j)
    requires Transform(t, y, v1, m) && Cg(v1, Pw(v, n2), m) && Cg(c, Pw(v, j), m)
    requires |t| == n1 && forall i :: 0 <= i < n1 ==> Cg(t[i], x[i] * Pw(c, i), m)
    ensures a * n2 + j >= 0 && |y| == n1 && Cg(y[a], Sum(n1, Back(RowsOf(buf, n2), v, j, a * n2 + j)), m)
  {
    assert |y| == n1 && Cg(y[a], Coefficient(At(t), v1, n1, a), m);
    assert Coefficient(At(t), v1, n1, a) == Sum(n1, Twist(At(t), v1, a)) by { hide Sum; }
    hide *;
    ColumnIndex(n1, n2, a, j);
    var z := a * n2 + j;
    forall i | 0 <= i < n1
      ensures Cg(Twist(At(t), v1, a)(i), Back(RowsOf(buf, n2), v, j, z)(i), m)
    {
      InverseTerm(buf, x, t, v, v1, c, n1, n2, j, a, i, m);
    }
    SumCg(n1, Twist(At(t), v1, a), Back(RowsOf(buf, n2), v, j, z), m);
    CgTrans(y[a], Sum(n1, Twist(At(t), v1, a)), Sum(n1, Back(RowsOf(buf, n2), v, j, z)), m);
  }

  lemma InverseTerm(buf: seq<nat>, x: seq<nat>, t: seq<nat>, v: nat, v1: nat, c: nat, n1: nat, n2: nat,
      j: nat, a: nat, i: nat, m: nat)
    requires |buf| == n1 * n2 && j < n2 && a < n1 && i < n1 && x == ColumnOf(buf, n1, n2, j)
    requires Cg(v1, Pw(v, n2), m) && Cg(c, Pw(v, j), m) && |t| == n1 && Cg(t[i], x[i] * Pw(c, i), m)
    ensures Cg(Twist(At(t), v1, a)(i), Back(RowsOf(buf, n2), v, j, a * n2 + j)(i), m)
  {
    hide *;
    ColumnIndex(n1, n2, i, j);
    ColumnIndex(n1, n2, a, j);
    var z, u := a * n2 + j, buf[i * n2 + j];
    ColumnValue(buf, x, n1, n2, j, i);
    TwistAt(t, v1, a, i);
    BackAt(buf, n2, v, j, z, i, u);
    MulMono(0, a, i);
    MulMono(0, j, i);
    PwCong(v1, v, n2, a * i, m);
    PwCong(c, v, j, i, m);
    CgScale(Pw(c, i), Pw(v, j * i), u, m);
    CgTrans(t[i], u * Pw(c, i), u * Pw(v, j * i), m);
    CgMul(t[i], u * Pw(v, j * i), Pw(v1, a * i), Pw(v, n2 * (a * i)), m);
    PwAdd(v, n2 * (a * i), j * i);
    MulSwap2(a, i);
    ColumnPoly(i, a, n2, j);
    InverseAssoc(u, Pw(v, j * i), Pw(v, n2 * (a * i)));
  }

  lemma ColumnValue(buf: seq<nat>, x: seq<nat>, n1: nat, n2: nat, j: nat, i: nat)
    requires |buf| == n1 * n2 && j < n2 && i < n1 && x == ColumnOf(buf, n1, n2, j) && 0 <= i * n2 + j < |buf|
    ensures x[i] == buf[i * n2 + j]
  {}

  lemma TwistAt(t: seq<nat>, w: nat, a: int, i: nat)
    requires i < |t|
    ensures Twist(At(t), w, a)(i) == t[i] * Pw(w, a * i)
  {
    hide Pw;
  }

  lemma BackAt(buf: seq<nat>, n2: nat, v: nat, j: int, x: int, i: int, u: nat)
    requires 0 <= i * n2 + j < |buf| && u == buf[i * n2 + j]
    ensures Back(RowsOf(buf, n2), v, j, x)(i) == u * Pw(v, i * x)
  {
    hide Pw;
    assert RowsOf(buf, n2)(i, j) == At(buf)(i * n2 + j);
  }

  lemma InverseAssoc(u: int, p: int, q: int)
    ensures (u * p) * q == u * (q * p)
  {}

  // ---- partial transforms ----

  /** All columns transformed forward: the matrix holds the folded rows. */
  ghost predicate Folded(buf: seq<nat>, out: seq<nat>, w: nat, n1: nat, n2: nat, m: nat)
    requires n2 > 0
  {
    |out| == |buf| && forall x :: 0 <= x < |out| ==> FoldedAt(buf, out, w, n1, n2, m, x)
  }

  ghost predicate FoldedAt(buf: seq<nat>, out: seq<nat>, w: nat, n1: nat, n2: nat, m: nat, x: nat)
    requires n2 > 0 && x < |out|
  {
    out[x] < 2 * m && Cg(out[x], Fold(At(buf), w, n1, n2, x / n2)(x % n2), m)
  }

  ghost predicate UnfoldedAt(buf: seq<nat>, out: seq<nat>, v: nat, n1: nat, n2: nat, m: nat, x: nat)
    requires n2 > 0 && x < |out|
  {
    out[x] < 2 * m && Cg(out[x], Sum(n1, Back(RowsOf(buf, n2), v, x % n2, x)), m)
  }

  ghost predicate Unfolded(buf: seq<nat>, out: seq<nat>, v: nat, n1: nat, n2: nat, m: nat)
    requires n2 > 0
  {
    |out| == |buf| && forall x :: 0 <= x < |out| ==> UnfoldedAt(buf, out, v, n1, n2, m, x)
  }

  /** Writes a column back. */
  method PutColumn(out: seq<nat>, y: seq<nat>, n1: nat, n2: nat, j: nat) returns (r: seq<nat>)
    requires |out| == n1 * n2 && |y| == n1 && j < n2
    ensures |r| == |out| && (forall i :: 0 <= i < n1 ==> 0 <= i * n2 + j < |r| && r[i * n2 + j] == y[i])
    ensures forall x :: 0 <= x < |r| && x % n2 != j ==> r[x] == out[x]
  {
    r := out;
    var i := 0;
    while i < n1
      invariant 0 <= i <= n1 && |r| == |out|
      invariant forall k :: 0 <= k < i ==> 0 <= k * n2 + j < |r| && r[k * n2 + j] == y[k]
      invariant forall x :: 0 <= x < |r| && x % n2 != j ==> r[x] == out[x]
    {
      ColumnIndex(n1, n2, i, j);
      ghost var r0 := r;
      r := r[i * n2 + j := y[i]];
      forall k | 0 <= k < i
        ensures 0 <= k * n2 + j < |r| && r[k * n2 + j] == y[k]
      {
        ColumnIndex(n1, n2, k, j);
      }
      i := i + 1;
    }
  }

  lemma RowIndex(x: nat, n1: nat, n2: nat)
    requires n2 > 0 && x < n1 * n2
    ensures 0 <= x / n2 < n1 && x == (x / n2) * n2 + x % n2 && 0 <= x % n2 < n2
  {
    DivModIdentity(x, n2);
    if x / n2 >= n1 {
      MulMono(n1, x / n2, n2);
      assert false;
    }
  }

  /** The powers of the root that twist column j. */
  lemma NextTwist(c: nat, w: nat, j: nat, m: nat)
    requires m > 0 && Cg(c, Pw(w, j), m)
    ensures 0 <= (c * w) % m < m && Cg((c * w) % m, Pw(w, j + 1), m)
  {
    NextPower(c, w, j, m);
  }

  /** ntt_fft_partial, forward; with k2 = 0 a plain transform. */
  method Forward(buf: seq<nat>, k1: nat, k2: nat, roots: seq<nat>, m: nat) returns (out: seq<nat>)
    requires Modulus(m) && m > 1 && RootTable(roots, m) && 1 <= k1 && k1 + k2 < |roots|
    requires |buf| == Pow(2, k1) * Pow(2, k2) && forall i :: 0 <= i < |buf| ==> buf[i] < 2 * m
    ensures Pow(2, k2) > 0 && Folded(buf, out, roots[k1 + k2], Pow(2, k1), Pow(2, k2), m)
  {
    hide *;
    PowPositive(2, k2);
    var n1, n2 := Pow(2, k1), Pow(2, k2);
    ghost var w := roots[k1 + k2];
    RootPower(roots, m, k1, k1 + k2);
    RootBelow(roots, m, k1 + k2);
    out := buf;
    PFacts();
    ModulusIs(m);
    var c := 1;
    PwZero(w);
    CgRefl(1, m);
    var j := 0;
    while j < n2
      invariant 0 <= j <= n2 && |out| == |buf| && 0 <= c < m && Cg(c, Pw(w, j), m)
      invariant forall x :: 0 <= x < |out| && x % n2 < j ==> FoldedAt(buf, out, w, n1, n2, m, x)
    {
      var x := ColumnOf(buf, n1, n2, j);
      ColumnBound(buf, x, n1, n2, j, m);
      var t := Fft(x, k1, roots, m);
      TransformBound(x, t, roots[k1], m);
      var y := MulTrig(t, c, m);
      ghost var out0 := out;
      out := PutColumn(out, y, n1, n2, j);
      forall z | 0 <= z < |out| && z % n2 < j + 1
        ensures FoldedAt(buf, out, w, n1, n2, m, z)
      {
        RowIndex(z, n1, n2);
        if z % n2 == j {
          ForwardColumn(buf, x, t, y, w, roots[k1], c, n1, n2, j, z / n2, m);
          FoldedIntro(buf, out, w, n1, n2, m, z);
        } else {
          FoldedKept(buf, out0, out, w, n1, n2, m, z);
        }
      }
      MulModFastIs(c, roots[k1 + k2], m);
      NextTwist(c, w, j, m);
      c := MulModFast(c, roots[k1 + k2], m, Quotient(m));
      j := j + 1;
    }
    FoldedAll(buf, out, w, n1, n2, m);
  }

  lemma ColumnBound(buf: seq<nat>, x: seq<nat>, n1: nat, n2: nat, j: nat, m: nat)
    requires |buf| == n1 * n2 && j < n2 && x == ColumnOf(buf, n1, n2, j)
      && forall i :: 0 <= i < |buf| ==> buf[i] < 2 * m
    ensures forall i :: 0 <= i < |x| ==> x[i] < 2 * m
  {
    forall i | 0 <= i < |x|
      ensures x[i] < 2 * m
    {
      ColumnIndex(n1, n2, i, j);
    }
  }

  lemma TransformBound(x: seq<nat>, t: seq<nat>, w: nat, m: nat)
    requires Transform(x, t, w, m)
    ensures |t| == |x| && forall i :: 0 <= i < |t| ==> t[i] < 2 * m
  {
    hide Cg, Coefficient;
  }

  lemma FoldedIntro(buf: seq<nat>, out: seq<nat>, w: nat, n1: nat, n2: nat, m: nat, x: nat)
    requires n2 > 0 && x < |out| && out[x] < 2 * m && Cg(out[x], Fold(At(buf), w, n1, n2, x / n2)(x % n2), m)
    ensures FoldedAt(buf, out, w, n1, n2, m, x)
  {
    hide Cg, Fold;
  }

  lemma FoldedKept(buf: seq<nat>, out0: seq<nat>, out: seq<nat>, w: nat, n1: nat, n2: nat, m: nat, x: nat)
    requires n2 > 0 && x < |out| == |out0| && out[x] == out0[x] && FoldedAt(buf, out0, w, n1, n2, m, x)
    ensures FoldedAt(buf, out, w, n1, n2, m, x)
  {
    hide Cg, Fold;
  }

  lemma FoldedAll(buf: seq<nat>, out: seq<nat>, w: nat, n1: nat, n2: nat, m: nat)
    requires n2 > 0 && |out| == |buf|
      && forall x :: 0 <= x < |out| && x % n2 < n2 ==> FoldedAt(buf, out, w, n1, n2, m, x)
    ensures Folded(buf, out, w, n1, n2, m)
  {
    hide FoldedAt;
  }

  /** ntt_fft_partial, inverse. */
  method Inverse(buf: seq<nat>, k1: nat, k2: nat, roots: seq<nat>, m: nat) returns (out: seq<nat>)
    requires Modulus(m) && m > 1 && RootTable(roots, m) && 1 <= k1 && k1 + k2 < |roots|
    requires |buf| == Pow(2, k1) * Pow(2, k2) && forall i :: 0 <= i < |buf| ==> buf[i] < 2 * m
    ensures Pow(2, k2) > 0 && Unfolded(buf, out, roots[k1 + k2], Pow(2, k1), Pow(2, k2), m)
  {
    hide *;
    PowPositive(2, k2);
    var n1, n2 := Pow(2, k1), Pow(2, k2);
    ghost var v := roots[k1 + k2];
    RootPower(roots, m, k1, k1 + k2);
    RootBelow(roots, m, k1 + k2);
    out := buf;
    PFacts();
    ModulusIs(m);
    var c := 1;
    PwZero(v);
    CgRefl(1, m);
    var j := 0;
    while j < n2
      invariant 0 <= j <= n2 && |out| == |buf| && 0 <= c < m && Cg(c, Pw(v, j), m)
      invariant forall x :: 0 <= x < |out| && x % n2 < j ==> UnfoldedAt(buf, out, v, n1, n2, m, x)
    {
      var x := ColumnOf(buf, n1, n2, j);
      ColumnBound(buf, x, n1, n2, j, m);
      var t := MulTrig(x, c, m);
      var y := Fft(t, k1, roots, m);
      TransformBound(t, y, roots[k1], m);
      ghost var out0 := out;
      out := PutColumn(out, y, n1, n2, j);
      forall z | 0 <= z < |out| && z % n2 < j + 1
        ensures UnfoldedAt(buf, out, v, n1, n2, m, z)
      {
        RowIndex(z, n1, n2);
        if z % n2 == j {
          InverseColumn(buf, x, t, y, v, roots[k1], c, n1, n2, j, z / n2, m);
          UnfoldedIntro(buf, out, v, n1, n2, m, z);
        } else {
          UnfoldedKept(buf, out0, out, v, n1, n2, m, z);
        }
      }
      MulModFastIs(c, roots[k1 + k2], m);
      NextTwist(c, v, j, m);
      c := MulModFast(c, roots[k1 + k2], m, Quotient(m));
      j := j + 1;
    }
    UnfoldedAll(buf, out, v, n1, n2, m);
  }

  lemma UnfoldedIntro(buf: seq<nat>, out: seq<nat>, v: nat, n1: nat, n2: nat, m: nat, x: nat)
    requires n2 > 0 && x < |out| && out[x] < 2 * m && Cg(out[x], Sum(n1, Back(RowsOf(buf, n2), v, x % n2, x)), m)
    ensures UnfoldedAt(buf, out, v, n1, n2, m, x)
  {
    hide Cg, Sum;
  }

  lemma UnfoldedKept(buf: seq<nat>, out0: seq<nat>, out: seq<nat>, v: nat, n1: nat, n2: nat, m: nat, x: nat)
    requires n2 > 0 && x < |out| == |out0| && out[x] == out0[x] && UnfoldedAt(buf, out0, v, n1, n2, m, x)
    ensures UnfoldedAt(buf, out, v, n1, n2, m, x)
  {
    hide Cg, Sum;
  }

  lemma UnfoldedAll(buf: seq<nat>, out: seq<nat>, v: nat, n1: nat, n2: nat, m: nat)
    requires n2 > 0 && |out| == |buf|
      && forall x :: 0 <= x < |out| && x % n2 < n2 ==> UnfoldedAt(buf, out, v, n1, n2, m, x)
    ensures Unfolded(buf, out, v, n1, n2, m)
  {
    hide UnfoldedAt;
  }

  // ---- convolution ----

  /** A modulus with its tables of roots and of their inverses. */
  datatype NttMod = NttMod(m: nat, roots: seq<nat>, inverses: seq<nat>)

  ghost predicate Ready(d: NttMod)
  {
    && Modulus(d.m) && d.m > 1 && RootTable(d.roots, d.m) && RootTable(d.inverses, d.m) && |d.roots| == |d.inverses|
    && Cg(d.roots[|d.roots| - 1] * d.inverses[|d.roots| - 1], 1, d.m)
  }

  lemma ReadyParts(d: NttMod)
    requires Ready(d)
    ensures Modulus(d.m) && d.m > 1 && RootTable(d.roots, d.m) && RootTable(d.inverses, d.m)
      && |d.roots| == |d.inverses|
    ensures |d.roots| >= 2 && Cg(d.roots[|d.roots| - 1] * d.inverses[|d.roots| - 1], 1, d.m)
  {
    hide Root, SquareOf, Modulus, Cg;
  }

  /** The entries of the two tables are inverse to each other. */
  lemma InversePair(d: NttMod, l: nat)
    requires Ready(d) && 1 <= l < |d.roots|
    ensures Cg(d.roots[l] * d.inverses[l], 1, d.m)
  {
    hide *;
    ReadyParts(d);
    var K, m := |d.roots| - 1, d.m;
    var w, v, e := d.roots[K], d.inverses[K], Pow(2, K - l);
    RootPower(d.roots, m, l, K);
    RootPower(d.inverses, m, l, K);
    InversePowers(w, v, e, m);
    CgMul(d.roots[l], Pw(w, e), d.inverses[l], Pw(v, e), m);
    CgTrans(d.roots[l] * d.inverses[l], Pw(w, e) * Pw(v, e), 1, m);
  }

  /** The n2-th power of the root of order 2^(k1+k2) has order 2^k1. */
  lemma SubRoot(roots: seq<nat>, m: nat, k1: nat, k2: nat)
    requires RootTable(roots, m) && 1 <= k1 && k1 + k2 < |roots|
    ensures Root(Pow(roots[k1 + k2], Pow(2, k2)), k1, m)
  {
    hide *;
    var k, w, n2 := k1 + k2, roots[k1 + k2], Pow(2, k2);
    RootAt(roots, m, k);
    RootIs(w, k, m);
    RootIs(Pow(w, n2), k1, m);
    PwPw(w, n2, Pow(2, k1 - 1));
    PowAdd(2, k2, k1 - 1);
  }

  /** ntt_vec_mul. */
  method VecMul(t1: seq<nat>, t2: seq<nat>, norm: nat, m: nat) returns (out: seq<nat>)
    requires Modulus(m) && m > 1 && norm < m && |t1| == |t2|
    requires forall i :: 0 <= i < |t1| ==> t1[i] < 2 * m && t2[i] < 2 * m
    ensures |out| == |t1| && forall i :: 0 <= i < |out| ==> out[i] < 2 * m && Cg(out[i], norm * (t1[i] * t2[i]), m)
  {
    hide *;
    PFacts();
    ModulusIs(m);
    out := [];
    while |out| < |t1|
      invariant |out| <= |t1|
      invariant forall i :: 0 <= i < |out| ==> out[i] < 2 * m && Cg(out[i], norm * (t1[i] * t2[i]), m)
      decreases |t1| - |out|
    {
      var i := |out|;
      var a := t1[i];
      if a >= m {
        a := a - m;
      }
      CgIntro(a, t1[i], m, if t1[i] >= m then -1 else 0);
      MulModFastIs(a, t2[i], m);
      ghost var b := a * t2[i];
      DivModIdentity(b, m);
      a := MulModFast(a, t2[i], m, Quotient(m));
      MulModFast3Is(a, norm, m);
      var r := MulModFast3(a, norm, m, Quotient2(norm, m));
      SameCg(r, a * norm, m);
      VecTerm(r, b % m, b, t1[i], t2[i], norm, m);
      out := out + [r];
    }
  }

  lemma VecTerm(r: int, c: int, b: int, x: int, y: int, norm: int, m: int)
    requires m > 0 && c == b % m && Cg(r, c * norm, m) && (exists a :: Cg(a, x, m) && b == a * y)
    ensures Cg(r, norm * (x * y), m)
  {
    hide Cg;
    var a :| Cg(a, x, m) && b == a * y;
    CgScale(a, x, y, m);
    CgMod(b, m);
    CgTrans(c, b, x * y, m);
    CgScale(c, x * y, norm, m);
    MulSwap2(norm, x * y);
    CgTrans(r, c * norm, norm * (x * y), m);
  }

  /** Rows that are s times the folded convolution. */
  ghost predicate RowsDone(C: seq<nat>, h: int -> int, s: int, w: nat, n1: nat, n2: nat, m: nat)
    requires n2 > 0
  {
    |C| == n1 * n2 && forall x :: 0 <= x < |C| ==> RowDoneAt(C, h, s, w, n1, n2, m, x)
  }

  ghost predicate RowDoneAt(C: seq<nat>, h: int -> int, s: int, w: nat, n1: nat, n2: nat, m: nat, x: nat)
    requires n2 > 0 && x < |C|
  {
    C[x] < 2 * m && Cg(C[x], s * Fold(h, w, n1, n2, x / n2)(x % n2), m)
  }

  /** The result of a convolution of 2^k values, scaled by s. */
  ghost predicate Convolved(b1: seq<nat>, b2: seq<nat>, out: seq<nat>, s: int, m: nat)
    requires |b1| > 0
  {
    |out| == |b1| && forall x :: 0 <= x < |out| ==> out[x] < 2 * m && Cg(out[x], s * Conv(At(b1), At(b2), |b1|)(x), m)
  }

  /** Unfolding the rows gives the convolution. */
  lemma UnfoldRows(C: seq<nat>, out: seq<nat>, h: int -> int, s: int, d: NttMod, k1: nat, k2: nat, x: nat)
    requires Ready(d) && 1 <= k1 && k1 + k2 < |d.roots| && Pow(2, k2) > 0
    requires RowsDone(C, h, s, d.roots[k1 + k2], Pow(2, k1), Pow(2, k2), d.m)
    requires Unfolded(C, out, d.inverses[k1 + k2], Pow(2, k1), Pow(2, k2), d.m) && x < |out|
    ensures out[x] < 2 * d.m && Cg(out[x], (Pow(2, k1) * s) * h(x), d.m)
  {
    hide *;
    ReadyParts(d);
    var n1, n2, w, v, m := Pow(2, k1), Pow(2, k2), d.roots[k1 + k2], d.inverses[k1 + k2], d.m;
    RowsBound(C, h, s, w, n1, n2, m);
    UnfoldedOne(C, out, v, n1, n2, m, x);
    RowIndex(x, n1, n2);
    var a, j := x / n2, x % n2;
    var F := Back(FoldRows(h, w, n1, n2), v, j, x);
    forall i | 0 <= i < n1
      ensures Cg(Back(RowsOf(C, n2), v, j, x)(i), NttConvolution.Scaled(F, s)(i), m)
    {
      RowBack(C, h, s, w, v, n1, n2, m, i, j, x);
    }
    SumCg(n1, Back(RowsOf(C, n2), v, j, x), NttConvolution.Scaled(F, s), m);
    ScaledSum(n1, F, s);
    SubRoot(d.roots, m, k1, k2);
    SubRoot(d.inverses, m, k1, k2);
    InversePair(d, k1 + k2);
    UnfoldFold(h, w, v, k1, n2, a, j, m);
    CgScale(Sum(n1, F), n1 * h(x), s, m);
    CgTrans(out[x], Sum(n1, Back(RowsOf(C, n2), v, j, x)), s * Sum(n1, F), m);
    CgTrans(out[x], s * Sum(n1, F), s * (n1 * h(x)), m);
    UnfoldAssoc(s, n1, h(x));
  }

  lemma UnfoldAssoc(s: int, n: int, h: int)
    ensures s * (n * h) == (n * s) * h
  {}

  lemma UnfoldedIs(C: seq<nat>, out: seq<nat>, v: nat, n1: nat, n2: nat, m: nat, x: nat)
    requires n2 > 0 && x < |out| && UnfoldedAt(C, out, v, n1, n2, m, x)
    ensures out[x] < 2 * m && Cg(out[x], Sum(n1, Back(RowsOf(C, n2), v, x % n2, x)), m)
  {
    hide Cg, Sum;
  }

  lemma UnfoldedOne(C: seq<nat>, out: seq<nat>, v: nat, n1: nat, n2: nat, m: nat, x: nat)
    requires n2 > 0 && x < |out| && Unfolded(C, out, v, n1, n2, m)
    ensures |out| == |C| && out[x] < 2 * m && Cg(out[x], Sum(n1, Back(RowsOf(C, n2), v, x % n2, x)), m)
  {
    hide Cg, Sum, UnfoldedAt;
    UnfoldedIs(C, out, v, n1, n2, m, x);
  }

  lemma RowBack(C: seq<nat>, h: int -> int, s: int, w: nat, v: nat, n1: nat, n2: nat, m: nat, i: nat, j: nat, x: nat)
    requires n2 > 0 && RowsDone(C, h, s, w, n1, n2, m) && i < n1 && j < n2
    ensures Cg(Back(RowsOf(C, n2), v, j, x)(i), NttConvolution.Scaled(Back(FoldRows(h, w, n1, n2), v, j, x), s)(i), m)
  {
    ColumnIndex(n1, n2, i, j);
    var z := i * n2 + j;
    assert RowDoneAt(C, h, s, w, n1, n2, m, z);
    var p := Pw(v, i * x);
    var F := Fold(h, w, n1, n2, i)(j);
    assert Cg(C[z], s * F, m);
    hide Cg, Pw, Fold, RowsDone, RowDoneAt;
    BackAt(C, n2, v, j, x, i, C[z]);
    assert FoldRows(h, w, n1, n2)(i, j) == F;
    assert NttConvolution.Scaled(Back(FoldRows(h, w, n1, n2), v, j, x), s)(i) == s * (F * p);
    CgScale(C[z], s * F, p, m);
    AssocPoly(s, F, p);
  }

  // ---- the recursion ----

  const TRIG_K_MAX: nat := 19

  function FirstPart(k: nat): (k1: nat)
  {
    if k <= TRIG_K_MAX then k else if k / 2 < TRIG_K_MAX then k / 2 else TRIG_K_MAX
  }

  lemma FirstPartIs(k: nat)
    requires k >= 1
    ensures 1 <= FirstPart(k) <= k && k - FirstPart(k) < k
    ensures Pow(2, k) == Pow(2, FirstPart(k)) * Pow(2, k - FirstPart(k))
  {
    PowAdd(2, FirstPart(k), k - FirstPart(k));
  }

  /** A row of transformed operands, convolved, is a row of the folded convolution. */
  lemma RowConvolved(b1: seq<nat>, b2: seq<nat>, f1: seq<nat>, f2: seq<nat>, r: seq<nat>, s: int, d: NttMod,
      k1: nat, k2: nat, i: nat, j: nat)
    requires Ready(d) && 1 <= k1 && k1 + k2 < |d.roots| && Pow(2, k2) > 0
    requires |b1| == |b2| == Pow(2, k1) * Pow(2, k2) && i < Pow(2, k1) && j < Pow(2, k2)
    requires Folded(b1, f1, d.roots[k1 + k2], Pow(2, k1), Pow(2, k2), d.m)
      && Folded(b2, f2, d.roots[k1 + k2], Pow(2, k1), Pow(2, k2), d.m)
    requires var n2 := Pow(2, k2);
             && 0 <= i * n2 && (i + 1) * n2 <= |f1| && (i + 1) * n2 <= |f2| && i * n2 + n2 == (i + 1) * n2
             && |r| == n2 && Cg(r[j], s * Conv(At(f1[i * n2..(i + 1) * n2]), At(f2[i * n2..(i + 1) * n2]), n2)(j), d.m)
    ensures |b1| > 0 && Cg(r[j],
      s * Fold(Conv(At(b1), At(b2), |b1|), d.roots[k1 + k2], Pow(2, k1), Pow(2, k2), i)(j), d.m)
  {
    hide *;
    ReadyParts(d);
    var n1, n2, w, m := Pow(2, k1), Pow(2, k2), d.roots[k1 + k2], d.m;
    PowPositive(2, k1);
    MulMono(1, n1, n2);
    var F, G := Fold(At(b1), w, n1, n2, i), Fold(At(b2), w, n1, n2, i);
    var r1, r2 := f1[i * n2..(i + 1) * n2], f2[i * n2..(i + 1) * n2];
    forall x | 0 <= x < n2
      ensures Cg(At(r1)(x), F(x), m) && Cg(At(r2)(x), G(x), m)
    {
      RowIsFold(b1, f1, w, n1, n2, m, i, x);
      RowIsFold(b2, f2, w, n1, n2, m, i, x);
    }
    ConvCg(At(r1), F, At(r2), G, n2, j, m);
    RootAt(d.roots, m, k1 + k2);
    RootCycle(w, k1 + k2, m);
    PowAdd(2, k1, k2);
    FoldConv(At(b1), At(b2), w, n1, n2, i, j, m);
    var h := Fold(Conv(At(b1), At(b2), n1 * n2), w, n1, n2, i)(j);
    CgSym(h, Conv(F, G, n2)(j), m);
    CgTrans(Conv(At(r1), At(r2), n2)(j), Conv(F, G, n2)(j), h, m);
    CgScale(Conv(At(r1), At(r2), n2)(j), h, s, m);
    CgTrans(r[j], s * Conv(At(r1), At(r2), n2)(j), s * h, m);
  }

  lemma RowIsFold(b: seq<nat>, f: seq<nat>, w: nat, n1: nat, n2: nat, m: nat, i: nat, x: nat)
    requires n2 > 0 && Folded(b, f, w, n1, n2, m) && |b| == n1 * n2 && i < n1 && x < n2
    requires 0 <= i * n2 && i * n2 + n2 == (i + 1) * n2 && (i + 1) * n2 <= |f|
    ensures Cg(At(f[i * n2..(i + 1) * n2])(x), Fold(At(b), w, n1, n2, i)(x), m)
  {
    ColumnIndex(n1, n2, i, x);
    assert FoldedAt(b, f, w, n1, n2, m, i * n2 + x);
    hide Cg, Fold, Folded;
  }

  /** ntt_conv: cyclic convolution of 2^k values times 2^k times norm. */
  method Convolve(b1: seq<nat>, b2: seq<nat>, k: nat, norm: nat, d: NttMod) returns (out: seq<nat>)
    requires Ready(d) && 1 <= k < |d.roots| && norm < d.m && |b1| == |b2| == Pow(2, k)
    requires forall i :: 0 <= i < |b1| ==> b1[i] < 2 * d.m && b2[i] < 2 * d.m
    ensures |b1| > 0 && Convolved(b1, b2, out, Pow(2, k) * norm, d.m)
    decreases k
  {
    hide *;
    ReadyParts(d);
    FirstPartIs(k);
    PowPositive(2, k);
    var k1 := FirstPart(k);
    var k2 := k - k1;
    var f1 := Forward(b1, k1, k2, d.roots, d.m);
    var f2 := Forward(b2, k1, k2, d.roots, d.m);
    FoldedBound(b1, f1, d.roots[k], Pow(2, k1), Pow(2, k2), d.m);
    FoldedBound(b2, f2, d.roots[k], Pow(2, k1), Pow(2, k2), d.m);
    var C;
    ghost var h := Conv(At(b1), At(b2), |b1|);
    if k2 == 0 {
      C := VecMul(f1, f2, norm, d.m);
      PowStep(2, 0);
      VecIsRows(b1, b2, f1, f2, C, norm, d, k);
    } else {
      C := ConvolveRows(b1, b2, f1, f2, k1, k2, norm, d);
    }
    RowsBound(C, h, Pow(2, k2) * norm, d.roots[k], Pow(2, k1), Pow(2, k2), d.m);
    out := Inverse(C, k1, k2, d.inverses, d.m);
    UnfoldedLength(C, out, d.inverses[k], Pow(2, k1), Pow(2, k2), d.m);
    forall x | 0 <= x < |out|
      ensures out[x] < 2 * d.m && Cg(out[x], (Pow(2, k) * norm) * h(x), d.m)
    {
      UnfoldRows(C, out, h, Pow(2, k2) * norm, d, k1, k2, x);
      ScalePoly(Pow(2, k1), Pow(2, k2), norm);
    }
    ConvolvedIntro(b1, b2, out, Pow(2, k) * norm, d.m);
  }

  lemma ScalePoly(a: int, b: int, c: int)
    ensures a * (b * c) == (a * b) * c
  {}

  lemma ConvolvedIntro(b1: seq<nat>, b2: seq<nat>, out: seq<nat>, s: int, m: nat)
    requires |b1| > 0 && |out| == |b1|
    requires forall x :: 0 <= x < |out| ==> out[x] < 2 * m && Cg(out[x], s * Conv(At(b1), At(b2), |b1|)(x), m)
    ensures Convolved(b1, b2, out, s, m)
  {
    hide Cg, Conv;
  }

  lemma FoldedBound(b: seq<nat>, f: seq<nat>, w: nat, n1: nat, n2: nat, m: nat)
    requires n2 > 0 && Folded(b, f, w, n1, n2, m)
    ensures |f| == |b| && forall i :: 0 <= i < |f| ==> f[i] < 2 * m
  {
    forall i | 0 <= i < |f|
      ensures f[i] < 2 * m
    {
      assert FoldedAt(b, f, w, n1, n2, m, i);
    }
  }

  lemma RowsBound(C: seq<nat>, h: int -> int, s: int, w: nat, n1: nat, n2: nat, m: nat)
    requires n2 > 0 && RowsDone(C, h, s, w, n1, n2, m)
    ensures |C| == n1 * n2 && forall i :: 0 <= i < |C| ==> C[i] < 2 * m
  {
    forall i | 0 <= i < |C|
      ensures C[i] < 2 * m
    {
      assert RowDoneAt(C, h, s, w, n1, n2, m, i);
    }
  }

  lemma UnfoldedLength(C: seq<nat>, out: seq<nat>, v: nat, n1: nat, n2: nat, m: nat)
    requires n2 > 0 && Unfolded(C, out, v, n1, n2, m)
    ensures |out| == |C|
  {}

  /** Without rows of their own the products are convolutions of length one. */
  lemma VecIsRows(b1: seq<nat>, b2: seq<nat>, f1: seq<nat>, f2: seq<nat>, C: seq<nat>, norm: nat, d: NttMod, k: nat)
    requires Ready(d) && 1 <= k < |d.roots| && |b1| == |b2| == Pow(2, k) && Pow(2, 0) == 1
    requires Folded(b1, f1, d.roots[k], Pow(2, k), 1, d.m) && Folded(b2, f2, d.roots[k], Pow(2, k), 1, d.m)
    requires |C| == |f1| == |f2| == |b1|
      && forall i :: 0 <= i < |C| ==> C[i] < 2 * d.m && Cg(C[i], norm * (f1[i] * f2[i]), d.m)
    ensures |b1| > 0 && RowsDone(C, Conv(At(b1), At(b2), |b1|), 1 * norm, d.roots[k], Pow(2, k), 1, d.m)
  {
    hide *;
    PowPositive(2, k);
    var n, w, h := Pow(2, k), d.roots[k], Conv(At(b1), At(b2), |b1|);
    forall x | 0 <= x < |C|
      ensures RowDoneAt(C, h, 1 * norm, w, n, 1, d.m, x)
    {
      var r := [C[x]];
      DivByOne2(x);
      SingleConv(f1[x..x + 1], f2[x..x + 1], f1[x], f2[x]);
      assert x * 1 == x && (x + 1) * 1 == x + 1 && n * 1 == n;
      RowConvolved(b1, b2, f1, f2, r, norm, d, k, 0, x, 0);
      RowDoneIntro(C, h, 1 * norm, w, n, 1, d.m, x);
    }
    RowsIntro(C, h, 1 * norm, w, n, 1, d.m);
  }

  lemma DivByOne2(x: int)
    ensures x / 1 == x && x % 1 == 0
  {}

  lemma SingleConv(r1: seq<nat>, r2: seq<nat>, a: nat, b: nat)
    requires r1 == [a] && r2 == [b]
    ensures Conv(At(r1), At(r2), 1)(0) == a * b
  {
    var t := ConvTerm(At(r1), At(r2), 1, 0);
    assert t(0) == a * b by { assert (0 - 0) % 1 == 0; }
    assert Sum(1, t) == Sum(0, t) + t(0);
  }

  lemma RowDoneIntro(C: seq<nat>, h: int -> int, s: int, w: nat, n1: nat, n2: nat, m: nat, x: nat)
    requires n2 > 0 && x < |C| && C[x] < 2 * m && Cg(C[x], s * Fold(h, w, n1, n2, x / n2)(x % n2), m)
    ensures RowDoneAt(C, h, s, w, n1, n2, m, x)
  {
    hide Cg, Fold;
  }

  lemma RowsIntro(C: seq<nat>, h: int -> int, s: int, w: nat, n1: nat, n2: nat, m: nat)
    requires n2 > 0 && |C| == n1 * n2 && forall x :: 0 <= x < |C| ==> RowDoneAt(C, h, s, w, n1, n2, m, x)
    ensures RowsDone(C, h, s, w, n1, n2, m)
  {
    hide RowDoneAt;
  }

  /** The rows one after the other. */
  method ConvolveRows(ghost b1: seq<nat>, ghost b2: seq<nat>, f1: seq<nat>, f2: seq<nat>, k1: nat,
      k2: nat, norm: nat, d: NttMod)
      returns (C: seq<nat>)
    requires Ready(d) && 1 <= k1 && 1 <= k2 && k1 + k2 < |d.roots| && norm < d.m && Pow(2, k2) > 0
    requires |b1| == |b2| == |f1| == |f2| == Pow(2, k1) * Pow(2, k2)
    requires forall i :: 0 <= i < |f1| ==> f1[i] < 2 * d.m && f2[i] < 2 * d.m
    requires Folded(b1, f1, d.roots[k1 + k2], Pow(2, k1), Pow(2, k2), d.m)
      && Folded(b2, f2, d.roots[k1 + k2], Pow(2, k1), Pow(2, k2), d.m)
    ensures |b1| > 0
    ensures RowsDone(C, Conv(At(b1), At(b2), |b1|), Pow(2, k2) * norm, d.roots[k1 + k2], Pow(2, k1), Pow(2, k2), d.m)
    decreases k1 + k2, 0
  {
    hide *;
    var n1, n2 := Pow(2, k1), Pow(2, k2);
    PowPositive(2, k1);
    MulMono(1, n1, n2);
    ghost var h, s, w := Conv(At(b1), At(b2), |b1|), Pow(2, k2) * norm, d.roots[k1 + k2];
    C := [];
    var i := 0;
    while i < n1
      invariant 0 <= i <= n1 && |C| == i * n2
      invariant forall x :: 0 <= x < |C| ==> RowDoneAt(C, h, s, w, n1, n2, d.m, x)
    {
      MulMono(i + 1, n1, n2);
      MulDist(n2, i, 1);
      MulMono(0, i, n2);
      var r1, r2 := f1[i * n2..(i + 1) * n2], f2[i * n2..(i + 1) * n2];
      var r := Convolve(r1, r2, k2, norm, d);
      ghost var C0 := C;
      C := C + r;
      ConvolvedParts(r1, r2, r, s, d.m);
      forall x | 0 <= x < |C|
        ensures RowDoneAt(C, h, s, w, n1, n2, d.m, x)
      {
        if x < |C0| {
          RowDoneKept(C0, C, h, s, w, n1, n2, d.m, x);
        } else {
          var j := x - |C0|;
          ColumnIndex(n1, n2, i, j);
          RowConvolved(b1, b2, f1, f2, r, s, d, k1, k2, i, j);
          RowDoneIntro(C, h, s, w, n1, n2, d.m, x);
        }
      }
      i := i + 1;
    }
    RowsIntro(C, h, s, w, n1, n2, d.m);
  }

  lemma ConvolvedParts(b1: seq<nat>, b2: seq<nat>, out: seq<nat>, s: int, m: nat)
    requires |b1| > 0 && Convolved(b1, b2, out, s, m)
    ensures |out| == |b1|
      && forall x :: 0 <= x < |out| ==> out[x] < 2 * m && Cg(out[x], s * Conv(At(b1), At(b2), |b1|)(x), m)
  {
    hide Cg, Conv;
  }

  lemma RowDoneKept(C0: seq<nat>, C: seq<nat>, h: int -> int, s: int, w: nat, n1: nat, n2: nat, m: nat, x: nat)
    requires n2 > 0 && x < |C0| <= |C| && C[x] == C0[x] && RowDoneAt(C0, h, s, w, n1, n2, m, x)
    ensures RowDoneAt(C, h, s, w, n1, n2, m, x)
  {
    hide Cg, Fold;
  }
}
