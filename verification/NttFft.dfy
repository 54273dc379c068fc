/** The transform (cpp/src/quickjs/libbf.c, ntt_fft, integer variant): a Stockham
    sequence of butterflies that keeps every value below twice the modulus. */
module NttFft {
  import opened Powers
  import opened Limbs
  import opened NttWord
  import opened NttSums
  import opened NttConvolution

  ghost function At(s: seq<nat>): (f: int -> int)
  {
    (i: int) => if 0 <= i < |s| then s[i] else 0
  }

  /** Coefficient q of the transform of f along w. */
  ghost function Coefficient(f: int -> int, w: nat, n: nat, q: int): (c: int)
  {
    Sum(n, Twist(f, w, q))
  }

  /** What remains to be summed after the butterflies have combined groups of per. */
  ghost function Pending(f: int -> int, w: nat, per: nat, q: nat): (g: int -> int)
    requires per > 0
  {
    (b: int) => f(b * per + q % per) * Pw(w, b * (q - q % per))
  }

  lemma PendingAt(f: int -> int, w: nat, per: nat, q: nat, b: int)
    requires per > 0
    ensures Pending(f, w, per, q)(b) == f(b * per + q % per) * Pw(w, b * (q - q % per))
  {
    hide Pw;
  }

  /** The value a butterfly stage puts at t. */
  ghost function Butterfly(f: int -> int, per: nat, half: nat, c: nat, t: nat): (v: int)
    requires per > 0
  {
    var i, r := t / (2 * per), t % (2 * per);
    if r < per then f(i * per + r) + f(i * per + r + half)
    else (f(i * per + (r - per)) - f(i * per + (r - per) + half)) * Pw(c, i)
  }

  ghost predicate Staged(x: seq<nat>, y: seq<nat>, per: nat, c: nat, m: nat)
    requires per > 0
  {
    |y| == |x| && forall t :: 0 <= t < |y| ==> y[t] < 2 * m && Cg(y[t], Butterfly(At(x), per, |x| / 2, c, t), m)
  }

  lemma IndexSplit(q: nat, per: nat)
    requires per > 0
    ensures var u, r := q / per, q % per;
            && q % (2 * per) == (if u % 2 == 0 then r else r + per)
            && q == u * per + r && 0 <= r < per && u >= 0
            && q - q % (2 * per) == (if u % 2 == 0 then q - r else q - r - per)
  {
    var u, r := q / per, q % per;
    var c := u / 2;
    DivModIdentity(q, per);
    if u % 2 == 0 {
      assert q == c * (2 * per) + r by { EvenIndex(u, c, per); }
      DivModIs(q, 2 * per, c, r);
    } else {
      assert q == c * (2 * per) + (r + per) by { EvenIndex(u, c, per); }
      DivModIs(q, 2 * per, c, r + per);
    }
  }

  lemma EvenIndex(u: int, c: int, per: int)
    ensures u == 2 * c ==> u * per == c * (2 * per)
    ensures u == 2 * c + 1 ==> u * per == c * (2 * per) + per
  {}

  /** Position b of the new stage that coefficient q reads. */
  lemma ButterflyAt(f: int -> int, per: nat, half: nat, c: nat, b: nat, q: nat)
    requires per > 0
    ensures b * (2 * per) + q % (2 * per) >= 0
    ensures var u, r := q / per, q % per; var x0, x1 := f(b * per + r), f(b * per + r + half);
            Butterfly(f, per, half, c, b * (2 * per) + q % (2 * per)) == if u % 2 == 0 then x0 + x1
              else (x0 - x1) * Pw(c, b)
  {
    IndexSplit(q, per);
    var s := q % (2 * per);
    MulMono(0, b, 2 * per);
    DivModIs(b * (2 * per) + s, 2 * per, b, s);
  }

  /** Two terms of the old sum are one of the new. */
  lemma TermStep(f: int -> int, g: int -> int, w: nat, c: nat, per: nat, nb: nat, b: nat, q: nat, m: int)
    requires per > 0 && Cg(c, Pw(w, per), m) && Cg(Pw(w, nb * per), -1, m)
    requires b * (2 * per) + q % (2 * per) >= 0
    requires Cg(g(b * (2 * per) + q % (2 * per)), Butterfly(f, per, nb * per, c, b * (2 * per) + q % (2 * per)), m)
    ensures Cg(Pending(g, w, 2 * per, q)(b), Pending(f, w, per, q)(b) + Pending(f, w, per, q)(b + nb), m)
  {
    hide *;
    var u, r := q / per, q % per;
    IndexSplit(q, per);
    ButterflyAt(f, per, nb * per, c, b, q);
    var Q := q - r;
    var x0, x1 := f(b * per + r), f(b * per + r + nb * per);
    MulDist(per, b, nb);
    PendingAt(f, w, per, q, b);
    PendingAt(f, w, per, q, b + nb);
    var t := b * (2 * per) + q % (2 * per);
    var Q' := q - q % (2 * per);
    PendingAt(g, w, 2 * per, q, b);
    DivModIdentity(q, per);
    assert Q == u * per;
    MulMono(0, u, per);
    UpperFactor(w, per, nb, b, u, Q, m);
    if u % 2 == 0 {
      EvenTerm(x0, x1, Pw(w, b * Q), Pw(w, (b + nb) * Q), g(t), m);
    } else {
      OddTwiddle(w, c, per, b, Q, m);
      OddTerm(x0, x1, Pw(w, b * Q), Pw(w, (b + nb) * Q), g(t), Pw(c, b), Pw(w, b * Q'), m);
    }
  }

  /** w^((b+nb)Q) is w^(bQ), up to the sign. */
  lemma UpperFactor(w: nat, per: nat, nb: nat, b: nat, u: nat, Q: nat, m: int)
    requires Q == u * per && Cg(Pw(w, nb * per), -1, m)
    ensures Cg(Pw(w, (b + nb) * Q), (if u % 2 == 0 then 1 else -1) * Pw(w, b * Q), m)
  {
    hide *;
    MulMono(0, nb, per);
    HalfPower(w, nb * per, u, m);
    MulDist(Q, b, nb);
    MulMono(0, b, Q);
    UpperPoly(nb, u, per);
    PwAdd(w, b * Q, nb * Q);
    CgScale(Pw(w, nb * Q), if u % 2 == 1 then -1 else 1, Pw(w, b * Q), m);
  }

  lemma UpperPoly(nb: int, u: int, per: int)
    ensures nb * (u * per) == (nb * per) * u
  {}

  lemma EvenTerm(x0: int, x1: int, p: int, p1: int, y: int, m: int)
    requires Cg(p1, 1 * p, m) && Cg(y, x0 + x1, m)
    ensures Cg(y * p, x0 * p + x1 * p1, m)
  {
    hide Cg;
    CgScale(y, x0 + x1, p, m);
    MulDist(p, x0, x1);
    CgSym(p1, p, m);
    CgScale(p, p1, x1, m);
    CgRefl(x0 * p, m);
    CgAdd(x0 * p, x0 * p, x1 * p, x1 * p1, m);
    CgTrans(y * p, x0 * p + x1 * p, x0 * p + x1 * p1, m);
  }

  lemma OddTerm(x0: int, x1: int, p: int, p1: int, y: int, cb: int, p': int, m: int)
    requires Cg(p1, -1 * p, m) && Cg(y, (x0 - x1) * cb, m) && Cg(cb * p', p, m)
    ensures Cg(y * p', x0 * p + x1 * p1, m)
  {
    hide Cg;
    CgScale(y, (x0 - x1) * cb, p', m);
    CgScale(cb * p', p, x0 - x1, m);
    AssocPoly(x0 - x1, cb, p');
    MulDist(p, x0, x1);
    CgTrans(y * p', (x0 - x1) * (cb * p'), (x0 - x1) * p, m);
    CgSym(p1, -1 * p, m);
    CgScale(-1 * p, p1, x1, m);
    CgRefl(x0 * p, m);
    CgAdd(x0 * p, x0 * p, x1 * (-1 * p), x1 * p1, m);
    CgTrans(y * p', x0 * p - x1 * p, x0 * p + x1 * p1, m);
  }

  lemma OddTwiddle(w: nat, c: nat, per: nat, b: nat, Q: nat, m: int)
    requires Cg(c, Pw(w, per), m) && Q >= per
    ensures Cg(Pw(c, b) * Pw(w, b * (Q - per)), Pw(w, b * Q), m)
  {
    hide *;
    PwCong(c, w, per, b, m);
    MulMono(0, b, Q - per);
    MulMono(0, per, b);
    PwAdd(w, per * b, b * (Q - per));
    TwiddlePoly(b, per, Q);
    CgScale(Pw(c, b), Pw(w, per * b), Pw(w, b * (Q - per)), m);
  }

  lemma TwiddlePoly(b: int, per: int, Q: int)
    ensures per * b + b * (Q - per) == b * Q
  {}

  lemma {:induction false} PwCong(c: nat, w: nat, per: nat, b: nat, m: int)
    requires Cg(c, Pw(w, per), m)
    ensures per * b >= 0 && Cg(Pw(c, b), Pw(w, per * b), m)
    decreases b
  {
    MulMono(0, per, b);
    if b == 0 {
      PowStep(c, 0);
      PowStep(w, 0);
      CgRefl(1, m);
    } else {
      PwCong(c, w, per, b - 1, m);
      PowStep(c, b - 1);
      MulDist(per, b, 1);
      MulMono(0, per, b - 1);
      PwAdd(w, per, per * (b - 1));
      hide Cg, Pow;
      CgMul(c, Pw(w, per), Pw(c, b - 1), Pw(w, per * (b - 1)), m);
    }
  }

  /** One stage halves the number of terms still to be summed. */
  lemma StageSum(x: seq<nat>, y: seq<nat>, w: nat, c: nat, per: nat, nb: nat, q: nat, m: nat)
    requires per > 0 && nb > 0 && |x| == (2 * nb) * per && q < |x| && Staged(x, y, per, c, m)
    requires Cg(c, Pw(w, per), m) && Cg(Pw(w, nb * per), -1, m)
    ensures Cg(Sum(nb, Pending(At(y), w, 2 * per, q)), Sum(2 * nb, Pending(At(x), w, per, q)), m)
  {
    hide *;
    var f, g := Pending(At(x), w, per, q), Pending(At(y), w, 2 * per, q);
    TailSplit(f, nb);
    forall b | 0 <= b < nb
      ensures Cg(g(b), Paired(f, Tail(f, nb))(b), m)
    {
      StagedAt(x, y, per, c, m, nb, b, q);
      TermStep(At(x), At(y), w, c, per, nb, b, q, m);
      PairedAt(f, nb, b);
    }
    SumCg(nb, g, Paired(f, Tail(f, nb)), m);
    PairedSum(f, Tail(f, nb), nb);
  }

  ghost function Paired(f: int -> int, g: int -> int): (h: int -> int)
  {
    (b: int) => f(b) + g(b)
  }

  lemma PairedAt(f: int -> int, nb: nat, b: int)
    ensures Paired(f, Tail(f, nb))(b) == f(b) + f(b + nb)
  {
    var g := Tail(f, nb);
    assert g(b) == f(nb + b);
    hide Tail;
    assert Paired(f, g)(b) == f(b) + g(b);
  }

  lemma PairedSum(f: int -> int, g: int -> int, nb: nat)
    ensures Sum(nb, Paired(f, g)) == Sum(nb, f) + Sum(nb, g)
  {
    hide Sum;
    SumPlus(nb, f, g, Paired(f, g));
  }

  lemma StagedAt(x: seq<nat>, y: seq<nat>, per: nat, c: nat, m: nat, nb: nat, b: nat, q: nat)
    requires per > 0 && nb > 0 && |x| == (2 * nb) * per && b < nb && Staged(x, y, per, c, m)
    ensures var t := b * (2 * per) + q % (2 * per);
            t >= 0 && Cg(At(y)(t), Butterfly(At(x), per, nb * per, c, t), m)
  {
    var s := q % (2 * per);
    var t := b * (2 * per) + s;
    MulMono(0, b, 2 * per);
    MulMono(b + 1, nb, 2 * per);
    MulDist(2 * per, b, 1);
    assert (2 * nb) * per == nb * (2 * per) && |x| / 2 == nb * per by { StagePoly(nb, per); }
    assert 0 <= t < |y|;
  }

  lemma StagePoly(nb: int, per: int)
    ensures (2 * nb) * per == nb * (2 * per) && (2 * nb) * per == 2 * (nb * per)
  {}

  /** Every coefficient of the transform of f is still the sum of what is pending in x. */
  ghost predicate Transforming(f: int -> int, w: nat, x: seq<nat>, per: nat, blocks: nat, m: nat)
    requires per > 0
  {
    && |x| == blocks * per && (forall i :: 0 <= i < |x| ==> x[i] < 2 * m)
    && forall q :: 0 <= q < |x| ==> Cg(Coefficient(f, w, |x|, q), Sum(blocks, Pending(At(x), w, per, q)), m)
  }

  lemma TransformStart(x: seq<nat>, w: nat, m: nat)
    requires forall i :: 0 <= i < |x| ==> x[i] < 2 * m
    ensures Transforming(At(x), w, x, 1, |x|, m)
  {
    forall q | 0 <= q < |x|
      ensures Cg(Coefficient(At(x), w, |x|, q), Sum(|x|, Pending(At(x), w, 1, q)), m)
    {
      hide Sum, Cg, Pw;
      forall b | 0 <= b < |x|
        ensures Twist(At(x), w, q)(b) == Pending(At(x), w, 1, q)(b)
      {
        assert q % 1 == 0 && b * 1 == b;
        MulSwap2(q, b);
      }
      SumSame(|x|, Twist(At(x), w, q), Pending(At(x), w, 1, q));
      CgRefl(Coefficient(At(x), w, |x|, q), m);
    }
  }

  lemma MulSwap2(a: int, b: int)
    ensures a * b == b * a
  {}

  lemma TransformStep(f: int -> int, x: seq<nat>, y: seq<nat>, w: nat, c: nat, per: nat, nb: nat, m: nat)
    requires per > 0 && nb > 0 && Transforming(f, w, x, per, 2 * nb, m) && Staged(x, y, per, c, m)
    requires Cg(c, Pw(w, per), m) && Cg(Pw(w, nb * per), -1, m)
    ensures Transforming(f, w, y, 2 * per, nb, m)
  {
    hide Cg, Sum, Coefficient, Butterfly, Pw, Pending;
    StagePoly(nb, per);
    forall q | 0 <= q < |y|
      ensures Cg(Coefficient(f, w, |y|, q), Sum(nb, Pending(At(y), w, 2 * per, q)), m)
    {
      StageSum(x, y, w, c, per, nb, q, m);
      CgSym(Sum(nb, Pending(At(y), w, 2 * per, q)), Sum(2 * nb, Pending(At(x), w, per, q)), m);
      CgTrans(Coefficient(f, w, |y|, q), Sum(2 * nb, Pending(At(x), w, per, q)),
        Sum(nb, Pending(At(y), w, 2 * per, q)), m);
    }
  }

  lemma TransformEnd(f: int -> int, w: nat, y: seq<nat>, m: nat)
    requires |y| > 0 && Transforming(f, w, y, |y|, 1, m)
    ensures forall q :: 0 <= q < |y| ==> y[q] < 2 * m && Cg(y[q], Coefficient(f, w, |y|, q), m)
  {
    forall q | 0 <= q < |y|
      ensures y[q] < 2 * m && Cg(y[q], Coefficient(f, w, |y|, q), m)
    {
      DivModIs(q, |y|, 0, q);
      PowStep(w, 0);
      var g := Pending(At(y), w, |y|, q);
      assert g(0) == y[q] * Pw(w, 0 * (q - q)) && 0 * (q - q) == 0;
      assert Sum(1, g) == Sum(0, g) + g(0);
      CgSym(Coefficient(f, w, |y|, q), y[q], m);
    }
  }

  // ---- twiddle factors ----

  /** Powers of c below m, each with its quotient for mul_mod_fast3. */
  ghost predicate Trig(tab: seq<(nat, int)>, c: nat, m: nat)
    requires m > 0
  {
    forall i :: 0 <= i < |tab| ==> tab[i].0 < m && tab[i].1 == Quotient2(tab[i].0, m) && Cg(tab[i].0, Pw(c, i), m)
  }

  /** get_trig. */
  method GetTrig(c: nat, n: nat, m: nat) returns (tab: seq<(nat, int)>)
    requires Modulus(m) && m > 1 && c < m
    ensures |tab| == n && Trig(tab, c, m)
  {
    PFacts();
    PowStep(c, 0);
    CgRefl(1, m);
    ModulusIs(m);
    assert Trig([], c, m);
    hide *;
    tab := [];
    var x := 1;
    var cInv := Quotient2(c, m);
    assert 0 <= x < m && m < B;
    PwZero(c);
    while |tab| < n
      invariant |tab| <= n && 0 <= x < m && Trig(tab, c, m) && Cg(x, Pw(c, |tab|), m)
      decreases n - |tab|
    {
      TrigSnoc(tab, c, m, x);
      MulModFast2Is(x, c, m);
      NextPower(x, c, |tab|, m);
      tab := tab + [(x, Quotient2(x, m))];
      x := MulModFast2(x, c, m, cInv);
    }
  }

  lemma PwZero(c: nat)
    ensures Pw(c, 0) == 1
  {
    PowStep(c, 0);
  }

  lemma TrigSnoc(tab: seq<(nat, int)>, c: nat, m: nat, x: nat)
    requires m > 0 && Trig(tab, c, m) && x < m && Cg(x, Pw(c, |tab|), m)
    ensures Trig(tab + [(x, Quotient2(x, m))], c, m)
  {
    hide Cg, Pw;
  }

  lemma NextPower(x: nat, c: nat, i: nat, m: nat)
    requires m > 0 && Cg(x, Pw(c, i), m)
    ensures 0 <= (x * c) % m < m && Cg((x * c) % m, Pw(c, i + 1), m)
  {
    hide Cg, Pow;
    PowStep(c, i);
    CgScale(x, Pw(c, i), c, m);
    CgMod(x * c, m);
    CgTrans((x * c) % m, x * c, Pw(c, i) * c, m);
  }

  // ---- the stages ----

  /** The butterfly on two values below 2m, without overflow. */
  method Cross(a0: nat, a1: nat, c: nat, cInv: int, m: nat) returns (b0: nat, b1: nat)
    requires Modulus(m) && m > 0 && a0 < 2 * m && a1 < 2 * m && c < m && cInv == Quotient2(c, m)
    ensures b0 < 2 * m && Cg(b0, a0 + a1, m) && b1 < 2 * m && Cg(b1, (a0 - a1) * c, m)
  {
    hide *;
    PFacts();
    ModulusIs(m);
    AddModIs(a0, a1, m);
    b0 := AddMod(a0, a1, 2 * m);
    CgIntro(b0, a0 + a1, m, if a0 + a1 >= 2 * m then -2 else 0);
    var d: Limb := a0 - a1 + 2 * m;
    MulModFast3Is(d, c, m);
    b1 := MulModFast3(d, c, m, cInv);
    SameCg(b1, d * c, m);
    assert d * c == (a0 - a1) * c + (2 * c) * m by { CrossPoly(a0 - a1, m, c); }
    CgIntro(d * c, (a0 - a1) * c, m, 2 * c);
    CgTrans(b1, d * c, (a0 - a1) * c, m);
  }

  lemma CrossPoly(e: int, m: int, c: int)
    ensures (e + 2 * m) * c == e * c + (2 * c) * m
  {}

  lemma SameCg(x: int, y: int, m: int)
    requires m > 0 && Same(x, y, m)
    ensures Cg(x, y, m)
  {
    MulDist(m, x / m, y / m);
    CgIntro(x, y, m, x / m - y / m);
  }

  /** The last butterfly needs no multiplication. */
  method CrossLast(a0: nat, a1: nat, m: nat) returns (b0: nat, b1: nat)
    requires Modulus(m) && m > 0 && a0 < 2 * m && a1 < 2 * m
    ensures b0 < 2 * m && Cg(b0, a0 + a1, m) && b1 < 2 * m && Cg(b1, a0 - a1, m)
  {
    hide *;
    PFacts();
    ModulusIs(m);
    AddModIs(a0, a1, m);
    b0 := AddMod(a0, a1, 2 * m);
    CgIntro(b0, a0 + a1, m, if a0 + a1 >= 2 * m then -2 else 0);
    b1 := SubMod(a0, a1, 2 * m);
    CgIntro(b1, a0 - a1, m, if a0 < a1 then 2 else 0);
  }

  ghost predicate DoneAt(x: seq<nat>, y: seq<nat>, per: nat, c: nat, m: nat, t: nat)
    requires per > 0 && t < |y|
  {
    y[t] < 2 * m && Cg(y[t], Butterfly(At(x), per, |x| / 2, c, t), m)
  }

  lemma StagedIntro(x: seq<nat>, y: seq<nat>, per: nat, c: nat, m: nat)
    requires per > 0 && |y| == |x| && forall t :: 0 <= t < |y| ==> DoneAt(x, y, per, c, m, t)
    ensures Staged(x, y, per, c, m)
  {
    hide Cg, Butterfly;
    forall t | 0 <= t < |y|
      ensures y[t] < 2 * m && Cg(y[t], Butterfly(At(x), per, |x| / 2, c, t), m)
    {
      assert DoneAt(x, y, per, c, m, t);
    }
  }

  /** The two results of a butterfly are where they belong. */
  lemma PairDone(x: seq<nat>, y: seq<nat>, per: nat, nb: nat, c: nat, m: nat, i: nat, j: nat, b0: nat, b1: nat)
    requires per > 0 && i < nb && j < per && |x| == (2 * nb) * per == |y|
    requires var p, k := i * (2 * per), i * per;
             && p + j + per < |y| && k + j + nb * per < |x| && y[p + j] == b0 && y[p + j + per] == b1 && b0 < 2 * m
                && b1 < 2 * m
             && Cg(b0, x[k + j] + x[k + j + nb * per], m) && Cg(b1, (x[k + j] - x[k + j + nb * per]) * Pw(c, i), m)
    ensures var p := i * (2 * per); DoneAt(x, y, per, c, m, p + j) && DoneAt(x, y, per, c, m, p + j + per)
  {
    hide Cg, Pw;
    var p := i * (2 * per);
    StagePoly(nb, per);
    MulMono(0, i, 2 * per);
    DivModIs(p + j, 2 * per, i, j);
    DivModIs(p + j + per, 2 * per, i, j + per);
  }

  lemma StageBounds(nb: nat, per: nat, i: nat, j: nat)
    requires i < nb && j < per
    ensures 0 <= i * per && i * per + j + nb * per < (2 * nb) * per && 0 <= i * (2 * per)
      && i * (2 * per) + j + per < (2 * nb) * per
    ensures (i + 1) * (2 * per) == i * (2 * per) + 2 * per && (i + 1) * per == i * per + per
      && i * (2 * per) + 2 * per <= (2 * nb) * per
  {
    MulMono(i + 1, nb, per);
    MulDist(per, i, 1);
    MulDist(2 * per, i, 1);
    StagePoly(nb, per);
    MulMono(i + 1, nb, 2 * per);
    MulMono(0, i, per);
    MulMono(0, i, 2 * per);
  }

  method Stage(x: seq<nat>, per: nat, nb: nat, trig: seq<(nat, int)>, ghost c: nat, m: nat) returns (y: seq<nat>)
    requires Modulus(m) && m > 0 && per > 0 && |x| == (2 * nb) * per && (forall i :: 0 <= i < |x| ==> x[i] < 2 * m)
    requires |trig| == nb && Trig(trig, c, m)
    ensures Staged(x, y, per, c, m)
  {
    hide *;
    y := x;
    var i := 0;
    while i < nb
      invariant 0 <= i <= nb && |y| == |x| && 0 <= i * (2 * per) <= |y|
      invariant forall t :: 0 <= t < i * (2 * per) ==> DoneAt(x, y, per, c, m, t)
    {
      StageBounds(nb, per, i, 0);
      y := StageBlock(x, y, per, nb, trig[i], c, m, i, trig);
      i := i + 1;
    }
    StagePoly(nb, per);
    StagedIntro(x, y, per, c, m);
  }

  lemma TrigAt(tab: seq<(nat, int)>, c: nat, m: nat, i: nat)
    requires m > 0 && Trig(tab, c, m) && i < |tab|
    ensures tab[i].0 < m && tab[i].1 == Quotient2(tab[i].0, m) && Cg(tab[i].0, Pw(c, i), m)
  {
    hide Cg, Pw, Quotient2;
  }

  method StageBlock(x: seq<nat>, y0: seq<nat>, per: nat, nb: nat, tw: (nat, int), ghost c: nat, m: nat, i: nat,
      ghost trig: seq<(nat, int)>)
      returns (y: seq<nat>)
    requires Modulus(m) && m > 0 && per > 0 && |x| == (2 * nb) * per && (forall t :: 0 <= t < |x| ==> x[t] < 2 * m)
      && i < nb
    requires Trig(trig, c, m) && i < |trig| && tw == trig[i]
    requires |y0| == |x| && 0 <= i * (2 * per) && (i + 1) * (2 * per) <= |x|
    requires forall t :: 0 <= t < i * (2 * per) ==> DoneAt(x, y0, per, c, m, t)
    ensures |y| == |x| && forall t :: 0 <= t < (i + 1) * (2 * per) ==> DoneAt(x, y, per, c, m, t)
  {
    hide *;
    TrigAt(trig, c, m, i);
    y := y0;
    ghost var p := i * (2 * per);
    StageBounds(nb, per, i, 0);
    var j := 0;
    while j < per
      invariant 0 <= j <= per && |y| == |x|
      invariant forall t :: 0 <= t < p + j ==> DoneAt(x, y, per, c, m, t)
      invariant forall t :: p + per <= t < p + per + j ==> DoneAt(x, y, per, c, m, t)
    {
      StageBounds(nb, per, i, j);
      var a0, a1 := x[i * per + j], x[i * per + j + nb * per];
      var b0, b1 := Cross(a0, a1, tw.0, tw.1, m);
      CgScale(tw.0, Pw(c, i), a0 - a1, m);
      CgTrans(b1, (a0 - a1) * tw.0, (a0 - a1) * Pw(c, i), m);
      ghost var y1 := y;
      y := y[i * (2 * per) + j := b0][i * (2 * per) + j + per := b1];
      PairDone(x, y, per, nb, c, m, i, j, b0, b1);
      forall t | (0 <= t < p + j) || (p + per <= t < p + per + j)
        ensures DoneAt(x, y, per, c, m, t)
      {
        DoneKept(x, y1, y, per, c, m, t);
      }
      j := j + 1;
    }
  }

  lemma DoneKept(x: seq<nat>, y: seq<nat>, y': seq<nat>, per: nat, c: nat, m: nat, t: nat)
    requires per > 0 && t < |y| == |y'| && y'[t] == y[t] && DoneAt(x, y, per, c, m, t)
    ensures DoneAt(x, y', per, c, m, t)
  {}

  // ---- roots ----

  /** ntt_proot_pow: entry l has order 2^l, each is the square of the next. */
  ghost predicate RootTable(roots: seq<nat>, m: nat)
  {
    && |roots| >= 2 && (forall l :: 0 <= l < |roots| ==> roots[l] < m)
    && (forall l :: 1 <= l < |roots| - 1 ==> SquareOf(roots, l, m))
    && Root(roots[|roots| - 1], |roots| - 1, m)
  }

  ghost predicate SquareOf(roots: seq<nat>, l: nat, m: nat)
    requires l + 1 < |roots|
  {
    Cg(roots[l], Pw(roots[l + 1], 2), m)
  }

  /** Entry l is the matching power of entry k, and has the order its place says. */
  lemma {:induction false} RootPower(roots: seq<nat>, m: nat, l: nat, k: nat)
    requires RootTable(roots, m) && 1 <= l <= k < |roots|
    ensures Cg(roots[l], Pw(roots[k], Pow(2, k - l)), m)
    decreases k - l
  {
    PowStep(2, 0);
    PowStep(2, k - l);
    if l == k {
      PowStep(roots[k], 0);
      PowStep(roots[k], 1);
      CgRefl(roots[k], m);
    } else {
      RootPower(roots, m, l + 1, k);
      PowStep(2, k - l - 1);
      var e := Pow(2, k - (l + 1));
      assert SquareOf(roots, l, m);
      hide *;
      PwCong(roots[l + 1], roots[k], e, 2, m);
      CgTrans(roots[l], Pw(roots[l + 1], 2), Pw(roots[k], e * 2), m);
    }
  }

  lemma {:induction false} RootAt(roots: seq<nat>, m: nat, l: nat)
    requires RootTable(roots, m) && 1 <= l < |roots|
    ensures Root(roots[l], l, m)
    decreases |roots| - l
  {
    if l + 1 < |roots| {
      RootAt(roots, m, l + 1);
      assert SquareOf(roots, l, m);
      RootIs(roots[l + 1], l + 1, m);
      RootIs(roots[l], l, m);
      PowStep(2, l - 1);
      hide *;
      var h := Pow(2, l - 1);
      PwCong(roots[l], roots[l + 1], 2, h, m);
      CgTrans(Pw(roots[l], h), Pw(roots[l + 1], 2 * h), -1, m);
    }
  }

  method LastStage(x: seq<nat>, half: nat, ghost c: nat, m: nat) returns (y: seq<nat>)
    requires Modulus(m) && m > 0 && half > 0 && |x| == (2 * 1) * half && (forall i :: 0 <= i < |x| ==> x[i] < 2 * m)
    ensures Staged(x, y, half, c, m)
  {
    hide *;
    y := x;
    PwZero(c);
    var k := 0;
    while k < half
      invariant 0 <= k <= half && |y| == |x|
      invariant forall t :: 0 <= t < k ==> DoneAt(x, y, half, c, m, t)
      invariant forall t :: half <= t < half + k ==> DoneAt(x, y, half, c, m, t)
    {
      var b0, b1 := CrossLast(x[k], x[k + half], m);
      ghost var y1 := y;
      y := y[k := b0][k + half := b1];
      PairDone(x, y, half, 1, c, m, 0, k, b0, b1);
      forall t | (0 <= t < k) || (half <= t < half + k)
        ensures DoneAt(x, y, half, c, m, t)
      {
        DoneKept(x, y1, y, half, c, m, t);
      }
      k := k + 1;
    }
    StagedIntro(x, y, half, c, m);
  }

  /** Values below 2m congruent to the transform of x along w. */
  ghost predicate Transform(x: seq<nat>, y: seq<nat>, w: nat, m: nat)
  {
    |y| == |x| && forall q :: 0 <= q < |y| ==> y[q] < 2 * m && Cg(y[q], Coefficient(At(x), w, |y|, q), m)
  }

  /** ntt_fft, for 2^k values. */
  method Fft(x: seq<nat>, k: nat, roots: seq<nat>, m: nat) returns (y: seq<nat>)
    requires Modulus(m) && m > 1 && RootTable(roots, m) && 1 <= k < |roots|
    requires |x| == Pow(2, k) && forall i :: 0 <= i < |x| ==> x[i] < 2 * m
    ensures Transform(x, y, roots[k], m)
  {
    hide *;
    ghost var w := roots[k];
    RootAt(roots, m, k);
    RootIs(w, k, m);
    TransformStart(x, w, m);
    PowStep(2, 0);
    PowStep(2, k - 1);
    y := x;
    var blocks, per, l := Pow(2, k), 1, k;
    while blocks != 2
      invariant 1 <= l <= k && blocks == Pow(2, l) && per == Pow(2, k - l) && per > 0
      invariant Transforming(At(x), w, y, per, blocks, m)
      decreases l
    {
      StageFacts(k, l);
      blocks := blocks / 2;
      TransformParts(At(x), w, y, per, 2 * blocks, m);
      RootBelow(roots, m, l);
      var trig := GetTrig(roots[l], blocks, m);
      ghost var y1 := y;
      y := Stage(y, per, blocks, trig, roots[l], m);
      RootPower(roots, m, l, k);
      TransformStep(At(x), y1, y, w, roots[l], per, blocks, m);
      per := per * 2;
      l := l - 1;
    }
    StageFacts(k, l);
    TransformParts(At(x), w, y, per, 2, m);
    ghost var y1 := y;
    y := LastStage(y, per, roots[1], m);
    RootPower(roots, m, 1, k);
    TransformStep(At(x), y1, y, w, roots[1], per, 1, m);
    TransformParts(At(x), w, y, 2 * per, 1, m);
    TransformDone(x, w, y, m);
  }

  lemma RootBelow(roots: seq<nat>, m: nat, l: nat)
    requires RootTable(roots, m) && l < |roots|
    ensures roots[l] < m
  {
    hide Root, Cg, Pw;
  }

  lemma StageFacts(k: nat, l: nat)
    requires 1 <= l <= k
    ensures Pow(2, l) / 2 == Pow(2, l - 1) && Pow(2, l) == 2 * Pow(2, l - 1) && Pow(2, l - 1) > 0
    ensures Pow(2, k - (l - 1)) == Pow(2, k - l) * 2
    ensures Pow(2, l - 1) * Pow(2, k - l) == Pow(2, k - 1)
    ensures Pow(2, l) == 2 <==> l == 1
  {
    PowStep(2, l - 1);
    PowStep(2, k - l);
    PowAdd(2, l - 1, k - l);
    PowPositive(2, l - 1);
    PowStep(2, 0);
    if l > 1 {
      PowStep(2, l - 2);
      PowPositive(2, l - 2);
    }
  }

  lemma TransformParts(f: int -> int, w: nat, x: seq<nat>, per: nat, blocks: nat, m: nat)
    requires per > 0 && Transforming(f, w, x, per, blocks, m)
    ensures |x| == blocks * per && forall i :: 0 <= i < |x| ==> x[i] < 2 * m
  {
    hide Cg, Coefficient, Sum, Pending;
  }

  lemma TransformDone(x: seq<nat>, w: nat, y: seq<nat>, m: nat)
    requires |y| > 0 && |y| == |x| && Transforming(At(x), w, y, |y|, 1, m)
    ensures Transform(x, y, w, m)
  {
    hide Transforming, Cg, Coefficient;
    TransformEnd(At(x), w, y, m);
  }
}
