/** Correctly rounded addition (cpp/src/quickjs/libbf.c, bf_cmpu,
    bf_normalize_and_round, bf_add_internal), with an unbounded exponent. */
module BfAdd {
  import opened Powers
  import opened Limbs
  import opened Bits
  import opened Rounding
  import opened BfRound
  import opened BfZiv
  import opened BfCancel

  // ---- comparison ----

  /** bf_cmpu: compares magnitudes. */
  method Cmpu(ta: seq<Limb>, ea: int, tb: seq<Limb>, eb: int) returns (c: int)
    requires TopSet(ta) && TopSet(tb)
    ensures c < 0 <==> Magnitude(ta, ea) < Magnitude(tb, eb)
    ensures c > 0 <==> Magnitude(ta, ea) > Magnitude(tb, eb)
  {
    hide *;
    if ea != eb {
      MagnitudeExp(ta, ea);
      MagnitudeExp(tb, eb);
      if ea < eb {
        ExpOrder(Magnitude(ta, ea), ea, Magnitude(tb, eb), eb);
        return -1;
      } else {
        ExpOrder(Magnitude(tb, eb), eb, Magnitude(ta, ea), ea);
        return 1;
      }
    }
    var len := if |ta| > |tb| then |ta| else |tb|;
    var i := len - 1;
    LeadStart(ta, 0);
    LeadStart(tb, 0);
    while i >= 0
      invariant -1 <= i < len && Lead(ta, 0, len - 1 - i) == Lead(tb, 0, len - 1 - i)
    {
      ghost var j := len - 1 - i;
      DigitAt(ta, j);
      DigitAt(tb, j);
      var v1, v2 := LimbOr0(ta, |ta| - len + i), LimbOr0(tb, |tb| - len + i);
      LeadStep(ta, 0, j);
      LeadStep(tb, 0, j);
      if v1 != v2 {
        if v1 < v2 {
          LeadOrder(ta, ea, tb, eb, j + 1);
          return -1;
        } else {
          LeadOrder(tb, eb, ta, ea, j + 1);
          return 1;
        }
      }
      i := i - 1;
    }
    MulMono(|ta|, len, LIMB_BITS);
    MulMono(|tb|, len, LIMB_BITS);
    LeadExact(ta, ea, ea, len);
    LeadExact(tb, eb, eb, len);
    RescaleInjective(Magnitude(ta, ea), Magnitude(tb, eb), len * LIMB_BITS - ea);
    c := 0;
  }

  lemma DigitAt(tab: seq<Limb>, j: nat)
    ensures LimbOr0(tab, |tab| - 1 - j) == LeadDigit(tab, 0, j)
  {
    hide Window, LimbOr0;
    TopLimbIs(tab, j);
  }

  lemma ExpOrder(x: real, e: int, y: real, f: int)
    requires HasExp(x, e) && HasExp(y, f) && e < f
    ensures x < y
  {
    Pow2Mono(e, f - 1);
  }

  // ---- the sum, limb by limb ----

  /** The low j of tot leading limbs. */
  ghost function Low(tab: seq<Limb>, d: nat, tot: nat, j: nat): (v: int)
    requires j <= tot
  {
    Lead(tab, d, tot) - Lead(tab, d, tot - j) * Pow(B, j)
  }

  lemma LowStep(tab: seq<Limb>, d: nat, tot: nat, j: nat)
    requires j < tot
    ensures Low(tab, d, tot, j + 1) == Low(tab, d, tot, j) + LeadDigit(tab, d, tot - 1 - j) * Pow(B, j)
  {
    hide Lead, LeadDigit, Pow;
    LeadStep(tab, d, tot - 1 - j);
    PowStep(B, j);
    LowPoly3(Lead(tab, d, tot - 1 - j), B, LeadDigit(tab, d, tot - 1 - j), Pow(B, j));
  }

  lemma LowPoly3(l: int, b: int, x: int, p: int)
    ensures (l * b + x) * p == l * (b * p) + x * p
  {}

  lemma LowEnds(tab: seq<Limb>, d: nat, tot: nat)
    ensures Low(tab, d, tot, 0) == 0 && Low(tab, d, tot, tot) == Lead(tab, d, tot)
  {
    hide Lead, Pow;
    LeadStart(tab, d);
    PowStep(B, 0);
  }

  /** Everything below limb j of the result is rl, with carry k. */
  ghost predicate SumInv(ta: seq<Limb>, tb: seq<Limb>, d: nat, tot: nat, sub: bool, j: nat, rl: int, k: nat)
  {
    && j <= tot && 0 <= rl < Pow(B, j) && k <= 1
    && rl + k * Pow(B, j) == Low(ta, 0, tot, j) + (if sub then Pow(B, j) - Low(tb, d, tot, j) else Low(tb, d, tot, j))
  }

  lemma SumStart(ta: seq<Limb>, tb: seq<Limb>, d: nat, tot: nat, sub: bool)
    ensures SumInv(ta, tb, d, tot, sub, 0, 0, if sub then 1 else 0)
  {
    LowEnds(ta, 0, tot);
    LowEnds(tb, d, tot);
    PowStep(B, 0);
  }

  /** u = v1 + (v2 ^ mask) + carry, as the machine computes it. */
  method AddDigit(v1: Limb, v2: Limb, sub: bool, k: nat) returns (u: Limb, k': nat)
    requires k <= 1
    ensures k' <= 1 && u + k' * B == v1 + (if sub then B - 1 - v2 else v2) + k
  {
    hide *;
    BasePositive();
    var w := if sub then B - 1 - v2 else v2;
    AddWIs(v1, w);
    u := AddW(v1, w);
    var carry1 := u < v1;
    BaseFacts();
    ghost var u0 := u;
    AddWIs(u, k);
    u := AddW(u, k);
    k' := if u < k || carry1 then 1 else 0;
  }

  lemma AddWIs(x: Limb, y: Limb)
    ensures AddW(x, y) == if x + y < B then x + y else x + y - B
  {}

  lemma SumStepPoly(p: int, b: int, rl: int, u: int, k': int, k: int, x: int, y: int, la: int, lb: int, sub: bool)
    requires u + k' * b == x + (if sub then b - 1 - y else y) + k
    requires rl + k * p == la + (if sub then p - lb else lb)
    ensures (rl + u * p) + k' * (b * p) == (la + x * p) + (if sub then b * p - (lb + y * p) else lb + y * p)
  {
    assert (u + k' * b) * p == u * p + k' * (b * p);
    if sub {
      assert (x + (b - 1 - y) + k) * p == x * p + b * p - p - y * p + k * p;
    } else {
      assert (x + y + k) * p == x * p + y * p + k * p;
    }
  }

  lemma SumBound(p: int, b: int, rl: int, u: int)
    requires 0 <= rl < p && 0 <= u < b
    ensures 0 <= rl + u * p < b * p
  {
    MulMono(u + 1, b, p);
    MulMono(0, u, p);
    MulDist(p, u, 1);
  }

  lemma SumStep(ta: seq<Limb>, tb: seq<Limb>, d: nat, tot: nat, sub: bool, j: nat, rl: int, k: nat, u: Limb, k': nat)
    requires SumInv(ta, tb, d, tot, sub, j, rl, k) && j < tot && k' <= 1
    requires u + k' * B == LeadDigit(ta, 0, tot - 1 - j)
      + (if sub then B - 1 - LeadDigit(tb, d, tot - 1 - j) else LeadDigit(tb, d, tot - 1 - j)) + k
    ensures SumInv(ta, tb, d, tot, sub, j + 1, rl + u * Pow(B, j), k')
  {
    hide Low, LeadDigit, Pow, B;
    LowStep(ta, 0, tot, j);
    LowStep(tb, d, tot, j);
    PowStep(B, j);
    SumStepPoly(Pow(B, j), B, rl, u, k', k, LeadDigit(ta, 0, tot - 1 - j), LeadDigit(tb, d, tot - 1 - j),
                Low(ta, 0, tot, j), Low(tb, d, tot, j), sub);
    SumBound(Pow(B, j), B, rl, u);
  }

  /** Limbs that are zero in both operands. */
  ghost predicate BothZero(ta: seq<Limb>, tb: seq<Limb>, d: nat, tot: nat, lo: nat, hi: nat)
    requires hi <= tot
  {
    forall i :: tot - hi <= i < tot - lo ==> LeadDigit(ta, 0, i) == 0 && LeadDigit(tb, d, i) == 0
  }

  lemma {:induction false} LowSkip(ta: seq<Limb>, tb: seq<Limb>, d: nat, tot: nat, lo: nat, hi: nat)
    requires lo <= hi <= tot && BothZero(ta, tb, d, tot, lo, hi)
    ensures Low(ta, 0, tot, hi) == Low(ta, 0, tot, lo) && Low(tb, d, tot, hi) == Low(tb, d, tot, lo)
    decreases hi
  {
    hide Low, LeadDigit, Pow;
    if lo < hi {
      LowSkip(ta, tb, d, tot, lo, hi - 1);
      LowStep(ta, 0, tot, hi - 1);
      LowStep(tb, d, tot, hi - 1);
    }
  }

  ghost function Skipped(sub: bool, k: nat, rl: int, p: int, q: int): (r: int)
  {
    if sub then (if k == 1 then rl else rl + q - p) else rl + k * p
  }

  /** One limb stands for a whole stretch of zero limbs. */
  lemma SumSkip(ta: seq<Limb>, tb: seq<Limb>, d: nat, tot: nat, sub: bool, j: nat, hi: nat,
      rl: int, k: nat, u: Limb, k': nat)
    requires SumInv(ta, tb, d, tot, sub, j, rl, k) && j < hi <= tot && BothZero(ta, tb, d, tot, j, hi) && k' <= 1
    requires u + k' * B == 0 + (if sub then B - 1 - 0 else 0) + k
    ensures var r := Skipped(sub, k, rl, Pow(B, j), Pow(B, hi));
            SumInv(ta, tb, d, tot, sub, hi, r, k') && (r != 0 <==> rl != 0 || u != 0)
  {
    hide Low, Pow, BothZero, B, Skipped;
    LowSkip(ta, tb, d, tot, j, hi);
    BaseFacts();
    PowStrict(B, j, hi);
    BasePositive();
    PowPositive(B, j);
    SkipArith(sub, k, rl, Pow(B, j), Pow(B, hi), u, k', B, Low(ta, 0, tot, j), Low(tb, d, tot, j));
  }

  lemma SkipArith(sub: bool, k: nat, rl: int, p: int, q: int, u: int, k': nat, b: int, x: int, y: int)
    requires k <= 1 && k' <= 1 && 0 <= rl < p && 2 * p <= q && b >= 8 && 0 <= u < b
    requires u + k' * b == 0 + (if sub then b - 1 - 0 else 0) + k
    requires rl + k * p == x + (if sub then p - y else y)
    ensures var r := Skipped(sub, k, rl, p, q);
            0 <= r < q && r + k' * q == x + (if sub then q - y else y) && (r != 0 <==> rl != 0 || u != 0)
  {
    if sub && k == 1 {
      assert k' == 1 && u == 0;
    } else if sub {
      assert k' == 0 && u == b - 1;
    } else {
      assert k' == 0 && u == k;
    }
  }

  lemma DigitB(tb: seq<Limb>, d: nat, i: nat, bp: int)
    requires bp == |tb| * LIMB_BITS + d - i * LIMB_BITS - LIMB_BITS
    ensures (if bp + LIMB_BITS > 0 && bp < |tb| * LIMB_BITS then GetBits(tb, bp) else 0) == LeadDigit(tb, d, i)
  {
    hide GetBits, Pow, Val, B;
    GetBitsIs(tb, bp);
    if bp + LIMB_BITS <= 0 {
      NegativeWindow(tb, bp);
    } else if bp >= |tb| * LIMB_BITS {
      AboveWindow(tb, bp);
    }
  }

  lemma AboveWindow(tb: seq<Limb>, pos: nat)
    requires pos >= |tb| * LIMB_BITS
    ensures Window(Val(tb), pos) == 0
  {
    hide Pow, B;
    ValBound(tb);
    BasePow(|tb|);
    PowMono(2, |tb| * LIMB_BITS, pos);
    BasePositive();
    PowPositive(2, pos);
    assert Window(Val(tb), pos) == (Val(tb) / Pow(2, pos)) % B;
    SmallDiv(Val(tb), Pow(2, pos));
    SmallDiv(0, B);
  }

  /** Where the index goes from a place outside both operands. */
  function NextIndex(ap: int, bp: int, aOffset: int, bBitOffset: int): (i: int)
  {
    var i := 0;
    var i := if ap < 0 && -aOffset < i then -aOffset else i;
    if bp + LIMB_BITS <= 0 && (-bBitOffset) / LIMB_BITS < i then (-bBitOffset) / LIMB_BITS else i
  }

  lemma FloorDiv(x: int)
    ensures (x / LIMB_BITS) * LIMB_BITS <= x < (x / LIMB_BITS + 1) * LIMB_BITS
  {
    MulDist(LIMB_BITS, x / LIMB_BITS, 1);
  }

  /** From there to the next index both operands hold zeros, and the index grows. */
  lemma SkipZeros(ta: seq<Limb>, tb: seq<Limb>, d: nat, tot: nat, rlen: nat, i: int, i': int)
    requires rlen - tot <= i < 0 && rlen <= tot
    requires var aOffset, bBitOffset := |ta| - rlen, (|tb| - rlen) * LIMB_BITS + d;
             var ap, bp := aOffset + i, bBitOffset + i * LIMB_BITS;
             && !(0 <= ap < |ta|) && !(bp + LIMB_BITS > 0 && bp < |tb| * LIMB_BITS)
             && i' == NextIndex(ap, bp, aOffset, bBitOffset)
    ensures i < i' <= 0 && BothZero(ta, tb, d, tot, i + (tot - rlen), i' + (tot - rlen))
  {
    var m := tot - rlen;
    var aOffset, bBitOffset := |ta| - rlen, (|tb| - rlen) * LIMB_BITS + d;
    var ap, bp := aOffset + i, bBitOffset + i * LIMB_BITS;
    FloorDiv(-bBitOffset);
    assert i < i' <= 0 by {
      if bp + LIMB_BITS <= 0 && (-bBitOffset) / LIMB_BITS <= i {
        MulMono((-bBitOffset) / LIMB_BITS + 1, i + 1, LIMB_BITS);
        MulDist(LIMB_BITS, i, 1);
        assert false;
      }
    }
    forall t | tot - (i' + m) <= t < tot - (i + m)
      ensures LeadDigit(ta, 0, t) == 0 && LeadDigit(tb, d, t) == 0
    {
      var s := tot - 1 - t - m;
      assert i <= s < i';
      DigitAt(ta, t);
      assert |ta| - 1 - t < 0;
      var bp' := bBitOffset + s * LIMB_BITS;
      assert bp' == |tb| * LIMB_BITS
        + d - t * LIMB_BITS - LIMB_BITS by { OffsetPoly(|tb|, rlen, s, t, tot, LIMB_BITS, d); }
      DigitB(tb, d, t, bp');
      MulMono(i, s, LIMB_BITS);
      if bp + LIMB_BITS <= 0 {
        MulMono(s + 1, (-bBitOffset) / LIMB_BITS, LIMB_BITS);
        MulDist(LIMB_BITS, s, 1);
      }
    }
  }

  lemma OffsetPoly(lb: int, rlen: int, s: int, t: int, tot: int, w: int, d: int)
    requires s == rlen - 1 - t
    ensures (lb - rlen) * w + d + s * w == lb * w + d - t * w - w
  {
    assert s * w == rlen * w - w - t * w by { SPoly(rlen, t, w); }
    MulDist(w, lb, rlen);
  }

  lemma SPoly(rlen: int, t: int, w: int)
    ensures (rlen - 1 - t) * w == rlen * w - w - t * w
  {}

  /** The limbs below the window: only their carry and whether any result bit is set. */
  method LowPart(ta: seq<Limb>, tb: seq<Limb>, d: nat, tot: nat, rlen: nat, sub: bool)
      returns (z: bool, k: nat, ghost rl: int)
    requires rlen <= tot
    ensures SumInv(ta, tb, d, tot, sub, tot - rlen, rl, k) && (z <==> rl != 0)
  {
    hide *;
    var aOffset, bBitOffset := |ta| - rlen, (|tb| - rlen) * LIMB_BITS + d;
    k := if sub then 1 else 0;
    z, rl := false, 0;
    SumStart(ta, tb, d, tot, sub);
    var i := rlen - tot;
    while i < 0
      invariant rlen - tot <= i <= 0
      invariant SumInv(ta, tb, d, tot, sub, i + (tot - rlen), rl, k) && (z <==> rl != 0)
      decreases -i
    {
      ghost var j := i + (tot - rlen);
      ghost var t := tot - 1 - j;
      var ap, bp := aOffset + i, bBitOffset + i * LIMB_BITS;
      var v1, v2, inflag := 0, 0, false;
      LimbOr0Cases(ta, ap);
      if 0 <= ap < |ta| {
        v1, inflag := ta[ap], true;
      }
      OffsetPoly(|tb|, rlen, i, t, tot, LIMB_BITS, d);
      DigitAt(ta, t);
      DigitB(tb, d, t, bp);
      if bp + LIMB_BITS > 0 && bp < |tb| * LIMB_BITS {
        v2, inflag := GetBits(tb, bp), true;
      }
      SumParts(ta, tb, d, tot, sub, j, rl, k);
      var u, k' := AddDigit(v1, v2, sub, k);
      ghost var rl0 := rl;
      if !inflag {
        var i' := NextIndex(ap, bp, aOffset, bBitOffset);
        SkipZeros(ta, tb, d, tot, rlen, i, i');
        SumSkip(ta, tb, d, tot, sub, j, i' + (tot - rlen), rl, k, u, k');
        rl := Skipped(sub, k, rl, Pow(B, j), Pow(B, i' + (tot - rlen)));
        i := i';
      } else {
        SumStep(ta, tb, d, tot, sub, j, rl, k, u, k');
        NonzeroDigit(rl, u, j);
        rl := rl + u * Pow(B, j);
        i := i + 1;
      }
      k := k';
      z := z || u != 0;
    }
  }

  lemma LimbOr0Cases(tab: seq<Limb>, i: int)
    ensures LimbOr0(tab, i) == if 0 <= i < |tab| then tab[i] else 0
  {}

  lemma SumParts(ta: seq<Limb>, tb: seq<Limb>, d: nat, tot: nat, sub: bool, j: nat, rl: int, k: nat)
    requires SumInv(ta, tb, d, tot, sub, j, rl, k)
    ensures 0 <= rl < Pow(B, j) && k <= 1 && j <= tot
  {
    hide Low, Pow;
  }

  lemma NonzeroDigit(rl: int, u: Limb, j: nat)
    requires 0 <= rl
    ensures rl + u * Pow(B, j) != 0 <==> rl != 0 || u != 0
  {
    hide Pow;
    BasePositive();
    PowPositive(B, j);
    NonzeroSum(u, Pow(B, j), rl);
  }

  /** The limbs of the window. */
  method HighPart(ta: seq<Limb>, tb: seq<Limb>, d: nat, tot: nat, rlen: nat, sub: bool, k0: nat, ghost rl: int)
      returns (r: seq<Limb>, k: nat)
    requires rlen <= tot && SumInv(ta, tb, d, tot, sub, tot - rlen, rl, k0)
    ensures |r| == rlen && SumInv(ta, tb, d, tot, sub, tot, rl + Val(r) * Pow(B, tot - rlen), k)
  {
    hide *;
    var aOffset, bBitOffset := |ta| - rlen, (|tb| - rlen) * LIMB_BITS + d;
    ghost var m := tot - rlen;
    r, k := [], k0;
    ValNil(r);
    var i := 0;
    while i < rlen
      invariant 0 <= i <= rlen && |r| == i && SumInv(ta, tb, d, tot, sub, m + i, rl + Val(r) * Pow(B, m), k)
    {
      ghost var t := tot - 1 - (m + i);
      OffsetPoly(|tb|, rlen, i, t, tot, LIMB_BITS, d);
      DigitAt(ta, t);
      GetDigit(tb, d, t, bBitOffset + i * LIMB_BITS);
      SumParts(ta, tb, d, tot, sub, m + i, rl + Val(r) * Pow(B, m), k);
      var u, k' := AddDigit(LimbOr0(ta, aOffset + i), GetBits(tb, bBitOffset + i * LIMB_BITS), sub, k);
      SumStep(ta, tb, d, tot, sub, m + i, rl + Val(r) * Pow(B, m), k, u, k');
      ValSnoc(r, u);
      PowAdd(B, i, m);
      AppendPoly(Val(r), Pow(B, i), u, Pow(B, m));
      r, k := r + [u], k';
      i := i + 1;
    }
  }

  lemma AppendPoly(v: int, p: int, u: int, q: int)
    ensures (v + p * u) * q == v * q + u * (p * q)
  {}

  lemma GetDigit(tb: seq<Limb>, d: nat, i: nat, bp: int)
    requires bp == |tb| * LIMB_BITS + d - i * LIMB_BITS - LIMB_BITS
    ensures GetBits(tb, bp) == LeadDigit(tb, d, i)
  {
    hide GetBits, Window;
    GetBitsIs(tb, bp);
  }

  // ---- sticky rounding ----

  /** H with its last bit set if something was dropped. */
  ghost function Sticky(H: nat, z: bool): (t: nat) { if z && H % 2 == 0 then H + 1 else H }

  /** w lies strictly between H and H + 1: rounding it at s >= 2 bits is rounding H with the
      sticky bit. */
  lemma StickyRoundInt(mode: Mode, neg: bool, zw: real, zt: real, w: real, H: nat, s: nat)
    requires s >= 2 && H as real < w < H as real + 1.0
    requires zw * Pow(2, s) as real == w && zt * Pow(2, s) as real == Sticky(H, true) as real
    ensures RoundInt(mode, neg, zw) == RoundInt(mode, neg, zt)
  {
    hide *;
    ProductIs(zw, Pow(2, s));
    ProductIs(zt, Pow(2, s));
    StickyScaled(mode, neg, zw, zt, w, H, s);
  }

  lemma StickyScaled(mode: Mode, neg: bool, zw: real, zt: real, w: real, H: nat, s: nat)
    requires s >= 2 && H as real < w < H as real + 1.0
    requires Times(zw, Pow(2, s) as real) == w && Times(zt, Pow(2, s) as real) == Sticky(H, true) as real
    ensures RoundInt(mode, neg, zw) == RoundInt(mode, neg, zt)
  {
    hide *;
    var m, h, g := Pow(2, s), Pow(2, s - 1), Pow(2, s - 2);
    PowStep(2, s - 1);
    PowStep(2, s - 2);
    PowPositive(2, s - 2);
    var q, r, T := H / m, H % m, Sticky(H, true);
    DivModIdentity(H, m);
    StickyIs(H);
    QuarterPoly(q, g);
    StickyCompare(w, H, T, r, q * g, g, q * m, m, h);
    StickyAt(mode, neg, zw, zt, w, T, q, m, h, q * m);
  }

  lemma ProductIs(z: real, m: int)
    ensures Times(z, m as real) == z * m as real
  {}

  lemma StickyCompare(w: real, H: nat, T: int, r: nat, a: int, g: int, p: int, m: nat, h: nat)
    requires H as real < w < H as real + 1.0 && H == p + r && r < m && T == if H % 2 == 0 then H + 1 else H
    requires g >= 1 && p == 4 * a && m == 2 * h && h == 2 * g
    ensures p as real < w < (p + m) as real && p < T < p + m
    ensures w - p as real != h as real && T - p != h && (w - p as real > h as real <==> T - p > h)
  {
    StickyBounds(a, r, g, H, T);
    StickyHalf(w, H, r, p, h);
    StickyPlace(w, H, r, p, m);
  }

  lemma StickyPlace(w: real, H: nat, r: nat, p: int, m: nat)
    requires H as real < w < H as real + 1.0 && H == p + r && r < m
    ensures p as real < w < (p + m) as real
  {}

  lemma StickyAt(mode: Mode, neg: bool, zw: real, zt: real, w: real, T: int, q: int, m: nat, h: nat, p: int)
    requires m == 2 * h && h >= 1 && Times(zw, m as real) == w && Times(zt, m as real) == T as real && p == q * m
    requires p as real < w < (p + m) as real && p < T < p + m
    requires w - p as real != h as real && T - p != h && (w - p as real > h as real <==> T - p > h)
    ensures RoundInt(mode, neg, zw) == RoundInt(mode, neg, zt)
  {
    hide *;
    MulDist(m, q, 1);
    ProductIs(zw, m);
    ProductIs(zt, m);
    FloorAtScale(zw, m, w, q);
    FloorAtScale(zt, m, T as real, q);
    assert m as real == 2.0 * h as real;
    FractionCompare(zw - q as real, w - p as real, h as real);
    FractionCompare(zt - q as real, (T - p) as real, h as real);
    SameDecision(mode, neg, zw, zt, q);
  }

  lemma StickyIs(H: nat)
    ensures Sticky(H, true) == if H % 2 == 0 then H + 1 else H
  {}

  lemma StickyHalf(w: real, H: nat, r: nat, p: int, h: nat)
    requires H as real < w < H as real + 1.0 && H == p + r && h >= 1
    ensures w - p as real > 0.0 && w - p as real != h as real && (w - p as real > h as real <==> r >= h)
  {}

  lemma SameDecision(mode: Mode, neg: bool, zw: real, zt: real, q: int)
    requires zw.Floor == q && zt.Floor == q
    requires var f, g := zw - q as real, zt - q as real;
             f > 0.0 && g > 0.0 && f != 0.5 && g != 0.5 && (f > 0.5 <==> g > 0.5)
    ensures RoundInt(mode, neg, zw) == RoundInt(mode, neg, zt)
  {}

  lemma StickyBounds(a: int, r: int, g: int, H: int, T: int)
    requires g >= 1 && H == 4 * a + r && 0 <= r < 4 * g && T == if H % 2 == 0 then H + 1 else H
    ensures 4 * a < T < 4 * a + 4 * g && T - 4 * a != 2 * g
    ensures T - 4 * a > 2 * g <==> r >= 2 * g
  {
    ParityOf2(2 * a, r);
    assert H == r + 2 * (2 * a);
    var c := r / 2;
    assert r % 2 == 0 ==> r == 2 * c;
    assert r % 2 == 1 ==> r == 2 * c + 1;
  }

  lemma QuarterPoly(q: int, g: int)
    ensures q * (2 * (2 * g)) == 4 * (q * g)
  {}

  /** The exponent of a magnitude between H and H + 1. */
  lemma BinadeOf(H: nat) returns (m: nat)
    requires H >= 1
    ensures m >= 1 && Pow(2, m - 1) <= H < Pow(2, m)
  {
    m := 1;
    PowStep(2, 0);
    while Pow(2, m) <= H
      invariant m >= 1 && Pow(2, m - 1) <= H
      decreases H + 1 - m
    {
      PowAbove(m);
      m := m + 1;
    }
  }

  lemma {:induction false} PowAbove(m: nat)
    ensures Pow(2, m) > m
  {
    if m > 0 {
      PowAbove(m - 1);
    }
  }

  /** Rounding with a sticky bit is correct rounding. */
  lemma StickyRounds(mode: Mode, neg: bool, prec: nat, w: real, H: nat, c: int, y: real)
    requires prec >= 1 && H as real < w < H as real + 1.0 && H >= Pow(2, prec + 1)
    requires RoundsTo(mode, neg, prec, Rescale(Sticky(H, true) as real, c), y)
    ensures RoundsTo(mode, neg, prec, Rescale(w, c), y)
  {
    hide *;
    PowPositive(2, prec + 1);
    var m := BinadeOf(H);
    var T := Sticky(H, true);
    StickyBinade(H, m, prec);
    var x, t, e := Rescale(w, c), Rescale(T as real, c), m + c;
    RescaleTwice(w, c, m - e);
    RescaleTwice(T as real, c, m - e);
    assert c + (m - e) == 0;
    RescaleZero(w);
    RescaleZero(T as real);
    ExpScaled(x, e, m);
    ExpScaled(t, e, m);
    var s := m - prec;
    Coarser(x, prec - e, s);
    Coarser(t, prec - e, s);
    assert prec - e + s == m - e;
    StickyRoundInt(mode, neg, Rescale(x, prec - e), Rescale(t, prec - e), w, H, s);
    var n := RoundInt(mode, neg, Rescale(x, prec - e));
    RoundsToIntro(mode, neg, prec, x, e, n);
    RoundsToIntro(mode, neg, prec, t, e, n);
    RoundUnique(mode, neg, prec, t, y, Scaled(n, e - prec));
  }

  lemma RescaleZero(x: real)
    ensures Rescale(x, 0) == x
  {
    assert Pow2(0) == 1.0;
  }

  lemma StickyBinade(H: nat, m: nat, prec: nat)
    requires m >= 1 && Pow(2, m - 1) <= H < Pow(2, m) && H >= Pow(2, prec + 1) && prec >= 1
    ensures m >= prec + 2 && H + 1 <= Pow(2, m) && Pow(2, m - 1) <= Sticky(H, true) < Pow(2, m)
  {
    if m < prec + 2 {
      PowMono(2, m, prec + 1);
      assert false;
    }
    PowStep(2, m - 1);
  }

  // ---- normalization ----

  /** (a << shift) | (v >> (LIMB_BITS - shift)). */
  function ShiftedWord(a: Limb, v: Limb, shift: nat): (x: int)
    requires 1 <= shift < LIMB_BITS
  {
    BasePositive();
    PowPositive(2, LIMB_BITS - shift);
    (a * Pow(2, shift)) % B + v / Pow(2, LIMB_BITS - shift)
  }

  lemma ShiftedWordIs(a: Limb, v: Limb, shift: nat)
    requires 1 <= shift < LIMB_BITS
    ensures Pow(2, LIMB_BITS - shift) > 0 && 0 <= ShiftedWord(a, v, shift) < B
    ensures ShiftedWord(a, v, shift) + B * (a / Pow(2, LIMB_BITS - shift))
      == a * Pow(2, shift) + v / Pow(2, LIMB_BITS - shift)
    ensures v / Pow(2, LIMB_BITS - shift) >= 0
  {
    var S, T := Pow(2, shift), Pow(2, LIMB_BITS - shift);
    SplitBase(shift);
    BasePositive();
    assert ShiftedWord(a, v, shift) == (a * S) % B + v / T;
    hide *;
    DivModIdentity(a, T);
    DivModIdentity(v, T);
    ShiftHigh2(a, T, S);
    DivLess(v, T, S);
    MulMono(a % T + 1, T, S);
    MulDist(S, a % T, 1);
    MulMono(0, a % T, S);
    ShiftPoly(a / T, T, S, a % T);
  }

  lemma ShiftPoly(q: int, t: int, s: int, r: int)
    ensures (q * t + r) * s == (t * s) * q + r * s
  {}

  lemma ShiftDigits(t: seq<Limb>, s: seq<Limb>, a: Limb, vq: int, x: Limb, S: int, aq: int)
    requires |t| == |s| && x + B * aq == a * S + vq && Val(t) + Pow(B, |s|) * vq == Val(s) * S
    ensures Val(t + [x]) + Pow(B, |s| + 1) * aq == Val(s + [a]) * S
  {
    hide *;
    ValSnoc(t, x);
    ValSnoc(s, a);
    PowStep(B, |s|);
    ShiftLoop(Val(t), Pow(B, |s|), vq, Val(s), S, x, B, a, aq, Val(t + [x]), Pow(B, |s| + 1), Val(s + [a]));
  }

  lemma ShiftStep(t: seq<Limb>, s: seq<Limb>, a: Limb, v: Limb, x: Limb, shift: nat, T: nat)
    requires T > 0 && |t| == |s| && x + B * (a / T) == a * Pow(2, shift) + v / T
    requires Val(t) + Pow(B, |s|) * (v / T) == Val(s) * Pow(2, shift)
    ensures Val(t + [x]) + Pow(B, |s| + 1) * (a / T) == Val(s + [a]) * Pow(2, shift)
  {
    hide *;
    ShiftDigits(t, s, a, v / T, x, Pow(2, shift), a / T);
  }

  method ShiftLeft(tab: seq<Limb>, shift: nat) returns (t: seq<Limb>)
    requires |tab| > 0 && 1 <= shift < LIMB_BITS && tab[|tab| - 1] < Pow(2, LIMB_BITS - shift)
    ensures |t| == |tab| && Val(t) == Val(tab) * Pow(2, shift)
  {
    hide *;
    var T := Pow(2, LIMB_BITS - shift);
    PowPositive(2, LIMB_BITS - shift);
    t := [];
    ValNil(t);
    assert tab[..0] == [];
    PowStep(B, 0);
    SmallDiv(0, T);
    var i, v: Limb := 0, 0;
    while i < |tab|
      invariant 0 <= i <= |tab| && |t| == i && Val(t) + Pow(B, i) * (v / T) == Val(tab[..i]) * Pow(2, shift)
      invariant i > 0 ==> v == tab[i - 1]
    {
      var a := tab[i];
      ShiftedWordIs(a, v, shift);
      var x: Limb := ShiftedWord(a, v, shift);
      assert tab[..i + 1] == tab[..i] + [a];
      ShiftStep(t, tab[..i], a, v, x, shift, T);
      t, v := t + [x], a;
      i := i + 1;
    }
    assert tab[..|tab|] == tab;
    SmallDiv(v, T);
  }

  lemma ShiftLoop(t: int, p: int, c: int, w: int, s: int, x: int, b: int, a: int, q: int, t': int, p': int, w': int)
    requires t + p * c == w * s && x + b * q == a * s + c
    requires t' == t + p * x && p' == b * p && w' == w + p * a
    ensures t' + p' * q == w' * s
  {
    assert p * (x + b * q) == p * x + (b * p) * q;
    assert p * (a * s + c) == (p * a) * s + p * c;
    assert (w + p * a) * s == w * s + (p * a) * s;
  }

  /** The shift by clz: the top bit is set and the magnitude unchanged. */
  method NormalizeLimbs(tab: seq<Limb>, expn: int) returns (t: seq<Limb>, e: int)
    requires Val(tab) != 0
    ensures TopSet(t) && Magnitude(t, e) == Magnitude(tab, expn)
  {
    hide *;
    var l := |tab|;
    assert tab[..|tab|] == tab && tab[l..] == [];
    ValNil(tab[l..]);
    while l > 0 && tab[l - 1] == 0
      invariant 0 <= l <= |tab| && Val(tab[..l]) == Val(tab)
    {
      assert tab[..l] == tab[..l - 1] + [0];
      ValSnoc(tab[..l - 1], 0);
      l := l - 1;
    }
    ValNil([]);
    assert tab[..0] == [];
    t, e := tab[..l], expn - (|tab| - l) * LIMB_BITS;
    MulDist(LIMB_BITS, |tab|, l);
    DroppedTop(tab, l, expn, e);
    var x := t[l - 1];
    var shift := Clz(x);
    ClzTop(x);
    if shift != 0 {
      ghost var t0 := t;
      t := ShiftLeft(t, shift);
      ShiftedMagnitude(t0, t, shift, e);
      ShiftedTop(t0, t, shift);
      e := e - shift;
    } else {
      TopSetIntro(t);
    }
  }

  lemma DroppedTop(tab: seq<Limb>, l: nat, expn: int, e: int)
    requires l <= |tab| && Val(tab[..l]) == Val(tab) && e == expn - (|tab| * LIMB_BITS - l * LIMB_BITS)
    ensures Magnitude(tab[..l], e) == Magnitude(tab, expn)
  {
    hide Rescale, Val;
    MagnitudeIs(tab, expn);
    MagnitudeIs(tab[..l], e);
  }

  lemma ClzTop(x: Limb)
    ensures x > 0 ==> Clz(x) < LIMB_BITS && x < Pow(2, LIMB_BITS - Clz(x)) && x * Pow(2, Clz(x)) >= HALF
  {
    if x > 0 {
      hide *;
      PowStep(2, 0);
      ClzIs(x, LIMB_BITS);
      ClzBelow(x);
      var c := Clz(x);
      ClzIs(x, c);
      ClzIs(x, c + 1);
      HalfIs();
      PowAdd(2, c, LIMB_BITS - (c + 1));
      PowPositive(2, c);
      MulMono(Pow(2, LIMB_BITS - (c + 1)), x, Pow(2, c));
    }
  }

  lemma HalfIs()
    ensures HALF == Pow(2, LIMB_BITS - 1)
  {}

  lemma TopSetIntro(t: seq<Limb>)
    requires |t| > 0 && t[|t| - 1] * Pow(2, 0) >= HALF
    ensures TopSet(t)
  {
    PowStep(2, 0);
  }

  lemma ShiftedMagnitude(tab: seq<Limb>, t: seq<Limb>, shift: nat, e: int)
    requires |t| == |tab| && Val(t) == Val(tab) * Pow(2, shift)
    ensures Magnitude(t, e - shift) == Magnitude(tab, e)
  {
    hide *;
    MagnitudeIs(tab, e);
    MagnitudeIs(t, e - shift);
    RescaleShift(Val(tab), shift, e - shift - |t| * LIMB_BITS);
  }

  lemma ShiftedTop(tab: seq<Limb>, t: seq<Limb>, shift: nat)
    requires |tab| > 0 && |t| == |tab| && Val(t) == Val(tab) * Pow(2, shift) && tab[|tab| - 1] * Pow(2, shift) >= HALF
    ensures TopSet(t)
  {
    hide *;
    var n := |tab| - 1;
    TopLimb(t);
    assert tab[0..n + 1] == tab && tab[0..n] == tab[..n];
    ValGrow(tab, 0, n);
    MulMono(0, Val(tab[0..n]), Pow(2, shift));
    MulMono(HALF, tab[n] * Pow(2, shift), Pow(B, n));
    TopPoly2(Val(tab[0..n]), Pow(B, n), tab[n], Pow(2, shift));
    PowPositive(2, shift);
  }

  lemma TopPoly2(v: int, p: int, x: int, s: int)
    ensures (v + p * x) * s == v * s + (x * s) * p
  {}

  // ---- addition ----

  /** The exact sum or difference of magnitudes. */
  ghost function Exact(ta: seq<Limb>, ea: int, tb: seq<Limb>, eb: int, sub: bool): (x: real)
  {
    if sub then Magnitude(ta, ea) - Magnitude(tb, eb) else Magnitude(ta, ea) + Magnitude(tb, eb)
  }

  function CeilDiv(x: nat, y: nat): (q: nat)
    requires y > 0
  {
    (x + y - 1) / y
  }

  lemma CeilDivIs(x: nat, y: nat)
    requires y > 0
    ensures CeilDiv(x, y) * y >= x
  {
    DivModIdentity(x + y - 1, y);
  }

  /** On the scale of tot limbs both operands are integers. */
  lemma ExactScaled(ta: seq<Limb>, ea: int, tb: seq<Limb>, eb: int, sub: bool, tot: nat)
    requires ea >= eb && tot >= |ta| && tot >= |tb| + CeilDiv(ea - eb, LIMB_BITS)
    ensures var A, C := Lead(ta, 0, tot), Lead(tb, ea - eb, tot);
            Rescale(Exact(ta, ea, tb, eb, sub), tot * LIMB_BITS - ea) == (if sub then A - C else A + C) as real
  {
    hide Lead, Magnitude, Rescale;
    var d, k := ea - eb, tot * LIMB_BITS - ea;
    CeilDivIs(d, LIMB_BITS);
    MulMono(|ta|, tot, LIMB_BITS);
    MulMono(|tb| + CeilDiv(d, LIMB_BITS), tot, LIMB_BITS);
    MulDist(LIMB_BITS, |tb|, CeilDiv(d, LIMB_BITS));
    LeadExact(ta, ea, ea, tot);
    LeadExact(tb, eb, ea, tot);
    RescaleSum(Magnitude(ta, ea), Magnitude(tb, eb), k);
    RescaleDifference(Magnitude(ta, ea), Magnitude(tb, eb), k);
  }

  lemma RescaleDifference(x: real, y: real, k: int)
    ensures Rescale(x - y, k) == Rescale(x, k) - Rescale(y, k)
  {
    RealDist(x, y, Pow2(k));
  }

  /** The leading limbs of a normal number fill no more than tot limbs. */
  lemma LeadBound(tab: seq<Limb>, expn: int, tot: nat)
    requires TopSet(tab)
    ensures Lead(tab, 0, tot) < Pow(B, tot)
  {
    hide *;
    MagnitudeExp(tab, expn);
    LeadScaled(tab, expn, expn, tot);
    BasePow(tot);
    HasExpBelow(Magnitude(tab, expn), expn);
    PowRescaled(expn, tot * LIMB_BITS - expn);
    RescaleStrict(Magnitude(tab, expn), Pow2(expn), tot * LIMB_BITS - expn);
  }

  lemma HasExpBelow(x: real, e: int)
    requires HasExp(x, e)
    ensures x < Pow2(e) && Pow2(e - 1) <= x
  {}

  /** The window H and what is below it make up the exact result. */
  lemma WindowIs(ta: seq<Limb>, ea: int, tb: seq<Limb>, eb: int, sub: bool, tot: nat, m: nat, rl: int, H: nat, k: nat)
    requires TopSet(ta) && ea >= eb && m <= tot && tot >= |ta| && tot >= |tb| + CeilDiv(ea - eb, LIMB_BITS)
    requires sub ==> Magnitude(ta, ea) > Magnitude(tb, eb)
    requires SumInv(ta, tb, ea - eb, tot, sub, tot, rl + H * Pow(B, m), k) && 0 <= rl < Pow(B, m)
    ensures var full := if !sub && k == 1 then H + Pow(B, tot - m) else H;
            var w := Rescale(Exact(ta, ea, tb, eb, sub), (tot - m) * LIMB_BITS - ea);
            && full as real <= w < full as real + 1.0 && (rl == 0 ==> w == full as real)
               && (rl != 0 ==> full as real < w)
  {
    hide *;
    var A, C, P := Lead(ta, 0, tot), Lead(tb, ea - eb, tot), Pow(B, tot);
    SumTotal(ta, tb, ea - eb, tot, sub, rl + H * Pow(B, m), k);
    LeadBound(ta, ea, tot);
    ExactScaled(ta, ea, tb, eb, sub, tot);
    var X := Exact(ta, ea, tb, eb, sub);
    if sub {
      ExactPositive(ta, ea, tb, eb, tot);
    }
    PowAdd(B, tot - m, m);
    var full := if !sub && k == 1 then H + Pow(B, tot - m) else H;
    TotalArith(rl, H, Pow(B, m), Pow(B, tot - m), P, k, A, C, sub, full);
    ScaleByLimbs(X, ea, tot, m);
    QuotientOf(Rescale(X, (tot - m) * LIMB_BITS - ea), Pow(B, m), full, rl);
  }

  lemma SumTotal(ta: seq<Limb>, tb: seq<Limb>, d: nat, tot: nat, sub: bool, R: int, k: nat)
    requires SumInv(ta, tb, d, tot, sub, tot, R, k)
    ensures R + k * Pow(B, tot) == Lead(ta, 0, tot) + (if sub then Pow(B, tot) - Lead(tb, d, tot) else Lead(tb, d, tot))
    ensures 0 <= R < Pow(B, tot) && k <= 1
  {
    hide Low, Lead, Pow;
    LowEnds(ta, 0, tot);
    LowEnds(tb, d, tot);
  }

  lemma TotalArith(rl: int, H: int, p: int, q: int, P: int, k: nat, A: int, C: int, sub: bool, full: int)
    requires P == q * p && k <= 1 && 0 <= rl + H * p < P && rl + H * p + k * P == A + (if sub then P - C else C)
    requires sub ==> 0 < A - C && A < P && C >= 0
    requires full == if !sub && k == 1 then H + q else H
    ensures (if sub then A - C else A + C) == full * p + rl
  {
    MulDist(p, H, q);
  }

  lemma ExactPositive(ta: seq<Limb>, ea: int, tb: seq<Limb>, eb: int, tot: nat)
    requires ea >= eb && tot >= |ta| && tot >= |tb| + CeilDiv(ea - eb, LIMB_BITS)
      && Magnitude(ta, ea) > Magnitude(tb, eb)
    ensures Lead(ta, 0, tot) > Lead(tb, ea - eb, tot)
  {
    hide *;
    ExactScaled(ta, ea, tb, eb, true, tot);
    var k := tot * LIMB_BITS - ea;
    ExactIs(ta, ea, tb, eb);
    RescaleStrict(0.0, Exact(ta, ea, tb, eb, true), k);
    RescaleOfZero(k);
  }

  lemma ExactIs(ta: seq<Limb>, ea: int, tb: seq<Limb>, eb: int)
    ensures Exact(ta, ea, tb, eb, true) == Magnitude(ta, ea) - Magnitude(tb, eb)
    ensures Exact(ta, ea, tb, eb, false) == Magnitude(ta, ea) + Magnitude(tb, eb)
  {
    hide Magnitude;
  }

  lemma RescaleOfZero(k: int)
    ensures Rescale(0.0, k) == 0.0
  {}

  /** m limbs make the difference between two scales. */
  lemma ScaleByLimbs(x: real, e: int, tot: nat, m: nat)
    requires m <= tot
    ensures Rescale(x, (tot - m) * LIMB_BITS - e) * Pow(B, m) as real == Rescale(x, tot * LIMB_BITS - e)
  {
    hide Rescale, Pow, B;
    BasePow(m);
    MulDist(LIMB_BITS, tot, m);
    Coarser(x, (tot - m) * LIMB_BITS - e, m * LIMB_BITS);
  }

  lemma QuotientOf(w: real, p: nat, q: int, r: int)
    requires p > 0 && w * p as real == (q * p + r) as real && 0 <= r < p
    ensures q as real <= w < q as real + 1.0 && (r == 0 ==> w == q as real) && (r != 0 ==> q as real < w)
  {
    var f := w - q as real;
    assert f * p as real == r as real by { RealDist(w, q as real, p as real); }
    FractionBounds(f, p as real, r as real);
    SignOf(f, p as real);
  }

  /** The exact result has at most `cancelled` leading zeros. */
  ghost predicate Cancels(ta: seq<Limb>, ea: int, tb: seq<Limb>, eb: int, sub: bool, cancelled: nat)
  {
    Exact(ta, ea, tb, eb, sub) >= Pow2(ea - cancelled - 1)
  }

  /** The number of bits a subtraction may cancel, as the code chooses it. */
  method CancelledBits(ta: seq<Limb>, ea: int, tb: seq<Limb>, eb: int, sub: bool) returns (n: nat)
    requires TopSet(ta) && TopSet(tb) && ea >= eb && (sub ==> Magnitude(ta, ea) > Magnitude(tb, eb))
    ensures Cancels(ta, ea, tb, eb, sub, n)
  {
    hide *;
    ExactIs(ta, ea, tb, eb);
    MagnitudeExp(ta, ea);
    MagnitudeExp(tb, eb);
    HasExpBelow(Magnitude(ta, ea), ea);
    HasExpBelow(Magnitude(tb, eb), eb);
    Pow2Pos(eb - 1);
    if sub {
      if ea - eb <= 1 {
        n := CountCancelledBits(ta, ea, tb, eb);
      } else {
        n := 1;
        Pow2Mono(eb, ea - 2);
        Pow2Next(ea - 2);
      }
    } else {
      n := 0;
    }
    CancelsIntro(ta, ea, tb, eb, sub, n);
  }

  lemma CancelsIntro(ta: seq<Limb>, ea: int, tb: seq<Limb>, eb: int, sub: bool, n: nat)
    requires Exact(ta, ea, tb, eb, sub) >= Pow2(ea - n - 1)
    ensures Cancels(ta, ea, tb, eb, sub, n)
  {
    hide Exact, Pow2;
  }

  /** Enough bits in the window to round it in place of the exact result. */
  lemma WindowBits(ta: seq<Limb>, ea: int, tb: seq<Limb>, eb: int, sub: bool, n: nat, prec: nat, rlen: nat, full: nat)
    requires Cancels(ta, ea, tb, eb, sub, n) && rlen * LIMB_BITS >= n + prec + 2
    requires Rescale(Exact(ta, ea, tb, eb, sub), rlen * LIMB_BITS - ea) < full as real + 1.0
    ensures full >= Pow(2, prec + 1)
  {
    var X, k := Exact(ta, ea, tb, eb, sub), rlen * LIMB_BITS - ea;
    assert X >= Pow2(ea - n - 1);
    hide *;
    RescaleMono(Pow2(ea - n - 1), X, k);
    PowRescaled(ea - n - 1, k);
    PowMono(2, prec + 1, ea - n - 1 + k);
  }

  /** The window with its sticky bit rounds as the exact result does. */
  lemma SumRounds(mode: Mode, neg: bool, prec: nat, X: real, full: nat, z: bool, rlen: nat, ea: int, y: real)
    requires prec >= 1
    requires var w := Rescale(X, rlen * LIMB_BITS - ea);
             if z then full as real < w < full as real + 1.0 && full >= Pow(2, prec + 1) else w == full as real
    requires RoundsTo(mode, neg, prec, Rescale(Sticky(full, z) as real, ea - rlen * LIMB_BITS), y)
    ensures RoundsTo(mode, neg, prec, X, y)
  {
    hide *;
    var k := rlen * LIMB_BITS - ea;
    RescaleBack(X, k);
    StickyIs2(full, z);
    if z {
      StickyRounds(mode, neg, prec, Rescale(X, k), full, -k, y);
    }
  }

  lemma StickyIs2(H: nat, z: bool)
    ensures !z ==> Sticky(H, z) == H
    ensures z ==> Sticky(H, z) == Sticky(H, true)
  {}

  /** Setting the last bit of the first limb. */
  lemma StickyLimbs(r: seq<Limb>, t: seq<Limb>, z: bool)
    requires |r| > 0 && t == (if z && r[0] % 2 == 0 && r[0] + 1 < B then r[0 := r[0] + 1] else r)
    ensures Val(t) == Sticky(Val(r), z) && (z ==> Val(t) > 0)
  {
    hide Pow, B;
    EvenFits(r[0]);
    PowStep(2, 0);
    LowBits(r, 1);
    assert t[1..] == r[1..];
  }

  lemma EvenFits(x: Limb)
    ensures x % 2 == 0 ==> x + 1 < B
  {
    BaseFacts();
  }

  lemma StickyAbove(H: nat, z: bool, n: nat)
    requires n >= 1
    ensures Sticky(H, z) + Pow(B, n) == Sticky(H + Pow(B, n), z)
  {
    hide Pow, B, HALF;
    BaseFacts();
    PowStep(B, n - 1);
    EvenPower(HALF, Pow(B, n - 1), H);
  }

  lemma EvenPower(h: int, p: int, x: int)
    ensures (x + (2 * h) * p) % 2 == x % 2
  {
    assert (2 * h) * p == 2 * (h * p);
    ParityOf2(h * p, x);
  }

  lemma ParityOf2(a: int, r: int)
    ensures (r + 2 * a) % 2 == r % 2
  {}

  /** The magnitude of a sum or difference of nonzero magnitudes, the first not smaller,
      with a sticky bit standing for all the bits beyond the window. */
  method SumLimbs(ta: seq<Limb>, ea: int, tb: seq<Limb>, eb: int, sub: bool, prec: nat, mode: Mode, neg: bool)
      returns (t: seq<Limb>, e: int)
    requires TopSet(ta) && TopSet(tb) && ea >= eb && prec >= 1 && (sub ==> Magnitude(ta, ea) > Magnitude(tb, eb))
    ensures Val(t) != 0
    ensures forall y ::
      RoundsTo(mode, neg, prec, Magnitude(t, e), y) ==> RoundsTo(mode, neg, prec, Exact(ta, ea, tb, eb, sub), y)
  {
    hide *;
    var d := ea - eb;
    var cancelled := CancelledBits(ta, ea, tb, eb, sub);
    var precl := CeilDiv(cancelled + prec + 2, LIMB_BITS);
    CeilDivIs(cancelled + prec + 2, LIMB_BITS);
    TopSetIs(ta);
    var other := |tb| + CeilDiv(d, LIMB_BITS);
    var tot := if |ta| > other then |ta| else other;
    var rlen := if precl < tot then precl else tot;
    WindowNonempty(precl, cancelled + prec + 2);
    var z, k, rl := LowPart(ta, tb, d, tot, rlen, sub);
    SumParts(ta, tb, d, tot, sub, tot - rlen, rl, k);
    var r, k' := HighPart(ta, tb, d, tot, rlen, sub, k, rl);
    ghost var m, H := tot - rlen, Val(r);
    WindowIs(ta, ea, tb, eb, sub, tot, m, rl, H, k');
    ghost var full := if !sub && k' == 1 then H + Pow(B, rlen) else H;
    ghost var X := Exact(ta, ea, tb, eb, sub);
    if z {
      PowStep(B, 0);
      WindowBits(ta, ea, tb, eb, sub, cancelled, prec, rlen, full);
    }
    t, e := r, ea;
    EvenFits(r[0]);
    if z && r[0] % 2 == 0 {
      t := r[0 := r[0] + 1];
    }
    StickyLimbs(r, t, z);
    if !sub && k' == 1 {
      ValSnoc(t, 1);
      t, e := t + [1], e + LIMB_BITS;
      StickyAbove(H, z, rlen);
    }
    assert Val(t) == Sticky(full, z);
    MulDist(LIMB_BITS, rlen, 1);
    MagnitudeIs(t, e);
    assert e - |t| * LIMB_BITS == ea - rlen * LIMB_BITS;
    forall y | RoundsTo(mode, neg, prec, Magnitude(t, e), y)
      ensures RoundsTo(mode, neg, prec, X, y)
    {
      SumRounds(mode, neg, prec, X, full, z, rlen, ea, y);
    }
    SumNonzero(ta, ea, tb, eb, sub, cancelled, full, z, rlen);
  }

  lemma WindowNonempty(precl: nat, x: nat)
    requires precl * LIMB_BITS >= x && x >= 1
    ensures precl >= 1
  {}

  lemma SumNonzero(ta: seq<Limb>, ea: int, tb: seq<Limb>, eb: int, sub: bool, n: nat, full: nat, z: bool, rlen: nat)
    requires Cancels(ta, ea, tb, eb, sub, n)
    requires !z ==> Rescale(Exact(ta, ea, tb, eb, sub), rlen * LIMB_BITS - ea) == full as real
    ensures Sticky(full, z) != 0
  {
    var X, k := Exact(ta, ea, tb, eb, sub), rlen * LIMB_BITS - ea;
    assert X >= Pow2(ea - n - 1);
    Pow2Pos(ea - n - 1);
    hide Exact, Pow2, Rescale, Cancels;
    RescaleStrict(0.0, X, k);
    RescaleOfZero(k);
  }

  // ---- bf_add_internal on numbers ----

  /** Zero has no limbs; other finite numbers have their top bit set. */
  ghost predicate Finite(tab: seq<Limb>)
  {
    |tab| == 0 || TopSet(tab)
  }

  ghost function Signed(neg: bool, x: real): (v: real) { if neg then -x else x }

  ghost function Abs(x: real): (v: real) { if x < 0.0 then -x else x }

  /** bf_cmpu with the exponent of zero below every other. */
  method CmpFinite(ta: seq<Limb>, ea: int, tb: seq<Limb>, eb: int) returns (c: int)
    requires Finite(ta) && Finite(tb)
    ensures c < 0 <==> Magnitude(ta, ea) < Magnitude(tb, eb)
    ensures c > 0 <==> Magnitude(ta, ea) > Magnitude(tb, eb)
  {
    MagnitudeSign(ta, ea);
    MagnitudeSign(tb, eb);
    if |ta| == 0 || |tb| == 0 {
      c := if |ta| == 0 && |tb| == 0 then 0 else if |ta| == 0 then -1 else 1;
    } else {
      hide *;
      FiniteTop(ta);
      FiniteTop(tb);
      c := Cmpu(ta, ea, tb, eb);
    }
  }

  lemma FiniteTop(tab: seq<Limb>)
    requires Finite(tab) && |tab| > 0
    ensures TopSet(tab)
  {}

  lemma MagnitudeSign(tab: seq<Limb>, expn: int)
    requires Finite(tab)
    ensures |tab| == 0 ==> Magnitude(tab, expn) == 0.0
    ensures |tab| > 0 ==> Magnitude(tab, expn) > 0.0
  {
    if |tab| == 0 {
      ValNil(tab);
      RescaleOfZero(expn - |tab| * LIMB_BITS);
    } else {
      hide *;
      FiniteTop(tab);
      MagnitudeExp(tab, expn);
      HasExpBelow(Magnitude(tab, expn), expn);
      Pow2Pos(expn - 1);
    }
  }

  lemma ExpOrdered(ta: seq<Limb>, ea: int, tb: seq<Limb>, eb: int)
    requires TopSet(ta) && TopSet(tb) && Magnitude(ta, ea) >= Magnitude(tb, eb)
    ensures ea >= eb
  {
    hide *;
    MagnitudeExp(ta, ea);
    MagnitudeExp(tb, eb);
    if ea < eb {
      ExpOrder(Magnitude(ta, ea), ea, Magnitude(tb, eb), eb);
      assert false;
    }
  }

  /** The signed sum in terms of the larger and the smaller magnitude. */
  lemma SignedSum(an: bool, x: real, bn: bool, y: real)
    requires x >= 0.0 && y >= 0.0
    ensures var s := Signed(an, x) + Signed(bn, y);
            && (x >= y ==> Abs(s) == (if an != bn then x - y else x + y) && (s != 0.0 ==> (s < 0.0 <==> an)))
            && (x <= y ==> Abs(s) == (if an != bn then y - x else x + y) && (s != 0.0 ==> (s < 0.0 <==> bn)))
            && (s == 0.0 <==> x == y && (an != bn || x == 0.0))
  {}

  /** bf_add_internal for finite operands: r becomes a + b, or a - b if bNeg, correctly
      rounded; tells whether the exact result is zero. */
  method Add(r: Number, a: Number, b: Number, prec: nat, mode: Mode, bNeg: bool) returns (zero: bool)
    requires r != a && r != b && Finite(a.tab) && Finite(b.tab) && prec >= 1
    modifies r
    ensures var x := Signed(a.neg, a.Mag()) + Signed(b.neg != bNeg, b.Mag());
            && (zero <==> x == 0.0)
            && (zero ==> r.tab == [] && (|a.tab| > 0 || a.neg != (b.neg != bNeg) ==> r.neg == (mode == RNDD)))
            && (zero && |a.tab| == 0 && a.neg == (b.neg != bNeg) ==> r.neg == a.neg)
            && (!zero ==> TopSet(r.tab) && r.neg == (x < 0.0) && RoundsTo(mode, r.neg, prec, Abs(x), r.Mag()))
  {
    hide *;
    a.MagIs();
    b.MagIs();
    var aSign, bSign := a.neg, b.neg != bNeg;
    var sub := aSign != bSign;
    MagnitudeSign(a.tab, a.expn);
    MagnitudeSign(b.tab, b.expn);
    SignedSum(aSign, a.Mag(), bSign, b.Mag());
    ghost var x := Signed(a.neg, a.Mag()) + Signed(b.neg != bNeg, b.Mag());
    var c := CmpFinite(a.tab, a.expn, b.tab, b.expn);
    var ta, ea, tb, eb := a.tab, a.expn, b.tab, b.expn;
    if c < 0 {
      ta, ea, tb, eb, aSign := tb, eb, ta, ea, bSign;
    }
    if c == 0 && sub {
      r.tab, r.neg := [], mode == RNDD;
      return true;
    }
    if |ta| == 0 {
      r.tab, r.neg := [], aSign;
      return true;
    }
    zero := false;
    FiniteTop(ta);
    ghost var X := Exact(ta, ea, tb, eb, sub);
    ExactIs(ta, ea, tb, eb);
    assert Abs(x) == X && aSign == (x < 0.0);
    if |tb| == 0 {
      r.tab, r.expn := ta, ea;
    } else {
      FiniteTop(tb);
      ExpOrdered(ta, ea, tb, eb);
      var t, e := SumLimbs(ta, ea, tb, eb, sub, prec, mode, aSign);
      ghost var w := Magnitude(t, e);
      t, e := NormalizeLimbs(t, e);
      r.tab, r.expn := t, e;
    }
    r.neg := aSign;
    r.MagIs();
    ghost var before := r.Mag();
    var _ := r.Round(prec, mode);
  }
}
