/** In-place limb-array kernels of cpp/src/quickjs/libbf.c. A C pointer into a
    limb array is an array together with an offset; every kernel states the
    exact integer it leaves in its destination window and leaves all other
    limbs alone. */
module LimbOps {
  import opened Powers
  import opened Limbs

  /** One word of an add-with-carry chain. */
  method AddCarryWord(v: Limb, w: Limb, k: nat) returns (a: Limb, k': nat)
    requires k <= 1
    ensures k' <= 1 && v + w + k == a + k' * B
  {
    BaseFacts();
    a := AddW(v, w);
    var k1 := if a < v then 1 else 0;
    a := AddW(a, k);
    k' := if a < k || k1 == 1 then 1 else 0;
  }

  /** One word of a subtract-with-borrow chain. */
  method SubBorrowWord(v: Limb, w: Limb, k: nat) returns (a: Limb, k': nat)
    requires k <= 1
    ensures k' <= 1 && v - w - k == a - k' * B
  {
    BaseFacts();
    var t := SubW(v, w);
    var k1 := if t > v then 1 else 0;
    a := SubW(t, k);
    k' := if a > t || k1 == 1 then 1 else 0;
  }

  lemma AddChainStep(p: int, b: int, x: int, y: int, c: int, z: int, k: int, v: int, w: int, a: int, k': int)
    requires z == x + y + c - k * p
    requires v + w + k == a + k' * b
    ensures z + p * a == (x + p * v) + (y + p * w) + c - k' * (b * p)
  {
    MulDist(p, v + w + k, a + k' * b);
    assert p * (v + w + k) == p * v + p * w + p * k;
    assert p * (a + k' * b) == p * a + k' * (b * p);
  }

  lemma SubChainStep(p: int, b: int, x: int, y: int, c: int, z: int, k: int, v: int, w: int, a: int, k': int)
    requires z == x - y - c + k * p
    requires v - w - k == a - k' * b
    ensures z + p * a == (x + p * v) - (y + p * w) - c + k' * (b * p)
  {
    assert p * (v - w - k) == p * v - p * w - p * k;
    assert p * (a - k' * b) == p * a - k' * (b * p);
  }

  lemma AddLimbStep(z: seq<Limb>, zr: seq<Limb>, zb: seq<Limb>, a: Limb, x: Limb, y: Limb, c: int, k0: int, k: int)
    requires |z| == |zr| == |zb| && x + y + k0 == a + k * B
    requires Val(z) == Val(zr) + Val(zb) + c - k0 * Pow(B, |z|)
    ensures Val(z + [a]) == Val(zr + [x]) + Val(zb + [y]) + c - k * Pow(B, |z| + 1)
  {
    hide *;
    ValSnoc(z, a);
    ValSnoc(zr, x);
    ValSnoc(zb, y);
    PowStep(B, |z|);
    AddChainStep(Pow(B, |z|), B, Val(zr), Val(zb), c, Val(z), k0, x, y, a, k);
  }

  /** r[ro..ro+n] += b[bo..bo+n] + carry; returns the carry out. */
  method MpAdd(r: array<Limb>, ro: nat, b: array<Limb>, bo: nat, n: nat, carry: nat) returns (k: nat)
    requires ro + n <= r.Length && bo + n <= b.Length && carry <= 1
    requires r != b || ro + n <= bo || bo + n <= ro
    modifies r
    ensures k <= 1
    ensures Val(r[ro..ro + n]) == old(Val(r[ro..ro + n])) + old(Val(b[bo..bo + n])) + carry - k * Pow(B, n)
    ensures forall i :: 0 <= i < r.Length && !(ro <= i < ro + n) ==> r[i] == old(r[i])
  {
    hide *;
    k := carry;
    ghost var r0, b0 := r[..], b[..];
    var i := 0;
    ValNil([]);
    assert r0[ro..ro + i] == [] && b0[bo..bo + i] == [] && r[ro..ro + i] == [];
    while i < n
      invariant i <= n && k <= 1
      invariant Val(r[ro..ro + i]) == Val(r0[ro..ro + i]) + Val(b0[bo..bo + i]) + carry - k * Pow(B, i)
      invariant forall j :: 0 <= j < r.Length && !(ro <= j < ro + i) ==> r[j] == r0[j]
      invariant r != b ==> b[..] == b0
    {
      ghost var z, k0, x, y := r[ro..ro + i], k, r[ro + i], b[bo + i];
      assert r0[ro..ro + i + 1] == r0[ro..ro + i] + [x] && b0[bo..bo + i + 1] == b0[bo..bo + i] + [y];
      var a: Limb;
      a, k := AddCarryWord(r[ro + i], b[bo + i], k);
      r[ro + i] := a;
      assert r[ro..ro + i + 1] == z + [a];
      AddLimbStep(z, r0[ro..ro + i], b0[bo..bo + i], a, x, y, carry, k0, k);
      i := i + 1;
    }
    assert r0[ro..ro + n] == old(r[ro..ro + n]) && b0[bo..bo + n] == old(b[bo..bo + n]);
  }

  lemma SubLimbStep(z: seq<Limb>, zr: seq<Limb>, zb: seq<Limb>, a: Limb, x: Limb, y: Limb, c: int, k0: int, k: int)
    requires |z| == |zr| == |zb| && x - y - k0 == a - k * B
    requires Val(z) == Val(zr) - Val(zb) - c + k0 * Pow(B, |z|)
    ensures Val(z + [a]) == Val(zr + [x]) - Val(zb + [y]) - c + k * Pow(B, |z| + 1)
  {
    hide *;
    ValSnoc(z, a);
    ValSnoc(zr, x);
    ValSnoc(zb, y);
    PowStep(B, |z|);
    SubChainStep(Pow(B, |z|), B, Val(zr), Val(zb), c, Val(z), k0, x, y, a, k);
  }

  /** r[ro..ro+n] -= b[bo..bo+n] + carry; returns the borrow out. */
  method MpSub(r: array<Limb>, ro: nat, b: array<Limb>, bo: nat, n: nat, carry: nat) returns (k: nat)
    requires ro + n <= r.Length && bo + n <= b.Length && carry <= 1
    requires r != b || ro + n <= bo || bo + n <= ro
    modifies r
    ensures k <= 1
    ensures Val(r[ro..ro + n]) == old(Val(r[ro..ro + n])) - old(Val(b[bo..bo + n])) - carry + k * Pow(B, n)
    ensures forall i :: 0 <= i < r.Length && !(ro <= i < ro + n) ==> r[i] == old(r[i])
  {
    hide *;
    k := carry;
    ghost var r0, b0 := r[..], b[..];
    var i := 0;
    ValNil([]);
    assert r0[ro..ro + i] == [] && b0[bo..bo + i] == [] && r[ro..ro + i] == [];
    while i < n
      invariant i <= n && k <= 1
      invariant Val(r[ro..ro + i]) == Val(r0[ro..ro + i]) - Val(b0[bo..bo + i]) - carry + k * Pow(B, i)
      invariant forall j :: 0 <= j < r.Length && !(ro <= j < ro + i) ==> r[j] == r0[j]
      invariant r != b ==> b[..] == b0
    {
      ghost var z, k0, x, y := r[ro..ro + i], k, r[ro + i], b[bo + i];
      assert r0[ro..ro + i + 1] == r0[ro..ro + i] + [x] && b0[bo..bo + i + 1] == b0[bo..bo + i] + [y];
      var a: Limb;
      a, k := SubBorrowWord(r[ro + i], b[bo + i], k);
      r[ro + i] := a;
      assert r[ro..ro + i + 1] == z + [a];
      SubLimbStep(z, r0[ro..ro + i], b0[bo..bo + i], a, x, y, carry, k0, k);
      i := i + 1;
    }
    assert r0[ro..ro + n] == old(r[ro..ro + n]) && b0[bo..bo + n] == old(b[bo..bo + n]);
  }

  lemma SameUpperLimbs(s: seq<Limb>, t: seq<Limb>, lo: nat, m: nat, hi: nat)
    requires |s| == |t| && lo <= m <= hi <= |s| && s[m..hi] == t[m..hi]
    ensures Val(s[lo..hi]) - Val(t[lo..hi]) == Val(s[lo..m]) - Val(t[lo..m])
  {
    hide *;
    ValSplit(s, lo, m, hi);
    ValSplit(t, lo, m, hi);
  }

  lemma AddUiStep(z: seq<Limb>, zr: seq<Limb>, a: Limb, x: Limb, v: int, k0: int, k: int)
    requires |z| == |zr| && x + k0 == a + k * B
    requires Val(z) == Val(zr) + v - k0 * Pow(B, |z|)
    ensures Val(z + [a]) == Val(zr + [x]) + v - k * Pow(B, |z| + 1)
  {
    hide *;
    ValSnoc(z, a);
    ValSnoc(zr, x);
    PowStep(B, |z|);
    AddChainStep(Pow(B, |z|), B, Val(zr), 0, v, Val(z), k0, x, 0, a, k);
  }

  /** t[o..o+n] += v; returns the carry out. */
  method MpAddUi(t: array<Limb>, o: nat, v: Limb, n: nat) returns (k: Limb)
    requires o + n <= t.Length
    modifies t
    ensures n > 0 ==> k <= 1
    ensures n == 0 ==> k == v
    ensures Val(t[o..o + n]) == old(Val(t[o..o + n])) + v - k * Pow(B, n)
    ensures forall i :: 0 <= i < t.Length && !(o <= i < o + n) ==> t[i] == old(t[i])
  {
    hide *;
    k := v;
    ghost var t0 := t[..];
    var i := 0;
    ValNil([]);
    while i < n && k != 0
      invariant i <= n
      invariant i > 0 ==> k <= 1
      invariant i == 0 ==> k == v
      invariant Val(t[o..o + i]) == Val(t0[o..o + i]) + v - k * Pow(B, i)
      invariant forall j :: 0 <= j < t.Length && !(o <= j < o + i) ==> t[j] == t0[j]
    {
      ghost var z, k0, x := t[o..o + i], k, t[o + i];
      assert t0[o..o + i + 1] == t0[o..o + i] + [x];
      var a, c := AddWord(t[o + i], k);
      k := c;
      t[o + i] := a;
      assert t[o..o + i + 1] == z + [a];
      AddUiStep(z, t0[o..o + i], a, x, v, k0, k);
      i := i + 1;
    }
    if i < n {
      ghost var t1 := t[..];
      assert t1[o + i..o + n] == t0[o + i..o + n];
      SameUpperLimbs(t1, t0, o, o + i, o + n);
      assert t1[o..o + n] == t[o..o + n] && t1[o..o + i] == t[o..o + i];
    }
    assert t0[o..o + n] == old(t[o..o + n]);
  }

  /** a = x + k wrapping, with the carry test of the source. */
  method AddWord(x: Limb, k: Limb) returns (a: Limb, c: Limb)
    ensures c <= 1 && x + k == a + c * B
  {
    BaseFacts();
    a := AddW(x, k);
    c := if a < k then 1 else 0;
  }

  method SubWord(x: Limb, k: Limb) returns (a: Limb, c: Limb)
    ensures c <= 1 && x - k == a - c * B
  {
    BaseFacts();
    a := SubW(x, k);
    c := if a > x then 1 else 0;
  }

  lemma SubUiEnd(t: seq<Limb>, t0: seq<Limb>, o: nat, i: nat, n: nat, v: int, k: int)
    requires |t| == |t0| && i <= n && o + n <= |t| && t[o + i..o + n] == t0[o + i..o + n]
    requires Val(t[o..o + i]) == Val(t0[o..o + i]) - v + k * Pow(B, i) && (i < n ==> k == 0)
    ensures Val(t[o..o + n]) == Val(t0[o..o + n]) - v + k * Pow(B, n)
  {
    hide *;
    SameUpperLimbs(t, t0, o, o + i, o + n);
  }

  lemma SubUiStep(z: seq<Limb>, zr: seq<Limb>, a: Limb, x: Limb, v: int, k0: int, k: int)
    requires |z| == |zr| && x - k0 == a - k * B
    requires Val(z) == Val(zr) - v + k0 * Pow(B, |z|)
    ensures Val(z + [a]) == Val(zr + [x]) - v + k * Pow(B, |z| + 1)
  {
    hide *;
    ValSnoc(z, a);
    ValSnoc(zr, x);
    PowStep(B, |z|);
    SubChainStep(Pow(B, |z|), B, Val(zr), 0, v, Val(z), k0, x, 0, a, k);
  }

  /** t[o..o+n] -= v; returns the borrow out. */
  method MpSubUi(t: array<Limb>, o: nat, v: Limb, n: nat) returns (k: Limb)
    requires o + n <= t.Length
    modifies t
    ensures n > 0 ==> k <= 1
    ensures n == 0 ==> k == v
    ensures Val(t[o..o + n]) == old(Val(t[o..o + n])) - v + k * Pow(B, n)
    ensures forall i :: 0 <= i < t.Length && !(o <= i < o + n) ==> t[i] == old(t[i])
  {
    hide *;
    k := v;
    ghost var t0 := t[..];
    var i := 0;
    ValNil([]);
    while i < n
      invariant i <= n
      invariant i > 0 ==> k <= 1
      invariant i == 0 ==> k == v
      invariant Val(t[o..o + i]) == Val(t0[o..o + i]) - v + k * Pow(B, i)
      invariant forall j :: 0 <= j < t.Length && !(o <= j < o + i) ==> t[j] == t0[j]
    {
      ghost var z, k0, x := t[o..o + i], k, t[o + i];
      assert t0[o..o + i + 1] == t0[o..o + i] + [x];
      var a, c := SubWord(t[o + i], k);
      k := c;
      t[o + i] := a;
      assert t[o..o + i + 1] == z + [a];
      SubUiStep(z, t0[o..o + i], a, x, v, k0, k);
      i := i + 1;
      if k == 0 {
        break;
      }
    }
    ghost var t1 := t[..];
    assert t1[o + i..o + n] == t0[o + i..o + n];
    assert t1[o..o + n] == t[o..o + n] && t1[o..o + i] == t[o..o + i];
    SubUiEnd(t1, t0, o, i, n, v, k);
    assert t0[o..o + n] == old(t[o..o + n]);
  }

  /** t[o..o+n] := 0 - t[o..o+n] - carry; returns the borrow out. */
  method MpNeg(t: array<Limb>, o: nat, n: nat, carry: nat) returns (k: nat)
    requires o + n <= t.Length && carry <= 1
    modifies t
    ensures k <= 1
    ensures Val(t[o..o + n]) == k * Pow(B, n) - old(Val(t[o..o + n])) - carry
    ensures forall i :: 0 <= i < t.Length && !(o <= i < o + n) ==> t[i] == old(t[i])
  {
    hide *;
    BaseFacts();
    k := carry;
    ghost var t0 := t[..];
    var i := 0;
    ValNil([]);
    assert t0[o..o + i] == [] && t[o..o + i] == [];
    while i < n
      invariant i <= n && k <= 1
      invariant Val(t[o..o + i]) == k * Pow(B, i) - Val(t0[o..o + i]) - carry
      invariant forall j :: 0 <= j < t.Length && !(o <= j < o + i) ==> t[j] == t0[j]
    {
      ghost var z, k0 := t[o..o + i], k;
      assert Pow(B, i + 1) == B * Pow(B, i) by { PowStep(B, i); }
      var a: Limb;
      a, k := SubBorrowWord(0, t[o + i], k);
      t[o + i] := a;
      ValGrow(t0, o, o + i);
      assert t[o..o + i + 1] == z + [a];
      ValSnoc(z, a);
      SubChainStep(Pow(B, i), B, 0, Val(t0[o..o + i]), carry, Val(z), k0, 0, t0[o + i], a, k);
      i := i + 1;
    }
    assert t0[o..o + n] == old(t[o..o + n]);
  }

  lemma MulWordBound(b: int, x: int, y: int)
    requires 0 <= x < b && 0 <= y < b
    ensures 0 <= x * y && x * y + (b - 1) + (b - 1) < b * b
  {
    MulMono(x, b - 1, y);
    MulMono(y, b - 1, b - 1);
    assert (b - 1) * (b - 1) + (b - 1) + (b - 1) == b * b - 1;
  }

  lemma DivBelow(t: int, b: int)
    requires 0 <= t < b * b && b > 0
    ensures 0 <= t / b < b
  {
    DivModIdentity(t, b);
    if t / b >= b {
      MulMono(b, t / b, b);
    }
  }

  /** Double-word multiply-accumulate: x * y + u + v split into two limbs. */
  method MulAddWord(x: Limb, y: Limb, u: Limb, v: Limb) returns (lo: Limb, hi: Limb)
    ensures x * y + u + v == lo + hi * B
  {
    MulWordBound(B, x, y);
    var t := x * y + u + v;
    DivBelow(t, B);
    DivModIdentity(t, B);
    lo, hi := t % B, t / B;
  }

  lemma SubMulWordNeg(b: int, x: int, h: int, lo: int)
    requires b > 0 && 0 <= lo < b && 0 < h < b && x + b * b == h * b + lo && 0 <= x + b * b < b * b
    ensures x % (b * b) / b == h && x % (b * b) % b == lo && (b - h) % b == b - h
    ensures x == lo - (b - h) * b
  {
    DivModIs(x, b * b, -1, x + b * b);
    DivModIs(x + b * b, b, h, lo);
    DivModIs(b - h, b, 0, b - h);
    MulDist(b, b, h);
  }

  lemma SubMulWordPos(b: int, x: int)
    requires 0 <= x < b
    ensures b <= b * b && x % (b * b) == x && x / b == 0 && x % b == x && b % b == 0
  {
    MulMono(1, b, b);
    DivModIs(x, b * b, 0, x);
    DivModIs(x, b, 0, x);
    DivModIs(b, b, 1, 0);
  }

  /** Subtracting below zero in a double word: the borrow is the negated high word. */
  lemma SubMulWord(b: int, x: int)
    requires b > 0 && -(b * (b - 1)) <= x < b
    ensures b * b > 0
    ensures var t := x % (b * b); var lo := t % b; var l := (b - t / b) % b;
            0 <= lo < b && 0 <= l < b && x == lo - l * b
  {
    MulMono(1, b, b);
    if x >= 0 {
      SubMulWordPos(b, x);
    } else {
      MulDist(b, b, 1);
      var t := x + b * b;
      DivModIdentity(t, b);
      DivBelow(t, b);
      assert t >= b;
      SubMulWordHigh(t, b);
      SubMulWordNeg(b, x, t / b, t % b);
    }
  }

  lemma SubMulWordHigh(t: int, b: int)
    requires 0 < b <= t
    ensures t / b > 0
  {
    DivModIdentity(t, b);
    if t / b <= 0 {
      MulMono(t / b, 0, b);
      assert false;
    }
  }

  lemma MulChainStep(p: int, b: int, r: int, a: int, y: int, z: int, l: int, ri: int, ai: int, lo: int, hi: int)
    requires z + l * p == r + a * y
    requires ai * y + l + ri == lo + hi * b
    ensures (z + p * lo) + hi * (b * p) == (r + p * ri) + (a + p * ai) * y
  {
    assert p * (ai * y + l + ri) == p * ai * y + l * p + p * ri;
    assert p * (lo + hi * b) == p * lo + hi * (b * p);
    assert (a + p * ai) * y == a * y + p * ai * y;
  }

  /** r[ro..ro+n] := a[ao..ao+n] * y + l; returns the high limb. */
  method MpMul1(r: array<Limb>, ro: nat, a: array<Limb>, ao: nat, n: nat, y: Limb, l: Limb) returns (h: Limb)
    requires ro + n <= r.Length && ao + n <= a.Length && r != a
    modifies r
    ensures Val(r[ro..ro + n]) + h * Pow(B, n) == Val(a[ao..ao + n]) * y + l
    ensures forall i :: 0 <= i < r.Length && !(ro <= i < ro + n) ==> r[i] == old(r[i])
  {
    hide *;
    h := l;
    ghost var r0, a0 := r[..], a[..];
    var i := 0;
    ValNil([]);
    assert a0[ao..ao + i] == [] && r[ro..ro + i] == [];
    while i < n
      invariant i <= n
      invariant Val(r[ro..ro + i]) + h * Pow(B, i) == Val(a0[ao..ao + i]) * y + l
      invariant forall j :: 0 <= j < r.Length && !(ro <= j < ro + i) ==> r[j] == r0[j]
      invariant a[..] == a0
    {
      ghost var z, h0 := r[ro..ro + i], h;
      assert Pow(B, i + 1) == B * Pow(B, i) by { PowStep(B, i); }
      var lo: Limb;
      lo, h := MulAddWord(a[ao + i], y, h, 0);
      r[ro + i] := lo;
      ValGrow(a0, ao, ao + i);
      assert r[ro..ro + i + 1] == z + [lo];
      ValSnoc(z, lo);
      MulChainStep(Pow(B, i), B, l, Val(a0[ao..ao + i]), y, Val(z), h0, 0, a0[ao + i], lo, h);
      i := i + 1;
    }
    assert a0[ao..ao + n] == a[ao..ao + n];
  }

  /** r[ro..ro+n] += a[ao..ao+n] * y; returns the high limb. */
  method MpAddMul1(r: array<Limb>, ro: nat, a: array<Limb>, ao: nat, n: nat, y: Limb) returns (h: Limb)
    requires ro + n <= r.Length && ao + n <= a.Length && r != a
    modifies r
    ensures Val(r[ro..ro + n]) + h * Pow(B, n) == old(Val(r[ro..ro + n])) + Val(a[ao..ao + n]) * y
    ensures forall i :: 0 <= i < r.Length && !(ro <= i < ro + n) ==> r[i] == old(r[i])
  {
    hide *;
    BaseFacts();
    h := 0;
    ghost var r0, a0 := r[..], a[..];
    var i := 0;
    ValNil([]);
    assert a0[ao..ao + i] == [] && r[ro..ro + i] == [] && r0[ro..ro + i] == [];
    while i < n
      invariant i <= n
      invariant Val(r[ro..ro + i]) + h * Pow(B, i) == Val(r0[ro..ro + i]) + Val(a0[ao..ao + i]) * y
      invariant forall j :: 0 <= j < r.Length && !(ro <= j < ro + i) ==> r[j] == r0[j]
      invariant a[..] == a0
    {
      ghost var z, h0 := r[ro..ro + i], h;
      assert Pow(B, i + 1) == B * Pow(B, i) by { PowStep(B, i); }
      var lo: Limb;
      lo, h := MulAddWord(a[ao + i], y, h, r[ro + i]);
      r[ro + i] := lo;
      ValGrow(a0, ao, ao + i);
      ValGrow(r0, ro, ro + i);
      assert r[ro..ro + i + 1] == z + [lo];
      ValSnoc(z, lo);
      MulChainStep(Pow(B, i), B, Val(r0[ro..ro + i]), Val(a0[ao..ao + i]), y, Val(z), h0,
        r0[ro + i], a0[ao + i], lo, h);
      i := i + 1;
    }
    assert a0[ao..ao + n] == a[ao..ao + n] && r0[ro..ro + n] == old(r[ro..ro + n]);
  }

  lemma SubMulChainStep(p: int, b: int, r: int, a: int, y: int, z: int, l: int, ri: int, ai: int, lo: int, l': int)
    requires z - l * p == r - a * y
    requires ri - ai * y - l == lo - l' * b
    ensures (z + p * lo) - l' * (b * p) == (r + p * ri) - (a + p * ai) * y
  {
    assert p * (ri - ai * y - l) == p * ri - p * ai * y - l * p;
    assert p * (lo - l' * b) == p * lo - l' * (b * p);
    assert (a + p * ai) * y == a * y + p * ai * y;
  }

  lemma SubMulRange(b: int, r: int, a: int, y: int, l: int)
    requires 0 <= r < b && 0 <= a < b && 0 <= y < b && 0 <= l < b
    ensures -(b * (b - 1)) <= r - a * y - l < b
  {
    MulWordBound(b, a, y);
    MulMono(a, b - 1, y);
    MulMono(y, b - 1, b - 1);
    assert (b - 1) * (b - 1) + (b - 1) == b * (b - 1);
  }

  /** r[ro..ro+n] -= a[ao..ao+n] * y; returns the limb still owed by the next word. */
  method MpSubMul1(r: array<Limb>, ro: nat, a: array<Limb>, ao: nat, n: nat, y: Limb) returns (l: Limb)
    requires ro + n <= r.Length && ao + n <= a.Length && r != a
    modifies r
    ensures Val(r[ro..ro + n]) - l * Pow(B, n) == old(Val(r[ro..ro + n])) - Val(a[ao..ao + n]) * y
    ensures forall i :: 0 <= i < r.Length && !(ro <= i < ro + n) ==> r[i] == old(r[i])
  {
    hide *;
    BaseFacts();
    l := 0;
    ghost var r0, a0 := r[..], a[..];
    var i := 0;
    ValNil([]);
    assert a0[ao..ao + i] == [] && r[ro..ro + i] == [] && r0[ro..ro + i] == [];
    while i < n
      invariant i <= n
      invariant Val(r[ro..ro + i]) - l * Pow(B, i) == Val(r0[ro..ro + i]) - Val(a0[ao..ao + i]) * y
      invariant forall j :: 0 <= j < r.Length && !(ro <= j < ro + i) ==> r[j] == r0[j]
      invariant a[..] == a0
    {
      ghost var z, l0 := r[ro..ro + i], l;
      assert Pow(B, i + 1) == B * Pow(B, i) by { PowStep(B, i); }
      var lo: Limb;
      lo, l := SubMulAddWord(r[ro + i], a[ao + i], y, l);
      r[ro + i] := lo;
      ValGrow(a0, ao, ao + i);
      ValGrow(r0, ro, ro + i);
      assert r[ro..ro + i + 1] == z + [lo];
      ValSnoc(z, lo);
      SubMulChainStep(Pow(B, i), B, Val(r0[ro..ro + i]), Val(a0[ao..ao + i]), y, Val(z), l0,
        r0[ro + i], a0[ao + i], lo, l);
      i := i + 1;
    }
    assert a0[ao..ao + n] == a[ao..ao + n] && r0[ro..ro + n] == old(r[ro..ro + n]);
  }

  /** The double-word wrap-around step of MpSubMul1. */
  method SubMulAddWord(r: Limb, x: Limb, y: Limb, l: Limb) returns (lo: Limb, l': Limb)
    ensures r - x * y - l == lo - l' * B
  {
    SubMulRange(B, r, x, y, l);
    SubMulWord(B, r - x * y - l);
    var t := (r - x * y - l) % (B * B);
    lo := t % B;
    l' := (B - t / B) % B;
  }

  lemma MulRowStep(x: int, y: int, pi: int, pn: int, yi: int, low: int, mid: int, mid': int, h: int)
    requires low + pi * mid == x * y
    requires mid' + h * pn == mid + x * yi
    ensures low + pi * (mid' + pn * h) == x * (y + pi * yi)
  {
    MulDist(pi, mid, x * yi);
    assert pi * (x * yi) == x * (pi * yi);
    MulDist(x, y, pi * yi);
  }

  /** One row of the schoolbook product: r[ro+i..] gains a * b[i]. */
  method MulRow(r: array<Limb>, ro: nat, i: nat, a: array<Limb>, ao: nat, n1: nat, y: Limb, ghost Y: nat)
    requires ro + n1 + i + 1 <= r.Length && ao + n1 <= a.Length && r != a
    requires Val(r[ro..ro + n1 + i]) == Val(a[ao..ao + n1]) * Y
    modifies r
    ensures Val(r[ro..ro + n1 + i + 1]) == Val(a[ao..ao + n1]) * (Y + Pow(B, i) * y)
    ensures forall j :: 0 <= j < r.Length && !(ro <= j < ro + n1 + i + 1) ==> r[j] == old(r[j])
  {
    hide *;
    ghost var s0, A := r[..], Val(a[ao..ao + n1]);
    assert s0[ro..ro + n1 + i] == r[ro..ro + n1 + i];
    ValSplit(s0, ro, ro + i, ro + n1 + i);
    assert s0[ro + i..ro + n1 + i] == r[ro + i..ro + i + n1];
    var h := MpAddMul1(r, ro + i, a, ao, n1, y);
    ghost var mid := r[ro + i..ro + i + n1];
    r[ro + i + n1] := h;
    ghost var s1 := r[..];
    assert s1[ro + i..ro + i + n1] == mid && s1[ro..ro + i] == s0[ro..ro + i];
    MulRowJoin(s0, s1, ro, i, n1, h);
    MulRowStep(A, Y, Pow(B, i), Pow(B, n1), y, Val(s0[ro..ro + i]), Val(s0[ro + i..ro + n1 + i]), Val(mid), h);
    assert s1[ro..ro + n1 + i + 1] == r[ro..ro + n1 + i + 1];
  }

  /** r[ro..ro+n1+n2] := a * b, schoolbook. */
  method MpMulBasecase(r: array<Limb>, ro: nat, a: array<Limb>, ao: nat, n1: nat, b: array<Limb>, bo: nat, n2: nat)
    requires ro + n1 + n2 <= r.Length && ao + n1 <= a.Length && bo + n2 <= b.Length
    requires n2 >= 1 && r != a && r != b
    modifies r
    ensures Val(r[ro..ro + n1 + n2]) == Val(a[ao..ao + n1]) * Val(b[bo..bo + n2])
    ensures forall i :: 0 <= i < r.Length && !(ro <= i < ro + n1 + n2) ==> r[i] == old(r[i])
  {
    hide *;
    BaseFacts();
    var h := MpMul1(r, ro, a, ao, n1, b[bo], 0);
    ghost var low := r[ro..ro + n1];
    r[ro + n1] := h;
    assert r[ro..ro + n1 + 1] == low + [h];
    ValSnoc(low, h);
    ValOne(b[bo]);
    assert b[bo..bo + 1] == [b[bo]];
    var i := 1;
    while i < n2
      invariant 1 <= i <= n2
      invariant Val(r[ro..ro + n1 + i]) == Val(a[ao..ao + n1]) * Val(b[bo..bo + i])
      invariant forall j :: 0 <= j < r.Length && !(ro <= j < ro + n1 + i) ==> r[j] == old(r[j])
    {
      MulRow(r, ro, i, a, ao, n1, b[bo + i], Val(b[bo..bo + i]));
      assert b[bo..bo + i + 1] == b[bo..bo + i] + [b[bo + i]];
      ValSnoc(b[bo..bo + i], b[bo + i]);
      i := i + 1;
    }
  }

  lemma MulRowJoin(s0: seq<Limb>, s: seq<Limb>, ro: nat, i: nat, n1: nat, h: Limb)
    requires |s0| == |s| && ro + i + n1 < |s| && s[ro + i + n1] == h
    requires s[ro..ro + i] == s0[ro..ro + i]
    ensures Val(s[ro..ro + n1 + i + 1])
      == Val(s0[ro..ro + i]) + Pow(B, i) * (Val(s[ro + i..ro + i + n1]) + Pow(B, n1) * h)
  {
    hide *;
    ValSplit(s, ro, ro + i, ro + n1 + i + 1);
    ValGrow(s, ro + i, ro + i + n1);
  }

  /** -1, 0 or 1 as a[ao..ao+n] is below, equal to or above b[bo..bo+n]. */
  method MpCmp(a: array<Limb>, ao: nat, b: array<Limb>, bo: nat, n: nat) returns (c: int)
    requires ao + n <= a.Length && bo + n <= b.Length
    ensures c == -1 || c == 0 || c == 1
    ensures c < 0 <==> Val(a[ao..ao + n]) < Val(b[bo..bo + n])
    ensures c == 0 <==> Val(a[ao..ao + n]) == Val(b[bo..bo + n])
  {
    hide *;
    var i := n;
    while i > 0
      invariant 0 <= i <= n
      invariant a[ao + i..ao + n] == b[bo + i..bo + n]
    {
      i := i - 1;
      if a[ao + i] != b[bo + i] {
        c := if a[ao + i] < b[bo + i] then -1 else 1;
        MpCmpAt(a[ao..ao + n], b[bo..bo + n], i);
        return;
      }
    }
    c := 0;
  }

  lemma CmpStep(p: int, u: int, v: int, x: int, y: int)
    requires 0 <= u < p && 0 <= v < p && x < y
    ensures u + p * x < v + p * y
  {
    MulMono(x + 1, y, p);
  }

  lemma MpCmpAt(s: seq<Limb>, t: seq<Limb>, i: nat)
    requires |s| == |t| && i < |s| && s[i + 1..] == t[i + 1..] && s[i] != t[i]
    ensures Val(s) < Val(t) <==> s[i] < t[i]
    ensures Val(s) != Val(t)
  {
    hide *;
    ValSplit(s, 0, i + 1, |s|);
    ValSplit(t, 0, i + 1, |t|);
    assert s[0..|s|] == s && t[0..|t|] == t;
    ValGrow(s, 0, i);
    ValGrow(t, 0, i);
    ValBound(s[0..i]);
    ValBound(t[0..i]);
    if s[i] < t[i] {
      CmpStep(Pow(B, i), Val(s[0..i]), Val(t[0..i]), s[i], t[i]);
    } else {
      CmpStep(Pow(B, i), Val(t[0..i]), Val(s[0..i]), t[i], s[i]);
    }
  }

  /** Whether some limb of t[o..o+n] is non-zero. */
  method MpScanNz(t: array<Limb>, o: nat, n: nat) returns (nz: bool)
    requires o + n <= t.Length
    ensures nz <==> Val(t[o..o + n]) != 0
  {
    hide *;
    var i := 0;
    while i < n
      invariant i <= n
      invariant forall j :: o <= j < o + i ==> t[j] == 0
    {
      if t[o + i] != 0 {
        nz := true;
        ghost var s := t[o..o + n];
        assert s[i] != 0;
        if Val(s) == 0 {
          ValZeroLimbs(s);
          assert false;
        }
        return;
      }
      i := i + 1;
    }
    nz := false;
    ValZeros(t[o..o + n]);
  }

  lemma ShiftWord(shift: nat, x: Limb)
    requires 1 <= shift < LIMB_BITS
    ensures var S, T := Pow(2, shift), Pow(2, LIMB_BITS - shift);
            S > 0 && T > 0 && S * T == B && (x * T) % B == (x % S) * T && x / S < T && 0 <= x % S <= x && x % S < S
  {
    var S, T := Pow(2, shift), Pow(2, LIMB_BITS - shift);
    PowAdd(2, shift, LIMB_BITS - shift);
    DivModIdentity(x, S);
    MulMono(0, x / S, S);
    ShiftWordArith(S, T, x, x / S, x % S);
  }

  lemma ShiftWordArith(S: int, T: int, x: int, q: int, r: int)
    requires S > 0 && T > 0 && 0 <= x < S * T && x == q * S + r && 0 <= r < S && 0 <= q
    ensures 0 < S * T && (x * T) % (S * T) == r * T && q < T
  {
    ShiftWordPoly(S, T, q, r);
    MulMono(r + 1, S, T);
    MulMono(0, r, T);
    MulDist(T, r, 1);
    DivModIs(x * T, S * T, q, r * T);
    if q >= T {
      MulMono(T, q, S);
      assert false;
    }
  }

  lemma ShiftWordPoly(S: int, T: int, q: int, r: int)
    ensures (q * S + r) * T == q * (S * T) + r * T
  {}

  lemma ShiftLimb(S: int, T: int, b: int, q: int, m: int)
    requires 0 < S && 0 < T && S * T == b && 0 <= q < T && 0 <= m < S
    ensures 0 <= q + m * T < b
  {
    MulMono(m + 1, S, T);
  }

  lemma ShiftChainStep(S: int, T: int, b: int, p: int, v: int, w: int, l: int, hi: int, x: int, q: int, m: int)
    requires S * T == b && v * S + l == w + hi * p && x == q * S + m
    ensures ((q + l * T) + b * v) * S + m == (x + b * w) + hi * (b * p)
  {
    assert (l * T) * S == l * b;
    assert (b * v) * S == b * (v * S);
    MulDist(b, v * S, l);
    MulDist(b, w, hi * p);
    assert b * (hi * p) == hi * (b * p);
    assert ((q + l * T) + b * v) * S == q * S + (l * T) * S + (b * v) * S;
  }

  /** (a >> shift) | (l << (LIMB_BITS - shift)): the two operands have no common bit. */
  method ShrWord(a: Limb, l: Limb, shift: nat) returns (x: Limb)
    requires 1 <= shift < LIMB_BITS
    ensures x == a / Pow(2, shift) + (l % Pow(2, shift)) * Pow(2, LIMB_BITS - shift)
  {
    hide *;
    ShiftWord(shift, a);
    ShiftWord(shift, l);
    var S, T := Pow(2, shift), Pow(2, LIMB_BITS - shift);
    DivModIdentity(a, S);
    ShiftLimb(S, T, B, a / S, l % S);
    x := a / S + (l * T) % B;
  }

  /** t[o..o+n] := (t + high * B^n) >> shift; returns the bits shifted out. Only
      the low `shift` bits of high can reach the result. */
  method MpShr(t: array<Limb>, o: nat, n: nat, shift: nat, high: Limb) returns (rem: Limb)
    requires o + n <= t.Length && 1 <= shift < LIMB_BITS
    modifies t
    ensures rem < Pow(2, shift)
    ensures Val(t[o..o + n]) * Pow(2, shift) + rem == old(Val(t[o..o + n])) + (high % Pow(2, shift)) * Pow(B, n)
    ensures forall i :: 0 <= i < t.Length && !(o <= i < o + n) ==> t[i] == old(t[i])
  {
    hide *;
    var S := Pow(2, shift);
    ghost var T := Pow(2, LIMB_BITS - shift);
    ghost var t0 := t[..];
    ghost var hi := high % S;
    var l := high;
    var i := n;
    ValNil([]);
    assert t0[o + i..o + n] == [] && t[o + i..o + n] == [];
    while i > 0
      invariant 0 <= i <= n
      invariant Val(t[o + i..o + n]) * S + l % S == Val(t0[o + i..o + n]) + hi * Pow(B, n - i)
      invariant forall j :: 0 <= j < t.Length && !(o + i <= j < o + n) ==> t[j] == t0[j]
    {
      i := i - 1;
      ghost var w := t[o + i + 1..o + n];
      var a := t[o + i];
      var x := ShrWord(a, l, shift);
      t[o + i] := x;
      assert t[o + i..o + n] == [x] + w;
      ValCons(x, w);
      assert t0[o + i..o + n] == [a] + t0[o + i + 1..o + n];
      ValCons(a, t0[o + i + 1..o + n]);
      PowStep(B, n - i - 1);
      DivModIdentity(a, S);
      ShiftWord(shift, a);
      ShiftChainStep(S, T, B, Pow(B, n - i - 1), Val(w), Val(t0[o + i + 1..o + n]), l % S, hi, a, a / S, a % S);
      l := a;
    }
    ShiftWord(shift, l);
    rem := l % S;
    assert t0[o..o + n] == old(t[o..o + n]);
  }

  lemma ValCons(x: Limb, s: seq<Limb>)
    ensures Val([x] + s) == x + B * Val(s)
  {
    assert ([x] + s)[1..] == s;
  }
}
