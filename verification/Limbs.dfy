/** Machine limbs and little-endian limb sequences (cpp/src/quickjs/libbf.h).
    The limb width is one of the two the library is built for; every result
    below holds for both. */
module Limbs {
  import opened Powers

  type LimbWidth = w: nat | w == 32 || w == 64 witness 64

  const LIMB_BITS: LimbWidth

  const B: nat := Pow(2, LIMB_BITS)

  /** Half of the limb base: the smallest normalised leading limb. */
  const HALF: nat := Pow(2, LIMB_BITS - 1)

  type Limb = x: nat | x < B witness 0

  lemma BaseFacts()
    ensures B == 2 * HALF && HALF >= 4 && B >= 8
    ensures B == Pow(2, LIMB_BITS)
  {
    PowMono(2, 2, LIMB_BITS - 1);
    assert Pow(2, 2) == 4;
  }

  /** The number a limb sequence denotes, least significant limb first. */
  function Val(s: seq<Limb>): nat
  {
    if |s| == 0 then 0 else s[0] + B * Val(s[1..])
  }

  /** Wrap-around machine arithmetic on limbs. */
  function AddW(x: Limb, y: Limb): (r: Limb)
    ensures r == (if x + y < B then x + y else x + y - B)
  {
    if x + y < B then x + y else x + y - B
  }

  function SubW(x: Limb, y: Limb): (r: Limb)
    ensures r == (if x >= y then x - y else x - y + B)
  {
    if x >= y then x - y else x - y + B
  }

  lemma ValConcatStep(b: int, x: int, v: int, p: int, w: int)
    ensures x + b * (v + p * w) == x + b * v + (b * p) * w
  {}

  lemma {:induction false} ValConcat(s: seq<Limb>, t: seq<Limb>)
    ensures Val(s + t) == Val(s) + Pow(B, |s|) * Val(t)
  {
    if |s| == 0 {
      assert s + t == t;
    } else {
      ValConcat(s[1..], t);
      assert (s + t)[1..] == s[1..] + t;
      ValConcatStep(B, s[0], Val(s[1..]), Pow(B, |s| - 1), Val(t));
    }
  }

  lemma ValNil(s: seq<Limb>)
    requires |s| == 0
    ensures Val(s) == 0 && Pow(B, 0) == 1
  {}

  lemma ValOne(x: Limb)
    ensures Val([x]) == x
  {
    assert [x][1..] == [];
    assert B * 0 == 0;
  }

  lemma ValSnoc(s: seq<Limb>, x: Limb)
    ensures Val(s + [x]) == Val(s) + Pow(B, |s|) * x
  {
    ValConcat(s, [x]);
    ValOne(x);
  }

  /** Splitting a slice at k. */
  lemma ValSplit(s: seq<Limb>, lo: nat, k: nat, hi: nat)
    requires lo <= k <= hi <= |s|
    ensures Val(s[lo..hi]) == Val(s[lo..k]) + Pow(B, k - lo) * Val(s[k..hi])
  {
    assert s[lo..hi] == s[lo..k] + s[k..hi];
    ValConcat(s[lo..k], s[k..hi]);
  }

  /** Growing a slice by one limb. */
  lemma ValGrow(s: seq<Limb>, lo: nat, k: nat)
    requires lo <= k < |s|
    ensures Val(s[lo..k + 1]) == Val(s[lo..k]) + Pow(B, k - lo) * s[k]
  {
    assert s[lo..k + 1] == s[lo..k] + [s[k]];
    ValSnoc(s[lo..k], s[k]);
  }

  lemma BoundStep(b: int, x: int, v: int, p: int)
    requires 0 <= x < b && v + 1 <= p
    ensures x + b * v < b * p
  {
    MulMono(v + 1, p, b);
  }

  lemma {:induction false} ValBound(s: seq<Limb>)
    ensures Val(s) < Pow(B, |s|)
  {
    if |s| > 0 {
      ValBound(s[1..]);
      BoundStep(B, s[0], Val(s[1..]), Pow(B, |s| - 1));
    }
  }

  /** Equal values on equally many limbs means equal limbs. */
  lemma {:induction false} ValInjective(s: seq<Limb>, t: seq<Limb>)
    requires |s| == |t| && Val(s) == Val(t)
    ensures s == t
  {
    if |s| > 0 {
      DivModUnique(B, Val(s[1..]), s[0], Val(t[1..]), t[0]);
      ValInjective(s[1..], t[1..]);
      assert s == [s[0]] + s[1..] && t == [t[0]] + t[1..];
    }
  }

  lemma {:induction false} ValZeros(s: seq<Limb>)
    requires forall i :: 0 <= i < |s| ==> s[i] == 0
    ensures Val(s) == 0
  {
    if |s| > 0 {
      ValZeros(s[1..]);
      assert B * 0 == 0;
    }
  }

  lemma {:induction false} ValZeroLimbs(s: seq<Limb>)
    requires Val(s) == 0
    ensures forall i :: 0 <= i < |s| ==> s[i] == 0
  {
    if |s| > 0 {
      if Val(s[1..]) > 0 {
        MulMono(1, Val(s[1..]), B);
        assert false;
      }
      ValZeroLimbs(s[1..]);
      assert s == [s[0]] + s[1..];
    }
  }
}
