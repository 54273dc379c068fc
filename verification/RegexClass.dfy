/** Character classes: the emitted range instruction accepts exactly the class
    (cpp/src/quickjs/libregexp.c, re_emit_range and the range opcodes). */
module RegexClass {
  import CharRanges
  import opened RegexBytecode
  import opened RegexCode
  import opened RegexVM

  /** A range list as the parser builds it: strictly increasing bounds, an even number of
      them, at most UINT32_MAX, few enough for a 16-bit count. */
  ghost predicate ClassOk(points: seq<nat>)
  {
    && |points| % 2 == 0 && |points| / 2 < 65535
    && CharRanges.Increasing(points) && CharRanges.UpTo(points, CharRanges.UINT32_MAX)
  }

  lemma {:induction false} ClassPairsAt(points: seq<nat>, wide: bool, k: nat)
    requires 2 * k + 1 < |points|
    ensures ClassPairs(points, wide)[k].0 == points[2 * k]
    ensures ClassPairs(points, wide)[k].1 ==
            (if !wide && points[2 * k + 1] == CharRanges.UINT32_MAX then 0xffff
             else if points[2 * k + 1] > 0 then points[2 * k + 1] - 1 else CharRanges.UINT32_MAX)
    decreases k
  {
    if k > 0 {
      ClassPairsAt(points[2..], wide, k - 1);
      assert points[2..][2 * (k - 1)] == points[2 * k] && points[2..][2 * (k - 1) + 1] == points[2 * k + 1];
    }
  }

  /** The bounds fit the fields they are emitted in. */
  lemma ClassEncodable(points: seq<nat>)
    requires ClassOk(points)
    ensures Encodable(ClassInstr(points))
  {
    if |points| >= 2 {
      var wide := ClassHigh(points) > 0xffff;
      var pairs := ClassPairs(points, wide);
      forall k | 0 <= k < |pairs|
        ensures pairs[k].0 < U32 && pairs[k].1 < U32
        ensures !wide ==> pairs[k].0 < U16 && pairs[k].1 < U16
      {
        ClassPairsAt(points, wide, k);
        PointBelowHigh(points, k);
      }
    }
  }

  lemma PointBelowHigh(points: seq<nat>, k: nat)
    requires ClassOk(points) && 2 * k + 1 < |points|
    ensures points[2 * k] <= ClassHigh(points)
    ensures points[2 * k + 1] <= ClassHigh(points)
      || (points[2 * k + 1] == CharRanges.UINT32_MAX && 2 * k + 2 == |points|)
  {
    var n := |points|;
    if 2 * k + 1 < n - 1 {
      assert points[2 * k + 1] < points[n - 1];
      assert 2 * k + 1 < n - 2;
      assert points[2 * k + 1] < points[n - 2];
    }
  }

  /** The emitted instruction accepts c exactly when c is in the class, for every
      character a subject can contain. */
  lemma ClassHit(points: seq<nat>, c: nat)
    requires ClassOk(points) && c < CharRanges.UINT32_MAX
    ensures CharHit(ClassInstr(points), c) <==> CharRanges.Contains(points, c)
  {
    if |points| >= 2 {
      if ClassHigh(points) <= 0xffff {
        NarrowHit(points, c);
      } else {
        WideHit(points, c);
      }
    }
  }

  lemma WideHit(points: seq<nat>, c: nat)
    requires ClassOk(points) && c < CharRanges.UINT32_MAX
    ensures PairsHit(ClassPairs(points, true), true, c) <==> CharRanges.Contains(points, c)
  {
    var pairs := ClassPairs(points, true);
    if CharRanges.Contains(points, c) {
      var k: nat :| CharRanges.Inside(points, c, k);
      ClassPairsAt(points, true, k);
      assert pairs[k].0 <= c <= pairs[k].1;
    }
    if PairsHit(pairs, true, c) {
      var k :| 0 <= k < |pairs| && pairs[k].0 <= c <= pairs[k].1;
      ClassPairsAt(points, true, k);
      assert points[2 * k] < points[2 * k + 1];
      assert CharRanges.Inside(points, c, k);
    }
  }

  lemma NarrowHit(points: seq<nat>, c: nat)
    requires ClassOk(points) && c < CharRanges.UINT32_MAX && |points| >= 2 && ClassHigh(points) <= 0xffff
    ensures PairsHit(ClassPairs(points, false), false, c) <==> CharRanges.Contains(points, c)
  {
    var pairs := ClassPairs(points, false);
    var last := |points| / 2 - 1;
    ClassPairsAt(points, false, last);
    PointBelowHigh(points, last);
    if CharRanges.Contains(points, c) {
      var k: nat :| CharRanges.Inside(points, c, k);
      ClassPairsAt(points, false, k);
      PointBelowHigh(points, k);
      if points[2 * k + 1] == CharRanges.UINT32_MAX {
        assert k == last && pairs[k].1 == 0xffff;
        assert c <= 0xffff ==> pairs[k].0 <= c <= pairs[k].1;
      } else {
        assert pairs[k].0 <= c <= pairs[k].1;
      }
    }
    if exists k :: 0 <= k < |pairs| && pairs[k].0 <= c <= pairs[k].1 {
      var k :| 0 <= k < |pairs| && pairs[k].0 <= c <= pairs[k].1;
      ClassPairsAt(points, false, k);
      PointBelowHigh(points, k);
      assert points[2 * k] < points[2 * k + 1];
      assert CharRanges.Inside(points, c, k);
    } else if PairsHit(pairs, false, c) {
      assert points[2 * last + 1] == CharRanges.UINT32_MAX;
      assert CharRanges.Inside(points, c, last);
    }
  }

  /** Ranges in increasing order without overlap. */
  ghost predicate PairsSorted(pairs: seq<(nat, nat)>)
  {
    && (forall i :: 0 <= i < |pairs| ==> pairs[i].0 <= pairs[i].1)
    && (forall i, j :: 0 <= i < j < |pairs| ==> pairs[i].1 < pairs[j].0)
  }

  /** The VM's test of a range instruction: end checks, then a binary search on unsigned
      indices, which never goes below zero because c is at least the first bound. */
  method RangeMatch(pairs: seq<(nat, nat)>, wide: bool, c: nat) returns (hit: bool)
    requires |pairs| >= 1 && PairsSorted(pairs)
    ensures hit <==> PairsHit(pairs, wide, c)
  {
    var idxMin := 0;
    if c < pairs[0].0 {
      hit := false;
      return;
    }
    var idxMax: nat := |pairs| - 1;
    var high := pairs[idxMax].1;
    if !wide && c >= 0xffff && high == 0xffff {
      hit := true;
      return;
    }
    if c > high {
      hit := false;
      return;
    }
    while idxMin <= idxMax
      invariant 0 <= idxMin <= idxMax + 1 <= |pairs|
      invariant forall k :: 0 <= k < idxMin ==> pairs[k].1 < c
      invariant forall k :: idxMax < k < |pairs| ==> c < pairs[k].0
      decreases idxMax + 1 - idxMin
    {
      var idx: nat := (idxMin + idxMax) / 2;
      if c < pairs[idx].0 {
        assert idx > 0;
        idxMax := idx - 1;
      } else if c > pairs[idx].1 {
        idxMin := idx + 1;
      } else {
        hit := true;
        return;
      }
    }
    hit := false;
  }

  /** What the emitter writes is sorted, so the search applies to it. */
  lemma ClassPairsSorted(points: seq<nat>, wide: bool)
    requires ClassOk(points) && (!wide ==> |points| >= 2 && ClassHigh(points) <= 0xffff)
    ensures PairsSorted(ClassPairs(points, wide))
  {
    var pairs := ClassPairs(points, wide);
    forall i | 0 <= i < |pairs|
      ensures pairs[i].0 <= pairs[i].1
    {
      ClassPairsAt(points, wide, i);
      assert points[2 * i] < points[2 * i + 1];
      if !wide {
        PointBelowHigh(points, i);
      }
    }
    forall i, j | 0 <= i < j < |pairs|
      ensures pairs[i].1 < pairs[j].0
    {
      ClassPairsAt(points, wide, i);
      ClassPairsAt(points, wide, j);
      assert points[2 * i + 1] < points[2 * j];
    }
  }

  /** The machine on the emitted instruction: the search decides membership in the class. */
  method ClassMatch(points: seq<nat>, c: nat) returns (hit: bool)
    requires ClassOk(points) && c < CharRanges.UINT32_MAX
    ensures hit <==> CharRanges.Contains(points, c)
  {
    hide CharRanges.Contains, ClassPairs, ClassHigh, PairsSorted, PairsHit;
    ClassHit(points, c);
    if |points| < 2 {
      hit := c == CharRanges.UINT32_MAX;
    } else {
      var wide := ClassHigh(points) > 0xffff;
      ClassPairsSorted(points, wide);
      hit := RangeMatch(ClassPairs(points, wide), wide, c);
    }
  }
}
