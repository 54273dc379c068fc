/** Sets of characters as sorted lists of interval bounds (cpp/src/quickjs/libunicode.c,
    cr_compress, cr_op, cr_union1, cr_invert; libunicode.h, CharRange): the operations
    denote the set operations, and equal sets have equal lists. */
module CharRanges {

  const UINT32_MAX: nat := 0xffff_ffff

  // ---- denotation ----

  predicate NonDecreasing(s: seq<nat>)
  {
    forall i, j :: 0 <= i <= j < |s| ==> s[i] <= s[j]
  }

  predicate Increasing(s: seq<nat>)
  {
    forall i, j :: 0 <= i < j < |s| ==> s[i] < s[j]
  }

  /** c lies in one of the half-open intervals. */
  ghost predicate Contains(s: seq<nat>, c: nat)
  {
    exists i: nat :: Inside(s, c, i)
  }

  predicate Inside(s: seq<nat>, c: nat, i: nat)
  {
    2 * i + 1 < |s| && s[2 * i] <= c < s[2 * i + 1]
  }

  /** The number of bounds up to c; its parity says on which side of a bound c lies. */
  ghost function Below(s: seq<nat>, c: nat): (n: nat)
    ensures n <= |s|
  {
    if s == [] then 0 else Below(s[..|s| - 1], c) + (if s[|s| - 1] <= c then 1 else 0)
  }

  lemma BelowSnoc(s: seq<nat>, x: nat, c: nat)
    ensures Below(s + [x], c) == Below(s, c) + (if x <= c then 1 else 0)
  {
    assert (s + [x])[..|s|] == s;
  }

  lemma {:induction false} BelowAll(s: seq<nat>, c: nat)
    requires forall i :: 0 <= i < |s| ==> s[i] <= c
    ensures Below(s, c) == |s|
  {
    if s != [] {
      BelowAll(s[..|s| - 1], c);
    }
  }

  lemma InsideSnoc(s: seq<nat>, x: nat, y: nat, c: nat)
    requires |s| % 2 == 0
    ensures Contains(s + [x] + [y], c) <==> Contains(s, c) || x <= c < y
  {
    var t := s + [x] + [y];
    if Contains(s, c) {
      var i: nat :| Inside(s, c, i);
      assert Inside(t, c, i);
    }
    if x <= c < y {
      assert Inside(t, c, |s| / 2);
    }
    if Contains(t, c) {
      var i: nat :| Inside(t, c, i);
      assert 2 * i < |s| ==> Inside(s, c, i);
    }
  }

  lemma NoneBelow(s: seq<nat>, c: nat)
    requires s == []
    ensures Below(s, c) == 0 && !Contains(s, c)
  {}

  /** In a sorted list the parity of the bounds up to c decides. */
  lemma {:induction false} ContainsParity(s: seq<nat>, c: nat)
    requires NonDecreasing(s) && |s| % 2 == 0
    ensures Contains(s, c) <==> Below(s, c) % 2 == 1
    decreases |s|
  {
    hide Below, Contains;
    if s == [] {
      NoneBelow(s, c);
    } else {
      var n := |s| - 2;
      var r, x, y := s[..n], s[n], s[n + 1];
      assert s == r + [x] + [y];
      ContainsParity(r, c);
      InsideSnoc(r, x, y, c);
      BelowSnoc(r, x, c);
      BelowSnoc(r + [x], y, c);
      if x <= c {
        BelowAll(r, c);
      }
    }
  }

  // ---- equal sets, equal lists ----

  lemma InsideCons(s: seq<nat>, c: nat)
    requires |s| >= 2
    ensures Contains(s, c) <==> Contains(s[2..], c) || s[0] <= c < s[1]
  {
    if Contains(s, c) {
      var i: nat :| Inside(s, c, i);
      assert i > 0 ==> Inside(s[2..], c, i - 1);
    }
    if Contains(s[2..], c) {
      var i: nat :| Inside(s[2..], c, i);
      assert Inside(s, c, i + 1);
    }
    if s[0] <= c < s[1] {
      assert Inside(s, c, 0);
    }
  }

  lemma NotBefore(s: seq<nat>, c: nat)
    requires forall i :: 0 <= i < |s| ==> c < s[i]
    ensures !Contains(s, c)
  {
    forall i: nat
      ensures !Inside(s, c, i)
    {
    }
  }

  lemma FirstBounds(s: seq<nat>, t: seq<nat>)
    requires Increasing(s) && Increasing(t) && |s| >= 2 && |t| >= 2 && forall c: nat :: Contains(s, c) <==>
      Contains(t, c)
    ensures s[0] >= t[0] && (s[0] == t[0] ==> s[1] >= t[1])
  {
    InsideCons(s, s[0]);
    InsideCons(t, s[1]);
    InsideCons(s, s[1]);
    NotBefore(s[2..], s[1]);
    assert Contains(t, s[0]) && !Contains(s, s[1]);
  }

  /** Strictly increasing lists are a canonical form. */
  lemma {:induction false} ListsUnique(s: seq<nat>, t: seq<nat>)
    requires Increasing(s) && Increasing(t) && |s| % 2 == 0 && |t| % 2 == 0
    requires forall c: nat :: Contains(s, c) <==> Contains(t, c)
    ensures s == t
    decreases |s|
  {
    if s == [] {
      if t != [] {
        InsideCons(t, t[0]);
        NotBefore(s, t[0]);
        assert false;
      }
    } else if t == [] {
      InsideCons(s, s[0]);
      NotBefore(t, s[0]);
      assert false;
    } else {
      FirstBounds(s, t);
      FirstBounds(t, s);
      forall c: nat
        ensures Contains(s[2..], c) <==> Contains(t[2..], c)
      {
        TailContains(s, c);
        TailContains(t, c);
      }
      ListsUnique(s[2..], t[2..]);
      assert s == s[..2] + s[2..] && t == t[..2] + t[2..];
    }
  }

  lemma TailContains(s: seq<nat>, c: nat)
    requires Increasing(s) && |s| >= 2
    ensures Contains(s[2..], c) <==> Contains(s, c) && !(s[0] <= c < s[1])
  {
    InsideCons(s, c);
    if c < s[1] {
      NotBefore(s[2..], c);
    }
  }

  // ---- the operations ----

  datatype RangeOp = Union | Inter | Xor

  predicate Apply(op: RangeOp, a: bool, b: bool)
  {
    match op
    case Union => a || b
    case Inter => a && b
    case Xor => a != b
  }

  /** r and s have the same parity up to every c. */
  ghost predicate SameSides(r: seq<nat>, s: seq<nat>)
  {
    forall c: nat :: Below(r, c) % 2 == Below(s, c) % 2
  }

  ghost predicate Merged(op: RangeOp, r: seq<nat>, a: seq<nat>, b: seq<nat>)
  {
    forall c: nat :: (Below(r, c) % 2 == 1) == Apply(op, Below(a, c) % 2 == 1, Below(b, c) % 2 == 1)
  }

  /** Nothing so far exceeds v. */
  predicate UpTo(s: seq<nat>, v: nat)
  {
    forall i :: 0 <= i < |s| ==> s[i] <= v
  }

  lemma {:induction false} BelowGrow(s: seq<nat>, t: seq<nat>, v: nat, c: nat)
    requires (t == s || t == s + [v]) && UpTo(t, v)
    ensures c < v ==> Below(t, c) == Below(s, c)
    ensures c >= v ==> Below(t, c) == |t|
  {
    if t != s {
      BelowSnoc(s, v, c);
    }
    if c >= v {
      BelowAll(t, c);
    }
  }

  /** One more bound v: below it nothing changes, from it on the lengths decide. */
  lemma MergeStep(op: RangeOp, r: seq<nat>, a: seq<nat>, b: seq<nat>, r': seq<nat>, a': seq<nat>, b': seq<nat>, v: nat)
    requires Merged(op, r, a, b) && UpTo(r', v) && UpTo(a', v) && UpTo(b', v)
    requires (r' == r || r' == r + [v]) && (a' == a || a' == a + [v]) && (b' == b || b' == b + [v])
    requires (|r'| % 2 == 1) == Apply(op, |a'| % 2 == 1, |b'| % 2 == 1)
    ensures Merged(op, r', a', b')
  {
    forall c: nat
      ensures (Below(r', c) % 2 == 1) == Apply(op, Below(a', c) % 2 == 1, Below(b', c) % 2 == 1)
    {
      BelowGrow(r, r', v, c);
      BelowGrow(a, a', v, c);
      BelowGrow(b, b', v, c);
    }
  }

  lemma UpToSnoc(s: seq<nat>, v: nat)
    requires NonDecreasing(s) && UpTo(s, v)
    ensures NonDecreasing(s + [v]) && UpTo(s + [v], v)
  {}

  /** The merged list as a set. */
  lemma MergedContains(op: RangeOp, r: seq<nat>, a: seq<nat>, b: seq<nat>, c: nat)
    requires Merged(op, r, a, b) && NonDecreasing(r) && NonDecreasing(a) && NonDecreasing(b)
    requires |r| % 2 == |a| % 2 == |b| % 2 == 0
    ensures Contains(r, c) <==> Apply(op, Contains(a, c), Contains(b, c))
  {
    ContainsParity(r, c);
    ContainsParity(a, c);
    ContainsParity(b, c);
  }

  lemma SameContains(r: seq<nat>, s: seq<nat>, c: nat)
    requires SameSides(r, s) && NonDecreasing(r) && NonDecreasing(s) && |r| % 2 == |s| % 2 == 0
    ensures Contains(r, c) <==> Contains(s, c)
  {
    ContainsParity(r, c);
    ContainsParity(s, c);
  }

  lemma ApplyIs(op: RangeOp, r: seq<nat>, a: seq<nat>, b: seq<nat>)
    requires forall c: nat :: Contains(r, c) <==> Apply(op, Contains(a, c), Contains(b, c))
    ensures op == Union ==> forall c: nat :: Contains(r, c) <==> Contains(a, c) || Contains(b, c)
    ensures op == Inter ==> forall c: nat :: Contains(r, c) <==> Contains(a, c) && Contains(b, c)
    ensures op == Xor ==> forall c: nat :: Contains(r, c) <==> Contains(a, c) != Contains(b, c)
  {
    hide Contains;
  }

  // ---- compressing ----

  lemma SameSkip(r: seq<nat>, s: seq<nat>, x: nat)
    requires SameSides(r, s)
    ensures SameSides(r, s + [x] + [x])
  {
    hide Below;
    forall c: nat
      ensures Below(r, c) % 2 == Below(s + [x] + [x], c) % 2
    {
      BelowTwice(s, x, c);
      assert Below(r, c) % 2 == Below(s, c) % 2;
    }
  }

  lemma BelowTwice(s: seq<nat>, x: nat, c: nat)
    ensures Below(s + [x] + [x], c) % 2 == Below(s, c) % 2
  {
    hide Below;
    BelowSnoc(s, x, c);
    BelowSnoc(s + [x], x, c);
  }

  lemma SameSnoc(r: seq<nat>, s: seq<nat>, x: nat)
    requires SameSides(r, s)
    ensures SameSides(r + [x], s + [x])
  {
    forall c: nat
      ensures Below(r + [x], c) % 2 == Below(s + [x], c) % 2
    {
      BelowSnoc(r, x, c);
      BelowSnoc(s, x, c);
    }
  }

  /** Bounds that cancel each other. */
  lemma PairNext(s: seq<nat>, j: nat)
    requires j + 1 < |s|
    ensures s[..j + 1] == s[..j] + [s[j]] && s[..j + 2] == s[..j] + [s[j]] + [s[j + 1]]
  {}

  class CharRange {
    var points: seq<nat>

    constructor ()
      ensures points == []
    {
      points := [];
    }

    method AddPoint(v: nat)
      modifies this
      ensures points == old(points) + [v]
    {
      points := points + [v];
    }

    method AddInterval(c1: nat, c2: nat)
      modifies this
      ensures points == old(points) + [c1, c2]
    {
      points := points + [c1, c2];
    }

    /** cr_compress: drops empty intervals and joins neighbours, in place. */
    method Compress()
      requires NonDecreasing(points) && |points| % 2 == 0
      modifies this
      ensures Increasing(points) && |points| % 2 == 0 && SameSides(points, old(points))
      ensures forall c: nat :: Contains(points, c) <==> Contains(old(points), c)
      ensures forall v: nat :: UpTo(old(points), v) ==> UpTo(points, v)
    {
      hide *;
      ghost var s := points;
      var pt := points;
      var len := |pt|;
      var i, k := 0, 0;
      CompressStart(s);
      while i + 1 < len
        invariant 0 <= k <= i <= len == |pt| == |s| && i % 2 == 0 && k % 2 == 0 && Joined(pt, s, i, k)
        decreases len - i
      {
        JoinedParts(pt, s, i, k);
        if pt[i] == pt[i + 1] {
          JoinedSkip(pt, s, i, k);
          i := i + 2;
        } else {
          var j := JoinEnd(pt, i, s, pt[..k]);
          ghost var p := pt;
          pt := pt[k := pt[i]];
          pt := pt[k + 1 := pt[j + 1]];
          JoinedStep(p, pt, s, i, j, k);
          k := k + 2;
          i := j + 2;
        }
      }
      points := pt[..k];
      JoinedAll(pt, s, i, k);
    }

    /** cr_op on a list that is still empty. */
    method Op(a: seq<nat>, b: seq<nat>, op: RangeOp)
      requires points == [] && NonDecreasing(a) && NonDecreasing(b) && |a| % 2 == 0 && |b| % 2 == 0
      modifies this
      ensures Increasing(points) && |points| % 2 == 0
      ensures op == Union ==> forall c: nat :: Contains(points, c) <==> Contains(a, c) || Contains(b, c)
      ensures op == Inter ==> forall c: nat :: Contains(points, c) <==> Contains(a, c) && Contains(b, c)
      ensures op == Xor ==> forall c: nat :: Contains(points, c) <==> Contains(a, c) != Contains(b, c)
      ensures forall v: nat :: UpTo(a, v) && UpTo(b, v) ==> UpTo(points, v)
    {
      hide *;
      var ai, bi := 0, 0;
      MergeStart(op, a, b);
      while ai < |a| || bi < |b|
        invariant 0 <= ai <= |a| && 0 <= bi <= |b| && Merging(op, points, a, b, ai, bi)
        decreases |a| - ai + |b| - bi
      {
        ghost var ai0, bi0, r := ai, bi, points;
        var v;
        if ai < |a| && (bi >= |b| || a[ai] < b[bi]) {
          v := a[ai];
          ai := ai + 1;
        } else if ai < |a| && a[ai] == b[bi] {
          v := a[ai];
          SortedAt(a, ai, ai + 1);
          SortedAt(b, bi, bi + 1);
          ai, bi := ai + 1, bi + 1;
        } else {
          v := b[bi];
          bi := bi + 1;
        }
        var isIn := IsIn(op, ai, bi);
        if isIn != (|points| % 2 == 1) {
          AddPoint(v);
        }
        OpStep(op, r, points, a, b, ai0, bi0, ai, bi, v, isIn);
      }
      ghost var r := points;
      MergedAll(op, r, a, b);
      Compress();
      ApplyIs(op, points, a, b);
    }

    /** cr_union1. */
    method Union1(b: seq<nat>)
      requires NonDecreasing(points) && NonDecreasing(b) && |points| % 2 == 0 && |b| % 2 == 0
      modifies this
      ensures Increasing(points) && |points| % 2 == 0
      ensures forall c: nat :: Contains(points, c) <==> Contains(old(points), c) || Contains(b, c)
    {
      var a := points;
      points := [];
      Op(a, b, Union);
    }

    /** cr_union_interval: the characters from c1 to c2. */
    method UnionInterval(c1: nat, c2: nat)
      requires NonDecreasing(points) && |points| % 2 == 0 && c1 <= c2 < UINT32_MAX
      modifies this
      ensures Increasing(points) && |points| % 2 == 0
      ensures forall c: nat :: Contains(points, c) <==> Contains(old(points), c) || c1 <= c <= c2
    {
      var b := [c1, c2 + 1];
      forall c: nat
        ensures Contains(b, c) <==> c1 <= c <= c2
      {
        InsideCons(b, c);
        NotBefore(b[2..], c);
      }
      Union1(b);
    }

    /** cr_invert: complement in [0, UINT32_MAX). */
    method Invert()
      requires NonDecreasing(points) && |points| % 2 == 0 && UpTo(points, UINT32_MAX)
      modifies this
      ensures Increasing(points) && |points| % 2 == 0 && UpTo(points, UINT32_MAX)
      ensures forall c: nat :: Contains(points, c) <==> c < UINT32_MAX && !Contains(old(points), c)
    {
      ghost var s := points;
      points := [0] + points + [UINT32_MAX];
      ghost var t := points;
      forall c: nat
        ensures Contains(t, c) <==> c < UINT32_MAX && !Contains(s, c)
      {
        InvertedContains(s, c);
      }
      Compress();
    }
  }

  lemma TailAt(p: seq<nat>, s: seq<nat>, i: nat)
    requires i <= |p| == |s| && p[i..] == s[i..]
    ensures forall j :: i <= j < |s| ==> p[j] == s[j]
  {
    forall j | i <= j < |s|
      ensures p[j] == s[j]
    {
      assert p[j] == p[i..][j - i] && s[j] == s[i..][j - i];
    }
  }

  /** The first i bounds are joined into the first k, the others untouched. */
  ghost predicate Joined(p: seq<nat>, s: seq<nat>, i: nat, k: nat)
  {
    && k <= i <= |p| == |s| && NonDecreasing(s) && p[i..] == s[i..]
    && SameSides(p[..k], s[..i]) && Increasing(p[..k]) && (k > 0 && i < |s| ==> p[k - 1] < s[i])
    && (forall v: nat :: UpTo(s, v) ==> UpTo(p[..k], v))
  }

  lemma CompressStart(s: seq<nat>)
    requires NonDecreasing(s)
    ensures Joined(s, s, 0, 0)
  {
    hide NonDecreasing;
    assert s[..0] == [];
  }

  lemma JoinedParts(p: seq<nat>, s: seq<nat>, i: nat, k: nat)
    requires Joined(p, s, i, k)
    ensures |p| == |s| && k <= i <= |s| && NonDecreasing(s) && SameSides(p[..k], s[..i])
      && forall j :: i <= j < |s| ==> p[j] == s[j]
  {
    hide NonDecreasing, SameSides;
    TailAt(p, s, i);
  }

  lemma JoinedSkip(p: seq<nat>, s: seq<nat>, i: nat, k: nat)
    requires Joined(p, s, i, k) && i + 1 < |s| && s[i] == s[i + 1]
    ensures Joined(p, s, i + 2, k)
  {
    hide NonDecreasing, SameSides;
    TailAt(p, s, i);
    PairNext(s, i);
    SameSkip(p[..k], s[..i], s[i]);
    SortedAt(s, i, i + 2);
    assert p[i + 2..] == s[i + 2..];
  }

  /** Where the run of adjoining intervals that starts at i ends. */
  method JoinEnd(pt: seq<nat>, i: nat, ghost s: seq<nat>, ghost q: seq<nat>) returns (j: nat)
    requires i + 1 < |pt| == |s| && i % 2 == |s| % 2 == 0 && NonDecreasing(s) && SameSides(q, s[..i])
      && s[i] != s[i + 1]
    requires forall j :: i <= j < |s| ==> pt[j] == s[j]
    ensures i <= j && j + 1 < |s| && j % 2 == 0 && SameSides(q + [s[i]] + [s[j + 1]], s[..j + 2])
    ensures s[i] < s[j + 1] && (j + 2 < |s| ==> s[j + 1] < s[j + 2])
  {
    hide *;
    j := i;
    PairNext(s, i);
    SameSnoc(q, s[..i], s[i]);
    SortedAt(s, i, i + 1);
    while j + 3 < |pt| && pt[j + 1] == pt[j + 2]
      invariant i <= j && j + 1 < |s| && j % 2 == 0
      invariant SameSides(q + [s[i]], s[..j + 1]) && s[i] < s[j + 1]
      decreases |s| - j
    {
      PairNext(s, j + 1);
      SameSkip(q + [s[i]], s[..j + 1], s[j + 1]);
      SortedAt(s, j + 1, j + 3);
      j := j + 2;
    }
    PairNext(s, j);
    SameSnoc(q + [s[i]], s[..j + 1], s[j + 1]);
    SortedAt(s, j + 1, j + 2);
  }

  lemma JoinedStep(p: seq<nat>, t: seq<nat>, s: seq<nat>, i: nat, j: nat, k: nat)
    requires Joined(p, s, i, k) && i <= j && j + 1 < |s| && t == p[k := s[i]][k + 1 := s[j + 1]]
    requires SameSides(p[..k] + [s[i]] + [s[j + 1]], s[..j + 2]) && s[i] < s[j + 1]
      && (j + 2 < |s| ==> s[j + 1] < s[j + 2])
    ensures Joined(t, s, j + 2, k + 2)
  {
    hide NonDecreasing, SameSides, Increasing;
    CompressStep(p, t, s, i, j, k);
  }

  lemma SortedAt(s: seq<nat>, i: nat, j: nat)
    requires NonDecreasing(s) && i <= j
    ensures j < |s| ==> s[i] <= s[j]
  {}

  /** A joined interval goes behind the others. */
  lemma CompressStep(p: seq<nat>, t: seq<nat>, s: seq<nat>, i: nat, j: nat, k: nat)
    requires k <= i <= j && j + 1 < |s| == |p| && p[i..] == s[i..] && t == p[k := s[i]][k + 1 := s[j + 1]]
    requires s[i] < s[j + 1] && Increasing(p[..k]) && (k > 0 ==> p[k - 1] < s[i])
    ensures t[j + 2..] == s[j + 2..] && t[..k + 2] == p[..k] + [s[i]] + [s[j + 1]] && Increasing(t[..k + 2])
    ensures forall v: nat :: UpTo(s, v) && UpTo(p[..k], v) ==> UpTo(t[..k + 2], v)
  {
    TailAt(p, s, i);
    var q := p[..k];
    assert k > 0 ==> p[k - 1] == q[k - 1];
    assert t[..k + 2] == q + [s[i]] + [s[j + 1]];
    IncreasingSnoc(q, s[i]);
    IncreasingSnoc(q + [s[i]], s[j + 1]);
  }

  lemma IncreasingSnoc(q: seq<nat>, x: nat)
    requires Increasing(q) && (q != [] ==> q[|q| - 1] < x)
    ensures Increasing(q + [x])
  {}

  lemma JoinedAll(p: seq<nat>, s: seq<nat>, i: nat, k: nat)
    requires Joined(p, s, i, k) && i % 2 == k % 2 == |s| % 2 == 0 && i + 1 >= |s|
    ensures Increasing(p[..k]) && SameSides(p[..k], s) && (forall v: nat :: UpTo(s, v) ==> UpTo(p[..k], v))
    ensures forall c: nat :: Contains(p[..k], c) <==> Contains(s, c)
  {
    hide SameSides, Contains, NonDecreasing, Increasing;
    assert s[..i] == s;
    Compressed(p[..k], s);
  }

  lemma Compressed(r: seq<nat>, s: seq<nat>)
    requires SameSides(r, s) && Increasing(r) && NonDecreasing(s) && |r| % 2 == |s| % 2 == 0
    ensures forall c: nat :: Contains(r, c) <==> Contains(s, c)
  {
    assert NonDecreasing(r);
    hide SameSides, Contains, NonDecreasing, Increasing;
    forall c: nat
      ensures Contains(r, c) <==> Contains(s, c)
    {
      SameContains(r, s, c);
    }
  }

  // ---- merging ----

  /** The in/out status after ai bounds of one list and bi of the other. */
  function IsIn(op: RangeOp, ai: nat, bi: nat): (r: bool)
  {
    match op
    case Union => ai % 2 == 1 || bi % 2 == 1
    case Inter => ai % 2 == 1 && bi % 2 == 1
    case Xor => (ai % 2 == 1) != (bi % 2 == 1)
  }

  /** Everything merged so far is no larger than what comes next. */
  ghost predicate Merging(op: RangeOp, r: seq<nat>, a: seq<nat>, b: seq<nat>, ai: nat, bi: nat)
  {
    && ai <= |a| && bi <= |b| && NonDecreasing(a) && NonDecreasing(b) && NonDecreasing(r)
    && Merged(op, r, a[..ai], b[..bi]) && (|r| % 2 == 1) == IsIn(op, ai, bi)
    && (r != [] && ai < |a| ==> r[|r| - 1] <= a[ai]) && (r != [] && bi < |b| ==> r[|r| - 1] <= b[bi])
    && (ai > 0 && bi < |b| ==> a[ai - 1] <= b[bi]) && (bi > 0 && ai < |a| ==> b[bi - 1] <= a[ai])
    && (forall v: nat :: UpTo(a, v) && UpTo(b, v) ==> UpTo(r, v))
  }

  lemma MergeStart(op: RangeOp, a: seq<nat>, b: seq<nat>)
    requires NonDecreasing(a) && NonDecreasing(b)
    ensures Merging(op, [], a, b, 0, 0)
  {
    assert a[..0] == [] && b[..0] == [];
  }

  lemma PrefixStep(s: seq<nat>, i: nat, i': nat, v: nat)
    requires NonDecreasing(s) && i <= i' <= i + 1 && i' <= |s| && (i' == i + 1 ==> v == s[i])
      && (0 < i == i' ==> s[i - 1] <= v)
    ensures UpTo(s[..i'], v) && (s[..i'] == s[..i] || s[..i'] == s[..i] + [v])
  {
    if i' == i + 1 {
      assert s[..i'] == s[..i] + [v];
    }
  }

  /** One turn of the merge loop. */
  lemma OpStep(op: RangeOp, r: seq<nat>, r': seq<nat>, a: seq<nat>, b: seq<nat>, ai: nat, bi: nat, ai': nat,
      bi': nat, v: nat, isIn: bool)
    requires Merging(op, r, a, b, ai, bi) && ai <= ai' <= ai + 1 && bi <= bi' <= bi + 1 && ai' <= |a| && bi' <= |b|
      && ai + bi < ai' + bi'
    requires (ai' == ai + 1 ==> v == a[ai] && (bi' < |b| ==> v <= b[bi']))
      && (bi' == bi + 1 ==> v == b[bi] && (ai' < |a| ==> v <= a[ai']))
    requires isIn == IsIn(op, ai', bi') && r' == (if isIn != (|r| % 2 == 1) then r + [v] else r)
    ensures Merging(op, r', a, b, ai', bi')
  {
    assert r != [] ==> r[|r| - 1] <= v;
    assert UpTo(r, v);
    UpToSnoc(r, v);
    PrefixStep(a, ai, ai', v);
    PrefixStep(b, bi, bi', v);
    StepStatus(op, r, r', ai', bi', isIn, v);
    MergeStep(op, r, a[..ai], b[..bi], r', a[..ai'], b[..bi'], v);
    BoundKept(a, b, r, r', v);
    SortedAt(a, ai, ai');
    SortedAt(b, bi, bi');
    hide Merged, NonDecreasing, IsIn, UpTo;
  }

  lemma StepStatus(op: RangeOp, r: seq<nat>, r': seq<nat>, ai: nat, bi: nat, isIn: bool, v: nat)
    requires isIn == IsIn(op, ai, bi) && r' == (if isIn != (|r| % 2 == 1) then r + [v] else r)
    ensures (|r'| % 2 == 1) == isIn == Apply(op, ai % 2 == 1, bi % 2 == 1)
  {}

  lemma BoundKept(a: seq<nat>, b: seq<nat>, r: seq<nat>, r': seq<nat>, v: nat)
    requires (r' == r || r' == r + [v]) && (v in a || v in b)
      && forall x: nat :: UpTo(a, x) && UpTo(b, x) ==> UpTo(r, x)
    ensures forall x: nat :: UpTo(a, x) && UpTo(b, x) ==> UpTo(r', x)
  {}

  lemma MergedAll(op: RangeOp, r: seq<nat>, a: seq<nat>, b: seq<nat>)
    requires Merging(op, r, a, b, |a|, |b|) && |a| % 2 == |b| % 2 == 0
    ensures NonDecreasing(r) && |r| % 2 == 0
      && (forall c: nat :: Contains(r, c) <==> Apply(op, Contains(a, c), Contains(b, c)))
    ensures forall v: nat :: UpTo(a, v) && UpTo(b, v) ==> UpTo(r, v)
  {
    hide Merged, NonDecreasing, Contains, UpTo, Apply;
    assert a[..|a|] == a && b[..|b|] == b;
    forall c: nat
      ensures Contains(r, c) <==> Apply(op, Contains(a, c), Contains(b, c))
    {
      MergedContains(op, r, a, b, c);
    }
  }

  /** 0 in front and UINT32_MAX behind exchange the inside and the outside. */
  lemma InvertedContains(s: seq<nat>, c: nat)
    requires NonDecreasing(s) && |s| % 2 == 0 && UpTo(s, UINT32_MAX)
    ensures var t := [0] + s + [UINT32_MAX];
            NonDecreasing(t) && |t| % 2 == 0 && UpTo(t, UINT32_MAX)
              && (Contains(t, c) <==> c < UINT32_MAX && !Contains(s, c))
  {
    var t := [0] + s + [UINT32_MAX];
    ContainsParity(t, c);
    ContainsParity(s, c);
    BelowSnoc([0] + s, UINT32_MAX, c);
    BelowCons(s, c);
    if c >= UINT32_MAX {
      BelowAll(s, c);
    }
  }

  lemma {:induction false} BelowCons(s: seq<nat>, c: nat)
    ensures Below([0] + s, c) == Below(s, c) + 1
  {
    if s == [] {
      BelowSnoc([], 0, c);
      assert [0] + s == [] + [0];
    } else {
      var r, x := s[..|s| - 1], s[|s| - 1];
      BelowCons(r, c);
      BelowSnoc([0] + r, x, c);
      assert [0] + s == [0] + r + [x];
    }
  }
}
