/** rqsort (cpp/src/quickjs/cutils.c): quicksort on an explicit stack of 50
    segments, with three-way partition, a heapsort fallback and insertion sort for
    small segments. */
module QuickSort {
  import opened SortSpec
  import opened HeapSort

  /** med3: the position of a median of three. */
  method Med3<T(!new)>(a: array<T>, x: nat, y: nat, z: nat, o: Comparison<T>) returns (m: nat)
    requires x < a.Length && y < a.Length && z < a.Length
    modifies o
    ensures m == x || m == y || m == z
    ensures Preorder(o.Order()) ==> IsMedian(o.Order(), a[x], a[y], a[z], a[m])
  {
    ghost var cmp := o.Order();
    var c := o.Compare(a[x], a[y]);
    var d := o.Compare(a[y], a[z]);
    if c < 0 {
      if d < 0 {
        m := y;
      } else {
        var e := o.Compare(a[x], a[z]);
        m := if e < 0 then z else x;
      }
    } else if d > 0 {
      m := y;
    } else {
      var e := o.Compare(a[x], a[z]);
      m := if e < 0 then x else z;
    }
  }

  /** At least two of the three are not above m and at least two not below. */
  ghost predicate IsMedian<T(!new)>(cmp: (T, T) -> int, x: T, y: T, z: T, m: T)
  {
    && ((cmp(x, m) <= 0 && cmp(y, m) <= 0) || (cmp(x, m) <= 0 && cmp(z, m) <= 0) || (cmp(y, m) <= 0 && cmp(z, m) <= 0))
    && ((cmp(m, x) <= 0 && cmp(m, y) <= 0) || (cmp(m, x) <= 0 && cmp(m, z) <= 0) || (cmp(m, y) <= 0 && cmp(m, z) <= 0))
  }

  /** Where the element at k comes from when two blocks of n are exchanged. */
  function Source(x: nat, y: nat, n: nat, k: int): (k': int)
  {
    if x <= k < x + n then k + (y - x) else if y <= k < y + n then k - (y - x) else k
  }

  /** t is s with two blocks of n elements exchanged. */
  ghost predicate BlocksSwapped<T>(s: seq<T>, t: seq<T>, x: nat, y: nat, n: nat)
    requires x + n <= y && y + n <= |s|
  {
    |s| == |t| && forall k :: 0 <= k < |s| ==> t[k] == s[Source(x, y, n, k)]
  }

  lemma BlocksSame<T>(s: seq<T>, x: nat, y: nat)
    requires x <= y <= |s|
    ensures BlocksSwapped(s, s, x, y, 0)
  {}

  lemma BlocksSwappedNext<T>(s: seq<T>, t: seq<T>, u: seq<T>, x: nat, y: nat, n: nat)
    requires x + n + 1 <= y && y + n + 1 <= |s| == |t| && u == t[x + n := t[y + n]][y + n := t[x + n]]
    ensures BlocksSwapped(s, t, x, y, n) ==> BlocksSwapped(s, u, x, y, n + 1)
  {
    if BlocksSwapped(s, t, x, y, n) {
      forall k | 0 <= k < |s|
        ensures u[k] == s[Source(x, y, n + 1, k)]
      {
        assert t[k] == s[Source(x, y, n, k)];
        assert t[x + n] == s[Source(x, y, n, x + n)] && t[y + n] == s[Source(x, y, n, y + n)];
      }
    }
  }

  method SwapPair<T>(a: array<T>, x: nat, y: nat, i: nat, ghost s: seq<T>, ghost s0: seq<T>,
      ghost lo: nat, ghost hi: nat)
    requires lo <= x && x + i + 1 <= y && y + i + 1 <= hi <= a.Length == |s| && Rearranged(s0, a[..], lo, hi)
    requires BlocksSwapped(s, a[..], x, y, i)
    modifies a
    ensures Rearranged(s0, a[..], lo, hi) && BlocksSwapped(s, a[..], x, y, i + 1)
  {
    hide *;
    ghost var t := a[..];
    Swap(a, x + i, y + i, s0, lo, hi);
    BlocksSwappedNext(s, t, a[..], x, y, i);
  }

  /** Exchanges two blocks that do not overlap. */
  method SwapBlock<T>(a: array<T>, x: nat, y: nat, n: nat, ghost s0: seq<T>, ghost lo: nat, ghost hi: nat)
    requires lo <= x && x + n <= y && y + n <= hi <= a.Length && Rearranged(s0, a[..], lo, hi)
    modifies a
    ensures Rearranged(s0, a[..], lo, hi)
    ensures BlocksSwapped(old(a[..]), a[..], x, y, n)
  {
    hide *;
    ghost var s := a[..];
    BlocksSame(s, x, y);
    var i := 0;
    while i < n
      invariant 0 <= i <= n && Rearranged(s0, a[..], lo, hi) && BlocksSwapped(s, a[..], x, y, i)
    {
      SwapPair(a, x, y, i, s, s0, lo, hi);
      i := i + 1;
    }
  }

  /** Under a preorder, positions x..y compare with the pivot p as the sign says. */
  ghost predicate AllSign<T(!new)>(cmp: (T, T) -> int, s: seq<T>, p: T, x: int, y: int, sign: int)
  {
    Preorder(cmp) ==> forall k :: x <= k < y && 0 <= k < |s| ==> Sign(cmp(p, s[k])) == sign
  }

  /** Positions x..y hold the pivot p or compare equal to it. */
  ghost predicate AllEqual<T(!new)>(cmp: (T, T) -> int, s: seq<T>, p: T, x: int, y: int)
  {
    Preorder(cmp) ==> forall k :: x <= k < y && 0 <= k < |s| ==> s[k] == p || cmp(p, s[k]) == 0
  }

  /** The partition loops over lo+1..lo+n with the pivot at lo: equal elements at both ends,
      smaller ones from lt to i, greater ones from i to gt. */
  ghost predicate Parts<T(!new)>(cmp: (T, T) -> int, s: seq<T>, lo: nat, n: nat, lt: int, i: int, j: int, gt: int)
    requires 0 < n && lo + n <= |s|
  {
    && 1 <= lt <= i && i <= gt <= n && j <= gt
    && AllSign(cmp, s, s[lo], lo + 1, lo + lt, 0)
    && AllSign(cmp, s, s[lo], lo + lt, lo + i, 1)
    && AllSign(cmp, s, s[lo], lo + j, lo + gt, -1)
    && AllSign(cmp, s, s[lo], lo + gt, lo + n, 0)
  }

  lemma PartsEqualLeft<T(!new)>(cmp: (T, T) -> int, s: seq<T>, t: seq<T>, lo: nat, n: nat,
      lt: int, i: int, j: int, gt: int)
    requires 0 < n && lo + n <= |s| && Parts(cmp, s, lo, n, lt, i, j, gt) && i < j
    requires Preorder(cmp) ==> cmp(s[lo], s[lo + i]) == 0
    requires t == s[lo + lt := s[lo + i]][lo + i := s[lo + lt]]
    ensures Parts(cmp, t, lo, n, lt + 1, i + 1, j, gt)
  {}

  lemma PartsLess<T(!new)>(cmp: (T, T) -> int, s: seq<T>, lo: nat, n: nat, lt: int, i: int, j: int, gt: int)
    requires 0 < n && lo + n <= |s| && Parts(cmp, s, lo, n, lt, i, j, gt) && i < j
    requires Preorder(cmp) ==> cmp(s[lo], s[lo + i]) > 0
    ensures Parts(cmp, s, lo, n, lt, i + 1, j, gt)
  {}

  lemma PartsEqualRight<T(!new)>(cmp: (T, T) -> int, s: seq<T>, t: seq<T>, lo: nat, n: nat,
      lt: int, i: int, j: int, gt: int)
    requires 0 < n && lo + n <= |s| && Parts(cmp, s, lo, n, lt, i, j + 1, gt) && i < j < gt
      && (Preorder(cmp) ==> cmp(s[lo], s[lo + j]) == 0)
    requires t == s[lo + (gt - 1) := s[lo + j]][lo + j := s[lo + (gt - 1)]]
    ensures Parts(cmp, t, lo, n, lt, i, j, gt - 1) && t[lo + i] == s[lo + i]
  {}

  lemma PartsGreater<T(!new)>(cmp: (T, T) -> int, s: seq<T>, lo: nat, n: nat, lt: int, i: int, j: int, gt: int)
    requires 0 < n && lo + n <= |s| && Parts(cmp, s, lo, n, lt, i, j + 1, gt) && i <= j < gt
      && (Preorder(cmp) ==> cmp(s[lo], s[lo + j]) < 0)
    ensures Parts(cmp, s, lo, n, lt, i, j, gt)
  {}

  lemma PartsCross<T(!new)>(cmp: (T, T) -> int, s: seq<T>, t: seq<T>, lo: nat, n: nat, lt: int, i: int, j: int, gt: int)
    requires 0 < n && lo + n <= |s| && Parts(cmp, s, lo, n, lt, i, j + 1, gt) && i < j < gt
    requires Preorder(cmp) ==> cmp(s[lo], s[lo + i]) < 0 && cmp(s[lo], s[lo + j]) > 0
    requires t == s[lo + i := s[lo + j]][lo + j := s[lo + i]]
    ensures Parts(cmp, t, lo, n, lt, i + 1, j, gt)
  {}

  /** Smaller elements, elements equal to the pivot p, greater elements. */
  ghost predicate Split3<T(!new)>(cmp: (T, T) -> int, s: seq<T>, p: T, lo: nat, n: nat, lt: int, gt: int)
  {
    && 0 <= lt < gt <= n
    && AllSign(cmp, s, p, lo, lo + lt, 1)
    && AllEqual(cmp, s, p, lo + lt, lo + gt)
    && AllSign(cmp, s, p, lo + gt, lo + n, -1)
  }

  /** Equal elements on the left moved behind the smaller ones. */
  ghost predicate Gathered<T(!new)>(cmp: (T, T) -> int, s: seq<T>, p: T, lo: nat, n: nat, lt: int, i: int, gt: int)
  {
    && 0 <= lt < i <= gt <= n
    && AllSign(cmp, s, p, lo, lo + lt, 1)
    && AllEqual(cmp, s, p, lo + lt, lo + i)
    && AllSign(cmp, s, p, lo + i, lo + gt, -1)
    && AllSign(cmp, s, p, lo + gt, lo + n, 0)
  }

  function Min(x: int, y: int): (m: int) { if x > y then y else x }

  lemma GatherLeft<T(!new)>(cmp: (T, T) -> int, s: seq<T>, t: seq<T>, lo: nat, n: nat, lt: int,
      i: int, gt: int, span: nat)
    requires 0 < n && lo + n <= |s| && Parts(cmp, s, lo, n, lt, i, i, gt)
    requires span == Min(lt, i - lt) && BlocksSwapped(s, t, lo, lo + i - span, span)
    ensures Gathered(cmp, t, s[lo], lo, n, i - lt, i, gt)
  {
    forall k | lo <= k < lo + n
      ensures Preorder(cmp) && lo <= k < lo + (i - lt) ==> Sign(cmp(s[lo], t[k])) == 1
      ensures Preorder(cmp) && lo + (i - lt) <= k < lo + i ==> t[k] == s[lo] || cmp(s[lo], t[k]) == 0
      ensures lo + i <= k ==> t[k] == s[k]
    {
      var k' := Source(lo, lo + i - span, span, k);
      assert t[k] == s[k'];
    }
  }

  lemma GatherRight<T(!new)>(cmp: (T, T) -> int, s: seq<T>, t: seq<T>, p: T, lo: nat, n: nat, lt: int,
      i: int, gt: int, span: nat)
    requires lo + n <= |s| && Gathered(cmp, s, p, lo, n, lt, i, gt)
    requires span == Min(n - gt, gt - i) && BlocksSwapped(s, t, lo + i, lo + n - span, span)
    ensures Split3(cmp, t, p, lo, n, lt, n - (gt - i))
  {
    forall k | lo <= k < lo + n
      ensures k < lo + i ==> t[k] == s[k]
      ensures Preorder(cmp) && lo + i <= k < lo + n - (gt - i) ==> cmp(p, t[k]) == 0
      ensures Preorder(cmp) && lo + n - (gt - i) <= k ==> Sign(cmp(p, t[k])) == -1
    {
      var k' := Source(lo + i, lo + n - span, span, k);
      assert t[k] == s[k'];
    }
  }

  /** One segment of at least two elements around a median of three. */
  method Partition<T(!new)>(a: array<T>, lo: nat, n: nat, o: Comparison<T>) returns (lt: nat, gt: nat, ghost p: T)
    requires lo + n <= a.Length && n > 6
    modifies a, o
    ensures Rearranged(old(a[..]), a[..], lo, lo + n)
    ensures Split3(o.Order(), a[..], p, lo, n, lt, gt)
  {
    hide *;
    ghost var cmp := o.Order();
    ghost var s0 := a[..];
    RearrangedRefl(s0, lo, lo + n);
    var m4 := n / 4;
    var m := Med3(a, lo + m4, lo + 2 * m4, lo + 3 * m4, o);
    Swap(a, lo, m, s0, lo, lo + n);
    p := a[lo];
    var lt0, i, gt0 := Scan(a, lo, n, s0, o);
    lt, gt := Gather(a, lo, n, lt0, i, gt0, s0, o);
  }

  /** The equal elements at both ends are brought to the middle. */
  method Gather<T(!new)>(a: array<T>, lo: nat, n: nat, lt0: nat, i: nat, gt0: nat, ghost s0: seq<T>, o: Comparison<T>)
      returns (lt: nat, gt: nat)
    requires 0 < n && lo + n <= a.Length && Rearranged(s0, a[..], lo, lo + n)
      && Parts(o.Order(), a[..], lo, n, lt0, i, i, gt0)
    modifies a, o
    ensures Rearranged(s0, a[..], lo, lo + n) && Split3(o.Order(), a[..], old(a[lo]), lo, n, lt, gt)
  {
    hide *;
    ghost var cmp := o.Order();
    ghost var s, p := a[..], a[lo];
    PartsBounds(cmp, s, lo, n, lt0, i, i, gt0);
    MinIs(lt0, i - lt0);
    MinIs(n - gt0, gt0 - i);
    var span := if lt0 > i - lt0 then i - lt0 else lt0;
    SwapBlock(a, lo, lo + i - span, span, s0, lo, lo + n);
    ghost var t := a[..];
    GatherLeft(cmp, s, t, lo, n, lt0, i, gt0, span);
    lt := i - lt0;
    span := if n - gt0 > gt0 - i then gt0 - i else n - gt0;
    gt := n - (gt0 - i);
    SwapBlock(a, lo + i, lo + n - span, span, s0, lo, lo + n);
    GatherRight(cmp, t, a[..], p, lo, n, lt, i, gt0, span);
  }

  lemma MinIs(x: int, y: int)
    ensures Min(x, y) == if x > y then y else x
  {}

  lemma PartsInit<T(!new)>(cmp: (T, T) -> int, s: seq<T>, lo: nat, n: nat)
    requires 0 < n && lo + n <= |s|
    ensures Parts(cmp, s, lo, n, 1, 1, n, n)
  {}

  lemma PartsBounds<T(!new)>(cmp: (T, T) -> int, s: seq<T>, lo: nat, n: nat, lt: int, i: int, j: int, gt: int)
    requires 0 < n && lo + n <= |s| && Parts(cmp, s, lo, n, lt, i, j, gt)
    ensures 1 <= lt <= i <= gt <= n && j <= gt
  {}

  /** The two scans that meet: from the left over elements not above the pivot, from the
      right over elements not below it, exchanging a pair whenever both stop. */
  method Scan<T(!new)>(a: array<T>, lo: nat, n: nat, ghost s0: seq<T>, o: Comparison<T>)
      returns (lt: nat, i: nat, gt: nat)
    requires lo + n <= a.Length && n > 6 && Rearranged(s0, a[..], lo, lo + n)
    modifies a, o
    ensures Rearranged(s0, a[..], lo, lo + n) && a[lo] == old(a[lo])
    ensures Parts(o.Order(), a[..], lo, n, lt, i, i, gt)
  {
    hide *;
    ghost var cmp := o.Order();
    lt, i, gt := 1, 1, n;
    var j: int := n;
    ghost var p := a[lo];
    PartsInit(cmp, a[..], lo, n);
    while true
      invariant Rearranged(s0, a[..], lo, lo + n) && a[lo] == p
      invariant i <= j <= n && Parts(cmp, a[..], lo, n, lt, i, j, gt)
      decreases j - i
    {
      PartsBounds(cmp, a[..], lo, n, lt, i, j, gt);
      lt, i := ScanUp(a, lo, n, lt, i, j, gt, s0, o);
      PartsBounds(cmp, a[..], lo, n, lt, i, j, gt);
      if i == j {
        return;
      }
      j, gt := ScanDown(a, lo, n, lt, i, j, gt, s0, o);
      if i >= j {
        PartsGreater(cmp, a[..], lo, n, lt, i, i, gt);
        return;
      }
      ghost var s := a[..];
      Swap(a, lo + i, lo + j, s0, lo, lo + n);
      PartsCross(cmp, s, a[..], lo, n, lt, i, j, gt);
      i := i + 1;
    }
  }

  method ScanUp<T(!new)>(a: array<T>, lo: nat, n: nat, lt0: nat, i0: nat, j: int, ghost gt: int,
      ghost s0: seq<T>, o: Comparison<T>)
      returns (lt: nat, i: nat)
    requires 0 < n && lo + n <= a.Length && 1 <= lt0 <= i0 <= j <= n && Rearranged(s0, a[..], lo, lo + n)
    requires Parts(o.Order(), a[..], lo, n, lt0, i0, j, gt)
    modifies a, o
    ensures Rearranged(s0, a[..], lo, lo + n) && a[lo] == old(a[lo])
    ensures i0 <= i <= j && Parts(o.Order(), a[..], lo, n, lt, i, j, gt)
    ensures i < j && Preorder(o.Order()) ==> o.Order()(a[lo], a[lo + i]) < 0
  {
    hide *;
    ghost var cmp := o.Order();
    lt, i := lt0, i0;
    ghost var p := a[lo];
    while i < j
      invariant i0 <= i <= j && 1 <= lt <= i && Rearranged(s0, a[..], lo, lo + n) && a[lo] == p
      invariant Parts(cmp, a[..], lo, n, lt, i, j, gt)
      decreases j - i
    {
      var c := o.Compare(a[lo], a[lo + i]);
      SignIs(c);
      SignIs(cmp(a[lo], a[lo + i]));
      if c < 0 {
        break;
      }
      ghost var s := a[..];
      if c == 0 {
        Swap(a, lo + lt, lo + i, s0, lo, lo + n);
        PartsEqualLeft(cmp, s, a[..], lo, n, lt, i, j, gt);
        lt := lt + 1;
      } else {
        PartsLess(cmp, s, lo, n, lt, i, j, gt);
      }
      i := i + 1;
    }
  }

  method ScanDown<T(!new)>(a: array<T>, lo: nat, n: nat, ghost lt: int, i: nat, j0: int, gt0: nat,
      ghost s0: seq<T>, o: Comparison<T>)
      returns (j: int, gt: nat)
    requires 0 < n && lo + n <= a.Length && 1 <= i < j0 <= gt0 <= n && Rearranged(s0, a[..], lo, lo + n)
    requires Parts(o.Order(), a[..], lo, n, lt, i, j0, gt0)
    requires Preorder(o.Order()) ==> o.Order()(a[lo], a[lo + i]) < 0
    modifies a, o
    ensures Rearranged(s0, a[..], lo, lo + n) && a[lo] == old(a[lo])
    ensures i <= j < j0 && j < gt <= n && Parts(o.Order(), a[..], lo, n, lt, i, j + 1, gt)
    ensures Preorder(o.Order()) ==> o.Order()(a[lo], a[lo + i]) < 0 && (i < j ==> o.Order()(a[lo], a[lo + j]) > 0)
  {
    hide *;
    ghost var cmp := o.Order();
    j, gt := j0 - 1, gt0;
    ghost var p, v := a[lo], a[lo + i];
    while i < j
      invariant i <= j < j0 && j < gt <= n && Rearranged(s0, a[..], lo, lo + n) && a[lo] == p && a[lo + i] == v
      invariant Parts(cmp, a[..], lo, n, lt, i, j + 1, gt)
      decreases j - i
    {
      var c := o.Compare(a[lo], a[lo + j]);
      SignIs(c);
      SignIs(cmp(a[lo], a[lo + j]));
      if c > 0 {
        break;
      }
      ghost var s := a[..];
      if c == 0 {
        gt := gt - 1;
        Swap(a, lo + gt, lo + j, s0, lo, lo + n);
        PartsEqualRight(cmp, s, a[..], lo, n, lt, i, j, gt + 1);
      } else {
        PartsGreater(cmp, s, lo, n, lt, i, j, gt);
      }
      j := j - 1;
    }
  }

  // ---- small segments ----

  /** lo..hi is in order except that the element at j may be smaller than those before it. */
  ghost predicate SortedBut<T(!new)>(cmp: (T, T) -> int, s: seq<T>, lo: nat, hi: nat, j: nat)
  {
    forall x, y :: lo <= x < y < hi && y < |s| && y != j ==> cmp(s[x], s[y]) <= 0
  }

  lemma InsertMoves<T(!new)>(cmp: (T, T) -> int, s: seq<T>, t: seq<T>, lo: nat, hi: nat, j: nat)
    requires lo < j < hi <= |s| && (Preorder(cmp) ==> cmp(s[j - 1], s[j]) > 0) && t == s[j := s[j - 1]][j - 1 := s[j]]
    ensures Preorder(cmp) && SortedBut(cmp, s, lo, hi, j) ==> SortedBut(cmp, t, lo, hi, j - 1)
  {
    if Preorder(cmp) && SortedBut(cmp, s, lo, hi, j) {
      forall x, y | lo <= x < y < hi && y != j - 1
        ensures cmp(t[x], t[y]) <= 0
      {
        if x == j - 1 && y == j {
          assert cmp(s[j], s[j - 1]) <= 0;
        } else if y == j {
          assert cmp(s[x], s[j - 1]) <= 0;
        } else if x == j {
          assert cmp(s[j - 1], s[y]) <= 0;
        } else if x == j - 1 {
          assert cmp(s[j], s[y]) <= 0;
        }
      }
    }
  }

  lemma InsertDone<T(!new)>(cmp: (T, T) -> int, s: seq<T>, lo: nat, hi: nat, j: nat)
    requires lo <= j < hi <= |s| && (Preorder(cmp) ==> j == lo || cmp(s[j - 1], s[j]) <= 0)
    ensures Preorder(cmp) && SortedBut(cmp, s, lo, hi, j) ==> SegSorted(cmp, s, lo, hi)
  {
    if Preorder(cmp) && SortedBut(cmp, s, lo, hi, j) {
      forall x, y | lo <= x < y < hi
        ensures cmp(s[x], s[y]) <= 0
      {
        if y == j && x < j - 1 {
          assert cmp(s[x], s[j - 1]) <= 0;
        }
      }
    }
  }

  lemma InsertStart<T(!new)>(cmp: (T, T) -> int, s: seq<T>, lo: nat, i: nat)
    ensures SegSorted(cmp, s, lo, i) ==> SortedBut(cmp, s, lo, i + 1, i)
  {}

  /** Moves the element at i down to its place among the sorted ones before it. */
  method Insert<T(!new)>(a: array<T>, lo: nat, n: nat, i: nat, o: Comparison<T>, ghost s0: seq<T>)
    requires lo < i < lo + n <= a.Length && Rearranged(s0, a[..], lo, lo + n)
    requires Preorder(o.Order()) ==> SegSorted(o.Order(), a[..], lo, i)
    modifies a, o
    ensures Rearranged(s0, a[..], lo, lo + n)
    ensures Preorder(o.Order()) ==> SegSorted(o.Order(), a[..], lo, i + 1)
  {
    hide *;
    ghost var cmp := o.Order();
    var j := i;
    InsertStart(cmp, a[..], lo, i);
    while j > lo
      invariant lo <= j <= i && Rearranged(s0, a[..], lo, lo + n)
      invariant Preorder(cmp) ==> SortedBut(cmp, a[..], lo, i + 1, j)
    {
      ghost var s := a[..];
      var c := o.Compare(a[j - 1], a[j]);
      SignIs(c);
      SignIs(cmp(a[j - 1], a[j]));
      if c <= 0 {
        break;
      }
      Swap(a, j, j - 1, s0, lo, lo + n);
      InsertMoves(cmp, s, a[..], lo, i + 1, j);
      j := j - 1;
    }
    InsertDone(cmp, a[..], lo, i + 1, j);
  }

  method InsertionSort<T(!new)>(a: array<T>, lo: nat, n: nat, o: Comparison<T>)
    requires lo + n <= a.Length
    modifies a, o
    ensures Rearranged(old(a[..]), a[..], lo, lo + n)
    ensures Preorder(o.Order()) ==> SegSorted(o.Order(), a[..], lo, lo + n)
  {
    hide *;
    ghost var cmp := o.Order();
    ghost var s0 := a[..];
    RearrangedRefl(s0, lo, lo + n);
    ShortSorted(cmp, s0, lo, lo + if n == 0 then 0 else 1);
    var i := lo + 1;
    while i < lo + n
      invariant lo + 1 <= i && (i <= lo + n || n == 0) && Rearranged(s0, a[..], lo, lo + n)
      invariant Preorder(cmp) ==> SegSorted(cmp, a[..], lo, if n == 0 then lo else i)
    {
      Insert(a, lo, n, i, o, s0);
      i := i + 1;
    }
  }

  // ---- the stack of segments ----

  datatype Frame = Frame(base: nat, count: nat, depth: nat)

  /** Segments of an array of n elements, none overlapping another. */
  ghost predicate Good(fs: seq<Frame>, n: nat)
  {
    && (forall f :: 0 <= f < |fs| ==> fs[f].base + fs[f].count <= n)
    && (forall f, g :: 0 <= f < g < |fs| ==> Disjoint(fs[f], fs[g]))
  }

  ghost predicate Disjoint(f: Frame, g: Frame)
  {
    f.base + f.count <= g.base || g.base + g.count <= f.base
  }

  ghost predicate Inside(fs: seq<Frame>, c: nat)
  {
    exists f :: 0 <= f < |fs| && fs[f].base < c < fs[f].base + fs[f].count
  }

  /** Every position is a cut or strictly inside a pending segment; the borders of pending
      segments are cuts. */
  ghost predicate Progress<T(!new)>(cmp: (T, T) -> int, s: seq<T>, fs: seq<Frame>)
  {
    && (forall c :: 0 <= c <= |s| ==> Cut(cmp, s, c) || Inside(fs, c))
    && (forall f :: 0 <= f < |fs| ==> Cut(cmp, s, fs[f].base) && Cut(cmp, s, fs[f].base + fs[f].count))
  }

  /** What the pending segments weigh: an empty one weighs 1. */
  ghost function Weight(fs: seq<Frame>): (w: nat)
  {
    if |fs| == 0 then 0 else Weight(fs[..|fs| - 1]) + fs[|fs| - 1].count + 1
  }

  lemma WeightSnoc(fs: seq<Frame>, f: Frame)
    ensures Weight(fs + [f]) == Weight(fs) + f.count + 1
  {
    assert (fs + [f])[..|fs + [f]| - 1] == fs;
  }

  /** Saved depths strictly increase from 1 up to at most d. */
  ghost predicate DepthsOk(fs: seq<Frame>, d: nat)
  {
    && (forall f :: 0 <= f < |fs| ==> f + 1 <= fs[f].depth <= d)
    && (forall f, g :: 0 <= f < g < |fs| ==> fs[f].depth < fs[g].depth)
  }

  /** So there are never more than d of them. */
  lemma DepthsBound(fs: seq<Frame>, d: nat)
    requires DepthsOk(fs, d)
    ensures |fs| <= d
  {
    if |fs| > 0 {
      assert fs[|fs| - 1].depth <= d;
    }
  }

  lemma DepthsPush(fs: seq<Frame>, d: nat, f: Frame)
    requires DepthsOk(fs, d) && f.depth == d + 1
    ensures DepthsOk(fs + [f], d + 1)
  {
    DepthsBound(fs, d);
  }

  lemma DepthsPop(fs: seq<Frame>, d: nat)
    requires |fs| > 0 && DepthsOk(fs, d)
    ensures DepthsOk(fs[..|fs| - 1], fs[|fs| - 1].depth) && fs[|fs| - 1].depth <= d
  {}

  lemma DepthsWiden(fs: seq<Frame>, d: nat, d': nat)
    requires DepthsOk(fs, d) && d <= d'
    ensures DepthsOk(fs, d')
  {}

  /** The two sides of a partitioned segment take its place. */
  lemma GoodSplit(fs: seq<Frame>, cur: Frame, f: Frame, g: Frame, n: nat)
    requires Good(fs + [cur], n) && Disjoint(f, g)
    requires cur.base <= f.base && f.base + f.count <= cur.base + cur.count
    requires cur.base <= g.base && g.base + g.count <= cur.base + cur.count
    ensures Good(fs + [f] + [g], n)
  {
    var old_, new_ := fs + [cur], fs + [f] + [g];
    forall i | 0 <= i < |new_|
      ensures new_[i].base + new_[i].count <= n
    {
      assert old_[|fs|] == cur;
      assert i < |fs| ==> old_[i] == fs[i];
    }
    forall i, j | 0 <= i < j < |new_|
      ensures Disjoint(new_[i], new_[j])
    {
      if i < |fs| {
        assert Disjoint(old_[i], old_[if j < |fs| then j else |fs|]);
      }
    }
  }

  lemma GoodDrop(fs: seq<Frame>, cur: Frame, n: nat)
    requires Good(fs + [cur], n)
    ensures Good(fs, n) && cur.base + cur.count <= n
  {
    var old_ := fs + [cur];
    assert old_[|fs|] == cur;
    assert forall i :: 0 <= i < |fs| ==> old_[i] == fs[i];
  }

  /** Between the smaller and the greater elements every position is a cut. */
  lemma SplitCut<T(!new)>(cmp: (T, T) -> int, s: seq<T>, p: T, lo: nat, n: nat, lt: int, gt: int, c: nat)
    requires Preorder(cmp) && lo + n <= |s| && Split3(cmp, s, p, lo, n, lt, gt) && lo + lt <= c <= lo + gt
    requires Cut(cmp, s, lo) && Cut(cmp, s, lo + n)
    ensures Cut(cmp, s, c)
  {
    forall i, j | 0 <= i < c <= j < |s|
      ensures cmp(s[i], s[j]) <= 0
    {
      if lo <= i && j < lo + n {
        assert cmp(p, p) == 0;
        assert cmp(s[i], p) <= 0 by { assert s[i] == p || cmp(p, s[i]) >= 0; }
        assert cmp(p, s[j]) <= 0 by { assert s[j] == p || cmp(p, s[j]) <= 0; }
      }
    }
  }

  ghost function End(f: Frame): (e: nat) { f.base + f.count }

  /** Cuts that survive rearranging the segment cur. */
  lemma CutsKept<T(!new)>(cmp: (T, T) -> int, s: seq<T>, t: seq<T>, cur: Frame)
    requires Rearranged(s, t, cur.base, End(cur))
    ensures forall c: nat :: Cut(cmp, s, c) && (c <= cur.base || End(cur) <= c) ==> Cut(cmp, t, c)
  {
    forall c: nat | Cut(cmp, s, c) && (c <= cur.base || End(cur) <= c)
      ensures Cut(cmp, t, c)
    {
      CutKept(cmp, s, t, cur.base, End(cur), c);
    }
  }

  /** The borders of every other pending segment, and of cur, stay cuts. */
  lemma BordersKept<T(!new)>(cmp: (T, T) -> int, s: seq<T>, t: seq<T>, fs: seq<Frame>, cur: Frame)
    requires Good(fs + [cur], |s|) && Progress(cmp, s, fs + [cur]) && Rearranged(s, t, cur.base, End(cur))
    ensures forall f :: 0 <= f < |fs| ==> Cut(cmp, t, fs[f].base) && Cut(cmp, t, End(fs[f]))
    ensures Cut(cmp, t, cur.base) && Cut(cmp, t, End(cur)) && End(cur) <= |t|
    ensures forall c :: 0 <= c <= |t| && !(cur.base < c < End(cur)) ==> Cut(cmp, t, c) || Inside(fs, c)
  {
    var fs' := fs + [cur];
    CutsKept(cmp, s, t, cur);
    assert fs'[|fs|] == cur;
    hide Cut, Rearranged;
    forall f | 0 <= f < |fs|
      ensures Cut(cmp, t, fs[f].base) && Cut(cmp, t, End(fs[f]))
    {
      assert fs'[f] == fs[f] && Disjoint(fs'[f], fs'[|fs|]);
    }
    forall c | 0 <= c <= |t| && !(cur.base < c < End(cur))
      ensures Cut(cmp, t, c) || Inside(fs, c)
    {
      if Inside(fs', c) {
        var f :| 0 <= f < |fs'| && fs'[f].base < c < fs'[f].base + fs'[f].count;
        assert f < |fs| && fs[f] == fs'[f];
      }
    }
  }

  lemma InsideMore(fs: seq<Frame>, gs: seq<Frame>, c: nat)
    requires Inside(fs, c)
    ensures Inside(fs + gs, c)
  {
    var f :| 0 <= f < |fs| && fs[f].base < c < fs[f].base + fs[f].count;
    assert (fs + gs)[f] == fs[f];
  }

  lemma InsideNew(fs: seq<Frame>, f: Frame, g: Frame, c: nat)
    requires f.base < c < End(f) || g.base < c < End(g)
    ensures Inside(fs + [f] + [g], c)
  {
    assert (fs + [f] + [g])[|fs|] == f && (fs + [f] + [g])[|fs| + 1] == g;
  }

  /** After a partition the two sides are pending instead of the segment. */
  lemma ProgressSplit<T(!new)>(cmp: (T, T) -> int, s: seq<T>, t: seq<T>, fs: seq<Frame>, cur: Frame, p: T, lt: nat,
      gt: nat, f: Frame, g: Frame)
    requires Preorder(cmp) && Good(fs + [cur], |s|) && Progress(cmp, s, fs + [cur])
      && Rearranged(s, t, cur.base, End(cur))
    requires End(cur) <= |t| && Split3(cmp, t, p, cur.base, cur.count, lt, gt)
    requires lt <= gt <= cur.count
    requires (f.base == cur.base && f.count == lt && g.base == cur.base + gt && g.count == cur.count - gt)
          || (g.base == cur.base && g.count == lt && f.base == cur.base + gt && f.count == cur.count - gt)
    ensures Progress(cmp, t, fs + [f] + [g])
  {
    hide Cut, Rearranged, Split3, Preorder, Good;
    BordersKept(cmp, s, t, fs, cur);
    var fs' := fs + [f] + [g];
    forall c | cur.base + lt <= c <= cur.base + gt
      ensures Cut(cmp, t, c)
    {
      SplitCut(cmp, t, p, cur.base, cur.count, lt, gt, c);
    }
    forall c | 0 <= c <= |t|
      ensures Cut(cmp, t, c) || Inside(fs', c)
    {
      if Inside(fs, c) {
        InsideMore(fs, [f] + [g], c);
        assert fs + ([f] + [g]) == fs';
      } else if f.base < c < End(f) || g.base < c < End(g) {
        InsideNew(fs, f, g, c);
      }
    }
    forall k | 0 <= k < |fs'|
      ensures Cut(cmp, t, fs'[k].base) && Cut(cmp, t, fs'[k].base + fs'[k].count)
    {
      assert fs'[k] == if k < |fs| then fs[k] else if k == |fs| then f else g;
      assert k < |fs| ==> End(fs[k]) == fs[k].base + fs[k].count;
    }
  }

  /** A sorted segment is no longer pending; an empty one in its place changes nothing. */
  lemma ProgressSorted<T(!new)>(cmp: (T, T) -> int, s: seq<T>, t: seq<T>, fs: seq<Frame>, cur: Frame, f: Frame)
    requires Good(fs + [cur], |s|) && Progress(cmp, s, fs + [cur]) && Rearranged(s, t, cur.base, End(cur))
    requires SegSorted(cmp, t, cur.base, End(cur)) && f.base == cur.base && f.count == 0
    ensures Progress(cmp, t, fs) && Progress(cmp, t, fs + [f])
  {
    hide Cut, Rearranged, Good, SegSorted;
    BordersKept(cmp, s, t, fs, cur);
    forall c | cur.base <= c <= End(cur)
      ensures Cut(cmp, t, c)
    {
      SortedCuts(cmp, t, cur.base, End(cur), c);
    }
    var fs' := fs + [f];
    forall c | 0 <= c <= |t|
      ensures Cut(cmp, t, c) || (Inside(fs, c) && Inside(fs', c))
    {
      if Inside(fs, c) {
        InsideMore(fs, [f], c);
      }
    }
    forall k | 0 <= k < |fs'|
      ensures Cut(cmp, t, fs'[k].base) && Cut(cmp, t, fs'[k].base + fs'[k].count)
      ensures k < |fs| ==> fs'[k] == fs[k]
    {
      assert fs'[k] == if k < |fs| then fs[k] else f;
      assert k < |fs| ==> End(fs[k]) == fs[k].base + fs[k].count;
    }
  }

  lemma ProgressStart<T(!new)>(cmp: (T, T) -> int, s: seq<T>, f: Frame)
    requires f.base == 0 && f.count == |s|
    ensures Progress(cmp, s, [f]) && Good([f], |s|)
  {
    forall c | 0 <= c <= |s|
      ensures Cut(cmp, s, c) || Inside([f], c)
    {
      if 0 < c < |s| {
        assert [f][0].base < c < [f][0].base + [f][0].count;
      }
    }
  }

  lemma ProgressDone<T(!new)>(cmp: (T, T) -> int, s: seq<T>)
    requires Progress(cmp, s, [])
    ensures Sorted(cmp, s)
  {
    forall c | 0 <= c <= |s|
      ensures Cut(cmp, s, c)
    {
      assert !Inside([], c);
    }
    CutsSorted(cmp, s);
  }

  // ---- the sort ----

  /** The array s, once s0, with the segments fs still to be sorted. */
  ghost predicate Sorting<T(!new)>(cmp: (T, T) -> int, s0: seq<T>, s: seq<T>, fs: seq<Frame>)
  {
    Rearranged(s0, s, 0, |s0|) && Good(fs, |s|) && (Preorder(cmp) ==> Progress(cmp, s, fs))
  }

  lemma SortingStart<T(!new)>(cmp: (T, T) -> int, s: seq<T>, f: Frame)
    requires f.base == 0 && f.count == |s|
    ensures Sorting(cmp, s, s, [f])
  {
    ProgressStart(cmp, s, f);
  }

  lemma SortingDone<T(!new)>(cmp: (T, T) -> int, s0: seq<T>, s: seq<T>)
    requires Sorting(cmp, s0, s, [])
    ensures multiset(s0) == multiset(s) && (Preorder(cmp) ==> Sorted(cmp, s))
  {
    if Preorder(cmp) {
      ProgressDone(cmp, s);
    }
  }

  lemma SortingSplit<T(!new)>(cmp: (T, T) -> int, s0: seq<T>, s: seq<T>, t: seq<T>, fs: seq<Frame>, cur: Frame, p: T,
      lt: nat, gt: nat, f: Frame, g: Frame)
    requires Sorting(cmp, s0, s, fs + [cur]) && Rearranged(s, t, cur.base, End(cur))
      && Split3(cmp, t, p, cur.base, cur.count, lt, gt)
    requires lt <= gt <= cur.count
    requires (f.base == cur.base && f.count == lt && g.base == cur.base + gt && g.count == cur.count - gt)
          || (g.base == cur.base && g.count == lt && f.base == cur.base + gt && f.count == cur.count - gt)
    ensures Sorting(cmp, s0, t, fs + [f] + [g])
  {
    hide Cut, Preorder, Progress, Split3;
    GoodSplit(fs, cur, f, g, |s|);
    GoodDrop(fs, cur, |s|);
    RearrangedWiden(s, t, cur.base, End(cur), 0, |s|);
    RearrangedTrans(s0, s, t, 0, |s0|);
    if Preorder(cmp) {
      ProgressSplit(cmp, s, t, fs, cur, p, lt, gt, f, g);
    }
  }

  lemma SortingSorted<T(!new)>(cmp: (T, T) -> int, s0: seq<T>, s: seq<T>, t: seq<T>,
      fs: seq<Frame>, cur: Frame, f: Frame)
    requires Sorting(cmp, s0, s, fs + [cur]) && Rearranged(s, t, cur.base, End(cur)) && f.base == cur.base
      && f.count == 0
    requires Preorder(cmp) ==> SegSorted(cmp, t, cur.base, End(cur))
    ensures Sorting(cmp, s0, t, fs) && Sorting(cmp, s0, t, fs + [f])
  {
    hide Cut, Preorder, Progress, SegSorted;
    GoodDrop(fs, cur, |s|);
    GoodShrink(fs, cur, f, |s|);
    RearrangedWiden(s, t, cur.base, End(cur), 0, |s|);
    RearrangedTrans(s0, s, t, 0, |s0|);
    if Preorder(cmp) {
      ProgressSorted(cmp, s, t, fs, cur, f);
    }
  }

  lemma GoodShrink(fs: seq<Frame>, cur: Frame, f: Frame, n: nat)
    requires Good(fs + [cur], n) && f.base == cur.base && f.count == 0
    ensures Good(fs + [f], n)
  {
    var old_, new_ := fs + [cur], fs + [f];
    assert old_[|fs|] == cur;
    forall i, j | 0 <= i < j < |new_|
      ensures Disjoint(new_[i], new_[j])
    {
      assert Disjoint(old_[i], old_[j]);
    }
    assert forall i :: 0 <= i < |fs| ==> old_[i] == new_[i];
  }

  lemma SortingBounds<T(!new)>(cmp: (T, T) -> int, s0: seq<T>, s: seq<T>, fs: seq<Frame>, cur: Frame)
    requires Sorting(cmp, s0, s, fs + [cur])
    ensures End(cur) == cur.base + cur.count <= |s| && |s| == |s0|
  {
    GoodDrop(fs, cur, |s|);
  }

  lemma Split3Bounds<T(!new)>(cmp: (T, T) -> int, s: seq<T>, p: T, lo: nat, n: nat, lt: int, gt: int)
    requires Split3(cmp, s, p, lo, n, lt, gt)
    ensures 0 <= lt < gt <= n
  {}

  /** One popped segment: divide it down to a small rest, saving the larger sides. */
  method SortSegment<T(!new)>(a: array<T>, stack: array<Frame>, sp0: nat, cur: Frame, o: Comparison<T>,
      ghost s0: seq<T>) returns (sp: nat)
    requires stack.Length == 50 && a as object != stack as object
    requires sp0 < 50 && Sorting(o.Order(), s0, a[..], stack[..sp0] + [cur]) && DepthsOk(stack[..sp0], cur.depth)
      && cur.depth <= 50
    modifies a, stack, o
    ensures sp <= 50 && Sorting(o.Order(), s0, a[..], stack[..sp]) && DepthsOk(stack[..sp], 50)
    ensures Weight(stack[..sp]) < Weight(old(stack[..sp0])) + cur.count + 1
  {
    hide *;
    ghost var cmp := o.Order();
    sp := sp0;
    var ptr, n, depth := cur.base, cur.count, cur.depth;
    ghost var w := Weight(stack[..sp0]) + cur.count + 1;
    assert cur == Frame(ptr, n, depth);
    while n > 6
      invariant depth <= 50 && sp <= 50 && stack.Length == 50 && DepthsOk(stack[..sp], depth)
      invariant Sorting(cmp, s0, a[..], stack[..sp] + [Frame(ptr, n, depth)])
      invariant Weight(stack[..sp]) + n + 1 <= w
      decreases n
    {
      ghost var s, fs, f0 := a[..], stack[..sp], Frame(ptr, n, depth);
      SortingBounds(cmp, s0, s, fs, f0);
      DepthsBound(fs, depth);
      depth := depth + 1;
      if depth > 50 {
        Heapsort(a, ptr, n, o);
        SortingSorted(cmp, s0, s, a[..], fs, f0, Frame(ptr, 0, depth - 1));
        depth, n := depth - 1, 0;
        break;
      }
      var lt, gt, p := Partition(a, ptr, n, o);
      Split3Bounds(cmp, a[..], p, ptr, n, lt, gt);
      var left, right := Frame(ptr, lt, depth), Frame(ptr + gt, n - gt, depth);
      var saved, next := if lt > n - gt then left else right, if lt > n - gt then right else left;
      SortingSplit(cmp, s0, s, a[..], fs, f0, p, lt, gt, saved, next);
      stack[sp] := saved;
      assert stack[..sp + 1] == fs + [saved];
      WeightSnoc(fs, saved);
      DepthsPush(fs, depth - 1, saved);
      sp := sp + 1;
      ptr, n := next.base, next.count;
    }
    ghost var s, fs, f0 := a[..], stack[..sp], Frame(ptr, n, depth);
    SortingBounds(cmp, s0, s, fs, f0);
    InsertionSort(a, ptr, n, o);
    SortingSorted(cmp, s0, s, a[..], fs, f0, Frame(ptr, 0, depth));
    DepthsWiden(fs, depth, 50);
  }

  /** Whatever the comparison answers, at every call anew, the sort ends with a permutation,
      within its 50 slots; when they all follow a total preorder the result is sorted by it. */
  method Rqsort<T(!new)>(a: array<T>, o: Comparison<T>, ghost order: (T, T) -> int)
    modifies a, o
    ensures multiset(a[..]) == multiset(old(a[..]))
    ensures Preorder(order) && Follows(o.answer, order) ==> Sorted(order, a[..])
  {
    ghost var cmp := o.Order();
    if a.Length < 2 {
      return;
    }
    var stack := new Frame[50];
    hide *;
    ghost var s0 := a[..];
    stack[0] := Frame(0, a.Length, 0);
    var sp: nat := 1;
    assert stack[..1] == [Frame(0, a.Length, 0)];
    SortingStart(cmp, s0, stack[0]);
    while sp > 0
      invariant stack.Length == 50 && 0 <= sp <= 50 && Sorting(cmp, s0, a[..], stack[..sp])
      invariant (sp == 1 && stack[0].depth == 0) || DepthsOk(stack[..sp], 50)
      decreases Weight(stack[..sp])
    {
      ghost var fs := stack[..sp];
      sp := sp - 1;
      var cur := stack[sp];
      assert fs == stack[..sp] + [cur];
      WeightSnoc(stack[..sp], cur);
      PopDepths(fs, stack[..sp], cur);
      sp := SortSegment(a, stack, sp, cur, o, s0);
    }
    assert stack[..0] == [];
    SortingDone(cmp, s0, a[..]);
    if Preorder(order) && Follows(o.answer, order) {
      OrderIs(o, order, a[..]);
    }
  }

  lemma PopDepths(fs: seq<Frame>, gs: seq<Frame>, cur: Frame)
    requires fs == gs + [cur] && ((|fs| == 1 && cur.depth == 0) || DepthsOk(fs, 50))
    ensures DepthsOk(gs, cur.depth) && cur.depth <= 50
  {
    assert fs[..|fs| - 1] == gs && fs[|fs| - 1] == cur;
    if DepthsOk(fs, 50) {
      DepthsPop(fs, 50);
    }
  }
}
