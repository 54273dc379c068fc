/** heapsortx (cpp/src/quickjs/cutils.c): the fallback that bounds the worst case. */
module HeapSort {
  import opened SortSpec

  /** Children at or below `start` do not exceed their parents, except below the hole r. */
  ghost predicate HeapBut<T(!new)>(cmp: (T, T) -> int, s: seq<T>, lo: nat, n: nat, start: nat, r: nat)
    requires lo + n <= |s|
  {
    && (forall c :: 1 <= c < n && Parent(c) >= start && Parent(c) != r ==> cmp(s[lo + c], s[lo + Parent(c)]) <= 0)
    && (r > start ==> forall c ::
       1 <= c < n && Parent(c) == r ==> Parent(r) >= start && cmp(s[lo + c], s[lo + Parent(r)]) <= 0)
  }

  ghost predicate Heap<T(!new)>(cmp: (T, T) -> int, s: seq<T>, lo: nat, n: nat, start: nat)
    requires lo + n <= |s|
  {
    forall c :: 1 <= c < n && Parent(c) >= start ==> cmp(s[lo + c], s[lo + Parent(c)]) <= 0
  }

  function Parent(c: int): (p: int) { (c - 1) / 2 }

  /** The root of a heap is its largest element. */
  lemma {:induction false} HeapMax<T(!new)>(cmp: (T, T) -> int, s: seq<T>, lo: nat, n: nat, c: nat)
    requires lo + n <= |s| && c < n && Heap(cmp, s, lo, n, 0) && Preorder(cmp)
    ensures cmp(s[lo + c], s[lo]) <= 0
    decreases c
  {
    if c > 0 {
      HeapMax(cmp, s, lo, n, Parent(c));
    } else {
      assert cmp(s[lo], s[lo]) == 0;
    }
  }

  /** Exchanges two elements, within a part lo..hi of an array that was s0 before. */
  method Swap<T>(a: array<T>, i: nat, j: nat, ghost s0: seq<T>, ghost lo: nat, ghost hi: nat)
    requires lo <= i < hi <= a.Length && lo <= j < hi && Rearranged(s0, a[..], lo, hi)
    modifies a
    ensures var s := old(a[..]); a[..] == s[i := s[j]][j := s[i]]
    ensures Rearranged(s0, a[..], lo, hi)
  {
    ghost var s := a[..];
    a[i], a[j] := a[j], a[i];
    SwapRearranges(s, a[..], i, j, lo, hi);
    RearrangedTrans(s0, s, a[..], lo, hi);
  }

  /** c is a child of r that no child of r exceeds. */
  ghost predicate LargerChild<T(!new)>(cmp: (T, T) -> int, s: seq<T>, lo: nat, n: nat, r: nat, c: nat)
    requires lo + n <= |s|
  {
    1 <= c < n && Parent(c) == r && forall d :: 1 <= d < n && Parent(d) == r ==> cmp(s[lo + d], s[lo + c]) <= 0
  }

  lemma Children<T(!new)>(cmp: (T, T) -> int, s: seq<T>, lo: nat, n: nat, r: nat)
    requires lo + n <= |s| && 2 * r + 1 < n && Preorder(cmp)
    ensures 2 * r + 2 < n && cmp(s[lo + (2 * r + 1)], s[lo + (2 * r + 2)]) <= 0 ==>
      LargerChild(cmp, s, lo, n, r, 2 * r + 2)
    ensures 2 * r + 2 >= n || cmp(s[lo + (2 * r + 1)], s[lo + (2 * r + 2)]) > 0 ==>
      LargerChild(cmp, s, lo, n, r, 2 * r + 1)
  {
    var x := s[lo + (2 * r + 1)];
    assert cmp(x, x) == 0;
    assert forall d :: 1 <= d && Parent(d) == r ==> d == 2 * r + 1 || d == 2 * r + 2;
    if 2 * r + 2 < n {
      var y := s[lo + (2 * r + 2)];
      assert cmp(y, y) == 0;
    }
  }

  /** Moving the larger child up moves the hole down to it. */
  lemma HoleMoves<T(!new)>(cmp: (T, T) -> int, s: seq<T>, t: seq<T>, lo: nat, n: nat, start: nat, r: nat, c: nat)
    requires lo + n <= |s| && start <= r < c < n && (Preorder(cmp) ==> cmp(s[lo + r], s[lo + c]) <= 0)
    requires t == s[lo + r := s[lo + c]][lo + c := s[lo + r]]
    ensures Preorder(cmp) && HeapBut(cmp, s, lo, n, start, r) && LargerChild(cmp, s, lo, n, r, c) ==>
      HeapBut(cmp, t, lo, n, start, c)
  {
    if Preorder(cmp) && HeapBut(cmp, s, lo, n, start, r) && LargerChild(cmp, s, lo, n, r, c) {
      HoleMovesUnder(cmp, s, t, lo, n, start, r, c);
    }
  }

  lemma HoleMovesUnder<T(!new)>(cmp: (T, T) -> int, s: seq<T>, t: seq<T>, lo: nat, n: nat, start: nat, r: nat, c: nat)
    requires lo + n <= |s| && start <= r < n && Preorder(cmp) && HeapBut(cmp, s, lo, n, start, r)
    requires LargerChild(cmp, s, lo, n, r, c) && cmp(s[lo + r], s[lo + c]) <= 0
    requires t == s[lo + r := s[lo + c]][lo + c := s[lo + r]]
    ensures HeapBut(cmp, t, lo, n, start, c)
  {
    forall d | 1 <= d < n && Parent(d) >= start && Parent(d) != c
      ensures cmp(t[lo + d], t[lo + Parent(d)]) <= 0
    {
      assert d == c || d == r || t[lo + d] == s[lo + d];
    }
    forall d | 1 <= d < n && Parent(d) == c
      ensures cmp(t[lo + d], t[lo + Parent(c)]) <= 0
    {
      assert t[lo + d] == s[lo + d] && t[lo + r] == s[lo + c];
    }
  }

  lemma HoleFilled<T(!new)>(cmp: (T, T) -> int, s: seq<T>, lo: nat, n: nat, start: nat, r: nat, c: nat)
    requires lo + n <= |s| && start <= r < n && c < n
    requires 2 * r + 1 >= n || (Preorder(cmp) ==> cmp(s[lo + r], s[lo + c]) > 0)
    ensures Preorder(cmp) && HeapBut(cmp, s, lo, n, start, r) && (2 * r + 1 >= n || LargerChild(cmp, s, lo, n, r, c))
            ==> Heap(cmp, s, lo, n, start)
  {
    if Preorder(cmp) && HeapBut(cmp, s, lo, n, start, r) && (2 * r + 1 >= n || LargerChild(cmp, s, lo, n, r, c)) {
      forall d | 1 <= d < n && Parent(d) >= start
        ensures cmp(s[lo + d], s[lo + Parent(d)]) <= 0
      {
        if Parent(d) == r {
          assert cmp(s[lo + d], s[lo + c]) <= 0 && cmp(s[lo + c], s[lo + r]) <= 0;
        }
      }
    }
  }

  /** The child of r to compare with. */
  method PickChild<T(!new)>(a: array<T>, lo: nat, n: nat, r: nat, o: Comparison<T>) returns (c: nat)
    requires lo + n <= a.Length && 2 * r + 1 < n
    modifies o
    ensures r < c < n && (Preorder(o.Order()) ==> LargerChild(o.Order(), a[..], lo, n, r, c))
  {
    ghost var cmp := o.Order();
    hide Preorder, LargerChild;
    if Preorder(cmp) {
      Children(cmp, a[..], lo, n, r);
    }
    c := 2 * r + 1;
    if c < n - 1 {
      var v := o.Compare(a[lo + c], a[lo + c + 1]);
      if v <= 0 {
        c := c + 1;
      }
    }
  }

  /** The sift-down loop from r over the first n elements from lo on. */
  method Sift<T(!new)>(a: array<T>, lo: nat, n: nat, start: nat, o: Comparison<T>)
    requires lo + n <= a.Length && start < n
    requires Preorder(o.Order()) ==> HeapBut(o.Order(), a[..], lo, n, start, start)
    modifies a, o
    ensures Rearranged(old(a[..]), a[..], lo, lo + n)
    ensures Preorder(o.Order()) ==> Heap(o.Order(), a[..], lo, n, start)
  {
    hide *;
    ghost var cmp := o.Order();
    var r := start;
    ghost var s0 := a[..];
    RearrangedRefl(s0, lo, lo + n);
    while 2 * r + 1 < n
      invariant start <= r < n && Rearranged(s0, a[..], lo, lo + n)
      invariant Preorder(cmp) ==> HeapBut(cmp, a[..], lo, n, start, r)
      decreases n - r
    {
      ghost var s := a[..];
      var c := PickChild(a, lo, n, r, o);
      var v := o.Compare(a[lo + r], a[lo + c]);
      SignIs(v);
      SignIs(cmp(a[lo + r], a[lo + c]));
      if v > 0 {
        HoleFilled(cmp, s, lo, n, start, r, c);
        return;
      }
      Swap(a, lo + r, lo + c, s0, lo, lo + n);
      HoleMoves(cmp, s, a[..], lo, n, start, r, c);
      r := c;
    }
    HoleFilled(cmp, a[..], lo, n, start, r, r);
  }

  /** The first i elements from lo on are a heap none of whose elements exceeds the rest,
      which is in order. */
  ghost predicate TailSorted<T(!new)>(cmp: (T, T) -> int, s: seq<T>, lo: nat, i: nat, n: nat)
  {
    forall x, y :: lo <= x < y < lo + n && lo + i <= y < |s| ==> cmp(s[x], s[y]) <= 0
  }

  /** Rearranging the heap part keeps the tail in order and above it. */
  lemma TailKept<T(!new)>(cmp: (T, T) -> int, s: seq<T>, t: seq<T>, lo: nat, i: nat, n: nat)
    requires lo + n <= |s| && i <= n && TailSorted(cmp, s, lo, i, n) && Rearranged(s, t, lo, lo + i)
    ensures TailSorted(cmp, t, lo, i, n)
  {
    forall x, y | lo <= x < y < lo + n && lo + i <= y
      ensures cmp(t[x], t[y]) <= 0
    {
      var x' := x;
      if x < lo + i {
        x' := RearrangedFrom(s, t, lo, lo + i, x);
      }
    }
  }

  /** Moving the root behind the heap extends the tail. */
  lemma TailGrows<T(!new)>(cmp: (T, T) -> int, s: seq<T>, t: seq<T>, lo: nat, i: nat, n: nat)
    requires lo + n <= |s| && 1 <= i < n && Preorder(cmp) && Heap(cmp, s, lo, i + 1, 0)
      && TailSorted(cmp, s, lo, i + 1, n)
    requires t == s[lo := s[lo + i]][lo + i := s[lo]]
    ensures TailSorted(cmp, t, lo, i, n) && HeapBut(cmp, t, lo, i, 0, 0)
  {
    forall x, y | lo <= x < y < lo + n && lo + i <= y
      ensures cmp(t[x], t[y]) <= 0
    {
      HeapMax(cmp, s, lo, i + 1, if x < lo + i then x - lo else 0);
      HeapMax(cmp, s, lo, i + 1, i);
    }
    forall c | 1 <= c < i && Parent(c) >= 0 && Parent(c) != 0
      ensures cmp(t[lo + c], t[lo + Parent(c)]) <= 0
    {
      assert t[lo + c] == s[lo + c] && t[lo + Parent(c)] == s[lo + Parent(c)];
    }
  }

  lemma HeapToBut<T(!new)>(cmp: (T, T) -> int, s: seq<T>, lo: nat, n: nat, start: nat)
    requires lo + n <= |s|
    ensures Heap(cmp, s, lo, n, start + 1) ==> HeapBut(cmp, s, lo, n, start, start)
  {}

  /** Leaves have no children. */
  lemma LeavesAreHeap<T(!new)>(cmp: (T, T) -> int, s: seq<T>, lo: nat, n: nat)
    requires lo + n <= |s|
    ensures Heap(cmp, s, lo, n, n / 2) && TailSorted(cmp, s, lo, n, n)
  {}

  lemma TailAll<T(!new)>(cmp: (T, T) -> int, s: seq<T>, lo: nat, n: nat)
    requires lo + n <= |s|
    ensures TailSorted(cmp, s, lo, 1, n) ==> SegSorted(cmp, s, lo, lo + n)
  {}

  /** Builds a heap from the leaves up. */
  method Heapify<T(!new)>(a: array<T>, lo: nat, n: nat, o: Comparison<T>)
    requires lo + n <= a.Length
    modifies a, o
    ensures Rearranged(old(a[..]), a[..], lo, lo + n)
    ensures Preorder(o.Order()) ==> Heap(o.Order(), a[..], lo, n, 0)
  {
    hide *;
    ghost var cmp := o.Order();
    ghost var s0 := a[..];
    RearrangedRefl(s0, lo, lo + n);
    LeavesAreHeap(cmp, s0, lo, n);
    var i := n / 2;
    while i > 0
      invariant 0 <= i <= n / 2 && Rearranged(s0, a[..], lo, lo + n)
      invariant Preorder(cmp) ==> Heap(cmp, a[..], lo, n, i)
    {
      i := i - 1;
      ghost var s := a[..];
      HeapToBut(cmp, s, lo, n, i);
      Sift(a, lo, n, i, o);
      RearrangedTrans(s0, s, a[..], lo, lo + n);
    }
  }

  /** Moves the largest of the first i + 1 elements behind the others. */
  method Extract<T(!new)>(a: array<T>, lo: nat, n: nat, i: nat, o: Comparison<T>, ghost s0: seq<T>)
    requires lo + n <= a.Length && 0 < i < n && Rearranged(s0, a[..], lo, lo + n)
    requires Preorder(o.Order()) ==> Heap(o.Order(), a[..], lo, i + 1, 0) && TailSorted(o.Order(), a[..], lo, i + 1, n)
    modifies a, o
    ensures Rearranged(s0, a[..], lo, lo + n)
    ensures Preorder(o.Order()) ==> Heap(o.Order(), a[..], lo, i, 0) && TailSorted(o.Order(), a[..], lo, i, n)
  {
    hide *;
    ghost var cmp := o.Order();
    ghost var s := a[..];
    Swap(a, lo, lo + i, s0, lo, lo + n);
    ghost var t := a[..];
    if Preorder(cmp) {
      TailGrows(cmp, s, t, lo, i, n);
    }
    Sift(a, lo, i, 0, o);
    ghost var u := a[..];
    if Preorder(cmp) {
      TailKept(cmp, t, u, lo, i, n);
    }
    RearrangedWiden(t, u, lo, lo + i, lo, lo + n);
    RearrangedTrans(s0, t, u, lo, lo + n);
  }

  /** Permutes any segment whatever the comparison answers, and sorts it under a preorder. */
  method Heapsort<T(!new)>(a: array<T>, lo: nat, n: nat, o: Comparison<T>)
    requires lo + n <= a.Length
    modifies a, o
    ensures Rearranged(old(a[..]), a[..], lo, lo + n)
    ensures Preorder(o.Order()) ==> SegSorted(o.Order(), a[..], lo, lo + n)
  {
    hide *;
    ghost var cmp := o.Order();
    ghost var s0 := a[..];
    RearrangedRefl(s0, lo, lo + n);
    if n <= 1 {
      ShortSorted(cmp, s0, lo, lo + n);
      return;
    }
    Heapify(a, lo, n, o);
    LeavesAreHeap(cmp, a[..], lo, n);
    var i := n - 1;
    while i > 0
      invariant 0 <= i < n && Rearranged(s0, a[..], lo, lo + n)
      invariant Preorder(cmp) ==> Heap(cmp, a[..], lo, i + 1, 0) && TailSorted(cmp, a[..], lo, i + 1, n)
    {
      Extract(a, lo, n, i, o, s0);
      i := i - 1;
    }
    TailAll(cmp, a[..], lo, n);
  }
}
