/** What it means to rearrange part of a sequence and to have it in order, for the
    sorting routines of cpp/src/quickjs/cutils.c, and the comparison they call. */
module SortSpec {

  // ---- comparisons ----

  function Sign(c: int): (r: int) { if c < 0 then -1 else if c > 0 then 1 else 0 }

  lemma SignIs(c: int)
    ensures Sign(c) == if c < 0 then -1 else if c > 0 then 1 else 0
  {}

  /** The callback with its opaque argument: what it answers may depend on the call. */
  class Comparison<T(!new)> {
    const answer: (nat, T, T) -> int
    var calls: nat

    constructor (answer: (nat, T, T) -> int)
      ensures this.answer == answer && calls == 0
    {
      this.answer := answer;
      calls := 0;
    }

    method Compare(x: T, y: T) returns (c: int)
      modifies this
      ensures c == answer(old(calls), x, y) && calls == old(calls) + 1
      ensures Preorder(Order()) ==> Sign(c) == Sign(Order()(x, y))
    {
      c := answer(calls, x, y);
      if Steady(answer) {
        assert Sign(c) == Sign(answer(0, x, y));
      } else {
        NoOrder(x);
      }
      calls := calls + 1;
    }

    /** The comparison as a function of its arguments; no preorder if it is none. */
    ghost function Order(): (cmp: (T, T) -> int)
    {
      if Steady(answer) then (x: T, y: T) => answer(0, x, y) else (x: T, y: T) => 1
    }
  }

  /** The sign of the answer depends on the arguments alone. */
  ghost predicate Steady<T(!new)>(answer: (nat, T, T) -> int)
  {
    forall n, x, y :: Sign(answer(n, x, y)) == Sign(answer(0, x, y))
  }

  lemma NoOrder<T(!new)>(x: T)
    ensures !Preorder((x: T, y: T) => 1)
  {
    var cmp := (x: T, y: T) => 1;
    assert !(cmp(x, x) < 0) && cmp(x, x) > 0;
  }

  /** At every call the answer has the sign that cmp gives. */
  ghost predicate Follows<T(!new)>(answer: (nat, T, T) -> int, cmp: (T, T) -> int)
  {
    forall n, x, y :: Sign(answer(n, x, y)) == Sign(cmp(x, y))
  }

  /** Answers that follow a preorder: the order is that one. */
  lemma OrderIs<T(!new)>(o: Comparison<T>, cmp: (T, T) -> int, s: seq<T>)
    requires Preorder(cmp) && Follows(o.answer, cmp)
    ensures Preorder(o.Order()) && (Sorted(o.Order(), s) <==> Sorted(cmp, s))
  {
    assert Steady(o.answer);
    assert forall x, y :: Sign(o.Order()(x, y)) == Sign(cmp(x, y));
  }

  // ---- specifications ----

  /** cmp orders its arguments consistently (a total preorder). */
  ghost predicate Preorder<T(!new)>(cmp: (T, T) -> int)
  {
    && (forall x, y :: cmp(x, y) < 0 <==> cmp(y, x) > 0)
    && (forall x, y, z :: cmp(x, y) <= 0 && cmp(y, z) <= 0 ==> cmp(x, z) <= 0)
  }

  /** t is s with positions lo..hi permuted. */
  ghost predicate Rearranged<T>(s: seq<T>, t: seq<T>, lo: nat, hi: nat)
  {
    && |s| == |t| && lo <= hi <= |s| && multiset(s) == multiset(t)
    && (forall k :: 0 <= k < |s| && !(lo <= k < hi) ==> s[k] == t[k])
  }

  /** Nothing before position c exceeds anything from c on. */
  ghost predicate Cut<T(!new)>(cmp: (T, T) -> int, s: seq<T>, c: nat)
  {
    forall i, j :: 0 <= i < c <= j < |s| ==> cmp(s[i], s[j]) <= 0
  }

  ghost predicate SegSorted<T(!new)>(cmp: (T, T) -> int, s: seq<T>, lo: nat, hi: nat)
  {
    forall i, j :: lo <= i < j < hi && j < |s| ==> cmp(s[i], s[j]) <= 0
  }

  ghost predicate Sorted<T(!new)>(cmp: (T, T) -> int, s: seq<T>)
  {
    SegSorted(cmp, s, 0, |s|)
  }

  ghost function ByKey<T(!new)>(key: T -> int): (cmp: (T, T) -> int)
  {
    (x: T, y: T) => key(x) - key(y)
  }

  /** Comparing keys is such an order, whatever the size of the answers, and sorted by it means
      that the keys do not decrease. */
  lemma KeysOrder<T(!new)>(key: T -> int, answer: (nat, T, T) -> int, s: seq<T>)
    requires forall n: nat, x: T, y: T ::
      (answer(n, x, y) < 0 <==> key(x) < key(y)) && (answer(n, x, y) > 0 <==> key(x) > key(y))
    ensures Preorder(ByKey(key)) && Follows(answer, ByKey(key))
    ensures Sorted(ByKey(key), s) <==> forall i, j :: 0 <= i < j < |s| ==> key(s[i]) <= key(s[j])
  {
    var cmp := ByKey(key);
    assert forall x: T, y: T :: cmp(x, y) == key(x) - key(y);
  }

  lemma ShortSorted<T(!new)>(cmp: (T, T) -> int, s: seq<T>, lo: nat, hi: nat)
    requires hi <= lo + 1
    ensures SegSorted(cmp, s, lo, hi)
  {}

  lemma RearrangedRefl<T>(s: seq<T>, lo: nat, hi: nat)
    requires lo <= hi <= |s|
    ensures Rearranged(s, s, lo, hi)
  {}

  lemma RearrangedTrans<T>(s: seq<T>, t: seq<T>, u: seq<T>, lo: nat, hi: nat)
    ensures Rearranged(s, t, lo, hi) && Rearranged(t, u, lo, hi) ==> Rearranged(s, u, lo, hi)
  {}

  lemma RearrangedWiden<T>(s: seq<T>, t: seq<T>, lo: nat, hi: nat, lo': nat, hi': nat)
    requires lo' <= lo && hi <= hi' <= |s|
    ensures Rearranged(s, t, lo, hi) ==> Rearranged(s, t, lo', hi')
  {}

  lemma SwapRearranges<T>(s: seq<T>, t: seq<T>, i: nat, j: nat, lo: nat, hi: nat)
    requires lo <= i < hi <= |s| && lo <= j < hi
    requires t == s[i := s[j]][j := s[i]]
    ensures Rearranged(s, t, lo, hi)
  {}

  lemma Middle<T>(s: seq<T>, lo: nat, hi: nat)
    requires lo <= hi <= |s|
    ensures multiset(s[lo..hi]) == multiset(s) - multiset(s[..lo]) - multiset(s[hi..])
  {
    var a, b, c := s[..lo], s[lo..hi], s[hi..];
    assert s == a + (b + c);
  }

  /** Each value found in the part after rearranging was there before. */
  lemma RearrangedFrom<T>(s: seq<T>, t: seq<T>, lo: nat, hi: nat, k: nat) returns (k': nat)
    requires Rearranged(s, t, lo, hi) && lo <= k < hi
    ensures lo <= k' < hi && s[k'] == t[k]
  {
    MiddleSame(s, t, lo, hi);
    var d := Find(s[lo..hi], t[lo..hi], k - lo);
    k' := lo + d;
  }

  lemma MiddleSame<T>(s: seq<T>, t: seq<T>, lo: nat, hi: nat)
    requires Rearranged(s, t, lo, hi)
    ensures multiset(s[lo..hi]) == multiset(t[lo..hi])
  {
    Middle(s, lo, hi);
    Middle(t, lo, hi);
    assert s[..lo] == t[..lo] && s[hi..] == t[hi..];
  }

  lemma Find<T>(s: seq<T>, t: seq<T>, k: nat) returns (d: nat)
    requires multiset(s) == multiset(t) && k < |t|
    ensures d < |s| && s[d] == t[k]
  {
    assert t[k] in multiset(t);
    assert t[k] in s;
    d :| 0 <= d < |s| && s[d] == t[k];
  }

  /** A cut outside the part, or at its border, stays a cut. */
  lemma CutKept<T(!new)>(cmp: (T, T) -> int, s: seq<T>, t: seq<T>, lo: nat, hi: nat, c: nat)
    requires Rearranged(s, t, lo, hi) && Cut(cmp, s, c) && (c <= lo || hi <= c)
    ensures Cut(cmp, t, c)
  {
    forall i, j | 0 <= i < c <= j < |t|
      ensures cmp(t[i], t[j]) <= 0
    {
      var i', j' := i, j;
      if lo <= i < hi {
        i' := RearrangedFrom(s, t, lo, hi, i);
      }
      if lo <= j < hi {
        j' := RearrangedFrom(s, t, lo, hi, j);
      }
      assert cmp(s[i'], s[j']) <= 0;
    }
  }

  /** Cuts at both ends of a sorted part make every position in it a cut. */
  lemma SortedCuts<T(!new)>(cmp: (T, T) -> int, s: seq<T>, lo: nat, hi: nat, c: nat)
    requires lo <= c <= hi <= |s| && Cut(cmp, s, lo) && Cut(cmp, s, hi) && SegSorted(cmp, s, lo, hi)
    ensures Cut(cmp, s, c)
  {}

  lemma CutsSorted<T(!new)>(cmp: (T, T) -> int, s: seq<T>)
    requires forall c :: 0 <= c <= |s| ==> Cut(cmp, s, c)
    ensures Sorted(cmp, s)
  {
    forall i, j | 0 <= i < j < |s|
      ensures cmp(s[i], s[j]) <= 0
    {
      assert Cut(cmp, s, j);
    }
  }

  /** Sorting determines the result up to equivalence: two sorted permutations of the same
      values agree position by position in the order. */
  lemma SortedUnique<T(!new)>(cmp: (T, T) -> int, s: seq<T>, t: seq<T>, k: nat)
    requires Preorder(cmp) && Sorted(cmp, s) && Sorted(cmp, t) && multiset(s) == multiset(t) && k < |s|
    ensures |s| == |t| && cmp(s[k], t[k]) == 0
  {
    assert |s| == |multiset(s)| && |t| == |multiset(t)|;
    SortedBelow(cmp, s, t, k);
    SortedBelow(cmp, t, s, k);
  }

  /** The first k+1 values of s cannot all exceed t[k]. */
  lemma SortedBelow<T(!new)>(cmp: (T, T) -> int, s: seq<T>, t: seq<T>, k: nat)
    requires Preorder(cmp) && Sorted(cmp, s) && Sorted(cmp, t) && multiset(s) == multiset(t) && k < |s| == |t|
    ensures cmp(s[k], t[k]) <= 0
  {
    if cmp(s[k], t[k]) > 0 {
      var small := (v: T) => cmp(v, t[k]) <= 0;
      assert forall i :: 0 <= i <= k ==> small(t[i]) by { assert cmp(t[k], t[k]) == 0; }
      CountAtLeast(t, small, k + 1);
      forall i | k <= i < |s|
        ensures !small(s[i])
      {
        assert cmp(s[k], s[k]) == 0;
        assert cmp(s[k], s[i]) <= 0;
        Exceeds(cmp, s[k], s[i], t[k]);
      }
      CountAtMost(s, small, k);
      CountSame(s, t, small);
    }
  }

  lemma Exceeds<T(!new)>(cmp: (T, T) -> int, x: T, y: T, v: T)
    requires Preorder(cmp) && cmp(x, y) <= 0 && cmp(x, v) > 0
    ensures cmp(y, v) > 0
  {}

  ghost function Count<T>(s: seq<T>, p: T -> bool): (n: nat)
  {
    if |s| == 0 then 0 else Count(s[..|s| - 1], p) + if p(s[|s| - 1]) then 1 else 0
  }

  lemma {:induction false} CountAtLeast<T>(s: seq<T>, p: T -> bool, k: nat)
    requires k <= |s| && forall i :: 0 <= i < k ==> p(s[i])
    ensures Count(s, p) >= k
    decreases |s|
  {
    if k > 0 {
      CountAtLeast(s[..|s| - 1], p, if k == |s| then k - 1 else k);
    }
  }

  lemma {:induction false} CountAtMost<T>(s: seq<T>, p: T -> bool, k: nat)
    requires k <= |s| && forall i :: k <= i < |s| ==> !p(s[i])
    ensures Count(s, p) <= k
    decreases |s|
  {
    if |s| > 0 {
      CountAtMost(s[..|s| - 1], p, if k == |s| then k - 1 else k);
    }
  }

  lemma {:induction false} CountConcat<T>(s: seq<T>, t: seq<T>, p: T -> bool)
    ensures Count(s + t, p) == Count(s, p) + Count(t, p)
    decreases |t|
  {
    if |t| == 0 {
      assert s + t == s;
    } else {
      assert (s + t)[..|s + t| - 1] == s + t[..|t| - 1];
      CountConcat(s, t[..|t| - 1], p);
    }
  }

  lemma {:induction false} CountSame<T>(s: seq<T>, t: seq<T>, p: T -> bool)
    requires multiset(s) == multiset(t)
    ensures Count(s, p) == Count(t, p)
    decreases |s|
  {
    if |s| == 0 {
      assert |multiset(s)| == |s| && |multiset(t)| == |t|;
    } else {
      var v, init := s[|s| - 1], s[..|s| - 1];
      assert s == init + [v];
      assert v in multiset(t);
      var i :| 0 <= i < |t| && t[i] == v;
      var a, b := t[..i], t[i + 1..];
      assert t == a + [v] + b;
      assert multiset(a + b) == multiset(t) - multiset{v};
      assert multiset(init) == multiset(s) - multiset{v};
      CountSame(init, a + b, p);
      CountConcat(a, b, p);
      CountConcat(a + [v], b, p);
      CountConcat(a, [v], p);
      CountConcat(init, [v], p);
    }
  }
}
