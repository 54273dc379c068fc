/** Canonical ordering of combining characters (cpp/src/quickjs/libunicode.c, sort_cc;
    section 3.11 of the Unicode Standard), for any combining class function. */
module CanonicalOrder {

  // ---- the algorithm of the standard ----

  /** Two neighbours are a reorderable pair: classes out of order, neither of them zero. */
  predicate Reorderable(cc: int -> nat, a: int, b: int)
  {
    cc(a) > cc(b) > 0
  }

  /** One exchange of a reorderable pair. */
  ghost predicate Exchange(cc: int -> nat, s: seq<int>, t: seq<int>, i: nat)
  {
    && i + 1 < |s| && Reorderable(cc, s[i], s[i + 1])
    && t == s[i := s[i + 1]][i + 1 := s[i]]
  }

  /** t comes from s by n exchanges. */
  ghost predicate Exchanges(cc: int -> nat, s: seq<int>, t: seq<int>, n: nat)
    decreases n
  {
    if n == 0 then s == t else exists u, i :: Exchange(cc, s, u, i) && Exchanges(cc, u, t, n - 1)
  }

  /** No reorderable pair is left. */
  predicate Ordered(cc: int -> nat, s: seq<int>)
  {
    forall i :: 0 <= i < |s| - 1 ==> !Reorderable(cc, s[i], s[i + 1])
  }

  // ---- ordering by insertion ----

  /** x moves left past larger nonzero classes. */
  function Insert(cc: int -> nat, s: seq<int>, x: int): (r: seq<int>)
    ensures |r| == |s| + 1
  {
    if s == [] || !Reorderable(cc, s[|s| - 1], x) then s + [x]
    else Insert(cc, s[..|s| - 1], x) + [s[|s| - 1]]
  }

  function Canonical(cc: int -> nat, s: seq<int>): (r: seq<int>)
    ensures |r| == |s|
  {
    if s == [] then [] else Insert(cc, Canonical(cc, s[..|s| - 1]), s[|s| - 1])
  }

  lemma CanonicalSnoc(cc: int -> nat, s: seq<int>, x: int)
    ensures Canonical(cc, s + [x]) == Insert(cc, Canonical(cc, s), x)
  {
    assert (s + [x])[..|s|] == s;
  }

  lemma InsertSnoc(cc: int -> nat, s: seq<int>, y: int, x: int)
    ensures Insert(cc, s + [y], x) == if Reorderable(cc, y, x) then Insert(cc, s, x) + [y] else s + [y] + [x]
  {
    assert (s + [y])[..|s|] == s;
  }

  /** Two insertions of a reorderable pair give the same in either order. */
  lemma {:induction false} InsertExchange(cc: int -> nat, s: seq<int>, a: int, b: int)
    requires Reorderable(cc, a, b)
    ensures Insert(cc, Insert(cc, s, a), b) == Insert(cc, Insert(cc, s, b), a)
  {
    if s == [] {
      assert Insert(cc, s, a) == [a] && Insert(cc, s, b) == [b];
      InsertSnoc(cc, [], a, b);
      InsertSnoc(cc, [], b, a);
      assert [] + [a] == [a] && [] + [b] == [b];
    } else {
      var r, y := s[..|s| - 1], s[|s| - 1];
      assert s == r + [y];
      InsertSnoc(cc, r, y, a);
      InsertSnoc(cc, r, y, b);
      InsertSnoc(cc, s, a, b);
      if Reorderable(cc, y, a) {
        InsertExchange(cc, r, a, b);
        InsertSnoc(cc, Insert(cc, r, a), y, b);
        InsertSnoc(cc, Insert(cc, r, b), y, a);
      } else if Reorderable(cc, y, b) {
        InsertSnoc(cc, Insert(cc, r, b), y, a);
      } else {
        InsertSnoc(cc, s, b, a);
      }
    }
  }

  lemma {:induction false} CanonicalAppend(cc: int -> nat, s: seq<int>, t: seq<int>, u: seq<int>)
    requires Canonical(cc, s) == Canonical(cc, t)
    ensures Canonical(cc, s + u) == Canonical(cc, t + u)
    decreases |u|
  {
    hide Canonical, Insert;
    if u == [] {
      assert s + u == s && t + u == t;
    } else {
      var v, x := u[..|u| - 1], u[|u| - 1];
      CanonicalAppend(cc, s, t, v);
      CanonicalSnoc(cc, s + v, x);
      CanonicalSnoc(cc, t + v, x);
      assert s + u == s + v + [x] && t + u == t + v + [x];
    }
  }

  lemma ExchangeSplit(s: seq<int>, t: seq<int>, i: nat)
    requires i + 1 < |s| && t == s[i := s[i + 1]][i + 1 := s[i]]
    ensures s == (s[..i] + [s[i]] + [s[i + 1]]) + s[i + 2..] && t == (s[..i] + [s[i + 1]] + [s[i]]) + s[i + 2..]
  {}

  /** An exchange does not change the canonical order. */
  lemma ExchangeCanonical(cc: int -> nat, s: seq<int>, t: seq<int>, i: nat)
    requires Exchange(cc, s, t, i)
    ensures Canonical(cc, s) == Canonical(cc, t)
  {
    var p, a, b := s[..i], s[i], s[i + 1];
    CanonicalSnoc(cc, p, a);
    CanonicalSnoc(cc, p + [a], b);
    CanonicalSnoc(cc, p, b);
    CanonicalSnoc(cc, p + [b], a);
    InsertExchange(cc, Canonical(cc, p), a, b);
    CanonicalAppend(cc, p + [a] + [b], p + [b] + [a], s[i + 2..]);
    ExchangeSplit(s, t, i);
  }

  /** An ordered sequence is its own canonical order. */
  lemma {:induction false} OrderedFixed(cc: int -> nat, s: seq<int>)
    requires Ordered(cc, s)
    ensures Canonical(cc, s) == s
  {
    if s != [] {
      var r := s[..|s| - 1];
      OrderedFixed(cc, r);
      if r != [] {
        assert !Reorderable(cc, s[|s| - 2], s[|s| - 1]);
      }
    }
  }

  /** However the exchanges are chosen, an ordered result is the canonical order. */
  lemma {:induction false} ExchangesUnique(cc: int -> nat, s: seq<int>, t: seq<int>, n: nat)
    requires Exchanges(cc, s, t, n) && Ordered(cc, t)
    ensures t == Canonical(cc, s)
    decreases n
  {
    if n == 0 {
      OrderedFixed(cc, s);
    } else {
      var u, i :| Exchange(cc, s, u, i) && Exchanges(cc, u, t, n - 1);
      ExchangesUnique(cc, u, t, n - 1);
      ExchangeCanonical(cc, s, u, i);
    }
  }

  // ---- the canonical order is reached ----

  lemma {:induction false} ExchangesJoin(cc: int -> nat, s: seq<int>, t: seq<int>, u: seq<int>, m: nat, n: nat)
    requires Exchanges(cc, s, t, m) && Exchanges(cc, t, u, n)
    ensures Exchanges(cc, s, u, m + n)
    decreases m
  {
    if m > 0 {
      var v, i :| Exchange(cc, s, v, i) && Exchanges(cc, v, t, m - 1);
      ExchangesJoin(cc, v, t, u, m - 1, n);
    }
  }

  lemma {:induction false} ExchangesSnoc(cc: int -> nat, s: seq<int>, t: seq<int>, x: int, n: nat)
    requires Exchanges(cc, s, t, n)
    ensures Exchanges(cc, s + [x], t + [x], n)
    decreases n
  {
    if n > 0 {
      var u, i :| Exchange(cc, s, u, i) && Exchanges(cc, u, t, n - 1);
      ExchangesSnoc(cc, u, t, x, n - 1);
      assert Exchange(cc, s + [x], u + [x], i);
    }
  }

  lemma {:induction false} InsertReached(cc: int -> nat, s: seq<int>, x: int) returns (n: nat)
    ensures Exchanges(cc, s + [x], Insert(cc, s, x), n)
    decreases |s|
  {
    if s == [] || !Reorderable(cc, s[|s| - 1], x) {
      n := 0;
    } else {
      var r, y := s[..|s| - 1], s[|s| - 1];
      var m := InsertReached(cc, r, x);
      ExchangesSnoc(cc, r + [x], Insert(cc, r, x), y, m);
      assert Exchange(cc, s + [x], r + [x] + [y], |r|);
      n := m + 1;
    }
  }

  lemma {:induction false} CanonicalReached(cc: int -> nat, s: seq<int>) returns (n: nat)
    ensures Exchanges(cc, s, Canonical(cc, s), n)
    decreases |s|
  {
    if s == [] {
      n := 0;
    } else {
      var r, x := s[..|s| - 1], s[|s| - 1];
      var m := CanonicalReached(cc, r);
      ExchangesSnoc(cc, r, Canonical(cc, r), x, m);
      var k := InsertReached(cc, Canonical(cc, r), x);
      assert s == r + [x];
      ExchangesJoin(cc, s, Canonical(cc, r) + [x], Canonical(cc, s), m, k);
      n := m + k;
    }
  }

  lemma {:induction false} InsertOrdered(cc: int -> nat, s: seq<int>, x: int)
    requires Ordered(cc, s)
    ensures Ordered(cc, Insert(cc, s, x))
    ensures s != [] ==> (var l := Insert(cc, s, x)[|s|]; l == s[|s| - 1] || l == x)
  {
    if s == [] {
    } else {
      var r, y := s[..|s| - 1], s[|s| - 1];
      if Reorderable(cc, y, x) {
        InsertOrdered(cc, r, x);
        var t := Insert(cc, r, x);
        assert r != [] ==> !Reorderable(cc, s[|s| - 2], y);
        assert r == [] ==> t == [x];
        forall i | 0 <= i < |t + [y]| - 1
          ensures !Reorderable(cc, (t + [y])[i], (t + [y])[i + 1])
        {
        }
      }
    }
  }

  lemma {:induction false} CanonicalOrdered(cc: int -> nat, s: seq<int>)
    ensures Ordered(cc, Canonical(cc, s))
  {
    if s != [] {
      CanonicalOrdered(cc, s[..|s| - 1]);
      InsertOrdered(cc, Canonical(cc, s[..|s| - 1]), s[|s| - 1]);
    }
  }

  /** Exchanging reorderable pairs until none is left always ends with the canonical order. */
  lemma CanonicalIsTheOrder(cc: int -> nat, s: seq<int>)
    ensures exists n :: Exchanges(cc, s, Canonical(cc, s), n)
    ensures Ordered(cc, Canonical(cc, s))
    ensures forall t, n :: Exchanges(cc, s, t, n) && Ordered(cc, t) ==> t == Canonical(cc, s)
  {
    var n := CanonicalReached(cc, s);
    CanonicalOrdered(cc, s);
    forall t, n | Exchanges(cc, s, t, n) && Ordered(cc, t)
      ensures t == Canonical(cc, s)
    {
      ExchangesUnique(cc, s, t, n);
    }
  }

  /** Nothing is lost, and what has class zero stays where it is. */
  lemma {:induction false} InsertKeeps(cc: int -> nat, s: seq<int>, x: int)
    ensures multiset(Insert(cc, s, x)) == multiset(s) + multiset{x}
    ensures forall i :: 0 <= i <= |s| && cc((s + [x])[i]) == 0 ==> Insert(cc, s, x)[i] == (s + [x])[i]
    ensures forall i :: 0 <= i <= |s| && cc(Insert(cc, s, x)[i]) == 0 ==> (s + [x])[i] == Insert(cc, s, x)[i]
  {
    if s != [] && Reorderable(cc, s[|s| - 1], x) {
      var r, y := s[..|s| - 1], s[|s| - 1];
      InsertKeeps(cc, r, x);
      assert s == r + [y];
    }
  }

  lemma {:induction false} CanonicalKeeps(cc: int -> nat, s: seq<int>)
    ensures multiset(Canonical(cc, s)) == multiset(s)
    ensures forall i :: 0 <= i < |s| && (cc(s[i]) == 0 || cc(Canonical(cc, s)[i]) == 0) ==> Canonical(cc, s)[i] == s[i]
  {
    if s != [] {
      var r, x := s[..|s| - 1], s[|s| - 1];
      CanonicalKeeps(cc, r);
      InsertKeeps(cc, Canonical(cc, r), x);
      assert s == r + [x];
    }
  }

  // ---- sort_cc ----

  /** A starter is not moved, and nothing moves past it. */
  lemma InsertStarter(cc: int -> nat, s: seq<int>, x: int)
    requires cc(x) == 0 || s == [] || cc(s[|s| - 1]) == 0
    ensures Insert(cc, s, x) == s + [x]
  {}

  /** What shifting by one while looking for the place computes. */
  lemma {:induction false} InsertAt(cc: int -> nat, s: seq<int>, x: int, k: nat)
    requires k <= |s| && cc(x) > 0 && (forall i :: k <= i < |s| ==> cc(s[i]) > cc(x))
      && (k > 0 ==> cc(s[k - 1]) <= cc(x))
    ensures Insert(cc, s, x) == s[..k] + [x] + s[k..]
    decreases |s|
  {
    if k == |s| {
      assert s[..k] + [x] + s[k..] == s + [x];
    } else {
      var r, y := s[..|s| - 1], s[|s| - 1];
      InsertAt(cc, r, x, k);
      assert s[..k] + [x] + s[k..] == (r[..k] + [x] + r[k..]) + [y];
    }
  }

  /** The innermost loop: buf[j] goes to its place among the elements from start on. */
  method InsertInPlace(cc: int -> nat, buf: array<int>, start: nat, j: nat)
    requires start < j < buf.Length && cc(buf[j]) != 0 && (start > 0 ==> cc(buf[start - 1]) == 0)
    modifies buf
    ensures buf[..j + 1] == Insert(cc, old(buf[..j]), old(buf[j])) && buf[j + 1..] == old(buf[j + 1..])
    ensures forall i :: 0 <= i < start ==> buf[i] == old(buf[i])
  {
    hide Insert;
    ghost var s := buf[..];
    var x := buf[j];
    var k := j - 1;
    while k >= start && cc(buf[k]) > cc(x)
      invariant start - 1 <= k < j
      invariant forall i :: 0 <= i <= k || j < i < buf.Length ==> buf[i] == s[i]
      invariant forall i :: k + 1 < i <= j ==> buf[i] == s[i - 1]
      invariant forall i :: k < i < j ==> cc(s[i]) > cc(x)
      decreases k
    {
      buf[k + 1] := buf[k];
      k := k - 1;
    }
    buf[k + 1] := x;
    MovedInto(cc, s, buf[..], j, k + 1);
  }

  lemma MovedInto(cc: int -> nat, s: seq<int>, b: seq<int>, j: nat, k: nat)
    requires k <= j < |s| == |b| && cc(s[j]) > 0 && b[k] == s[j]
    requires (forall i :: 0 <= i < k || j < i < |s| ==> b[i] == s[i]) && (forall i :: k < i <= j ==> b[i] == s[i - 1])
    requires (forall i :: k <= i < j ==> cc(s[i]) > cc(s[j])) && (k > 0 ==> cc(s[k - 1]) <= cc(s[j]))
    ensures b[..j + 1] == Insert(cc, s[..j], s[j]) && b[j + 1..] == s[j + 1..]
  {
    hide Insert;
    var r := s[..j];
    InsertAt(cc, r, s[j], k);
    assert b[..j + 1] == r[..k] + [s[j]] + r[k..];
  }

  lemma PrefixNext(s: seq<int>, i: nat)
    requires i < |s|
    ensures s[..i + 1] == s[..i] + [s[i]]
  {}

  /** sort_cc. */
  method SortCc(cc: int -> nat, buf: array<int>)
    modifies buf
    ensures buf[..] == Canonical(cc, old(buf[..]))
  {
    hide Canonical, Insert, Settled;
    ghost var s := buf[..];
    SettledStart(cc, s);
    var i := 0;
    while i < buf.Length
      invariant 0 <= i && (i <= buf.Length || i == buf.Length + 1)
      invariant i <= buf.Length ==> Settled(cc, buf[..], s, i) && (0 < i ==> cc(buf[i - 1]) == 0)
      invariant i > buf.Length ==> buf[..] == Canonical(cc, s)
    {
      SettledNext(cc, buf[..], s, i);
      if cc(buf[i]) != 0 {
        var start, j := i, i + 1;
        while j < buf.Length && cc(buf[j]) != 0
          invariant start < j <= buf.Length && Settled(cc, buf[..], s, j)
          invariant start > 0 ==> cc(buf[start - 1]) == 0
        {
          ghost var b := buf[..];
          InsertInPlace(cc, buf, start, j);
          SettledInsert(cc, b, buf[..], s, j);
          j := j + 1;
        }
        if j < buf.Length {
          SettledNext(cc, buf[..], s, j);
        } else {
          SettledAll(cc, buf[..], s);
        }
        i := j;
      }
      i := i + 1;
    }
    if i == buf.Length {
      SettledAll(cc, buf[..], s);
    }
  }

  /** The first j elements are in canonical order, the others untouched. */
  ghost predicate Settled(cc: int -> nat, b: seq<int>, s: seq<int>, j: nat)
  {
    j <= |b| == |s| && b[..j] == Canonical(cc, s[..j]) && b[j..] == s[j..]
  }

  lemma SettledStart(cc: int -> nat, s: seq<int>)
    ensures Settled(cc, s, s, 0)
  {}

  lemma SettledNext(cc: int -> nat, b: seq<int>, s: seq<int>, j: nat)
    requires Settled(cc, b, s, j) && j < |s| && (j == 0 || cc(b[j - 1]) == 0 || cc(b[j]) == 0)
    ensures Settled(cc, b, s, j + 1)
  {
    assert b[j] == b[j..][0] == s[j..][0] == s[j];
    PrefixNext(s, j);
    PrefixNext(b, j);
    CanonicalSnoc(cc, s[..j], s[j]);
    if j > 0 {
      assert b[j - 1] == b[..j][j - 1];
    }
    InsertStarter(cc, b[..j], b[j]);
    assert b[j + 1..] == b[j..][1..] && s[j + 1..] == s[j..][1..];
  }

  lemma SettledInsert(cc: int -> nat, b: seq<int>, b': seq<int>, s: seq<int>, j: nat)
    requires Settled(cc, b, s, j) && j < |s| == |b'| && b'[..j + 1] == Insert(cc, b[..j], b[j])
      && b'[j + 1..] == b[j + 1..]
    ensures Settled(cc, b', s, j + 1)
  {
    assert b[j] == b[j..][0] == s[j..][0] == s[j];
    PrefixNext(s, j);
    CanonicalSnoc(cc, s[..j], s[j]);
    assert b[j + 1..] == b[j..][1..] && s[j + 1..] == s[j..][1..];
  }

  lemma SettledAll(cc: int -> nat, b: seq<int>, s: seq<int>)
    requires Settled(cc, b, s, |s|)
    ensures b == Canonical(cc, s)
  {
    assert b[..|s|] == b && s[..|s|] == s;
  }
}
