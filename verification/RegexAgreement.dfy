/** When the program and the standard agree on the optional iterations of a quantifier:
    exact conditions on the order of the program's own results. */
module RegexAgreement {
  import opened RegexBytecode
  import opened RegexSyntax
  import opened RegexCorrect
  import opened RegexLoops
  import opened RegexQuant
  import opened RegexStandard

  // ---- first occurrences ----

  /** The results without repetitions: what a search in this order can find, and when. */
  function Firsts(ys: seq<nat>): (r: seq<nat>)
  {
    if |ys| == 0 then [] else
    var r := Firsts(ys[..|ys| - 1]);
    if ys[|ys| - 1] in r then r else r + [ys[|ys| - 1]]
  }

  predicate Distinct(r: seq<nat>)
  {
    forall i, j :: 0 <= i < j < |r| ==> r[i] != r[j]
  }

  lemma {:induction false} FirstsDistinct(ys: seq<nat>)
    ensures Distinct(Firsts(ys))
  {
    if |ys| > 0 {
      FirstsDistinct(ys[..|ys| - 1]);
    }
  }

  lemma {:induction false} InFirsts(ys: seq<nat>, c: nat -> Option<nat>)
    ensures FirstOf(Firsts(ys), c) == FirstOf(ys, c)
    ensures forall y :: y in Firsts(ys) <==> y in ys
  {
    if |ys| > 0 {
      var a, y := ys[..|ys| - 1], ys[|ys| - 1];
      InFirsts(a, c);
      assert ys == a + [y];
      FirstOfAppend(a, [y], c);
      FirstOfAppend(Firsts(a), [y], c);
      FirstOfOne(y, c);
      if y in Firsts(a) && FirstOf(a, c).None? {
        var k :| 0 <= k < |a| && a[k] == y;
        NoneOf(a, c, k);
      }
    }
  }

  /** Two orders of search are alike: they find the same for every continuation. */
  ghost predicate Alike(ys: seq<nat>, zs: seq<nat>)
  {
    forall c: nat -> Option<nat> :: FirstOf(ys, c) == FirstOf(zs, c)
  }

  lemma {:induction false} DistinctAlike(a: seq<nat>, b: seq<nat>)
    requires Distinct(a) && Distinct(b) && Alike(a, b)
    ensures a == b
    decreases |a|
  {
    FirstOfIdentity(a);
    FirstOfIdentity(b);
    assert FirstOf(a, Identity()) == FirstOf(b, Identity());
    if |a| > 0 {
      var x, a', b' := a[0], a[1..], b[1..];
      assert a == [x] + a' && b == [x] + b';
      assert x !in a' && x !in b';
      forall c: nat -> Option<nat>
        ensures FirstOf(a', c) == FirstOf(b', c)
      {
        var d := Without(c, x);
        assert FirstOf(a, d) == FirstOf(b, d);
        FirstOfAppend([x], a', d);
        FirstOfAppend([x], b', d);
        FirstOfOne(x, d);
        FirstOfWithout(a', c, x);
        FirstOfWithout(b', c, x);
      }
      DistinctAlike(a', b');
    }
  }

  /** First occurrences decide. */
  lemma FirstsDecide(ys: seq<nat>, zs: seq<nat>)
    ensures Alike(ys, zs) <==> Firsts(ys) == Firsts(zs)
  {
    hide FirstOf, Firsts, Distinct;
    FirstsDistinct(ys);
    FirstsDistinct(zs);
    forall c: nat -> Option<nat>
      ensures FirstOf(Firsts(ys), c) == FirstOf(ys, c) && FirstOf(Firsts(zs), c) == FirstOf(zs, c)
    {
      InFirsts(ys, c);
      InFirsts(zs, c);
    }
    if Alike(ys, zs) {
      DistinctAlike(Firsts(ys), Firsts(zs));
    } else {
      var c :| FirstOf(ys, c) != FirstOf(zs, c);
      assert FirstOf(Firsts(ys), c) != FirstOf(Firsts(zs), c);
    }
  }

  // ---- the empty match among the results ----

  /** A result that is new comes after the empty one. */
  ghost predicate EmptyBeforeNew(ys: seq<nat>, x: nat)
  {
    exists j :: 0 <= j < |ys| && x in ys[..j] && ys[j] !in ys[..j]
  }

  lemma {:induction false} FirstOfIndex(ys: seq<nat>, c: nat -> Option<nat>, i: nat)
    requires i < |ys| && c(ys[i]).Some? && forall k :: 0 <= k < i ==> c(ys[k]).None?
    ensures FirstOf(ys, c) == c(ys[i])
  {
    if i > 0 {
      assert c(ys[0]).None?;
      FirstOfIndex(ys[1..], c, i - 1);
    }
  }

  lemma {:induction false} FirstOfNone(ys: seq<nat>, c: nat -> Option<nat>)
    requires forall k :: 0 <= k < |ys| ==> c(ys[k]).None?
    ensures FirstOf(ys, c) == None
  {
    if |ys| > 0 {
      FirstOfNone(ys[1..], c);
    }
  }

  lemma {:induction false} FirstOfWithout(ys: seq<nat>, c: nat -> Option<nat>, x: nat)
    requires x !in ys || c(x).None?
    ensures FirstOf(ys, Without(c, x)) == FirstOf(ys, c)
  {
    if |ys| > 0 {
      FirstOfWithout(ys[1..], c, x);
    }
  }

  lemma {:induction false} NothingNew(ys: seq<nat>, x: nat, i: nat, j: nat)
    requires !EmptyBeforeNew(ys, x) && i < j < |ys| && ys[i] == x
    ensures ys[j] in ys[..i + 1]
    decreases j
  {
    assert x in ys[..j] by { assert ys[..j][i] == x; }
    assert ys[j] in ys[..j];
    var k :| 0 <= k < j && ys[..j][k] == ys[j];
    if k > i {
      NothingNew(ys, x, i, k);
    } else {
      assert ys[..i + 1][k] == ys[j];
    }
  }

  /** Dropping the empty result before the final one changes nothing exactly when nothing
      new follows it. */
  lemma EmptyDoesNotMatter(ys: seq<nat>, x: nat, c: nat -> Option<nat>)
    requires !EmptyBeforeNew(ys, x)
    ensures FirstOf(ys + [x], c) == Else(FirstOf(ys, Without(c, x)), c(x))
  {
    FirstOfAppend(ys, [x], c);
    FirstOfOne(x, c);
    if x !in ys || c(x).None? {
      FirstOfWithout(ys, c, x);
    } else {
      var i := IndexOf(ys, x);
      var a, b := ys[..i], ys[i..];
      assert ys == a + b;
      assert x !in a;
      FirstOfAppend(a, b, c);
      FirstOfAppend(a, b, Without(c, x));
      FirstOfWithout(a, c, x);
      FirstOfIndex(b, c, 0);
      if FirstOf(a, c).None? {
        forall k | 0 <= k < |b|
          ensures Without(c, x)(b[k]).None?
        {
          if k > 0 {
            NothingNew(ys, x, i, i + k);
            var h :| 0 <= h < i + 1 && ys[..i + 1][h] == b[k];
            if h < i {
              assert a[h] == b[k];
              NoneOf(a, c, h);
            }
          }
        }
        FirstOfNone(b, Without(c, x));
      }
    }
  }

  lemma {:induction false} NoneOf(ys: seq<nat>, c: nat -> Option<nat>, h: nat)
    requires FirstOf(ys, c).None? && h < |ys|
    ensures c(ys[h]).None?
  {
    if h > 0 {
      NoneOf(ys[1..], c, h - 1);
    }
  }

  ghost function IndexOf(ys: seq<nat>, x: nat): (i: nat)
    requires x in ys
    ensures i < |ys| && ys[i] == x && x !in ys[..i]
  {
    if ys[0] == x then 0 else
    var k := IndexOf(ys[1..], x);
    assert ys[..k + 1] == [ys[0]] + ys[1..][..k];
    k + 1
  }

  /** A continuation that accepts exactly two positions. */
  ghost function Either(x: nat, y: nat): (c: nat -> Option<nat>)
  {
    (z: nat) => if z == x || z == y then Some(z) else None
  }

  lemma EmptyMatters(ys: seq<nat>, x: nat) returns (y: nat)
    requires EmptyBeforeNew(ys, x)
    ensures y != x && FirstOf(ys + [x], Either(x, y)) == Some(x) && FirstOf(ys, Without(Either(x, y), x)) == Some(y)
  {
    var j :| 0 <= j < |ys| && x in ys[..j] && ys[j] !in ys[..j];
    y := ys[j];
    var c := Either(x, y);
    var i := IndexOf(ys[..j], x);
    assert ys[i] == ys[..j][i];
    forall k | 0 <= k < j
      ensures ys[k] != y && (k < i ==> ys[k] != x)
    {
      assert ys[..j][k] == ys[k];
      if k < i {
        assert ys[..j][..i][k] == ys[k];
      }
    }
    assert (ys + [x])[i] == x;
    FirstOfIndex(ys + [x], c, i);
    FirstOfIndex(ys, Without(c, x), j);
  }

  /** Leaving out the empty match before the end makes no difference. */
  ghost predicate EmptyIdle(ys: seq<nat>, x: nat)
  {
    forall c: nat -> Option<nat> :: FirstOf(ys + [x], c) == Else(FirstOf(ys, Without(c, x)), c(x))
  }

  /** That is so exactly when nothing new follows it. */
  lemma EmptyMattersIff(ys: seq<nat>, x: nat)
    ensures EmptyIdle(ys, x) <==> !EmptyBeforeNew(ys, x)
  {
    hide FirstOf, EmptyBeforeNew, Without, Either;
    if EmptyBeforeNew(ys, x) {
      var y := EmptyMatters(ys, x);
      var c := Either(x, y);
      ElseIs(FirstOf(ys, Without(c, x)), c(x));
      assert FirstOf(ys + [x], c) != Else(FirstOf(ys, Without(c, x)), c(x));
    } else {
      forall c: nat -> Option<nat>
        ensures FirstOf(ys + [x], c) == Else(FirstOf(ys, Without(c, x)), c(x))
      {
        EmptyDoesNotMatter(ys, x, c);
      }
    }
  }

  /** The standard's matcher leaves out the empty match; the program does not. */
  lemma IdleAgrees(n: Node, back: bool, s: Subject, x: nat, ys: seq<nat>)
    requires x <= |s.units| && Results(n, back, s, x).ys == ys + [x] && !Results(n, back, s, x).hang
    requires forall c: nat -> Option<nat> :: Matcher(n, back, s, x, c) == Else(FirstOf(ys, Without(c, x)), c(x))
    ensures AgreesAt(n, back, s, x) <==> !EmptyBeforeNew(ys, x)
  {
    hide Matcher, FirstOf, Results, Without, Else, EmptyBeforeNew;
    EmptyMattersIff(ys, x);
    if AgreesAt(n, back, s, x) {
      forall c: nat -> Option<nat>
        ensures FirstOf(ys + [x], c) == Else(FirstOf(ys, Without(c, x)), c(x))
      {
        FindsIs(n, back, s, x, ys + [x], c);
      }
    }
    if EmptyIdle(ys, x) {
      forall c: nat -> Option<nat>
        ensures Matcher(n, back, s, x, c) == FirstOf(ys + [x], c)
      {
      }
      FindsIntro(n, back, s, x, ys + [x]);
    }
  }

  lemma EmptyLastAppend(ys: seq<nat>, x: nat)
    ensures EmptyBeforeNew(ys + [x], x) <==> EmptyBeforeNew(ys, x)
  {
    var zs := ys + [x];
    assert forall j :: 0 <= j <= |ys| ==> zs[..j] == ys[..j];
    if EmptyBeforeNew(ys, x) {
      var j :| 0 <= j < |ys| && x in ys[..j] && ys[j] !in ys[..j];
      assert zs[..j] == ys[..j] && zs[j] == ys[j];
    }
    if EmptyBeforeNew(zs, x) {
      var j :| 0 <= j < |zs| && x in zs[..j] && zs[j] !in zs[..j];
      assert zs[..j] == ys[..j];
    }
  }

  // ---- bounded quantifiers ----

  /** What the search for up to k iterations comes to. */
  ghost function UpToSearch(body: Node, greedy: bool, back: bool, s: Subject, k: nat,
      c: nat -> Option<nat>): (e: nat -> Option<nat>)
  {
    (y: nat) => if y <= |s.units| then FirstOf(UpTo(body, greedy, back, s, k, y).ys, c) else None
  }

  lemma UpToSearchIs(body: Node, greedy: bool, back: bool, s: Subject, k: nat, c: nat -> Option<nat>, y: nat)
    requires y <= |s.units|
    ensures UpToSearch(body, greedy, back, s, k, c)(y) == FirstOf(UpTo(body, greedy, back, s, k, y).ys, c)
  {
    hide UpTo, FirstOf;
  }

  /** x itself, after or before the rest. */
  ghost function Beside(greedy: bool, z: Option<nat>, here: Option<nat>): (r: Option<nat>)
  {
    if greedy then Else(z, here) else Else(here, z)
  }

  lemma BesideList(greedy: bool, more: seq<nat>, x: nat, c: nat -> Option<nat>)
    ensures FirstOf(if greedy then more + [x] else [x] + more, c) == Beside(greedy, FirstOf(more, c), c(x))
  {
    FirstOfAppend(more, [x], c);
    FirstOfAppend([x], more, c);
    FirstOfOne(x, c);
  }

  /** The program's search, one iteration at a time. */
  lemma UpToFinds(body: Node, greedy: bool, back: bool, s: Subject, k: nat, x: nat, c: nat -> Option<nat>)
    requires Searches(body, back, s) && x <= |s.units|
    ensures !UpTo(body, greedy, back, s, k, x).hang
    ensures k == 0 ==> FirstOf(UpTo(body, greedy, back, s, k, x).ys, c) == c(x)
    ensures k > 0 ==>
              var z := FirstOf(Results(body, back, s, x).ys, UpToSearch(body, greedy, back, s, k - 1, c));
              FirstOf(UpTo(body, greedy, back, s, k, x).ys, c) == Beside(greedy, z, c(x))
    decreases k, 0
  {
    hide *;
    UpToIs(body, greedy, back, s, k, x);
    JustIs([x]);
    FirstOfOne(x, c);
    if k > 0 {
      var o := Results(body, back, s, x);
      var more := UpToAll(body, greedy, back, s, k - 1, x, o);
      SearchesAt(body, back, s, x, c);
      ResultsAllToward(body, back, s, x);
      UpToAllFinds(body, greedy, back, s, k - 1, x, o, c);
      JoinBoth(more, Just([x]));
      JoinBoth(Just([x]), more);
      BesideList(greedy, more.ys, x, c);
    }
  }

  ghost function Drop(ys: seq<nat>, x: nat): (r: seq<nat>)
  {
    if |ys| == 0 then [] else (if ys[0] == x then [] else [ys[0]]) + Drop(ys[1..], x)
  }

  lemma {:induction false} DropFinds(ys: seq<nat>, x: nat, c: nat -> Option<nat>)
    ensures FirstOf(Drop(ys, x), c) == FirstOf(ys, Without(c, x))
    decreases |ys|
  {
    if |ys| > 0 {
      var t := Drop(ys[1..], x);
      DropFinds(ys[1..], x, c);
      FirstOfAppend([ys[0]], t, c);
      FirstOfOne(ys[0], c);
      assert [] + t == t;
      assert Drop(ys, x) == if ys[0] == x then t else [ys[0]] + t;
      assert FirstOf(ys, Without(c, x)) == Else(Without(c, x)(ys[0]), FirstOf(ys[1..], Without(c, x)));
    }
  }

  lemma {:induction false} DropElems(ys: seq<nat>, x: nat, y: nat)
    ensures y in Drop(ys, x) ==> y in ys && y != x
    decreases |ys|
  {
    if |ys| > 0 {
      DropElems(ys[1..], x, y);
    }
  }

  lemma DropToward(back: bool, s: Subject, x: nat, ys: seq<nat>)
    requires AllToward(back, s, x, ys)
    ensures AllToward(back, s, x, Drop(ys, x))
  {
    hide Toward, Drop;
    forall k | 0 <= k < |Drop(ys, x)|
      ensures Toward(back, s, x, Drop(ys, x)[k])
    {
      DropElems(ys, x, Drop(ys, x)[k]);
    }
  }

  /** Up to k iterations with an empty first iteration left out. */
  ghost function Skipping(body: Node, greedy: bool, back: bool, s: Subject, k: nat, x: nat): (r: seq<nat>)
    requires x <= |s.units|
  {
    if k == 0 then [x] else
    DropToward(back, s, x, Results(body, back, s, x).ys);
    var more := UpToAll(body, greedy, back, s, k - 1, x, Just(Drop(Results(body, back, s, x).ys, x))).ys;
    if greedy then more + [x] else [x] + more
  }

  lemma SkippingFinds(body: Node, greedy: bool, back: bool, s: Subject, k: nat, x: nat, c: nat -> Option<nat>)
    requires Searches(body, back, s) && x <= |s.units|
    ensures k == 0 ==> FirstOf(Skipping(body, greedy, back, s, k, x), c) == c(x)
    ensures k > 0 ==>
              var z := FirstOf(Results(body, back, s, x).ys, Without(UpToSearch(body, greedy, back, s, k - 1, c), x));
              FirstOf(Skipping(body, greedy, back, s, k, x), c) == Beside(greedy, z, c(x))
  {
    hide *;
    SkippingIs(body, greedy, back, s, k, x);
    FirstOfOne(x, c);
    if k > 0 {
      var ys, e := Results(body, back, s, x).ys, UpToSearch(body, greedy, back, s, k - 1, c);
      var o := Just(Drop(ys, x));
      ResultsAllToward(body, back, s, x);
      DropToward(back, s, x, ys);
      JustIs(Drop(ys, x));
      UpToAllFinds(body, greedy, back, s, k - 1, x, o, c);
      DropFinds(ys, x, e);
      BesideList(greedy, UpToAll(body, greedy, back, s, k - 1, x, o).ys, x, c);
    }
  }

  /** Continuing any positions with up to k iterations. */
  lemma UpToAllFinds(body: Node, greedy: bool, back: bool, s: Subject, k: nat, x: nat, o: Found, c: nat -> Option<nat>)
    requires Searches(body, back, s) && x <= |s.units| && AllToward(back, s, x, o.ys) && !o.hang
    ensures !UpToAll(body, greedy, back, s, k, x, o).hang
    ensures FirstOf(UpToAll(body, greedy, back, s, k, x, o).ys, c)
      == FirstOf(o.ys, UpToSearch(body, greedy, back, s, k, c))
    decreases k, 1
  {
    hide *;
    var t, e := ThenUpTo(body, greedy, k), UpToSearch(body, greedy, back, s, k, c);
    forall y | y in o.ys
      ensures y <= |s.units| && !Apply(t, back, s, y).hang && e(y) == FirstOf(Apply(t, back, s, y).ys, c)
    {
      var i :| 0 <= i < |o.ys| && o.ys[i] == y;
      TowardOf(back, s, x, o.ys, i);
      ApplyUpTo(body, greedy, back, s, k, x, o, y);
      UpToSearchIs(body, greedy, back, s, k, c, y);
      UpToFinds(body, greedy, back, s, k, y, c);
    }
    FirstOfApply(t, back, s, x, o, e, c);
    ApplyUpTo(body, greedy, back, s, k, x, o, x);
  }

  lemma SkippingIs(body: Node, greedy: bool, back: bool, s: Subject, k: nat, x: nat)
    requires x <= |s.units|
    ensures k == 0 ==> Skipping(body, greedy, back, s, k, x) == [x]
    ensures k > 0 ==>
            var o := Just(Drop(Results(body, back, s, x).ys, x));
            && AllToward(back, s, x, o.ys)
            && var more := UpToAll(body, greedy, back, s, k - 1, x, o).ys;
               Skipping(body, greedy, back, s, k, x) == if greedy then more + [x] else [x] + more
  {
    hide UpToAll, Results, Drop;
    DropToward(back, s, x, Results(body, back, s, x).ys);
  }

  /** The program's results do not change when empty first iterations are left out. */
  ghost predicate SkipsEmpty(body: Node, greedy: bool, back: bool, s: Subject, k: nat)
  {
    forall x: nat :: x <= |s.units| ==>
      Firsts(UpTo(body, greedy, back, s, k, x).ys) == Firsts(Skipping(body, greedy, back, s, k, x))
  }

  /** With the quantifier for one iteration less in agreement, leaving out the empty first
      iteration is what the standard does. */
  lemma StandardSkips(body: Node, greedy: bool, back: bool, s: Subject, k: nat, x: nat, c: nat -> Option<nat>)
    requires Searches(body, back, s) && x <= |s.units| && k < INF
    requires k > 0 ==> Searches(Quant(body, 0, k - 1, greedy), back, s)
    ensures Matcher(Quant(body, 0, k, greedy), back, s, x, c) == FirstOf(Skipping(body, greedy, back, s, k, x), c)
  {
    hide *;
    InfPositive();
    SkippingFinds(body, greedy, back, s, k, x, c);
    MatcherIs(Quant(body, 0, k, greedy), back, s, x, c);
    RepeatIs(body, 0, k, greedy, back, s, x, c);
    if k > 0 {
      var e := UpToSearch(body, greedy, back, s, k - 1, c);
      forall y | y in Results(body, back, s, x).ys && y != x && y <= |s.units|
        ensures e(y) == Repeat(body, 0, k - 1, greedy, back, s, y, c)
      {
        UpToSearchIs(body, greedy, back, s, k - 1, c, y);
        SearchesAt(Quant(body, 0, k - 1, greedy), back, s, y, c);
        MatcherIs(Quant(body, 0, k - 1, greedy), back, s, y, c);
        QuantOptional(body, k - 1, greedy, back, s, y);
      }
      RepeatSearches(body, k, greedy, back, s, x, e, c);
      BesideIs(greedy, FirstOf(Results(body, back, s, x).ys, Without(e, x)), c(x));
    }
  }

  lemma BesideIs(greedy: bool, z: Option<nat>, here: Option<nat>)
    ensures Beside(greedy, z, here) == if greedy then Else(z, here) else Else(here, z)
  {}

  lemma BoundedStep(body: Node, greedy: bool, back: bool, s: Subject, k: nat)
    requires Searches(body, back, s) && k < INF && (k > 0 ==> Searches(Quant(body, 0, k - 1, greedy), back, s))
    ensures Searches(Quant(body, 0, k, greedy), back, s) <==> SkipsEmpty(body, greedy, back, s, k)
  {
    hide *;
    var n := Quant(body, 0, k, greedy);
    forall x: nat | x <= |s.units|
      ensures AgreesAt(n, back, s, x) <==>
        Firsts(UpTo(body, greedy, back, s, k, x).ys) == Firsts(Skipping(body, greedy, back, s, k, x))
    {
      BoundedStepAt(body, greedy, back, s, k, x);
    }
    SkipsIs(body, greedy, back, s, k);
    SearchesIs(n, back, s);
  }

  lemma BoundedStepAt(body: Node, greedy: bool, back: bool, s: Subject, k: nat, x: nat)
    requires Searches(body, back, s) && k < INF && (k > 0 ==> Searches(Quant(body, 0, k - 1, greedy), back, s))
      && x <= |s.units|
    ensures AgreesAt(Quant(body, 0, k, greedy), back, s, x) <==>
            Firsts(UpTo(body, greedy, back, s, k, x).ys) == Firsts(Skipping(body, greedy, back, s, k, x))
  {
    hide *;
    var n, ys, zs := Quant(body, 0, k, greedy), UpTo(body, greedy, back, s, k, x).ys,
      Skipping(body, greedy, back, s, k, x);
    QuantOptional(body, k, greedy, back, s, x);
    FirstsDecide(ys, zs);
    UpToFinds(body, greedy, back, s, k, x, Identity());
    forall c: nat -> Option<nat>
      ensures Matcher(n, back, s, x, c) == FirstOf(zs, c)
    {
      StandardSkips(body, greedy, back, s, k, x, c);
    }
    AgreesIff(n, back, s, x, zs);
  }

  lemma AgreesIff(n: Node, back: bool, s: Subject, x: nat, zs: seq<nat>)
    requires x <= |s.units| && !Results(n, back, s, x).hang
    requires forall c: nat -> Option<nat> :: Matcher(n, back, s, x, c) == FirstOf(zs, c)
    ensures AgreesAt(n, back, s, x) <==> Alike(Results(n, back, s, x).ys, zs)
  {
    hide Matcher, Results, FirstOf;
    var ys := Results(n, back, s, x).ys;
    if AgreesAt(n, back, s, x) {
      forall c: nat -> Option<nat>
        ensures FirstOf(ys, c) == FirstOf(zs, c)
      {
        assert Matcher(n, back, s, x, c) == FirstOf(ys, c);
      }
    }
    if Alike(ys, zs) {
      forall c: nat -> Option<nat>
        ensures Matcher(n, back, s, x, c) == FirstOf(ys, c)
      {
        assert FirstOf(ys, c) == FirstOf(zs, c);
      }
    }
  }

  lemma SkipsIs(body: Node, greedy: bool, back: bool, s: Subject, k: nat)
    ensures SkipsEmpty(body, greedy, back, s, k) <==> forall x: nat :: x <= |s.units| ==>
      Firsts(UpTo(body, greedy, back, s, k, x).ys) == Firsts(Skipping(body, greedy, back, s, k, x))
  {
    hide UpTo, Skipping, Firsts;
  }

  lemma SearchesIs(n: Node, back: bool, s: Subject)
    ensures Searches(n, back, s) <==> forall x: nat :: x <= |s.units| ==> AgreesAt(n, back, s, x)
  {
    hide AgreesAt;
  }

  /** Exactly: all of the quantifiers {0,0} to {0,k} agree with the standard if and only if for
      none of them leaving out an empty first iteration changes the order of first occurrences
      among the program's results. */
  lemma {:induction false} BoundedAgrees(body: Node, greedy: bool, back: bool, s: Subject, k: nat)
    requires Searches(body, back, s) && k < INF
    ensures (forall j: nat :: j <= k ==> Searches(Quant(body, 0, j, greedy), back, s)) <==>
            (forall j: nat :: j <= k ==> SkipsEmpty(body, greedy, back, s, j))
    decreases k
  {
    hide *;
    if k > 0 {
      BoundedAgrees(body, greedy, back, s, k - 1);
      if Searches(Quant(body, 0, k - 1, greedy), back, s) {
        BoundedStep(body, greedy, back, s, k);
      }
    } else {
      BoundedStep(body, greedy, back, s, 0);
    }
  }

  // ---- the condition on the body ----

  /** Nothing new follows the empty match of the body, anywhere. */
  ghost predicate NothingAfterEmpty(body: Node, back: bool, s: Subject)
  {
    forall x: nat :: x <= |s.units| ==> !EmptyBeforeNew(Results(body, back, s, x).ys, x)
  }

  /** What more iterations do not find, fewer do not find. */
  lemma {:induction false} FewerFind(body: Node, greedy: bool, back: bool, s: Subject, k: nat,
      x: nat, c: nat -> Option<nat>)
    requires Searches(body, back, s) && x <= |s.units| && FirstOf(UpTo(body, greedy, back, s, k + 1, x).ys, c).None?
    ensures FirstOf(UpTo(body, greedy, back, s, k, x).ys, c).None?
    decreases k
  {
    hide *;
    var ys, e := Results(body, back, s, x).ys, UpToSearch(body, greedy, back, s, k, c);
    UpToFinds(body, greedy, back, s, k + 1, x, c);
    UpToFinds(body, greedy, back, s, k, x, c);
    BesideNone(greedy, FirstOf(ys, e), c(x));
    if k > 0 {
      var e' := UpToSearch(body, greedy, back, s, k - 1, c);
      ResultsAllToward(body, back, s, x);
      forall i | 0 <= i < |ys|
        ensures e'(ys[i]).None?
      {
        TowardOf(back, s, x, ys, i);
        NoneOf(ys, e, i);
        UpToSearchIs(body, greedy, back, s, k, c, ys[i]);
        UpToSearchIs(body, greedy, back, s, k - 1, c, ys[i]);
        FewerFind(body, greedy, back, s, k - 1, ys[i], c);
      }
      FirstOfNone(ys, e');
      BesideNone(greedy, FirstOf(ys, e'), c(x));
    }
  }

  lemma BesideNone(greedy: bool, z: Option<nat>, here: Option<nat>)
    ensures Beside(greedy, z, here).None? <==> z.None? && here.None?
    ensures z.None? ==> Beside(greedy, z, here) == here
  {}

  /** Of the results, x apart, nothing is found beyond those before the first x. */
  lemma NothingElse(ys: seq<nat>, x: nat, e: nat -> Option<nat>)
    requires !EmptyBeforeNew(ys, x) && x in ys && FirstOf(ys[..IndexOf(ys, x)], e).None?
    ensures forall k :: 0 <= k < |ys| && ys[k] != x ==> e(ys[k]).None?
  {
    hide EmptyBeforeNew, FirstOf;
    var i := IndexOf(ys, x);
    var a := ys[..i];
    forall k | 0 <= k < |ys| && ys[k] != x
      ensures e(ys[k]).None?
    {
      if k > i {
        NothingNew(ys, x, i, k);
        var h :| 0 <= h < i + 1 && ys[..i + 1][h] == ys[k];
        assert a[h] == ys[k];
        NoneOf(a, e, h);
      } else {
        assert a[k] == ys[k];
        NoneOf(a, e, k);
      }
    }
  }

  /** With or without x: the same, or only x itself is found. */
  lemma WithoutCases(ys: seq<nat>, x: nat, e: nat -> Option<nat>)
    requires !EmptyBeforeNew(ys, x)
    ensures FirstOf(ys, Without(e, x)) == FirstOf(ys, e) ||
            (FirstOf(ys, Without(e, x)).None? && FirstOf(ys, e) == e(x) && x in ys && forall k ::
              0 <= k < |ys| && ys[k] != x ==> e(ys[k]).None?)
  {
    hide EmptyBeforeNew, FirstOf, Without;
    if x !in ys || e(x).None? {
      FirstOfWithout(ys, e, x);
    } else {
      var i := IndexOf(ys, x);
      var a, b := ys[..i], ys[i..];
      assert ys == a + b;
      FirstOfAppend(a, b, e);
      FirstOfAppend(a, b, Without(e, x));
      FirstOfWithout(a, e, x);
      FirstOfIndex(b, e, 0);
      if FirstOf(a, e).None? {
        NothingElse(ys, x, e);
        forall k | 0 <= k < |ys|
          ensures Without(e, x)(ys[k]).None?
        {
          WithoutIs(e, x, ys[k]);
        }
        FirstOfNone(ys, Without(e, x));
      }
    }
  }

  /** Then leaving out empty first iterations never matters. */
  lemma {:induction false} LocalSkipsAt(body: Node, greedy: bool, back: bool, s: Subject, k: nat,
      x: nat, c: nat -> Option<nat>)
    requires Searches(body, back, s) && NothingAfterEmpty(body, back, s) && x <= |s.units|
    ensures FirstOf(UpTo(body, greedy, back, s, k, x).ys, c) == FirstOf(Skipping(body, greedy, back, s, k, x), c)
    decreases k, 0
  {
    assert !EmptyBeforeNew(Results(body, back, s, x).ys, x);
    hide *;
    UpToFinds(body, greedy, back, s, k, x, c);
    SkippingFinds(body, greedy, back, s, k, x, c);
    if k > 0 {
      var ys, e := Results(body, back, s, x).ys, UpToSearch(body, greedy, back, s, k - 1, c);
      WithoutCases(ys, x, e);
      if FirstOf(ys, Without(e, x)) != FirstOf(ys, e) {
        OnlyHere(body, greedy, back, s, k - 1, x, c);
        BesideHere(greedy, c(x));
      }
    }
  }

  lemma BesideHere(greedy: bool, here: Option<nat>)
    ensures Beside(greedy, here, here) == here && Beside(greedy, None, here) == here
  {}

  /** Where the other results find nothing, up to k iterations find x or nothing. */
  lemma OnlyHere(body: Node, greedy: bool, back: bool, s: Subject, k: nat, x: nat, c: nat -> Option<nat>)
    requires Searches(body, back, s) && NothingAfterEmpty(body, back, s) && x <= |s.units|
    requires var ys, e := Results(body, back, s, x).ys, UpToSearch(body, greedy, back, s, k, c);
             forall i :: 0 <= i < |ys| && ys[i] != x ==> e(ys[i]).None?
    ensures UpToSearch(body, greedy, back, s, k, c)(x) == c(x)
    decreases k, 1
  {
    hide *;
    UpToSearchIs(body, greedy, back, s, k, c, x);
    UpToFinds(body, greedy, back, s, k, x, c);
    if k > 0 {
      var ys, e, e' := Results(body, back, s, x).ys, UpToSearch(body, greedy, back, s, k, c),
        UpToSearch(body, greedy, back, s, k - 1, c);
      LocalSkipsAt(body, greedy, back, s, k, x, c);
      SkippingFinds(body, greedy, back, s, k, x, c);
      ResultsAllToward(body, back, s, x);
      forall i | 0 <= i < |ys|
        ensures Without(e', x)(ys[i]).None?
      {
        WithoutIs(e', x, ys[i]);
        if ys[i] != x {
          TowardOf(back, s, x, ys, i);
          UpToSearchIs(body, greedy, back, s, k, c, ys[i]);
          UpToSearchIs(body, greedy, back, s, k - 1, c, ys[i]);
          FewerFind(body, greedy, back, s, k - 1, ys[i], c);
        }
      }
      FirstOfNone(ys, Without(e', x));
      BesideNone(greedy, None, c(x));
    }
  }

  /** A body after whose empty match nothing new comes makes every bounded quantifier agree. */
  lemma LocalAgrees(body: Node, greedy: bool, back: bool, s: Subject, k: nat)
    requires Searches(body, back, s) && NothingAfterEmpty(body, back, s) && k < INF
    ensures Searches(Quant(body, 0, k, greedy), back, s)
  {
    hide *;
    forall j: nat | j <= k
      ensures SkipsEmpty(body, greedy, back, s, j)
    {
      forall x: nat | x <= |s.units|
        ensures Firsts(UpTo(body, greedy, back, s, j, x).ys) == Firsts(Skipping(body, greedy, back, s, j, x))
      {
        forall c: nat -> Option<nat>
          ensures FirstOf(UpTo(body, greedy, back, s, j, x).ys, c) == FirstOf(Skipping(body, greedy, back, s, j, x), c)
        {
          LocalSkipsAt(body, greedy, back, s, j, x, c);
        }
        AlikeIntro(UpTo(body, greedy, back, s, j, x).ys, Skipping(body, greedy, back, s, j, x));
        FirstsDecide(UpTo(body, greedy, back, s, j, x).ys, Skipping(body, greedy, back, s, j, x));
      }
      SkipsIs(body, greedy, back, s, j);
    }
    BoundedAgrees(body, greedy, back, s, k);
  }

  lemma AlikeIntro(ys: seq<nat>, zs: seq<nat>)
    requires forall c: nat -> Option<nat> :: FirstOf(ys, c) == FirstOf(zs, c)
    ensures Alike(ys, zs)
  {
    hide FirstOf;
  }

  // ---- an optional atom ----

  /** For body? at x: they agree exactly unless the quantifier is greedy and the body tries the
      empty match before something new. */
  lemma MaybeAgrees(body: Node, greedy: bool, back: bool, s: Subject, x: nat)
    requires Searches(body, back, s) && x <= |s.units|
    ensures AgreesAt(Quant(body, 0, 1, greedy), back, s, x) <==>
      !(greedy && EmptyBeforeNew(Results(body, back, s, x).ys, x))
  {
    hide *;
    InfPositive();
    var n, ys := Quant(body, 0, 1, greedy), Results(body, back, s, x).ys;
    ZeroSearches(body, greedy, back, s);
    QuantOptional(body, 1, greedy, back, s, x);
    UpToFinds(body, greedy, back, s, 1, x, Identity());
    var zs := if greedy then ys + [x] else [x] + ys;
    MaybeResults(body, greedy, back, s, x);
    if greedy {
      forall c: nat -> Option<nat>
        ensures Matcher(n, back, s, x, c) == Else(FirstOf(ys, Without(c, x)), c(x))
      {
        MaybeMatcher(body, true, back, s, x, c);
        BesideIs(true, FirstOf(ys, Without(c, x)), c(x));
      }
      IdleAgrees(n, back, s, x, ys);
    } else {
      forall c: nat -> Option<nat>
        ensures Matcher(n, back, s, x, c) == FirstOf(zs, c)
      {
        MaybeMatcher(body, false, back, s, x, c);
        BesideList(false, ys, x, c);
        BesideIs(false, FirstOf(ys, Without(c, x)), c(x));
        BesideIs(false, FirstOf(ys, c), c(x));
        ElseIs(c(x), FirstOf(ys, c));
        ElseIs(c(x), FirstOf(ys, Without(c, x)));
        if c(x).None? {
          FirstOfWithout(ys, c, x);
        }
      }
      AgreesIntro(n, back, s, x);
    }
  }

  lemma AgreesIs(n: Node, back: bool, s: Subject, x: nat)
    requires x <= |s.units|
    ensures AgreesAt(n, back, s, x) <==>
      !Results(n, back, s, x).hang && FindsFirst(n, back, s, x, Results(n, back, s, x).ys)
  {
    hide FindsFirst, Results;
  }

  lemma FindsIs(n: Node, back: bool, s: Subject, x: nat, ys: seq<nat>, c: nat -> Option<nat>)
    requires x <= |s.units| && FindsFirst(n, back, s, x, ys)
    ensures Matcher(n, back, s, x, c) == FirstOf(ys, c)
  {
    hide Matcher, FirstOf;
  }

  lemma FindsIntro(n: Node, back: bool, s: Subject, x: nat, ys: seq<nat>)
    requires x <= |s.units| && forall c: nat -> Option<nat> :: Matcher(n, back, s, x, c) == FirstOf(ys, c)
    ensures FindsFirst(n, back, s, x, ys)
  {
    hide Matcher, FirstOf;
  }

  lemma ZeroSearches(body: Node, greedy: bool, back: bool, s: Subject)
    requires Searches(body, back, s)
    ensures Searches(Quant(body, 0, 0, greedy), back, s)
  {
    hide *;
    InfPositive();
    forall x: nat | x <= |s.units|
      ensures AgreesAt(Quant(body, 0, 0, greedy), back, s, x)
    {
      var n := Quant(body, 0, 0, greedy);
      QuantOptional(body, 0, greedy, back, s, x);
      forall c: nat -> Option<nat>
        ensures Matcher(n, back, s, x, c) == FirstOf(Results(n, back, s, x).ys, c)
      {
        UpToFinds(body, greedy, back, s, 0, x, c);
        MatcherIs(n, back, s, x, c);
        RepeatIs(body, 0, 0, greedy, back, s, x, c);
      }
      UpToFinds(body, greedy, back, s, 0, x, Identity());
      AgreesIntro(n, back, s, x);
    }
    SearchesIntro(Quant(body, 0, 0, greedy), back, s);
  }

  lemma MaybeResults(body: Node, greedy: bool, back: bool, s: Subject, x: nat)
    requires Searches(body, back, s) && x <= |s.units|
    ensures var ys := Results(body, back, s, x).ys;
      UpTo(body, greedy, back, s, 1, x).ys == if greedy then ys + [x] else [x] + ys
  {
    hide *;
    var o := Results(body, back, s, x);
    SearchesAt(body, back, s, x, Identity());
    ResultsAllToward(body, back, s, x);
    UpToIs(body, greedy, back, s, 1, x);
    ZeroMore(body, greedy, back, s, x, o);
    JustIs([x]);
    JoinBoth(o, Just([x]));
    JoinBoth(Just([x]), o);
  }

  lemma MaybeMatcher(body: Node, greedy: bool, back: bool, s: Subject, x: nat, c: nat -> Option<nat>)
    requires Searches(body, back, s) && x <= |s.units|
    ensures Matcher(Quant(body, 0, 1, greedy), back, s, x, c) ==
            Beside(greedy, FirstOf(Results(body, back, s, x).ys, Without(c, x)), c(x))
  {
    hide *;
    InfPositive();
    MatcherIs(Quant(body, 0, 1, greedy), back, s, x, c);
    forall y | y in Results(body, back, s, x).ys && y != x && y <= |s.units|
      ensures c(y) == Repeat(body, 0, 0, greedy, back, s, y, c)
    {
      RepeatIs(body, 0, 0, greedy, back, s, y, c);
    }
    RepeatSearches(body, 1, greedy, back, s, x, c, c);
    BesideIs(greedy, FirstOf(Results(body, back, s, x).ys, Without(c, x)), c(x));
  }

  /** Exactly: all greedy quantifiers {0,0} to {0,k}, k >= 1, agree with the standard if and only
      if nothing new ever follows the empty match of the body. */
  lemma GreedyAgrees(body: Node, back: bool, s: Subject, k: nat)
    requires Searches(body, back, s) && 1 <= k < INF
    ensures (forall j: nat :: j <= k ==> Searches(Quant(body, 0, j, true), back, s)) <==>
      NothingAfterEmpty(body, back, s)
  {
    hide *;
    if NothingAfterEmpty(body, back, s) {
      forall j: nat | j <= k
        ensures Searches(Quant(body, 0, j, true), back, s)
      {
        LocalAgrees(body, true, back, s, j);
      }
    }
    if forall j: nat :: j <= k ==> Searches(Quant(body, 0, j, true), back, s) {
      assert Searches(Quant(body, 0, 1, true), back, s);
      forall x: nat | x <= |s.units|
        ensures !EmptyBeforeNew(Results(body, back, s, x).ys, x)
      {
        MaybeAgrees(body, true, back, s, x);
        SearchesIs(Quant(body, 0, 1, true), back, s);
      }
      NothingAfterIntro(body, back, s);
    }
  }

  lemma NothingAfterIntro(body: Node, back: bool, s: Subject)
    requires forall x: nat :: x <= |s.units| ==> !EmptyBeforeNew(Results(body, back, s, x).ys, x)
    ensures NothingAfterEmpty(body, back, s)
  {
    hide Results, EmptyBeforeNew;
  }

  /** body?? always agrees. */
  lemma LazyMaybeAgrees(body: Node, back: bool, s: Subject)
    requires Searches(body, back, s)
    ensures Searches(Quant(body, 0, 1, false), back, s)
  {
    hide *;
    forall x: nat | x <= |s.units|
      ensures AgreesAt(Quant(body, 0, 1, false), back, s, x)
    {
      MaybeAgrees(body, false, back, s, x);
    }
    SearchesIntro(Quant(body, 0, 1, false), back, s);
  }

  // ---- unbounded quantifiers ----

  ghost function StarSearch(body: Node, greedy: bool, back: bool, s: Subject,
      c: nat -> Option<nat>): (e: nat -> Option<nat>)
  {
    (y: nat) => if y <= |s.units| then FirstOf(Star(body, greedy, back, s, y).ys, c) else None
  }

  lemma StarSearchIs(body: Node, greedy: bool, back: bool, s: Subject, c: nat -> Option<nat>, y: nat)
    requires y <= |s.units|
    ensures StarSearch(body, greedy, back, s, c)(y) == FirstOf(Star(body, greedy, back, s, y).ys, c)
  {
    hide Star, FirstOf;
  }

  /** c at x, e elsewhere. */
  ghost function At(x: nat, c: nat -> Option<nat>, e: nat -> Option<nat>): (d: nat -> Option<nat>)
  {
    (y: nat) => if y == x then c(x) else e(y)
  }

  lemma AtIs(x: nat, c: nat -> Option<nat>, e: nat -> Option<nat>, y: nat)
    ensures At(x, c, e)(y) == if y == x then c(x) else e(y)
  {}

  /** A loop of the program whose iterations do not make it hang. */
  lemma {:induction false} StarFinds(body: Node, greedy: bool, back: bool, s: Subject, x: nat, c: nat -> Option<nat>)
    requires Searches(body, back, s) && x <= |s.units| && (greedy || Consumes(body, back, s))
    ensures var o := Results(body, back, s, x); var more := StarAll(body, greedy, back, s, x, o);
            && !more.hang && !Star(body, greedy, back, s, x).hang
            && Star(body, greedy, back, s, x).ys == (if greedy then more.ys + [x] else [x] + more.ys)
            && FirstOf(more.ys, c) == FirstOf(o.ys, At(x, c, StarSearch(body, greedy, back, s, c)))
    decreases Room(back, s, x)
  {
    hide *;
    var o, t := Results(body, back, s, x), ThenStar(body, greedy, x);
    var e := StarSearch(body, greedy, back, s, c);
    var d, more := At(x, c, e), StarAll(body, greedy, back, s, x, o);
    SearchesAt(body, back, s, x, c);
    ResultsAllToward(body, back, s, x);
    forall y | y in o.ys
      ensures y <= |s.units| && !Apply(t, back, s, y).hang && d(y) == FirstOf(Apply(t, back, s, y).ys, c)
    {
      var i :| 0 <= i < |o.ys| && o.ys[i] == y;
      TowardOf(back, s, x, o.ys, i);
      ApplyStar(body, greedy, back, s, x, y);
      AtIs(x, c, e, y);
      if y == x {
        EmptyIterationIs(greedy, x);
        JustIs([x]);
        FirstOfOne(x, c);
        if !greedy {
          ConsumesAt(body, s, back, x, x);
        }
      } else {
        StarSearchIs(body, greedy, back, s, c, y);
        StarFinds(body, greedy, back, s, y, c);
      }
    }
    FirstOfApply(t, back, s, x, o, d, c);
    ApplyAllStar(body, greedy, back, s, x, o);
    StarIs(body, greedy, back, s, x);
    JustIs([x]);
    JoinBoth(more, Just([x]));
    JoinBoth(Just([x]), more);
  }

  /** x is not among the results of a turn that starts beyond it. */
  lemma StarBeyond(body: Node, back: bool, s: Subject, x: nat, y: nat, c: nat -> Option<nat>)
    requires Toward(back, s, x, y) && y != x
    ensures StarSearch(body, true, back, s, Without(c, x))(y) == StarSearch(body, true, back, s, c)(y)
  {
    hide Star, FirstOf;
    var ys := Star(body, true, back, s, y).ys;
    assert AllToward(back, s, y, ys);
    assert x !in ys by {
      hide Star;
      assert forall k :: 0 <= k < |ys| ==> Toward(back, s, y, ys[k]);
    }
    FirstOfWithout(ys, c, x);
    StarSearchIs(body, true, back, s, c, y);
    StarSearchIs(body, true, back, s, Without(c, x), y);
  }

  /** The standard's loop leaves out the empty iteration, once the turns beyond x agree. */
  lemma StandardStar(body: Node, back: bool, s: Subject, x: nat, c: nat -> Option<nat>)
    requires Searches(body, back, s) && x <= |s.units|
    requires forall y: nat ::
      y <= |s.units| && Toward(back, s, x, y) && y != x ==> AgreesAt(Quant(body, 0, INF, true), back, s, y)
    ensures var W := StarAll(body, true, back, s, x, Results(body, back, s, x)).ys;
            Matcher(Quant(body, 0, INF, true), back, s, x, c) == Else(FirstOf(W, Without(c, x)), c(x))
  {
    hide *;
    InfPositive();
    var ys, e, d := Results(body, back, s, x).ys, StarSearch(body, true, back, s, c), Without(c, x);
    ResultsAllToward(body, back, s, x);
    MatcherIs(Quant(body, 0, INF, true), back, s, x, c);
    StarFinds(body, true, back, s, x, d);
    forall y | y in ys
      ensures At(x, d, StarSearch(body, true, back, s, d))(y) == Without(e, x)(y)
      ensures y != x && y <= |s.units| ==> e(y) == Repeat(body, 0, INF, true, back, s, y, c)
    {
      var i :| 0 <= i < |ys| && ys[i] == y;
      TowardOf(back, s, x, ys, i);
      AtIs(x, d, StarSearch(body, true, back, s, d), y);
      WithoutIs(e, x, y);
      WithoutIs(c, x, x);
      if y != x {
        StarBeyond(body, back, s, x, y, c);
        StarSearchIs(body, true, back, s, c, y);
        AgreesIs(Quant(body, 0, INF, true), back, s, y);
        FindsIs(Quant(body, 0, INF, true), back, s, y, Results(Quant(body, 0, INF, true), back, s, y).ys, c);
        MatcherIs(Quant(body, 0, INF, true), back, s, y, c);
        QuantOptional(body, INF, true, back, s, y);
      }
    }
    FirstOfSame(ys, At(x, d, StarSearch(body, true, back, s, d)), Without(e, x));
    RepeatSearches(body, INF, true, back, s, x, e, c);
  }

  /** The loop offers no position before something new that lies beyond it. */
  ghost predicate StarEndsHere(body: Node, back: bool, s: Subject, x: nat)
    requires x <= |s.units|
  {
    !EmptyBeforeNew(Star(body, true, back, s, x).ys, x)
  }

  lemma StarAgreesAt(body: Node, back: bool, s: Subject, x: nat)
    requires Searches(body, back, s) && x <= |s.units|
    requires forall y: nat ::
      y <= |s.units| && Toward(back, s, x, y) && y != x ==> AgreesAt(Quant(body, 0, INF, true), back, s, y)
    ensures AgreesAt(Quant(body, 0, INF, true), back, s, x) <==> StarEndsHere(body, back, s, x)
  {
    assert StarEndsHere(body, back, s, x) <==> !EmptyBeforeNew(Star(body, true, back, s, x).ys, x);
    InfPositive();
    hide *;
    var n, W := Quant(body, 0, INF, true), StarAll(body, true, back, s, x, Results(body, back, s, x)).ys;
    StarFinds(body, true, back, s, x, Identity());
    EmptyLastAppend(W, x);
    QuantOptional(body, INF, true, back, s, x);
    forall c: nat -> Option<nat>
      ensures Matcher(n, back, s, x, c) == Else(FirstOf(W, Without(c, x)), c(x))
    {
      StandardStar(body, back, s, x, c);
    }
    IdleAgrees(n, back, s, x, W);
  }

  /** Exactly: a greedy unbounded quantifier agrees with the standard everywhere if and only if,
      wherever it starts, it offers the start itself after everything else. */
  lemma StarAgreesEverywhere(body: Node, back: bool, s: Subject)
    requires Searches(body, back, s)
    ensures Searches(Quant(body, 0, INF, true), back, s) <==>
      forall x: nat :: x <= |s.units| ==> StarEndsHere(body, back, s, x)
  {
    hide *;
    var n := Quant(body, 0, INF, true);
    SearchesIs(n, back, s);
    if forall x: nat :: x <= |s.units| ==> StarEndsHere(body, back, s, x) {
      forall x: nat | x <= |s.units|
        ensures AgreesAt(n, back, s, x)
      {
        StarAgreesFrom(body, back, s, x);
      }
    }
    if Searches(n, back, s) {
      forall x: nat | x <= |s.units|
        ensures StarEndsHere(body, back, s, x)
      {
        StarAgreesAt(body, back, s, x);
      }
    }
  }

  lemma {:induction false} StarAgreesFrom(body: Node, back: bool, s: Subject, x: nat)
    requires Searches(body, back, s) && x <= |s.units|
      && forall y: nat :: y <= |s.units| ==> StarEndsHere(body, back, s, y)
    ensures AgreesAt(Quant(body, 0, INF, true), back, s, x)
    decreases Room(back, s, x)
  {
    hide AgreesAt, StarEndsHere, Searches;
    forall y: nat | y <= |s.units| && Toward(back, s, x, y) && y != x
      ensures AgreesAt(Quant(body, 0, INF, true), back, s, y)
    {
      StarAgreesFrom(body, back, s, y);
    }
    StarAgreesAt(body, back, s, x);
  }

  /** Exactly: a lazy unbounded quantifier agrees with the standard everywhere, and in particular
      never goes on forever, if and only if its body consumes. */
  lemma LazyStarAgrees(body: Node, back: bool, s: Subject)
    requires Searches(body, back, s)
    ensures Searches(Quant(body, 0, INF, false), back, s) <==> Consumes(body, back, s)
  {
    hide *;
    InfPositive();
    var n := Quant(body, 0, INF, false);
    SearchesIs(n, back, s);
    if Consumes(body, back, s) {
      forall x: nat | x <= |s.units|
        ensures AgreesAt(n, back, s, x)
      {
        LazyStarFrom(body, back, s, x);
      }
    }
    if Searches(n, back, s) {
      forall x: nat | x <= |s.units|
        ensures x !in Results(body, back, s, x).ys
      {
        LazyStarMoves(body, back, s, x);
      }
      ConsumesIntro(body, back, s);
    }
  }

  lemma ConsumesIntro(body: Node, back: bool, s: Subject)
    requires forall x: nat :: x <= |s.units| ==> x !in Results(body, back, s, x).ys
    ensures Consumes(body, back, s)
  {
    hide Results;
  }

  lemma LazyStarMoves(body: Node, back: bool, s: Subject, x: nat)
    requires x <= |s.units| && AgreesAt(Quant(body, 0, INF, false), back, s, x)
    ensures x !in Results(body, back, s, x).ys
  {
    hide *;
    var o := Results(body, back, s, x);
    AgreesIs(Quant(body, 0, INF, false), back, s, x);
    QuantOptional(body, INF, false, back, s, x);
    StarIs(body, false, back, s, x);
    ResultsAllToward(body, back, s, x);
    if x in o.ys {
      StayingHangs(body, back, s, x, o);
      JoinHangs(Just([x]), StarAll(body, false, back, s, x, o));
      assert false;
    }
  }

  lemma {:induction false} LazyStarFrom(body: Node, back: bool, s: Subject, x: nat)
    requires Searches(body, back, s) && Consumes(body, back, s) && x <= |s.units|
    ensures AgreesAt(Quant(body, 0, INF, false), back, s, x)
    decreases Room(back, s, x)
  {
    hide *;
    InfPositive();
    var n, ys := Quant(body, 0, INF, false), Results(body, back, s, x).ys;
    ResultsAllToward(body, back, s, x);
    StarFinds(body, false, back, s, x, Identity());
    QuantOptional(body, INF, false, back, s, x);
    forall y | y in ys
      ensures y <= |s.units| && y != x && AgreesAt(n, back, s, y)
    {
      var i :| 0 <= i < |ys| && ys[i] == y;
      TowardOf(back, s, x, ys, i);
      ConsumesAt(body, s, back, x, y);
      LazyStarFrom(body, back, s, y);
    }
    forall c: nat -> Option<nat>
      ensures Matcher(n, back, s, x, c) == FirstOf(Results(n, back, s, x).ys, c)
    {
      LazyStarMatcher(body, back, s, x, c);
    }
    AgreesIntro(n, back, s, x);
  }

  lemma LazyStarMatcher(body: Node, back: bool, s: Subject, x: nat, c: nat -> Option<nat>)
    requires Searches(body, back, s) && Consumes(body, back, s) && x <= |s.units|
    requires forall y ::
      y in Results(body, back, s, x).ys ==> y <= |s.units| && y != x && AgreesAt(Quant(body, 0, INF, false), back, s, y)
    ensures Matcher(Quant(body, 0, INF, false), back, s, x, c)
      == FirstOf(Results(Quant(body, 0, INF, false), back, s, x).ys, c)
  {
    hide *;
    InfPositive();
    var n, ys, e := Quant(body, 0, INF, false), Results(body, back, s, x).ys, StarSearch(body, false, back, s, c);
    StarFinds(body, false, back, s, x, c);
    QuantOptional(body, INF, false, back, s, x);
    MatcherIs(n, back, s, x, c);
    forall y | y in ys
      ensures At(x, c, e)(y) == Without(e, x)(y)
        && (y <= |s.units| ==> e(y) == Repeat(body, 0, INF, false, back, s, y, c))
    {
      AtIs(x, c, e, y);
      WithoutIs(e, x, y);
      StarSearchIs(body, false, back, s, c, y);
      AgreesIs(n, back, s, y);
      FindsIs(n, back, s, y, Results(n, back, s, y).ys, c);
      MatcherIs(n, back, s, y, c);
      QuantOptional(body, INF, false, back, s, y);
    }
    FirstOfSame(ys, At(x, c, e), Without(e, x));
    RepeatSearches(body, INF, false, back, s, x, e, c);
    BesideList(false, StarAll(body, false, back, s, x, Results(body, back, s, x)).ys, x, c);
    BesideIs(false, FirstOf(ys, Without(e, x)), c(x));
  }
}
