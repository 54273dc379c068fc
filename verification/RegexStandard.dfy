/** The recursive matcher of ECMA-262 (section 21.2.2 of the 2020 edition), for
    patterns without captures, and its agreement with the compiled program. */
module RegexStandard {
  import opened RegexBytecode
  import opened RegexSyntax
  import opened RegexRep
  import opened RegexCorrect
  import opened RegexQuant
  import opened RegexTheorem

  /** A matcher: an end position or failure, given a continuation. */
  ghost function Matcher(n: Node, back: bool, s: Subject, x: nat, c: nat -> Option<nat>): (r: Option<nat>)
    requires x <= |s.units|
    decreases n, 0
  {
    match n
    case Empty => c(x)
    case Single(a) =>
      var e := if back then (if x > 0 then Some(PrevPos(s, x)) else None)
               else (if x < |s.units| then Some(NextChar(s, x).1) else None);
      if e.None? then None else
      var at := if back then e.value else x;
      if Matches(a, NextChar(s, at).0) then c(e.value) else None
    case Assert(t) => if Holds(t, s, x) then c(x) else None
    case Cat(l, r) =>
      if back then Matcher(r, back, s, x, ThenMatch(l, back, s, c))
        else Matcher(l, back, s, x, ThenMatch(r, back, s, c))
    case Alt(l, r) =>
      var z := Matcher(l, back, s, x, c);
      if z.Some? then z else Matcher(r, back, s, x, c)
    case Look(neg, behind, body) =>
      var z := Matcher(body, behind, s, x, Identity());
      if z.None? == neg then c(x) else None
    case Quant(body, min, max, greedy) => Repeat(body, min, max, greedy, back, s, x, c)
  }

  /** The continuation that accepts every position. */
  ghost function Identity(): (d: nat -> Option<nat>)
  {
    (y: nat) => Some(y)
  }

  /** The continuation that goes on with n. */
  ghost function ThenMatch(n: Node, back: bool, s: Subject, c: nat -> Option<nat>): (d: nat -> Option<nat>)
    decreases n, 1
  {
    (y: nat) => if y <= |s.units| then Matcher(n, back, s, y, c) else None
  }

  /** RepeatMatcher. */
  ghost function Repeat(body: Node, min: nat, max: nat, greedy: bool, back: bool, s: Subject, x: nat,
      c: nat -> Option<nat>): (r: Option<nat>)
    requires x <= |s.units|
    decreases body, 2, min, Room(back, s, x), 1
  {
    if max == 0 then c(x) else
    var d := NextIteration(body, min, max, greedy, back, s, x, c);
    if min != 0 then Matcher(body, back, s, x, d)
    else if greedy then
      var z := Matcher(body, back, s, x, d);
      if z.Some? then z else c(x)
    else
      var z := c(x);
      if z.Some? then z else Matcher(body, back, s, x, d)
  }

  /** The continuation of one iteration from x: beyond the minimum, an iteration that did
      not move fails. */
  ghost function NextIteration(body: Node, min: nat, max: nat, greedy: bool, back: bool, s: Subject, x: nat,
      c: nat -> Option<nat>): (d: nat -> Option<nat>)
    requires x <= |s.units| && max > 0
    decreases body, 2, min, Room(back, s, x), 0
  {
    (y: nat) =>
      if !Toward(back, s, x, y) || (min == 0 && y == x) then None
      else Repeat(body, if min == 0 then 0 else min - 1, if max == INF then INF else max - 1, greedy, back, s, y, c)
  }

  /** The first position the continuation accepts. */
  ghost function FirstOf(ys: seq<nat>, c: nat -> Option<nat>): (r: Option<nat>)
  {
    if |ys| == 0 then None else if c(ys[0]).Some? then c(ys[0]) else FirstOf(ys[1..], c)
  }

  lemma {:induction false} FirstOfAppend(ys: seq<nat>, zs: seq<nat>, c: nat -> Option<nat>)
    ensures FirstOf(ys + zs, c) == if FirstOf(ys, c).Some? then FirstOf(ys, c) else FirstOf(zs, c)
  {
    if |ys| == 0 {
      assert ys + zs == zs;
    } else {
      assert (ys + zs)[1..] == ys[1..] + zs;
      FirstOfAppend(ys[1..], zs, c);
    }
  }

  lemma FirstOfOne(x: nat, c: nat -> Option<nat>)
    ensures FirstOf([x], c) == c(x)
  {
    assert [x][1..] == [];
  }

  /** The continuation that runs F and then c. */
  ghost function Through(F: nat -> Found, c: nat -> Option<nat>): (d: nat -> Option<nat>)
  {
    (y: nat) => FirstOf(F(y).ys, c)
  }

  /** Searching through a sequence is searching through its first part. */
  lemma {:induction false} FirstOfBind(o: Found, F: nat -> Found, c: nat -> Option<nat>)
    requires !o.hang && forall y :: y in o.ys ==> !F(y).hang
    ensures !Bind(o, F).hang && FirstOf(Bind(o, F).ys, c) == FirstOf(o.ys, Through(F, c))
    decreases |o.ys|
  {
    BindIs(o, F);
    if |o.ys| > 0 {
      o.HeadTail();
      assert forall y :: y in o.ys[1..] ==> y in o.ys;
      assert o.ys[0] in o.ys;
      FirstOfBind(o.Tail(), F, c);
      FirstOfAppend(F(o.ys[0]).ys, Bind(o.Tail(), F).ys, c);
    }
  }

  lemma {:induction false} FirstOfSame(ys: seq<nat>, c: nat -> Option<nat>, d: nat -> Option<nat>)
    requires forall y :: y in ys ==> c(y) == d(y)
    ensures FirstOf(ys, c) == FirstOf(ys, d)
  {
    if |ys| > 0 {
      assert ys[0] in ys && forall y :: y in ys[1..] ==> y in ys;
      FirstOfSame(ys[1..], c, d);
    }
  }

  /** The continued search, for every kind of continuation. */
  lemma FirstOfApply(t: Cont, back: bool, s: Subject, x: nat, o: Found, d: nat -> Option<nat>, c: nat -> Option<nat>)
    requires x <= |s.units| && AllToward(back, s, x, o.ys) && (t.ThenStar? ==> t.from == x) && !o.hang
    requires forall y ::
      y in o.ys ==> y <= |s.units| && !Apply(t, back, s, y).hang && d(y) == FirstOf(Apply(t, back, s, y).ys, c)
    ensures !ApplyAll(t, back, s, x, o).hang && FirstOf(ApplyAll(t, back, s, x, o).ys, c) == FirstOf(o.ys, d)
  {
    hide Apply, ApplyAll, FirstOf, Continued;
    var F := Continued(t, back, s);
    ApplyAllIsBind(t, back, s, x, o);
    forall y | y in o.ys
      ensures F(y) == Apply(t, back, s, y)
    {
      ContinuedIs(t, back, s, y);
    }
    FirstOfBind(o, F, c);
    FirstOfSame(o.ys, d, Through(F, c));
  }

  // ---- agreement ----

  /** At x the program never goes on forever, and for every continuation the standard's matcher
      finds what comes first in the program's order. */
  ghost predicate AgreesAt(n: Node, back: bool, s: Subject, x: nat)
    requires x <= |s.units|
  {
    !Results(n, back, s, x).hang && FindsFirst(n, back, s, x, Results(n, back, s, x).ys)
  }

  /** The standard's matcher finds what comes first in ys. */
  ghost predicate FindsFirst(n: Node, back: bool, s: Subject, x: nat, ys: seq<nat>)
    requires x <= |s.units|
  {
    forall c: nat -> Option<nat> :: Matcher(n, back, s, x, c) == FirstOf(ys, c)
  }

  ghost predicate Searches(n: Node, back: bool, s: Subject)
  {
    forall x: nat :: x <= |s.units| ==> AgreesAt(n, back, s, x)
  }

  lemma SearchesAt(n: Node, back: bool, s: Subject, x: nat, c: nat -> Option<nat>)
    requires Searches(n, back, s) && x <= |s.units|
    ensures !Results(n, back, s, x).hang && Matcher(n, back, s, x, c) == FirstOf(Results(n, back, s, x).ys, c)
  {
    hide Matcher, Results, FirstOf;
    assert AgreesAt(n, back, s, x);
  }

  lemma AgreesIntro(n: Node, back: bool, s: Subject, x: nat)
    requires x <= |s.units| && !Results(n, back, s, x).hang
    requires forall c: nat -> Option<nat> :: Matcher(n, back, s, x, c) == FirstOf(Results(n, back, s, x).ys, c)
    ensures AgreesAt(n, back, s, x)
  {
    hide Matcher, Results, FirstOf;
  }

  /** No mandatory iterations left: the optional ones. */
  lemma QuantOptional(body: Node, max: nat, greedy: bool, back: bool, s: Subject, x: nat)
    requires x <= |s.units|
    ensures Results(Quant(body, 0, max, greedy), back, s, x) ==
            if max == INF then Star(body, greedy, back, s, x) else UpTo(body, greedy, back, s, max, x)
  {
    hide *;
    QuantIs(body, 0, max, greedy, back, s, x);
    TimesIs(body, back, s, 0, x);
    TimesToward(body, back, s, 0, x);
    RestAllOne(body, 0, max, greedy, back, s, x);
    RestIs(body, 0, max, greedy, back, s, x);
  }

  lemma RepeatIs(body: Node, min: nat, max: nat, greedy: bool, back: bool, s: Subject, x: nat, c: nat -> Option<nat>)
    requires x <= |s.units|
    ensures max == 0 ==> Repeat(body, min, max, greedy, back, s, x, c) == c(x)
    ensures max > 0 ==>
            var z := Matcher(body, back, s, x, NextIteration(body, min, max, greedy, back, s, x, c));
            Repeat(body, min, max, greedy, back, s, x, c) ==
            if min != 0 then z else if greedy then (if z.Some? then z else c(x)) else (if c(x).Some? then c(x) else z)
  {
    hide Matcher, NextIteration;
  }

  lemma NextIterationIs(body: Node, min: nat, max: nat, greedy: bool, back: bool, s: Subject, x: nat,
      c: nat -> Option<nat>, y: nat)
    requires x <= |s.units| && max > 0 && Toward(back, s, x, y) && (min == 0 ==> y != x)
    ensures NextIteration(body, min, max, greedy, back, s, x, c)(y) ==
            Repeat(body, if min == 0 then 0 else min - 1, if max == INF then INF else max - 1, greedy, back, s, y, c)
  {
    hide Repeat;
  }

  lemma TowardOf(back: bool, s: Subject, x: nat, ys: seq<nat>, k: nat)
    requires AllToward(back, s, x, ys) && k < |ys|
    ensures Toward(back, s, x, ys[k]) && ys[k] <= |s.units| && x <= |s.units|
    ensures ys[k] != x ==> Room(back, s, ys[k]) < Room(back, s, x)
  {}

  // ---- quantifiers ----

  /** c without the position x. */
  ghost function Without(c: nat -> Option<nat>, x: nat): (d: nat -> Option<nat>)
  {
    (y: nat) => if y == x then None else c(y)
  }

  lemma WithoutIs(c: nat -> Option<nat>, x: nat, y: nat)
    ensures Without(c, x)(y) == if y == x then None else c(y)
  {}

  /** First a, then b. */
  ghost function Else(a: Option<nat>, b: Option<nat>): (r: Option<nat>) { if a.Some? then a else b }

  /** What the standard makes of the optional iterations from x, when e continues one that
      moved. */
  lemma RepeatSearches(body: Node, max: nat, greedy: bool, back: bool, s: Subject, x: nat,
      e: nat -> Option<nat>, c: nat -> Option<nat>)
    requires Searches(body, back, s) && 0 < max <= INF && x <= |s.units|
    requires forall y :: y in Results(body, back, s, x).ys && y != x && y <= |s.units| ==>
      e(y) == Repeat(body, 0, if max == INF then INF else max - 1, greedy, back, s, y, c)
    ensures var z := FirstOf(Results(body, back, s, x).ys, Without(e, x));
            Repeat(body, 0, max, greedy, back, s, x, c) == if greedy then Else(z, c(x)) else Else(c(x), z)
  {
    hide *;
    var ys, d := Results(body, back, s, x).ys, NextIteration(body, 0, max, greedy, back, s, x, c);
    RepeatIs(body, 0, max, greedy, back, s, x, c);
    SearchesAt(body, back, s, x, d);
    ResultsAllToward(body, back, s, x);
    forall y | y in ys
      ensures d(y) == Without(e, x)(y)
    {
      var k :| 0 <= k < |ys| && ys[k] == y;
      WithoutIs(e, x, y);
      TowardOf(back, s, x, ys, k);
      if y == x {
        NextIterationStuck(body, max, greedy, back, s, x, c);
      } else {
        NextIterationIs(body, 0, max, greedy, back, s, x, c, y);
      }
    }
    FirstOfSame(ys, d, Without(e, x));
    ElseIs(FirstOf(ys, Without(e, x)), c(x));
    ElseIs(c(x), FirstOf(ys, Without(e, x)));
  }

  lemma ElseIs(a: Option<nat>, b: Option<nat>)
    ensures Else(a, b) == if a.Some? then a else b
  {}

  lemma NextIterationStuck(body: Node, max: nat, greedy: bool, back: bool, s: Subject, x: nat, c: nat -> Option<nat>)
    requires x <= |s.units| && max > 0
    ensures NextIteration(body, 0, max, greedy, back, s, x, c)(x) == None
  {
    hide Repeat;
  }

  /** How many iterations may follow the mandatory ones. */
  function OptionalCount(min: nat, max: nat): (k: nat)
  {
    if max == INF then INF else if max >= min then max - min else 0
  }

  /** For all positions, the optional iterations agree with the standard's. */
  ghost predicate OptionalAgrees(body: Node, min: nat, max: nat, greedy: bool, back: bool, s: Subject)
  {
    Searches(Quant(body, 0, OptionalCount(min, max), greedy), back, s)
  }

  lemma OptionalAt(body: Node, min: nat, max: nat, greedy: bool, back: bool, s: Subject, x: nat, c: nat -> Option<nat>)
    requires OptionalAgrees(body, min, max, greedy, back, s) && x <= |s.units| && min <= max <= INF
    ensures var o, k := Rest(body, min, max, greedy, back, s, x), if max == INF then INF else max - min;
            !o.hang && FirstOf(o.ys, c) == Repeat(body, 0, k, greedy, back, s, x, c)
  {
    hide Matcher, Results, FirstOf, Repeat, Rest, Star, UpTo;
    var k := if max == INF then INF else max - min;
    assert AgreesAt(Quant(body, 0, k, greedy), back, s, x);
    QuantOptional(body, k, greedy, back, s, x);
    RestIs(body, min, max, greedy, back, s, x);
    MatcherIs(Quant(body, 0, k, greedy), back, s, x, c);
  }

  /** k mandatory iterations and the optional ones, both ways. */
  lemma {:induction false} MandatorySearches(body: Node, min: nat, max: nat, greedy: bool, k: nat, back: bool,
      s: Subject, x: nat, r: nat -> Option<nat>, c: nat -> Option<nat>)
    requires Searches(body, back, s) && OptionalAgrees(body, min, max, greedy, back, s) && k <= min <= max <= INF
      && x <= |s.units|
    requires forall y: nat :: y <= |s.units| ==> r(y) == FirstOf(Rest(body, min, max, greedy, back, s, y).ys, c)
    ensures !Times(body, back, s, k, x).hang
    ensures FirstOf(Times(body, back, s, k, x).ys, r)
      == Repeat(body, k, if max == INF then INF else max - min + k, greedy, back, s, x, c)
    decreases k
  {
    hide *;
    InfPositive();
    TimesIs(body, back, s, k, x);
    JustIs([x]);
    OptionalAt(body, min, max, greedy, back, s, x, c);
    if k == 0 {
      FirstOfOne(x, r);
    } else {
      var max' := if max == INF then INF else max - min + k;
      var o, t, d := Results(body, back, s, x), ThenTimes(body, k - 1),
        NextIteration(body, k, max', greedy, back, s, x, c);
      RepeatIs(body, k, max', greedy, back, s, x, c);
      SearchesAt(body, back, s, x, d);
      ResultsAllToward(body, back, s, x);
      forall y | y in o.ys
        ensures y <= |s.units| && !Apply(t, back, s, y).hang && d(y) == FirstOf(Apply(t, back, s, y).ys, r)
      {
        var i :| 0 <= i < |o.ys| && o.ys[i] == y;
        TowardOf(back, s, x, o.ys, i);
        ApplyTimes(body, back, s, k - 1, x, o, y);
        NextIterationIs(body, k, max', greedy, back, s, x, c, y);
        MandatorySearches(body, min, max, greedy, k - 1, back, s, y, r, c);
      }
      FirstOfApply(t, back, s, x, o, d, r);
      ApplyTimes(body, back, s, k - 1, x, o, x);
    }
  }

  lemma InfPositive()
    ensures INF > 2
  {}

  /** A quantifier agrees when its body and its optional iterations do. */
  lemma QuantSearches(body: Node, min: nat, max: nat, greedy: bool, back: bool, s: Subject, x: nat)
    requires Searches(body, back, s) && OptionalAgrees(body, min, max, greedy, back, s) && min <= max <= INF
      && x <= |s.units|
    ensures AgreesAt(Quant(body, min, max, greedy), back, s, x)
  {
    hide *;
    var n, t, o := Quant(body, min, max, greedy), ThenRest(body, min, max, greedy), Times(body, back, s, min, x);
    QuantIs(body, min, max, greedy, back, s, x);
    TimesToward(body, back, s, min, x);
    ApplyAllRest(body, min, max, greedy, back, s, x, o);
    forall c: nat -> Option<nat>
      ensures !Results(n, back, s, x).hang && Matcher(n, back, s, x, c) == FirstOf(Results(n, back, s, x).ys, c)
    {
      var r := RestSearch(body, min, max, greedy, back, s, c);
      forall y: nat | y <= |s.units|
        ensures r(y) == FirstOf(Rest(body, min, max, greedy, back, s, y).ys, c)
          && !Rest(body, min, max, greedy, back, s, y).hang
      {
        RestSearchIs(body, min, max, greedy, back, s, c, y);
        OptionalAt(body, min, max, greedy, back, s, y, c);
      }
      MandatorySearches(body, min, max, greedy, min, back, s, x, r, c);
      forall y | y in o.ys
        ensures y <= |s.units| && !Apply(t, back, s, y).hang && r(y) == FirstOf(Apply(t, back, s, y).ys, c)
      {
        var i :| 0 <= i < |o.ys| && o.ys[i] == y;
        TowardOf(back, s, x, o.ys, i);
        ApplyRest(body, min, max, greedy, back, s, y);
      }
      FirstOfApply(t, back, s, x, o, r, c);
      MatcherIs(n, back, s, x, c);
    }
    assert !Results(n, back, s, x).hang by {
      var c := Identity();
      assert Matcher(n, back, s, x, c) == FirstOf(Results(n, back, s, x).ys, c);
    }
    AgreesIntro(n, back, s, x);
  }

  ghost function RestSearch(body: Node, min: nat, max: nat, greedy: bool, back: bool, s: Subject,
      c: nat -> Option<nat>): (r: nat -> Option<nat>)
  {
    (y: nat) => if y <= |s.units| then FirstOf(Rest(body, min, max, greedy, back, s, y).ys, c) else None
  }

  lemma RestSearchIs(body: Node, min: nat, max: nat, greedy: bool, back: bool, s: Subject,
      c: nat -> Option<nat>, y: nat)
    requires y <= |s.units|
    ensures RestSearch(body, min, max, greedy, back, s, c)(y) == FirstOf(Rest(body, min, max, greedy, back, s, y).ys, c)
  {
    hide Rest, FirstOf;
  }

  // ---- every pattern ----

  lemma MatcherIs(n: Node, back: bool, s: Subject, x: nat, c: nat -> Option<nat>)
    requires x <= |s.units|
    ensures n.Empty? || n.Single? || n.Assert? ==>
            !Results(n, back, s, x).hang && Matcher(n, back, s, x, c) == FirstOf(Results(n, back, s, x).ys, c)
    ensures n.Cat? ==>
            var a, b := RegexTheorem.First(n.l, n.r, back), RegexTheorem.Second(n.l, n.r, back);
            Matcher(n, back, s, x, c) == Matcher(a, back, s, x, ThenMatch(b, back, s, c))
    ensures n.Alt? ==> Matcher(n, back, s, x, c) == Else(Matcher(n.l, back, s, x, c), Matcher(n.r, back, s, x, c))
    ensures n.Look? ==>
      Matcher(n, back, s, x, c) == if Matcher(n.body, n.behind, s, x, Identity()).None? == n.neg then c(x) else None
    ensures n.Quant? ==> Matcher(n, back, s, x, c) == Repeat(n.body, n.min, n.max, n.greedy, back, s, x, c)
  {
    hide Matches, Holds, NextChar, PrevPos, Repeat, ThenMatch;
    if n.Empty? || n.Single? || n.Assert? {
      var ys := Results(n, back, s, x).ys;
      assert |ys| <= 1;
      if |ys| == 1 {
        FirstOfOne(ys[0], c);
        assert ys == [ys[0]];
      }
    }
  }

  lemma ThenMatchIs(n: Node, back: bool, s: Subject, c: nat -> Option<nat>, y: nat)
    requires y <= |s.units|
    ensures ThenMatch(n, back, s, c)(y) == Matcher(n, back, s, y, c)
  {
    hide Matcher;
  }

  /** Every quantifier's optional iterations agree with the standard's. */
  ghost predicate QuantifiersAgree(n: Node, back: bool, s: Subject)
  {
    match n
    case Empty => true
    case Single(_) => true
    case Assert(_) => true
    case Cat(l, r) => QuantifiersAgree(l, back, s) && QuantifiersAgree(r, back, s)
    case Alt(l, r) => QuantifiersAgree(l, back, s) && QuantifiersAgree(r, back, s)
    case Look(_, behind, body) => QuantifiersAgree(body, behind, s)
    case Quant(body, min, max, greedy) =>
      QuantifiersAgree(body, back, s) && OptionalAgrees(body, min, max, greedy, back, s)
  }

  lemma DomainParts(n: Node, back: bool, s: Subject)
    requires NodeOk(n) && QuantifiersAgree(n, back, s)
    ensures n.Cat? || n.Alt? ==>
      NodeOk(n.l) && NodeOk(n.r) && QuantifiersAgree(n.l, back, s) && QuantifiersAgree(n.r, back, s)
    ensures n.Look? ==> NodeOk(n.body) && QuantifiersAgree(n.body, n.behind, s)
    ensures n.Quant? ==> NodeOk(n.body) && n.min <= n.max <= INF && QuantifiersAgree(n.body, back, s)
    ensures n.Quant? ==> OptionalAgrees(n.body, n.min, n.max, n.greedy, back, s)
  {
    hide OptionalAgrees, AtomOk;
  }

  /** The standard's matcher finds, for every continuation, what the program finds first. */
  lemma {:induction false} StandardSearches(n: Node, back: bool, s: Subject)
    requires NodeOk(n) && QuantifiersAgree(n, back, s)
    ensures Searches(n, back, s)
    decreases n
  {
    hide *;
    DomainParts(n, back, s);
    match n {
      case Empty =>
      case Single(_) =>
      case Assert(_) =>
      case Cat(l, r) =>
        StandardSearches(l, back, s);
        StandardSearches(r, back, s);
      case Alt(l, r) =>
        StandardSearches(l, back, s);
        StandardSearches(r, back, s);
      case Look(_, behind, body) => StandardSearches(body, behind, s);
      case Quant(body, _, _, _) => StandardSearches(body, back, s);
    }
    forall x: nat | x <= |s.units|
      ensures AgreesAt(n, back, s, x)
    {
      NodeSearches(n, back, s, x);
    }
    SearchesIntro(n, back, s);
  }

  lemma SearchesIntro(n: Node, back: bool, s: Subject)
    requires forall x: nat :: x <= |s.units| ==> AgreesAt(n, back, s, x)
    ensures Searches(n, back, s)
  {
    hide AgreesAt;
  }

  lemma NodeSearches(n: Node, back: bool, s: Subject, x: nat)
    requires NodeOk(n) && QuantifiersAgree(n, back, s) && x <= |s.units|
    requires n.Cat? || n.Alt? ==> Searches(n.l, back, s) && Searches(n.r, back, s)
    requires n.Look? ==> Searches(n.body, n.behind, s)
    requires n.Quant? ==> Searches(n.body, back, s)
    ensures AgreesAt(n, back, s, x)
  {
    hide *;
    DomainParts(n, back, s);
    if n.Quant? {
      QuantSearches(n.body, n.min, n.max, n.greedy, back, s, x);
    } else {
      forall c: nat -> Option<nat>
        ensures !Results(n, back, s, x).hang && Matcher(n, back, s, x, c) == FirstOf(Results(n, back, s, x).ys, c)
      {
        PlainSearches(n, back, s, x, c);
      }
      PlainSearches(n, back, s, x, Identity());
      AgreesIntro(n, back, s, x);
    }
  }

  /** Everything but quantifiers. */
  lemma PlainSearches(n: Node, back: bool, s: Subject, x: nat, c: nat -> Option<nat>)
    requires !n.Quant? && x <= |s.units|
    requires n.Cat? || n.Alt? ==> Searches(n.l, back, s) && Searches(n.r, back, s)
    requires n.Look? ==> Searches(n.body, n.behind, s)
    ensures !Results(n, back, s, x).hang && Matcher(n, back, s, x, c) == FirstOf(Results(n, back, s, x).ys, c)
  {
    hide *;
    MatcherIs(n, back, s, x, c);
    match n
    case Empty =>
    case Single(_) =>
    case Assert(_) =>
    case Cat(l, r) => CatSearches(l, r, back, s, x, c);
    case Alt(l, r) =>
      AltIs(l, r, back, s, x);
      SearchesAt(l, back, s, x, c);
      SearchesAt(r, back, s, x, c);
      JoinBoth(Results(l, back, s, x), Results(r, back, s, x));
      FirstOfAppend(Results(l, back, s, x).ys, Results(r, back, s, x).ys, c);
      ElseIs(Matcher(l, back, s, x, c), Matcher(r, back, s, x, c));
    case Look(neg, behind, body) =>
      SearchesAt(body, behind, s, x, Identity());
      FirstOfIdentity(Results(body, behind, s, x).ys);
      CodeOfLook(neg, behind, body, back, s, x);
      FirstOfOne(x, c);
      FirstOfNil(c);
      JustIs([x]);
      JustIs([]);
  }

  lemma JoinBoth(a: Found, b: Found)
    requires !a.hang
    ensures Join(a, b).ys == a.ys + b.ys && Join(a, b).hang == b.hang
  {}

  lemma CatSearches(l: Node, r: Node, back: bool, s: Subject, x: nat, c: nat -> Option<nat>)
    requires Searches(l, back, s) && Searches(r, back, s) && x <= |s.units|
    ensures !Results(Cat(l, r), back, s, x).hang
    ensures Matcher(Cat(l, r), back, s, x, c) == FirstOf(Results(Cat(l, r), back, s, x).ys, c)
  {
    hide *;
    MatcherIs(Cat(l, r), back, s, x, c);
    CatIs(l, r, back, s, x);
    var a, b := RegexTheorem.First(l, r, back), RegexTheorem.Second(l, r, back);
    var d, o := ThenMatch(b, back, s, c), Results(a, back, s, x);
    SearchesAt(a, back, s, x, d);
    forall y | y in o.ys
      ensures y <= |s.units| && !Apply(ThenNode(b), back, s, y).hang
        && d(y) == FirstOf(Apply(ThenNode(b), back, s, y).ys, c)
    {
      var k :| 0 <= k < |o.ys| && o.ys[k] == y;
      TowardOf(back, s, x, o.ys, k);
      ThenMatchIs(b, back, s, c, y);
      SearchesAt(b, back, s, y, c);
      ApplyNode(b, back, s, y);
    }
    FirstOfApply(ThenNode(b), back, s, x, o, d, c);
    ApplyAllNode(b, back, s, x, o);
  }

  lemma FirstOfNil(c: nat -> Option<nat>)
    ensures FirstOf([], c) == None
  {}

  lemma FirstOfIdentity(ys: seq<nat>)
    ensures FirstOf(ys, Identity()) == if |ys| == 0 then None else Some(ys[0])
  {}
}
