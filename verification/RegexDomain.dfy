/** Patterns on which the compiled program does what the standard prescribes, seen from
    the pattern alone; and the starts from which it does. */
module RegexDomain {
  import opened RegexBytecode
  import opened RegexSyntax
  import opened RegexCode
  import opened RegexVM
  import opened RegexRep
  import opened RegexCorrect
  import opened RegexLoops
  import opened RegexQuant
  import opened RegexSimple
  import opened RegexTheorem
  import opened RegexProgram
  import opened RegexStandard
  import opened RegexAgreement
  import opened RegexReference

  // ---- the domain ----

  /** Visible from the pattern alone: every match reads a character. */
  predicate MustConsume(n: Node)
  {
    match n
    case Single(_) => true
    case Cat(l, r) => MustConsume(l) || MustConsume(r)
    case Alt(l, r) => MustConsume(l) && MustConsume(r)
    case Quant(body, min, _, _) => min > 0 && MustConsume(body)
    case _ => false
  }

  /** Visible from the pattern alone: the empty match, if any, is the last one to be tried. */
  predicate EmptyLast(n: Node)
  {
    MustConsume(n) ||
    match n
    case Cat(l, r) => EmptyLast(l) && EmptyLast(r)
    case Alt(l, r) => MustConsume(l) && EmptyLast(r)
    case Quant(body, min, max, greedy) => EmptyLast(body) && (greedy || max <= min < INF)
    case _ => true
  }

  /** Unbounded lazy quantifiers wrap what consumes; of the others, body?? may wrap anything, and
      the rest what tries the empty match last. */
  predicate InDomain(n: Node)
  {
    match n
    case Empty => true
    case Single(_) => true
    case Assert(_) => true
    case Cat(l, r) => InDomain(l) && InDomain(r)
    case Alt(l, r) => InDomain(l) && InDomain(r)
    case Look(_, _, body) => InDomain(body)
    case Quant(body, min, max, greedy) =>
      InDomain(body) &&
      if max == INF && !greedy then MustConsume(body)
      else if max != INF && max <= min + (if greedy then 0 else 1) then true
      else EmptyLast(body)
  }

  /** The least number of characters a match reads, not counting lookarounds. */
  function LeastLength(n: Node): (k: nat)
  {
    match n
    case Single(_) => 1
    case Cat(l, r) => LeastLength(l) + LeastLength(r)
    case Alt(l, r) => if LeastLength(l) < LeastLength(r) then LeastLength(l) else LeastLength(r)
    case Quant(body, min, _, _) => min * LeastLength(body)
    case _ => 0
  }

  lemma {:induction false} ConsumesByLength(n: Node)
    ensures MustConsume(n) <==> LeastLength(n) > 0
    decreases n
  {
    match n
    case Cat(l, r) =>
      ConsumesByLength(l);
      ConsumesByLength(r);
    case Alt(l, r) =>
      ConsumesByLength(l);
      ConsumesByLength(r);
    case Quant(body, min, _, _) =>
      ConsumesByLength(body);
      PositiveProduct(min, LeastLength(body));
    case _ =>
  }

  lemma PositiveProduct(x: nat, y: nat)
    ensures x * y > 0 <==> x > 0 && y > 0
  {}

  /** Every quantifier repeats what reads a character. */
  predicate BodiesRead(n: Node)
  {
    match n
    case Cat(l, r) => BodiesRead(l) && BodiesRead(r)
    case Alt(l, r) => BodiesRead(l) && BodiesRead(r)
    case Look(_, _, body) => BodiesRead(body)
    case Quant(body, _, _, _) => BodiesRead(body) && LeastLength(body) > 0
    case _ => true
  }

  /** The domain holds all patterns without quantified matches of the empty string. */
  lemma {:induction false} ReadingDomain(n: Node)
    requires BodiesRead(n)
    ensures InDomain(n)
    decreases n
  {
    match n
    case Cat(l, r) =>
      ReadingDomain(l);
      ReadingDomain(r);
    case Alt(l, r) =>
      ReadingDomain(l);
      ReadingDomain(r);
    case Look(_, _, body) => ReadingDomain(body);
    case Quant(body, _, _, _) =>
      ReadingDomain(body);
      ConsumesByLength(body);
    case _ =>
  }

  lemma {:induction false} MustConsumeSound(n: Node, back: bool, s: Subject, x: nat)
    requires MustConsume(n) && x <= |s.units|
    ensures x !in Results(n, back, s, x).ys
    decreases n
  {
    hide FlatResults, RestAll, Times;
    match n
    case Single(a) =>
    case Cat(l, r) =>
      var a, b := RegexTheorem.First(l, r, back), RegexTheorem.Second(l, r, back);
      var o := Results(a, back, s, x);
      CatIs(l, r, back, s, x);
      if MustConsume(a) {
        MustConsumeSound(a, back, s, x);
        ApplyAllStrict(ThenNode(b), back, s, x, o);
      } else {
        forall y: nat | y <= |s.units|
          ensures y !in Results(b, back, s, y).ys
        {
          MustConsumeSound(b, back, s, y);
        }
        FlatStrict(b, back, s, x, o);
      }
    case Alt(l, r) =>
      MustConsumeSound(l, back, s, x);
      MustConsumeSound(r, back, s, x);
    case Quant(body, min, max, greedy) =>
      MustConsumeSound(body, back, s, x);
      QuantStrict(body, min, max, greedy, back, s, x);
  }

  lemma MustConsumes(n: Node, back: bool, s: Subject)
    requires MustConsume(n)
    ensures Consumes(n, back, s)
  {
    hide Results, MustConsume;
    forall x: nat | x <= |s.units|
      ensures x !in Results(n, back, s, x).ys
    {
      MustConsumeSound(n, back, s, x);
    }
    ConsumesIntro(n, back, s);
  }

  // ---- the empty match last ----

  lemma NoEmpty(ys: seq<nat>, x: nat)
    requires x !in ys
    ensures !EmptyBeforeNew(ys, x)
  {
    assert forall j :: 0 <= j <= |ys| ==> x !in ys[..j];
  }

  lemma OnlyEmpty(ys: seq<nat>, x: nat)
    requires forall y :: y in ys ==> y == x
    ensures !EmptyBeforeNew(ys, x)
  {
    forall j | 0 <= j < |ys| && x in ys[..j]
      ensures ys[j] in ys[..j]
    {
      assert ys[j] in ys;
    }
  }

  /** The standard's reading of the order: x left out until the end. */
  lemma IdleIs(ys: seq<nat>, x: nat, c: nat -> Option<nat>)
    requires !EmptyBeforeNew(ys, x)
    ensures Else(FirstOf(ys, c), c(x)) == Else(FirstOf(ys, Without(c, x)), c(x))
  {
    hide EmptyBeforeNew, Without, FirstOf;
    EmptyDoesNotMatter(ys, x, c);
    FirstOfAppend(ys, [x], c);
    FirstOfOne(x, c);
  }

  lemma IdleIntro(ys: seq<nat>, x: nat)
    requires forall c: nat -> Option<nat> :: Else(FirstOf(ys, c), c(x)) == Else(FirstOf(ys, Without(c, x)), c(x))
    ensures !EmptyBeforeNew(ys, x)
  {
    hide EmptyBeforeNew, Without, FirstOf;
    forall c: nat -> Option<nat>
      ensures FirstOf(ys + [x], c) == Else(FirstOf(ys, Without(c, x)), c(x))
    {
      FirstOfAppend(ys, [x], c);
      FirstOfOne(x, c);
    }
    EmptyMattersIff(ys, x);
  }

  /** Two searches that differ only at x, where they come to the same. */
  lemma DifferHere(ys: seq<nat>, x: nat, e: nat -> Option<nat>, e': nat -> Option<nat>, here: Option<nat>)
    requires !EmptyBeforeNew(ys, x) && (forall y :: y in ys && y != x ==> e(y) == e'(y))
      && (x in ys ==> Else(e(x), here) == Else(e'(x), here))
    ensures Else(FirstOf(ys, e), here) == Else(FirstOf(ys, e'), here)
  {
    hide EmptyBeforeNew, FirstOf, Without;
    if x !in ys {
      FirstOfSame(ys, e, e');
    } else {
      var i := IndexOf(ys, x);
      var a, b := ys[..i], ys[i..];
      assert ys == a + b;
      assert forall y :: y in a ==> y in ys && y != x;
      FirstOfSame(a, e, e');
      FirstOfAppend(a, b, e);
      FirstOfAppend(a, b, e');
      if FirstOf(a, e).None? {
        NothingElse(ys, x, e);
        NothingElse(ys, x, e');
        HereOrNone(b, x, e);
        HereOrNone(b, x, e');
      }
    }
  }

  lemma {:induction false} HereOrNone(b: seq<nat>, x: nat, e: nat -> Option<nat>)
    requires |b| > 0 && b[0] == x && forall k :: 0 <= k < |b| && b[k] != x ==> e(b[k]).None?
    ensures FirstOf(b, e) == e(x)
  {
    hide FirstOf;
    if e(x).Some? {
      FirstOfIndex(b, e, 0);
    } else {
      FirstOfNone(b, e);
    }
  }

  /** Continuing keeps the empty match last. */
  lemma ApplyLast(t: Cont, back: bool, s: Subject, x: nat, o: Found)
    requires x <= |s.units| && AllToward(back, s, x, o.ys) && (t.ThenStar? ==> t.from == x) && !o.hang
      && !EmptyBeforeNew(o.ys, x)
    requires forall y :: y in o.ys ==> y <= |s.units| && !Apply(t, back, s, y).hang
    requires x in o.ys ==> !EmptyBeforeNew(Apply(t, back, s, x).ys, x)
    ensures !ApplyAll(t, back, s, x, o).hang && !EmptyBeforeNew(ApplyAll(t, back, s, x, o).ys, x)
  {
    hide *;
    var L := ApplyAll(t, back, s, x, o).ys;
    ApplyStops(t, back, s, x, o);
    forall c: nat -> Option<nat>
      ensures Else(FirstOf(L, c), c(x)) == Else(FirstOf(L, Without(c, x)), c(x))
    {
      var e, e' := ApplySearch(t, back, s, c), ApplySearch(t, back, s, Without(c, x));
      forall y | y in o.ys
        ensures e(y) == FirstOf(Apply(t, back, s, y).ys, c) && e'(y) == FirstOf(Apply(t, back, s, y).ys, Without(c, x))
        ensures y != x ==> e(y) == e'(y)
      {
        var i :| 0 <= i < |o.ys| && o.ys[i] == y;
        TowardOf(back, s, x, o.ys, i);
        ApplySearchIs(t, back, s, c, y);
        ApplySearchIs(t, back, s, Without(c, x), y);
        if y != x {
          BeyondStrict(t, back, s, x, y);
          FirstOfWithout(Apply(t, back, s, y).ys, c, x);
        }
      }
      FirstOfApply(t, back, s, x, o, e, c);
      FirstOfApply(t, back, s, x, o, e', Without(c, x));
      if x in o.ys {
        IdleIs(Apply(t, back, s, x).ys, x, c);
      }
      DifferHere(o.ys, x, e, e', c(x));
    }
    IdleIntro(L, x);
  }

  lemma ApplyStops(t: Cont, back: bool, s: Subject, x: nat, o: Found)
    requires x <= |s.units| && AllToward(back, s, x, o.ys) && (t.ThenStar? ==> t.from == x) && !o.hang
    requires forall y :: y in o.ys ==> y <= |s.units| && !Apply(t, back, s, y).hang
    ensures !ApplyAll(t, back, s, x, o).hang
  {
    hide *;
    var c := Identity();
    var e := ApplySearch(t, back, s, c);
    forall y | y in o.ys
      ensures e(y) == FirstOf(Apply(t, back, s, y).ys, c)
    {
      ApplySearchIs(t, back, s, c, y);
    }
    FirstOfApply(t, back, s, x, o, e, c);
  }

  ghost function ApplySearch(t: Cont, back: bool, s: Subject, c: nat -> Option<nat>): (e: nat -> Option<nat>)
  {
    (y: nat) => if y <= |s.units| then FirstOf(Apply(t, back, s, y).ys, c) else None
  }

  lemma ApplySearchIs(t: Cont, back: bool, s: Subject, c: nat -> Option<nat>, y: nat)
    requires y <= |s.units|
    ensures ApplySearch(t, back, s, c)(y) == FirstOf(Apply(t, back, s, y).ys, c)
  {
    hide Apply, FirstOf;
  }

  lemma NothingAt(body: Node, back: bool, s: Subject, x: nat)
    requires NothingAfterEmpty(body, back, s) && x <= |s.units|
    ensures !EmptyBeforeNew(Results(body, back, s, x).ys, x)
  {
    hide Results, EmptyBeforeNew;
  }

  lemma {:induction false} TimesLast(body: Node, back: bool, s: Subject, k: nat, x: nat)
    requires Searches(body, back, s) && NothingAfterEmpty(body, back, s) && x <= |s.units|
    ensures !Times(body, back, s, k, x).hang && !EmptyBeforeNew(Times(body, back, s, k, x).ys, x)
    decreases k
  {
    hide *;
    TimesIs(body, back, s, k, x);
    JustIs([x]);
    OnlyEmpty([x], x);
    if k > 0 {
      var o, t := Results(body, back, s, x), ThenTimes(body, k - 1);
      SearchesAt(body, back, s, x, Identity());
      ResultsAllToward(body, back, s, x);
      NothingAt(body, back, s, x);
      ApplyTimes(body, back, s, k - 1, x, o, x);
      TimesLast(body, back, s, k - 1, x);
      forall y | y in o.ys
        ensures y <= |s.units| && !Apply(t, back, s, y).hang
      {
        var i :| 0 <= i < |o.ys| && o.ys[i] == y;
        TowardOf(back, s, x, o.ys, i);
        ApplyTimes(body, back, s, k - 1, x, o, y);
        TimesLast(body, back, s, k - 1, y);
      }
      ApplyLast(t, back, s, x, o);
    }
  }

  lemma {:induction false} UpToLast(body: Node, back: bool, s: Subject, k: nat, x: nat)
    requires Searches(body, back, s) && NothingAfterEmpty(body, back, s) && x <= |s.units|
    ensures !UpTo(body, true, back, s, k, x).hang && !EmptyBeforeNew(UpTo(body, true, back, s, k, x).ys, x)
    decreases k
  {
    hide *;
    UpToIs(body, true, back, s, k, x);
    JustIs([x]);
    OnlyEmpty([x], x);
    if k > 0 {
      var o, t := Results(body, back, s, x), ThenUpTo(body, true, k - 1);
      SearchesAt(body, back, s, x, Identity());
      ResultsAllToward(body, back, s, x);
      NothingAt(body, back, s, x);
      ApplyUpTo(body, true, back, s, k - 1, x, o, x);
      UpToLast(body, back, s, k - 1, x);
      forall y | y in o.ys
        ensures y <= |s.units| && !Apply(t, back, s, y).hang
      {
        var i :| 0 <= i < |o.ys| && o.ys[i] == y;
        TowardOf(back, s, x, o.ys, i);
        ApplyUpTo(body, true, back, s, k - 1, x, o, y);
        UpToLast(body, back, s, k - 1, y);
      }
      ApplyLast(t, back, s, x, o);
      var more := ApplyAll(t, back, s, x, o);
      JoinBoth(more, Just([x]));
      EmptyLastAppend(more.ys, x);
    }
  }

  lemma StarLast(body: Node, back: bool, s: Subject, x: nat)
    requires Searches(body, back, s) && NothingAfterEmpty(body, back, s) && x <= |s.units|
    ensures !Star(body, true, back, s, x).hang && !EmptyBeforeNew(Star(body, true, back, s, x).ys, x)
  {
    hide *;
    var o, t := Results(body, back, s, x), ThenStar(body, true, x);
    SearchesAt(body, back, s, x, Identity());
    ResultsAllToward(body, back, s, x);
    NothingAt(body, back, s, x);
    StarFinds(body, true, back, s, x, Identity());
    forall y | y in o.ys
      ensures y <= |s.units| && !Apply(t, back, s, y).hang
    {
      var i :| 0 <= i < |o.ys| && o.ys[i] == y;
      TowardOf(back, s, x, o.ys, i);
      ApplyStar(body, true, back, s, x, y);
      EmptyIterationIs(true, y);
      JustIs([y]);
      StarFinds(body, true, back, s, y, Identity());
    }
    ApplyStar(body, true, back, s, x, x);
    EmptyIterationIs(true, x);
    JustIs([x]);
    OnlyEmpty([x], x);
    ApplyLast(t, back, s, x, o);
    ApplyAllStar(body, true, back, s, x, o);
    EmptyLastAppend(StarAll(body, true, back, s, x, o).ys, x);
  }

  /** A greedy quantifier, or an exact one, over such a body. */
  lemma QuantLast(body: Node, min: nat, max: nat, greedy: bool, back: bool, s: Subject, x: nat)
    requires Searches(body, back, s) && NothingAfterEmpty(body, back, s) && x <= |s.units| && min <= max
      && (greedy || max <= min < INF)
    ensures !EmptyBeforeNew(Results(Quant(body, min, max, greedy), back, s, x).ys, x)
  {
    hide *;
    var o, t := Times(body, back, s, min, x), ThenRest(body, min, max, greedy);
    QuantIs(body, min, max, greedy, back, s, x);
    TimesToward(body, back, s, min, x);
    TimesLast(body, back, s, min, x);
    forall y: nat | y <= |s.units|
      ensures !Rest(body, min, max, greedy, back, s, y).hang
        && !EmptyBeforeNew(Rest(body, min, max, greedy, back, s, y).ys, y)
      ensures Apply(t, back, s, y) == Rest(body, min, max, greedy, back, s, y)
    {
      ApplyRest(body, min, max, greedy, back, s, y);
      RestIs(body, min, max, greedy, back, s, y);
      UpToIs(body, greedy, back, s, 0, y);
      JustIs([y]);
      OnlyEmpty([y], y);
      if greedy {
        UpToLast(body, back, s, max - min, y);
        StarLast(body, back, s, y);
      }
    }
    forall y | y in o.ys
      ensures y <= |s.units|
    {
      var i :| 0 <= i < |o.ys| && o.ys[i] == y;
      TowardOf(back, s, x, o.ys, i);
    }
    ApplyLast(t, back, s, x, o);
    ApplyAllRest(body, min, max, greedy, back, s, x, o);
  }

  lemma AltLast(ys: seq<nat>, zs: seq<nat>, x: nat)
    requires x !in ys && !EmptyBeforeNew(zs, x)
    ensures !EmptyBeforeNew(ys + zs, x)
  {
    hide EmptyBeforeNew, FirstOf, Without;
    forall c: nat -> Option<nat>
      ensures Else(FirstOf(ys + zs, c), c(x)) == Else(FirstOf(ys + zs, Without(c, x)), c(x))
    {
      FirstOfAppend(ys, zs, c);
      FirstOfAppend(ys, zs, Without(c, x));
      FirstOfWithout(ys, c, x);
      IdleIs(zs, x, c);
    }
    IdleIntro(ys + zs, x);
  }

  /** Parts of the domain are in the domain. */
  lemma InDomainParts(n: Node)
    requires NodeOk(n) && InDomain(n)
    ensures n.Cat? || n.Alt? ==> NodeOk(n.l) && NodeOk(n.r) && InDomain(n.l) && InDomain(n.r)
    ensures n.Look? || n.Quant? ==> NodeOk(n.body) && InDomain(n.body)
    ensures n.Quant? ==> n.min <= n.max <= INF
  {}

  /** On the domain, what tries the empty match last by its form does. */
  lemma {:induction false} EmptyLastSound(n: Node, back: bool, s: Subject, x: nat)
    requires EmptyLast(n) && NodeOk(n) && InDomain(n) && x <= |s.units|
    ensures !EmptyBeforeNew(Results(n, back, s, x).ys, x)
    decreases n, 0
  {
    hide *;
    InDomainParts(n);
    EmptyLastParts(n);
    if MustConsume(n) {
      MustConsumeSound(n, back, s, x);
      NoEmpty(Results(n, back, s, x).ys, x);
    } else {
      match n
      case Cat(l, r) =>
        PartLast(l, back, s);
        PartLast(r, back, s);
        CatLast(l, r, back, s, x);
      case Alt(l, r) =>
        PartLast(r, back, s);
        MustConsumeSound(l, back, s, x);
        DomainSearches(l, back, s);
        SearchesAt(l, back, s, x, Identity());
        AltIs(l, r, back, s, x);
        JoinBoth(Results(l, back, s, x), Results(r, back, s, x));
        NothingAt(r, back, s, x);
        AltLast(Results(l, back, s, x).ys, Results(r, back, s, x).ys, x);
      case Quant(body, min, max, greedy) =>
        PartLast(body, back, s);
        QuantLast(body, min, max, greedy, back, s, x);
      case Look(neg, behind, body) =>
        CodeOfLook(neg, behind, body, back, s, x);
        JustIs([x]);
        JustIs([]);
        OnlyEmpty(Results(n, back, s, x).ys, x);
      case _ =>
        LeafLast(n, back, s, x);
    }
  }

  lemma LeafLast(n: Node, back: bool, s: Subject, x: nat)
    requires (n.Empty? || n.Assert? || n.Single?) && x <= |s.units|
    ensures !EmptyBeforeNew(Results(n, back, s, x).ys, x)
  {
    hide EmptyBeforeNew, Holds, Matches, NextChar, PrevPos;
    var ys := Results(n, back, s, x).ys;
    if n.Single? {
      NoEmpty(ys, x);
    } else {
      OnlyEmpty(ys, x);
    }
  }

  lemma EmptyLastParts(n: Node)
    requires EmptyLast(n)
    ensures n.Cat? ==> MustConsume(n) || (EmptyLast(n.l) && EmptyLast(n.r))
    ensures n.Alt? ==> MustConsume(n) || (MustConsume(n.l) && EmptyLast(n.r))
    ensures n.Quant? ==> MustConsume(n) || (EmptyLast(n.body) && (n.greedy || n.max <= n.min < INF))
  {}

  lemma PartLast(n: Node, back: bool, s: Subject)
    requires EmptyLast(n) && NodeOk(n) && InDomain(n)
    ensures NothingAfterEmpty(n, back, s) && Searches(n, back, s)
    decreases n, 2
  {
    hide *;
    forall x: nat | x <= |s.units|
      ensures !EmptyBeforeNew(Results(n, back, s, x).ys, x)
    {
      EmptyLastSound(n, back, s, x);
    }
    NothingAfterIntro(n, back, s);
    DomainSearches(n, back, s);
  }

  lemma CatLast(l: Node, r: Node, back: bool, s: Subject, x: nat)
    requires Searches(l, back, s) && Searches(r, back, s) && NothingAfterEmpty(l, back, s)
      && NothingAfterEmpty(r, back, s) && x <= |s.units|
    ensures !EmptyBeforeNew(Results(Cat(l, r), back, s, x).ys, x)
  {
    hide *;
    CatIs(l, r, back, s, x);
    var a, b := RegexTheorem.First(l, r, back), RegexTheorem.Second(l, r, back);
    var o, t := Results(a, back, s, x), ThenNode(b);
    SearchesAt(a, back, s, x, Identity());
    NothingAt(a, back, s, x);
    NothingAt(b, back, s, x);
    ApplyNode(b, back, s, x);
    forall y | y in o.ys
      ensures y <= |s.units| && !Apply(t, back, s, y).hang
    {
      var i :| 0 <= i < |o.ys| && o.ys[i] == y;
      TowardOf(back, s, x, o.ys, i);
      ApplyNode(b, back, s, y);
      SearchesAt(b, back, s, y, Identity());
    }
    ApplyLast(t, back, s, x, o);
    ApplyAllNode(b, back, s, x, o);
  }

  lemma DomainSearches(n: Node, back: bool, s: Subject)
    requires NodeOk(n) && InDomain(n)
    ensures Searches(n, back, s)
    decreases n, 1
  {
    hide *;
    DomainSound(n, back, s);
    StandardSearches(n, back, s);
  }

  /** Every quantifier of the domain agrees with the standard, whatever the subject. */
  lemma {:induction false} DomainSound(n: Node, back: bool, s: Subject)
    requires NodeOk(n) && InDomain(n)
    ensures QuantifiersAgree(n, back, s)
    decreases n, 0
  {
    hide *;
    InDomainParts(n);
    InDomainQuant(n);
    AgreeIs(n, back, s);
    match n
    case Cat(l, r) =>
      DomainSound(l, back, s);
      DomainSound(r, back, s);
    case Alt(l, r) =>
      DomainSound(l, back, s);
      DomainSound(r, back, s);
    case Look(_, behind, body) => DomainSound(body, behind, s);
    case Quant(body, min, max, greedy) =>
      DomainSound(body, back, s);
      DomainSearches(body, back, s);
      if EmptyLast(body) {
        PartLast(body, back, s);
      }
      if MustConsume(body) {
        MustConsumes(body, back, s);
      }
      QuantAgrees(body, min, max, greedy, back, s);
    case _ =>
  }

  lemma AgreeIs(n: Node, back: bool, s: Subject)
    ensures n.Empty? || n.Single? || n.Assert? ==> QuantifiersAgree(n, back, s)
    ensures n.Cat? || n.Alt? ==>
      (QuantifiersAgree(n, back, s) <==> QuantifiersAgree(n.l, back, s) && QuantifiersAgree(n.r, back, s))
    ensures n.Look? ==> (QuantifiersAgree(n, back, s) <==> QuantifiersAgree(n.body, n.behind, s))
    ensures n.Quant? ==>
      (QuantifiersAgree(n, back, s) <==>
      QuantifiersAgree(n.body, back, s) && OptionalAgrees(n.body, n.min, n.max, n.greedy, back, s))
  {
    hide OptionalAgrees;
  }

  lemma InDomainQuant(n: Node)
    requires InDomain(n)
    ensures n.Quant? && n.max == INF && !n.greedy ==> MustConsume(n.body)
    ensures n.Quant? && n.max == INF && n.greedy ==> EmptyLast(n.body)
    ensures n.Quant? && n.max != INF && n.max > n.min + (if n.greedy then 0 else 1) ==> EmptyLast(n.body)
  {}

  lemma QuantAgrees(body: Node, min: nat, max: nat, greedy: bool, back: bool, s: Subject)
    requires Searches(body, back, s) && min <= max <= INF
    requires max == INF && !greedy ==> Consumes(body, back, s)
    requires max == INF && greedy ==> NothingAfterEmpty(body, back, s)
    requires max != INF && max > min + (if greedy then 0 else 1) ==> NothingAfterEmpty(body, back, s)
    ensures OptionalAgrees(body, min, max, greedy, back, s)
  {
    assert OptionalCount(min, max) == if max == INF then INF else max - min;
    InfPositive();
    hide Searches, Consumes, NothingAfterEmpty, OptionalCount;
    if max == INF {
      if greedy {
        forall x: nat | x <= |s.units|
          ensures StarEndsHere(body, back, s, x)
        {
          StarLast(body, back, s, x);
        }
        StarAgreesEverywhere(body, back, s);
      } else {
        LazyStarAgrees(body, back, s);
      }
    } else if max == min {
      ZeroSearches(body, greedy, back, s);
    } else if max == min + 1 && !greedy {
      LazyMaybeAgrees(body, back, s);
    } else {
      LocalAgrees(body, greedy, back, s, max - min);
    }
  }

  /** On the domain, every program from every aligned start of every subject does what the
      standard prescribes. */
  lemma DomainMeetsStandard(m: Machine, n: Node, sticky: bool, x: nat)
    requires m.prog == Bytes(Program(n, sticky)) && NodeOk(n) && SmallCode(n, false) && InDomain(n)
    requires ValidSubject(m.subj) && x <= |m.subj.units| && Aligned(m.subj, x)
    ensures Ends(m, Fresh(0, x, []), StandardExec(n, m.subj, sticky, x))
  {
    hide *;
    DomainSound(n, false, m.subj);
    ProgramMeetsStandard(m, n, sticky, x);
  }

  // ---- starts inside a surrogate pair ----

  /** A single atom, sticky: the program reads the code unit at x, wherever x is. */
  lemma LiteralRun(m: Machine, a: Atom, x: nat)
    requires m.prog == Bytes(Program(Single(a), true)) && AtomOk(a) && SmallCode(Single(a), false)
    requires ValidSubject(m.subj) && x <= |m.subj.units|
    ensures var ys := SingleResults(a, false, m.subj, x);
            Ends(m, Fresh(0, x, []), if |ys| > 0 then Some((x, ys[0])) else None)
  {
    hide *;
    SingleOk(a);
    ProgramEncodable(Single(a), true);
    ProgramLayout(m, Single(a), true);
    SingleAttempt(m, a, x);
  }

  lemma SingleOk(a: Atom)
    requires AtomOk(a)
    ensures NodeOk(Single(a)) && Code(Single(a), false) == [AtomInstr(a)]
  {
    hide AtomOk, AtomInstr;
  }

  lemma SingleAttempt(m: Machine, a: Atom, x: nat)
    requires AttemptAt(m, 0, Single(a)) && AtomOk(a) && ValidSubject(m.subj) && x <= |m.subj.units|
    ensures var ys := SingleResults(a, false, m.subj, x);
            Ends(m, Fresh(0, x, []), if |ys| > 0 then Some((x, ys[0])) else None)
  {
    hide *;
    SingleOk(a);
    var len := CodeSize(Code(Single(a), false));
    var ex0 := Exit(2 + len, [], [None, None], []);
    var ex := Exit(2 + len, [], [Some(x), None], []);
    var ys := SingleResults(a, false, m.subj, x);
    FreshIs(0, x, ex0);
    AttemptParts(m, 0, Single(a), len);
    StepSave(m, 0, x, ex0);
    assert ex0.(caps := [Some(x), ex0.caps[1]]) == ex;
    SizeSingle(a);
    SingleForward(m, a, 2, x, ex);
    JustIs(ys);
    SingleEnds(m, Start(2, x, ex), Just(ys), ex, x, a);
    EndsStep(m, Fresh(0, x, []), if |ys| > 0 then Some((x, ys[0])) else None);
  }

  lemma EndsStep(m: Machine, c: Conf, r: Option<(nat, nat)>)
    requires Ends(m, Step(m, c), r)
    ensures Ends(m, c, r)
  {
    hide *;
    ReachesOne(m, c);
    EndsAfter(m, c, Step(m, c), r);
  }

  lemma SingleEnds(m: Machine, c: Conf, o: Found, ex: Exit, x: nat, a: Atom)
    requires x <= |m.subj.units| && o == Just(SingleResults(a, false, m.subj, x)) && Offers(m, c, o, ex)
    requires ex.entries == [] && ex.stack == [] && ex.caps == [Some(x), None]
    requires Decode(m.prog, ex.pc) == Some(SaveEnd(0)) && Decode(m.prog, ex.pc + 2) == Some(Match)
    ensures Ends(m, c, if |o.ys| > 0 then Some((x, o.ys[0])) else None)
  {
    assert AllToward(false, m.subj, x, o.ys) && !o.hang;
    assert NoLook([]);
    hide *;
    if |o.ys| > 0 {
      TowardOf(false, m.subj, x, o.ys, 0);
      AttemptFinish(m, c, o, ex, x);
    } else {
      var t := OffersFirst(m, c, o, ex);
      UnwindNothing(m, false, ex.caps);
      EndsNone(m, Done(false, ex.caps));
      EndsAfter(m, c, Done(false, ex.caps), None);
    }
  }

  /** The standard reads the character that x belongs to. */
  lemma LiteralStandard(a: Atom, s: Subject, x: nat)
    requires x <= |s.units|
    ensures var ys := SingleResults(a, false, s, CharStart(s, x));
            StandardExec(Single(a), s, true, x) == if |ys| > 0 then Some((x, ys[0])) else None
  {
    hide Matches, NextChar, Aligned, StandardExec;
    ExecStep(Single(a), s, true, x);
    var y := CharStart(s, x);
    var ys := SingleResults(a, false, s, y);
    LeafIs(Single(a), false, s, y);
    MatcherIs(Single(a), false, s, y, Identity());
    FirstOfIdentity(ys);
    hide Matcher, Results, SingleResults;
  }

  lemma EndsUnique(m: Machine, c: Conf, r: Option<(nat, nat)>, r': Option<(nat, nat)>)
    requires Ends(m, c, r) && Ends(m, c, r')
    ensures r == r'
  {
    hide Ends;
    var a := if r.Some? then Matched(r.value.0, r.value.1) else NoMatch;
    var b := if r'.Some? then Matched(r'.value.0, r'.value.1) else NoMatch;
    OutcomeUnique(m, c, a, b);
  }

  lemma EndsSame(m: Machine, c: Conf, r: Option<(nat, nat)>, r': Option<(nat, nat)>)
    requires Ends(m, c, r)
    ensures Ends(m, c, r') <==> r == r'
  {
    hide *;
    if Ends(m, c, r') {
      EndsUnique(m, c, r, r');
    }
  }

  lemma AlignedStart(s: Subject, x: nat)
    ensures Aligned(s, x) ==> CharStart(s, x) == x
  {}

  /** Inside a pair, the program reads the second half and the standard the whole pair. */
  lemma PairRead(a: Atom, s: Subject, x: nat)
    requires x <= |s.units| && !Aligned(s, x)
    ensures 0 < x < |s.units| && CharStart(s, x) == x - 1
    ensures SingleResults(a, false, s, x) == if Matches(a, s.units[x]) then [x + 1] else []
    ensures SingleResults(a, false, s, x - 1) == if Matches(a, NextChar(s, x - 1).0) then [x + 1] else []
  {
    hide Matches;
    assert NextChar(s, x - 1).1 == x + 1 && NextChar(s, x) == (s.units[x], x + 1);
  }

  /** Exactly: for a single atom started sticky at x the program does what the standard
      prescribes if and only if x is not inside a surrogate pair, or the atom treats the lone
      second half as it treats the whole character. */
  lemma AtomStart(m: Machine, a: Atom, x: nat)
    requires m.prog == Bytes(Program(Single(a), true)) && AtomOk(a) && SmallCode(Single(a), false)
    requires ValidSubject(m.subj) && x <= |m.subj.units|
    ensures Ends(m, Fresh(0, x, []), StandardExec(Single(a), m.subj, true, x)) <==>
            Aligned(m.subj, x) || (Matches(a, m.subj.units[x]) <==> Matches(a, NextChar(m.subj, x - 1).0))
  {
    hide *;
    var s := m.subj;
    LiteralRun(m, a, x);
    LiteralStandard(a, s, x);
    if !Aligned(s, x) {
      PairRead(a, s, x);
    }
    var ys, zs := SingleResults(a, false, s, x), SingleResults(a, false, s, CharStart(s, x));
    var p, q := if |ys| > 0 then Some((x, ys[0])) else None, if |zs| > 0 then Some((x, zs[0])) else None;
    EndsSame(m, Fresh(0, x, []), p, q);
    AlignedStart(s, x);
  }

  /** Every program of the domain does what the standard prescribes from x. */
  ghost predicate MeetsStandardFrom(s: Subject, x: nat)
    requires x <= |s.units|
  {
    forall n: Node, sticky: bool :: NodeOk(n) && SmallCode(n, false) && InDomain(n) ==> MeetsAt(n, sticky, s, x)
  }

  ghost predicate MeetsAt(n: Node, sticky: bool, s: Subject, x: nat)
    requires x <= |s.units|
  {
    Ends(Machine(Bytes(Program(n, sticky)), s), Fresh(0, x, []), StandardExec(n, s, sticky, x))
  }

  lemma LiteralSmall(c: nat)
    ensures SmallCode(Single(Lit(c)), false)
  {
    var n := Single(Lit(c));
    assert Code(n, false) == [AtomInstr(Lit(c))];
    BytesOne(AtomInstr(Lit(c)));
  }

  /** Exactly: all patterns of the domain do what the standard prescribes from x if and only if x
      is not inside a surrogate pair. */
  lemma AlignedExactly(s: Subject, x: nat)
    requires ValidSubject(s) && x <= |s.units|
    ensures MeetsStandardFrom(s, x) <==> Aligned(s, x)
  {
    if Aligned(s, x) {
      forall n: Node, sticky: bool | NodeOk(n) && SmallCode(n, false) && InDomain(n)
        ensures MeetsAt(n, sticky, s, x)
      {
        DomainMeetsStandard(Machine(Bytes(Program(n, sticky)), s), n, sticky, x);
      }
    } else {
      var c := NextChar(s, x - 1).0;
      var a := Lit(c);
      var n := Single(a);
      CharBelow(s, x - 1);
      LiteralSmall(c);
      assert c >= 0x1_0000 > s.units[x];
      assert NodeOk(n) && InDomain(n) && AtomOk(a);
      AtomStart(Machine(Bytes(Program(n, true)), s), a, x);
      hide Ends, StandardExec, Program, Bytes, SmallCode, NodeOk, InDomain;
      assert !MeetsAt(n, true, s, x);
    }
  }
}
