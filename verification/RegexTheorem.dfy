/** Compilation preserves meaning: the compiled program finds the leftmost, most
    preferred match of its pattern. */
module RegexTheorem {
  import opened RegexBytecode
  import opened RegexSyntax
  import opened RegexCode
  import opened RegexVM
  import opened RegexRep
  import opened RegexCorrect
  import opened RegexLoops
  import opened RegexQuant
  import opened RegexSimple
  import opened RegexGreedy

  lemma CompilesIntro(m: Machine, n: Node, back: bool, pc: nat)
    requires forall x: nat, ex: Exit ::
      x <= |m.subj.units| && Aligned(m.subj, x) && ex.pc == pc + CodeSize(Code(n, back)) ==>
      Offers(m, Start(pc, x, ex), Results(n, back, m.subj, x), ex)
    ensures Compiles(m, n, back, pc)
  {}

  lemma CompilesAnywhereIntro(m: Machine, n: Node, back: bool)
    requires forall pc: nat :: CodeAt(m.prog, pc, Code(n, back)) ==> Compiles(m, n, back, pc)
    ensures CompilesAnywhere(m, n, back)
  {}

  /** What Code and Results are, case by case. */
  lemma LeafIs(n: Node, back: bool, s: Subject, x: nat)
    requires x <= |s.units|
    ensures n.Empty? ==> Code(n, back) == [] && Results(n, back, s, x) == Just([x])
    ensures n.Single? ==> Code(n, back) == (if back then [Prev, AtomInstr(n.a), Prev] else [AtomInstr(n.a)])
    ensures n.Single? ==> Results(n, back, s, x) == Just(SingleResults(n.a, back, s, x))
    ensures n.Assert? ==>
      Code(n, back) == [AssertionInstr(n.t)] && Results(n, back, s, x) == Just(if Holds(n.t, s, x) then [x] else [])
  {
    hide AtomInstr, AssertionInstr, SingleResults, Holds;
  }

  ghost function First(l: Node, r: Node, back: bool): Node { if back then r else l }
  ghost function Second(l: Node, r: Node, back: bool): Node { if back then l else r }

  lemma CatIs(l: Node, r: Node, back: bool, s: Subject, x: nat)
    requires x <= |s.units|
    ensures var a, b := First(l, r, back), Second(l, r, back);
            && Code(Cat(l, r), back) == Code(a, back) + Code(b, back)
            && AllToward(back, s, x, Results(a, back, s, x).ys)
            && Results(Cat(l, r), back, s, x) == FlatResults(b, back, s, x, Results(a, back, s, x))
    ensures (First(l, r, back) == l && Second(l, r, back) == r) || (First(l, r, back) == r && Second(l, r, back) == l)
  {
    hide FlatResults;
  }

  lemma AltIs(l: Node, r: Node, back: bool, s: Subject, x: nat)
    requires x <= |s.units|
    ensures Results(Alt(l, r), back, s, x) == Join(Results(l, back, s, x), Results(r, back, s, x))
  {}

  lemma QuantIs(body: Node, min: nat, max: nat, greedy: bool, back: bool, s: Subject, x: nat)
    requires x <= |s.units|
    ensures Code(Quant(body, min, max, greedy), back) == QuantCode(Code(body, back), min, max, greedy)
    ensures Results(Quant(body, min, max, greedy), back, s, x) ==
            RestAll(body, min, max, greedy, back, s, x, Times(body, back, s, min, x))
    ensures greedy && max > 0 && SimpleCount(Code(body, back)) > 0 ==>
            QuantCode(Code(body, back), min, max, greedy) ==
            [SimpleGreedy(CodeSize(Code(body, back)) + 1, min, max, SimpleCount(Code(body, back)))] + Code(body, back)
              + [Match]
  {
    hide *;
    QuantCodeOf(body, min, max, greedy, back);
    QuantResults(body, min, max, greedy, back, s, x);
  }

  lemma QuantCodeOf(body: Node, min: nat, max: nat, greedy: bool, back: bool)
    ensures Code(Quant(body, min, max, greedy), back) == QuantCode(Code(body, back), min, max, greedy)
    ensures greedy && max > 0 && SimpleCount(Code(body, back)) > 0 ==>
            QuantCode(Code(body, back), min, max, greedy) ==
            [SimpleGreedy(CodeSize(Code(body, back)) + 1, min, max, SimpleCount(Code(body, back)))] + Code(body, back)
              + [Match]
  {
    hide SimpleCount, CodeSize, MandatoryCode, OptionalCode;
  }

  lemma QuantResults(body: Node, min: nat, max: nat, greedy: bool, back: bool, s: Subject, x: nat)
    requires x <= |s.units|
    ensures Results(Quant(body, min, max, greedy), back, s, x) ==
            RestAll(body, min, max, greedy, back, s, x, Times(body, back, s, min, x))
  {
    hide RestAll, Times;
  }

  /** Greedy loops without a check consume, by the analysis. */
  lemma UncheckedConsumes(body: Node, back: bool, s: Subject)
    ensures !NeedsCheck(Code(body, back), true) ==> Consumes(body, back, s)
  {
    hide Results, SurelyAdvances, Code, NeedsCheck;
    UncheckedAdvances(body, back);
    if SurelyAdvances(Code(body, back)) {
      forall x: nat | x <= |s.units|
        ensures x !in Results(body, back, s, x).ys
      {
        AdvanceSound(body, back, s, x);
      }
    }
  }

  lemma QuantOffers(m: Machine, body: Node, min: nat, max: nat, greedy: bool, back: bool, pc: nat, x: nat, ex: Exit)
    requires CodeAt(m.prog, pc, Code(Quant(body, min, max, greedy), back)) && CompilesAnywhere(m, body, back)
    requires ValidSubject(m.subj) && NodeOk(body) && min <= max <= INF
    requires x <= |m.subj.units| && Aligned(m.subj, x)
      && ex.pc == pc + CodeSize(Code(Quant(body, min, max, greedy), back))
    ensures Offers(m, Start(pc, x, ex), Results(Quant(body, min, max, greedy), back, m.subj, x), ex)
  {
    hide *;
    QuantIs(body, min, max, greedy, back, m.subj, x);
    UncheckedConsumes(body, back, m.subj);
    if greedy && max > 0 && SimpleCount(Code(body, back)) > 0 {
      if back {
        SimpleBackward(body);
      }
      SimpleLayout(m, pc, Code(body, back), min, max, SimpleCount(Code(body, back)));
      SimpleQuantOffers(m, body, min, max, pc, x, ex);
    } else {
      GeneralQuantOffers(m, body, min, max, greedy, back, pc, x, ex);
    }
  }

  lemma NodeParts(n: Node)
    requires NodeOk(n)
    ensures n.Single? ==> AtomOk(n.a)
    ensures n.Cat? || n.Alt? ==> NodeOk(n.l) && NodeOk(n.r)
    ensures n.Look? ==> NodeOk(n.body)
    ensures n.Quant? ==> NodeOk(n.body) && n.min <= n.max <= INF
  {}

  /** Every pattern: wherever its code stands, running it offers exactly what the pattern
      finds, in order, and then fails or, where the pattern goes on forever, never returns. */
  lemma {:induction false} CodeOffers(m: Machine, n: Node, back: bool)
    requires ValidSubject(m.subj) && NodeOk(n)
    ensures CompilesAnywhere(m, n, back)
    decreases n
  {
    hide *;
    NodeParts(n);
    match n {
      case Empty =>
      case Single(_) =>
      case Assert(_) =>
      case Cat(l, r) =>
        CodeOffers(m, l, back);
        CodeOffers(m, r, back);
      case Alt(l, r) =>
        CodeOffers(m, l, back);
        CodeOffers(m, r, back);
      case Look(_, behind, body) => CodeOffers(m, body, behind);
      case Quant(body, _, _, _) => CodeOffers(m, body, back);
    }
    forall pc: nat | CodeAt(m.prog, pc, Code(n, back))
      ensures Compiles(m, n, back, pc)
    {
      forall x: nat, ex: Exit | x <= |m.subj.units| && Aligned(m.subj, x) && ex.pc == pc + CodeSize(Code(n, back))
        ensures Offers(m, Start(pc, x, ex), Results(n, back, m.subj, x), ex)
      {
        NodeOffers(m, n, back, pc, x, ex);
      }
      CompilesIntro(m, n, back, pc);
    }
    CompilesAnywhereIntro(m, n, back);
  }

  /** One pattern from its parts. */
  lemma NodeOffers(m: Machine, n: Node, back: bool, pc: nat, x: nat, ex: Exit)
    requires ValidSubject(m.subj) && NodeOk(n)
    requires n.Cat? || n.Alt? ==> CompilesAnywhere(m, n.l, back) && CompilesAnywhere(m, n.r, back)
    requires n.Look? ==> CompilesAnywhere(m, n.body, n.behind)
    requires n.Quant? ==> CompilesAnywhere(m, n.body, back)
    requires CodeAt(m.prog, pc, Code(n, back)) && x <= |m.subj.units| && Aligned(m.subj, x)
    requires ex.pc == pc + CodeSize(Code(n, back))
    ensures Offers(m, Start(pc, x, ex), Results(n, back, m.subj, x), ex)
  {
    hide *;
    NodeParts(n);
    LeafIs(n, back, m.subj, x);
    match n
    case Empty =>
      SizeNil();
      OffersHere(m, x, ex);
    case Single(a) =>
      SizeSingle(a);
      if back {
        SingleBackward(m, a, pc, x, ex);
      } else {
        SingleForward(m, a, pc, x, ex);
      }
    case Assert(t) =>
      SizeTest(t);
      TestOffers(m, t, pc, x, ex);
    case Cat(l, r) =>
      CatIs(l, r, back, m.subj, x);
      var a, b := First(l, r, back), Second(l, r, back);
      SizeSplit(Code(a, back), Code(b, back));
      CodeAtSplit(m.prog, pc, Code(a, back), Code(b, back));
      CompilesHere(m, a, back, pc);
      CompilesHere(m, b, back, pc + CodeSize(Code(a, back)));
      CatOffers(m, a, b, back, pc, x, ex);
    case Alt(l, r) =>
      AltIs(l, r, back, m.subj, x);
      CodeOfAlt(l, r, back);
      AltLayout(m, pc, Code(l, back), Code(r, back));
      CompilesHere(m, l, back, pc + 5);
      CompilesHere(m, r, back, pc + 10 + CodeSize(Code(l, back)));
      AltOffers(m, l, r, back, pc, x, ex);
    case Look(neg, behind, body) =>
      CodeOfLook(neg, behind, body, back, m.subj, x);
      LookLayout(m, pc, neg, Code(body, behind));
      CompilesHere(m, body, behind, pc + 5);
      LookOffers(m, neg, behind, body, back, pc, x, ex);
    case Quant(body, min, max, greedy) =>
      QuantOffers(m, body, min, max, greedy, back, pc, x, ex);
  }

  lemma SizeSingle(a: Atom)
    ensures CodeSize([AtomInstr(a)]) == InstrSize(AtomInstr(a))
    ensures CodeSize([Prev, AtomInstr(a), Prev]) == 2 + InstrSize(AtomInstr(a))
  {
    hide AtomInstr;
    var i := AtomInstr(a);
    BytesOne(i);
    BytesOne(Prev);
    assert [Prev, i, Prev] == [Prev] + ([i] + [Prev]);
    SizeHead(Prev, [i] + [Prev]);
    SizeHead(i, [Prev]);
  }

  lemma SizeTest(t: Assertion)
    ensures CodeSize([AssertionInstr(t)]) == 1
  {
    BytesOne(AssertionInstr(t));
  }
}
