/** Concrete patterns on which the program and the standard part
    (section 21.2.2 of ECMA-262, 2020 edition). */
module RegexExamples {
  import opened RegexBytecode
  import opened RegexSyntax
  import opened RegexCode
  import opened RegexVM
  import opened RegexRep
  import opened RegexCorrect
  import opened RegexLoops
  import opened RegexQuant
  import opened RegexGreedy
  import opened RegexTheorem
  import opened RegexProgram
  import opened RegexStandard
  import opened RegexAgreement
  import opened RegexDomain
  import opened RegexReference

  // ---- sizes ----

  lemma AltSize(l: Node, r: Node, back: bool)
    ensures CodeSize(Code(Alt(l, r), back)) == 10 + CodeSize(Code(l, back)) + CodeSize(Code(r, back))
    ensures SimpleCount(Code(Alt(l, r), back)) <= 0
  {
    hide Code, CodeSize;
    CodeOfAlt(l, r, back);
    var cl, cr := Code(l, back), Code(r, back);
    var a, g := Split(true, CodeSize(cl) + 5), Goto(CodeSize(cr));
    SizeHead(a, cl);
    SizeSplit([a] + cl, [g]);
    SizeHead(g, []);
    SizeSplit([a] + cl + [g], cr);
    NotSimple([a] + cl + [g] + cr);
  }

  lemma SmallAlt(l: Node, r: Node, back: bool)
    requires SmallCode(l, back) && SmallCode(r, back) && CodeSize(Code(Alt(l, r), back)) < I32
    ensures SmallCode(Alt(l, r), back)
  {
    hide Code, CodeSize;
  }

  lemma SmallQuant(body: Node, min: nat, max: nat, greedy: bool, back: bool)
    requires SmallCode(body, back) && CodeSize(Code(Quant(body, min, max, greedy), back)) < I32
    ensures SmallCode(Quant(body, min, max, greedy), back)
  {
    hide Code, CodeSize;
  }

  lemma SmallLeaf(n: Node, back: bool)
    requires (n.Empty? || n.Single? || n.Assert?) && CodeSize(Code(n, back)) < I32
    ensures SmallCode(n, back)
  {
    hide Code, CodeSize;
  }

  lemma LitSize(c: nat)
    requires c <= 0xffff
    ensures Code(Single(Lit(c)), false) == [Char(c)] && CodeSize([Char(c)]) == 3 && Code(Empty, false) == []
      && CodeSize([]) == 0
  {
    BytesOne(Char(c));
  }

  lemma JoinJust(a: seq<nat>, b: seq<nat>)
    ensures Join(Just(a), Just(b)) == Just(a + b)
  {}

  // ---- (?:|a)? on "a" ----

  ghost function OptionalEmptyFirst(): (n: Node)
  {
    Quant(Alt(Empty, Single(Lit(97))), 0, 1, true)
  }

  lemma EmptyFirstResults(s: Subject)
    requires s == Subject([97], false, false)
    ensures Results(Alt(Empty, Single(Lit(97))), false, s, 0) == Just([0, 1])
  {
    hide Results;
    assert NextChar(s, 0) == (97, 1);
    LeafIs(Single(Lit(97)), false, s, 0);
    LeafIs(Empty, false, s, 0);
    AltIs(Empty, Single(Lit(97)), false, s, 0);
    assert SingleResults(Lit(97), false, s, 0) == [1];
    JoinJust([0], [1]);
  }

  lemma EmptyFirstOk()
    ensures NodeOk(Alt(Empty, Single(Lit(97)))) && NodeOk(OptionalEmptyFirst()) && InDomain(Alt(Empty, Single(Lit(97))))
  {
    var a := Single(Lit(97));
    assert NodeOk(Empty) && NodeOk(a);
    assert NodeOk(Alt(Empty, a));
  }

  /** The program reports the empty match at 0, the standard "a". */
  lemma EmptyFirstDiffers(m: Machine, sticky: bool)
    requires m.prog == Bytes(Program(OptionalEmptyFirst(), sticky)) && m.subj == Subject([97], false, false)
    ensures Ends(m, Fresh(0, 0, []), Some((0, 0)))
    ensures StandardExec(OptionalEmptyFirst(), m.subj, sticky, 0) == Some((0, 1))
  {
    var n, s, body := OptionalEmptyFirst(), m.subj, Alt(Empty, Single(Lit(97)));
    assert n == Quant(body, 0, 1, true);
    assert ValidSubject(s) && Aligned(s, 0) && CharStart(s, 0) == 0;
    InfPositive();
    hide *;
    EmptyFirstOk();
    EmptyFirstSmall();
    DomainSearches(body, false, s);
    EmptyFirstResults(s);
    JustIs([0, 1]);
    MaybeResults(body, true, false, s, 0);
    QuantOptional(body, 1, true, false, s, 0);
    UpToFinds(body, true, false, s, 1, 0, Identity());
    MaybeMatcher(body, true, false, s, 0, Identity());
    WithoutZero();
    ExecStep(n, s, sticky, 0);
    SearchIs(n, s, sticky, 0);
    ProgramFinds(m, n, sticky, 0);
    BehavesIs(m, Fresh(0, 0, []), Matched(0, 0));
  }

  lemma WithoutZero()
    ensures FirstOf([0, 1], Without(Identity(), 0)) == Some(1)
    ensures Beside(true, Some(1), Identity()(0)) == Some(1)
  {
    FirstOfIndex([0, 1], Without(Identity(), 0), 1);
  }

  lemma EmptyFirstSmall()
    ensures SmallCode(OptionalEmptyFirst(), false)
  {
    var e, a := Empty, Single(Lit(97));
    var body := Alt(e, a);
    assert OptionalEmptyFirst() == Quant(body, 0, 1, true) && INF != 1;
    hide *;
    LitSize(97);
    AltSize(e, a, false);
    var cb := Code(body, false);
    QuantIsMaybe(body, false);
    SmallLeaf(e, false);
    SmallLeaf(a, false);
    SmallAlt(e, a, false);
    SmallQuant(body, 0, 1, true, false);
  }

  lemma QuantIsMaybe(body: Node, back: bool)
    requires SimpleCount(Code(body, back)) <= 0
    ensures CodeSize(Code(Quant(body, 0, 1, true), back)) == 5 + CodeSize(Code(body, back))
  {
    hide CodeSize, SimpleCount;
    SizeHead(Split(true, CodeSize(Code(body, back))), Code(body, back));
  }

  // ---- (?:)*?a on the empty subject ----

  ghost function LazyEmptyLoop(): (n: Node)
  {
    Cat(Quant(Empty, 0, INF, false), Single(Lit(97)))
  }

  lemma LazyEmptyResults(s: Subject)
    requires s == Subject([], false, false)
    ensures Results(LazyEmptyLoop(), false, s, 0) == Found([], true)
  {
    var q, a := Quant(Empty, 0, INF, false), Single(Lit(97));
    assert LazyEmptyLoop() == Cat(q, a) && SingleResults(Lit(97), false, s, 0) == [];
    assert RegexTheorem.First(q, a, false) == q && RegexTheorem.Second(q, a, false) == a;
    InfPositive();
    hide *;
    var o := Star(Empty, false, false, s, 0);
    LeafIs(Empty, false, s, 0);
    LeafIs(a, false, s, 0);
    JustIs([0]);
    ResultsAllToward(Empty, false, s, 0);
    QuantOptional(Empty, INF, false, false, s, 0);
    CatIs(q, a, false, s, 0);
    ApplyAllNode(a, false, s, 0, o);
    var more, t := StarAll(Empty, false, false, s, 0, Just([0])), ThenStar(Empty, false, 0);
    StarIs(Empty, false, false, s, 0);
    ApplyAllStar(Empty, false, false, s, 0, Just([0]));
    ApplyAllIs(t, false, s, 0, Just([0]));
    ApplyStar(Empty, false, false, s, 0, 0);
    EmptyIterationIs(false, 0);
    JoinIs(Found([], true), ApplyAll(t, false, s, 0, Just([0]).Tail()));
    JoinOne(0, Found([], true));
    assert o == Found([0], true);
    ApplyAllIs(ThenNode(a), false, s, 0, o);
    ApplyNode(a, false, s, 0);
    o.HeadTail();
    ApplyAllIs(ThenNode(a), false, s, 0, o.Tail());
    JustIs([]);
    JoinIs(Just([]), o.Tail());
  }

  lemma LazyEmptyOk()
    ensures NodeOk(LazyEmptyLoop())
  {
    var q, a := Quant(Empty, 0, INF, false), Single(Lit(97));
    assert NodeOk(Empty) && NodeOk(a);
    assert NodeOk(q);
  }

  lemma LazyEmptySmall()
    ensures SmallCode(LazyEmptyLoop(), false)
  {
    var q, a := Quant(Empty, 0, INF, false), Single(Lit(97));
    assert LazyEmptyLoop() == Cat(q, a) && Code(LazyEmptyLoop(), false) == Code(q, false) + Code(a, false);
    assert Code(q, false) == QuantCode(Code(Empty, false), 0, INF, false);
    assert CheckSize(false) == 0;
    hide *;
    LitSize(97);
    InfPositive();
    QuantCodeIs([], 0, INF, false);
    OptionalCodeIs([], 0, INF, false);
    CheckIsGreedy([], false);
    LazyStarSize();
    SizeSplit(Code(q, false), Code(a, false));
    SmallLeaf(Empty, false);
    SmallLeaf(a, false);
    SmallQuant(Empty, 0, INF, false, false);
    SmallCat(q, a, false);
  }

  lemma LazyStarSize()
    ensures CodeSize(StarCode([], false, false)) == 10
  {
    hide CodeSize, StarCode;
    StarCodeIs([], false, false);
    var a, j := Split(false, 5), Goto(-10);
    SizeNil();
    assert StarCode([], false, false) == [a] + ([] + [j]);
    assert [] + [j] == [j];
    SizeHead(a, [j]);
    SizeHead(j, []);
  }

  lemma SmallCat(l: Node, r: Node, back: bool)
    requires SmallCode(l, back) && SmallCode(r, back) && CodeSize(Code(Cat(l, r), back)) < I32
    ensures SmallCode(Cat(l, r), back)
  {
    hide Code, CodeSize;
  }

  /** The program never stops, while the standard reports that there is no match. */
  lemma LazyEmptyDiverges(m: Machine)
    requires m.prog == Bytes(Program(LazyEmptyLoop(), true)) && m.subj == Subject([], false, false)
    ensures Diverges(m, Fresh(0, 0, []))
    ensures StandardExec(LazyEmptyLoop(), m.subj, true, 0) == None
  {
    var n, s := LazyEmptyLoop(), m.subj;
    assert ValidSubject(s) && Aligned(s, 0) && CharStart(s, 0) == 0;
    hide *;
    LazyEmptyOk();
    LazyEmptySmall();
    LazyEmptyResults(s);
    SearchIs(n, s, true, 0);
    ProgramFinds(m, n, true, 0);
    BehavesIs(m, Fresh(0, 0, []), Endless);
    LazyEmptyStandard(s);
    ExecStep(n, s, true, 0);
  }

  lemma LazyEmptyStandard(s: Subject)
    requires s == Subject([], false, false)
    ensures Matcher(LazyEmptyLoop(), false, s, 0, Identity()) == None
  {
    var q, a := Quant(Empty, 0, INF, false), Single(Lit(97));
    assert LazyEmptyLoop() == Cat(q, a) && SingleResults(Lit(97), false, s, 0) == [];
    assert RegexTheorem.First(q, a, false) == q && RegexTheorem.Second(q, a, false) == a;
    InfPositive();
    hide *;
    var c := ThenMatch(a, false, s, Identity());
    MatcherIs(Cat(q, a), false, s, 0, Identity());
    MatcherIs(q, false, s, 0, c);
    MatcherIs(a, false, s, 0, Identity());
    ThenMatchIs(a, false, s, Identity(), 0);
    LeafIs(a, false, s, 0);
    JustIs([]);
    FirstOfNil(Identity());
    RepeatIs(Empty, 0, INF, false, false, s, 0, c);
    var d := NextIteration(Empty, 0, INF, false, false, s, 0, c);
    NextIterationStuck(Empty, INF, false, false, s, 0, c);
    LeafIs(Empty, false, s, 0);
    JustIs([0]);
    MatcherIs(Empty, false, s, 0, d);
    FirstOfOne(0, d);
  }

  // ---- (?:|[^]|[^][^][^]){0,2}? on three characters ----

  ghost function AnyOnce(): (n: Node) { Single(AnyAtom) }

  ghost function EmptyOneThree(): (n: Node)
  {
    Alt(Alt(Empty, AnyOnce()), Cat(Cat(AnyOnce(), AnyOnce()), AnyOnce()))
  }

  lemma AnyResults(s: Subject, x: nat)
    requires |s.units| == 3 && !s.utf16 && x <= 3
    ensures Results(AnyOnce(), false, s, x) == Just(if x < 3 then [x + 1] else [])
  {
    LeafIs(AnyOnce(), false, s, x);
  }

  /** a, then one more character. */
  lemma ThenAny(a: Node, s: Subject, x: nat)
    requires |s.units| == 3 && !s.utf16 && x <= 3 && !Results(a, false, s, x).hang && |Results(a, false, s, x).ys| <= 1
    ensures var ys := Results(a, false, s, x).ys;
            && (|ys| == 0 ==> Results(Cat(a, AnyOnce()), false, s, x) == Just([]))
            && (|ys| == 1 ==>
               ys[0] <= 3 && Results(Cat(a, AnyOnce()), false, s, x) == Just(if ys[0] < 3 then [ys[0] + 1] else []))
  {
    assert RegexTheorem.First(a, AnyOnce(), false) == a && RegexTheorem.Second(a, AnyOnce(), false) == AnyOnce();
    hide *;
    var o := Results(a, false, s, x);
    CatIs(a, AnyOnce(), false, s, x);
    ApplyAllNode(AnyOnce(), false, s, x, o);
    ApplyAllSingle(ThenNode(AnyOnce()), false, s, x, o);
    if |o.ys| == 1 {
      ApplyNode(AnyOnce(), false, s, o.ys[0]);
      AnyResults(s, o.ys[0]);
    }
  }

  lemma EmptyOneThreeResults(s: Subject)
    requires |s.units| == 3 && !s.utf16
    ensures Results(EmptyOneThree(), false, s, 0) == Just([0, 1, 3])
    ensures Results(EmptyOneThree(), false, s, 1) == Just([1, 2])
    ensures Results(EmptyOneThree(), false, s, 3) == Just([3])
  {
    assert EmptyOneThree() == Alt(Alt(Empty, AnyOnce()), Cat(Cat(AnyOnce(), AnyOnce()), AnyOnce()));
    hide *;
    OneThreeAt(s, 0);
    OneThreeAt(s, 1);
    OneThreeAt(s, 3);
    assert [0, 1] + [3] == [0, 1, 3] && [1, 2] + [] == [1, 2] && [3] + [] == [3];
  }

  lemma EmptyOneThreeIs()
    ensures EmptyOneThree() == Alt(Alt(Empty, AnyOnce()), Cat(Cat(AnyOnce(), AnyOnce()), AnyOnce()))
  {}

  lemma OneThreeAt(s: Subject, x: nat)
    requires |s.units| == 3 && !s.utf16 && x <= 3
    ensures Results(EmptyOneThree(), false, s, x)
      == Just((if x < 3 then [x, x + 1] else [x]) + (if x == 0 then [3] else []))
  {
    hide *;
    var a := AnyOnce();
    EmptyOneThreeIs();
    LeafIs(Empty, false, s, x);
    AnyResults(s, x);
    JustIs(if x < 3 then [x + 1] else []);
    AltIs(Empty, a, false, s, x);
    JoinJust([x], if x < 3 then [x + 1] else []);
    ThenAny(a, s, x);
    JustIs(Results(Cat(a, a), false, s, x).ys);
    JustIs(if x + 1 < 3 then [x + 2] else []);
    JustIs([]);
    ThenAny(Cat(a, a), s, x);
    AltIs(Alt(Empty, a), Cat(Cat(a, a), a), false, s, x);
    JoinJust([x] + (if x < 3 then [x + 1] else []), if x == 0 then [3] else []);
    assert [x] + [x + 1] == [x, x + 1] && [x] + [] == [x];
  }

  lemma OneThreeOk(s: Subject)
    ensures NodeOk(EmptyOneThree()) && QuantifiersAgree(EmptyOneThree(), false, s)
  {
    var a := AnyOnce();
    assert NodeOk(a) && NodeOk(Empty) && QuantifiersAgree(a, false, s) && QuantifiersAgree(Empty, false, s);
    assert NodeOk(Cat(a, a)) && QuantifiersAgree(Cat(a, a), false, s);
    assert NodeOk(Cat(Cat(a, a), a)) && QuantifiersAgree(Cat(Cat(a, a), a), false, s);
    assert NodeOk(Alt(Empty, a)) && QuantifiersAgree(Alt(Empty, a), false, s);
  }

  /** For the continuation that accepts 2 and 3 the standard finds 2, the program 3: after the
      empty iteration it tries one iteration less first. */
  lemma LazyTwiceDiffers(s: Subject)
    requires |s.units| == 3 && !s.utf16
    ensures var n, c := Quant(EmptyOneThree(), 0, 2, false), Either(2, 3);
            Matcher(n, false, s, 0, c) == Some(2) && FirstOf(Results(n, false, s, 0).ys, c) == Some(3)
  {
    hide *;
    InfPositive();
    var body, c := EmptyOneThree(), Either(2, 3);
    var n := Quant(body, 0, 2, false);
    OneThreeOk(s);
    StandardSearches(body, false, s);
    LazyMaybeAgrees(body, false, s);
    EmptyOneThreeResults(s);
    JustIs([0, 1, 3]);
    JustIs([1, 2]);
    JustIs([3]);
    var e := UpToSearch(body, false, false, s, 1, c);
    MaybeResults(body, false, false, s, 0);
    MaybeResults(body, false, false, s, 1);
    MaybeResults(body, false, false, s, 3);
    UpToSearchIs(body, false, false, s, 1, c, 0);
    UpToSearchIs(body, false, false, s, 1, c, 1);
    UpToSearchIs(body, false, false, s, 1, c, 3);
    TwiceFinds(c, e);
    StandardSkips(body, false, false, s, 2, 0, c);
    SkippingFinds(body, false, false, s, 2, 0, c);
    QuantOptional(body, 2, false, false, s, 0);
    UpToFinds(body, false, false, s, 2, 0, c);
  }

  lemma TwiceFinds(c: nat -> Option<nat>, e: nat -> Option<nat>)
    requires c == Either(2, 3)
    requires e(0) == FirstOf([0] + [0, 1, 3], c) && e(1) == FirstOf([1] + [1, 2], c) && e(3) == FirstOf([3] + [3], c)
    ensures Beside(false, FirstOf([0, 1, 3], e), c(0)) == Some(3)
    ensures Beside(false, FirstOf([0, 1, 3], Without(e, 0)), c(0)) == Some(2)
  {
    FirstOfIndex([0] + [0, 1, 3], c, 3);
    FirstOfIndex([1] + [1, 2], c, 2);
    FirstOfIndex([0, 1, 3], e, 0);
    FirstOfIndex([0, 1, 3], Without(e, 0), 1);
  }

  // ---- a literal outside the basic plane, started inside its surrogate pair ----

  /** The standard matches the whole character, the program reads the lone second half. */
  lemma MisalignedDiffers(m: Machine)
    requires m.prog == Bytes(Program(Single(Lit(0x1_f600)), true)) && m.subj == Subject([0xd83d, 0xde00], true, false)
    ensures Ends(m, Fresh(0, 1, []), None)
    ensures StandardExec(Single(Lit(0x1_f600)), m.subj, true, 1) == Some((1, 2))
  {
    var a, s := Lit(0x1_f600), m.subj;
    assert NextChar(s, 1) == (0xde00, 2) && NextChar(s, 0) == (0x1_f600, 2) && CharStart(s, 1) == 0;
    assert SingleResults(a, false, s, 1) == [] && SingleResults(a, false, s, 0) == [2];
    assert AtomOk(a) && ValidSubject(s);
    hide *;
    LiteralSmall(0x1_f600);
    LiteralRun(m, a, 1);
    LiteralStandard(a, s, 1);
  }
}
