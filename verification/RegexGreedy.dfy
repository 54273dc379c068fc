/** The simple greedy quantifier refines the general greedy loop: one run, then
    backward steps of a fixed number of characters, visit the same positions in
    the same order (cpp/src/quickjs/libregexp.c, REOP_simple_greedy_quant). */
module RegexGreedy {
  import opened RegexBytecode
  import opened RegexSyntax
  import opened RegexCode
  import opened RegexVM
  import opened RegexRep
  import opened RegexCorrect
  import opened RegexLoops
  import opened RegexQuant

  lemma {:induction false} SimpleConcat(a: seq<Instr>, c: seq<Instr>)
    requires SimpleCount(a + c) >= 0
    ensures SimpleCount(a) >= 0 && SimpleCount(c) >= 0 && SimpleCount(a + c) == SimpleCount(a) + SimpleCount(c)
    decreases |a|
  {
    if |a| == 0 {
      assert a + c == c;
    } else {
      assert (a + c)[1..] == a[1..] + c;
      SimpleConcat(a[1..], c);
    }
  }

  /** The quantifier codes that are simple themselves: no code, or exactly one iteration. */
  lemma SimpleQuant(code: seq<Instr>, min: nat, max: nat, greedy: bool)
    requires SimpleCount(QuantCode(code, min, max, greedy)) >= 0 && min <= max
    ensures (min == max == 0 && QuantCode(code, min, max, greedy) == [])
      || (min == max == 1 && QuantCode(code, min, max, greedy) == code)
  {
    hide CodeSize, StarCode, UpToCode, TimesCode, OptionalCode, MandatoryCode, NeedsCheck;
    var len: int := CodeSize(code);
    if greedy && max > 0 && SimpleCount(code) > 0 {
      assert false;
    }
    QuantCodeIs(code, min, max, greedy);
    OptionalNotSimple(code, min, max, greedy);
    OptionalNotSimple(code, 0, max, greedy);
    if min >= 1 {
      if min == 1 && max == INF && !NeedsCheck(code, greedy) {
        SimpleConcat(code, [Split(!greedy, -(len + 5))]);
      } else {
        SimpleConcat(MandatoryCode(code, min), OptionalCode(code, min, max, greedy));
        MandatorySimple(code, min);
        assert code + [] == code;
      }
    }
  }

  lemma OptionalNotSimple(code: seq<Instr>, min: nat, max: nat, greedy: bool)
    requires min <= max
    ensures SimpleCount(OptionalCode(code, min, max, greedy)) >= 0 ==>
      max == min != INF && OptionalCode(code, min, max, greedy) == []
  {
    hide CodeSize, NeedsCheck;
    OptionalCodeIs(code, min, max, greedy);
    StarCodeIs(code, greedy, NeedsCheck(code, greedy));
    if max != INF && max > min {
      UpToCodeIs(code, greedy, max - min);
    }
  }

  lemma MandatorySimple(code: seq<Instr>, min: nat)
    requires SimpleCount(MandatoryCode(code, min)) >= 0
    ensures min == 1 && MandatoryCode(code, min) == code
  {
    hide CodeSize;
  }

  /** Backward code is never simple when it reads a character. */
  lemma {:induction false} SimpleBackward(n: Node)
    ensures SimpleCount(Code(n, true)) <= 0
    decreases n
  {
    hide *;
    SimpleBackwardLeaf(n);
    match n
    case Cat(l, r) =>
      SimpleBackward(l);
      SimpleBackward(r);
      if SimpleCount(Code(r, true) + Code(l, true)) >= 0 {
        SimpleConcat(Code(r, true), Code(l, true));
      }
    case Quant(body, min, max, greedy) =>
      SimpleBackward(body);
      SimpleQuantBackward(Code(body, true), min, max, greedy);
    case _ =>
  }

  lemma SimpleBackwardLeaf(n: Node)
    ensures !n.Cat? && !n.Quant? ==> SimpleCount(Code(n, true)) <= 0
    ensures n.Cat? ==> Code(n, true) == Code(n.r, true) + Code(n.l, true)
    ensures n.Quant? ==> Code(n, true) == QuantCode(Code(n.body, true), n.min, n.max, n.greedy)
  {
    hide CodeSize, QuantCode, AtomInstr, AssertionInstr, SimpleCount;
    match n
    case Empty => NotSimple([]);
    case Single(a) => NotSimple(Code(n, true));
    case Assert(t) => TestCount(t);
    case Cat(l, r) =>
    case Alt(l, r) => NotSimple(Code(n, true));
    case Look(_, _, _) => NotSimple(Code(n, true));
    case Quant(_, _, _, _) =>
  }

  lemma NotSimple(code: seq<Instr>)
    requires |code| > 0 ==> code[0].Prev? || code[0].Split? || code[0].Lookahead?
    ensures SimpleCount(code) <= 0
  {}

  lemma TestCount(t: Assertion)
    ensures SimpleCount([AssertionInstr(t)]) == 0
  {
    assert [AssertionInstr(t)][1..] == [];
  }

  lemma SimpleQuantBackward(code: seq<Instr>, min: nat, max: nat, greedy: bool)
    requires SimpleCount(code) <= 0
    ensures SimpleCount(QuantCode(code, min, max, greedy)) <= 0
  {
    if min <= max {
      if SimpleCount(QuantCode(code, min, max, greedy)) >= 0 {
        SimpleQuant(code, min, max, greedy);
      }
    } else {
      hide CodeSize, StarCode, UpToCode, TimesCode, NeedsCheck;
      QuantCodeIs(code, min, max, greedy);
      if SimpleCount(QuantCode(code, min, max, greedy)) > 0 {
        SimpleConcat(MandatoryCode(code, min), OptionalCode(code, min, max, greedy));
        MandatorySimple(code, min);
      }
    }
  }

  lemma {:induction false} StepBackAdd(s: Subject, x: nat, a: nat, c: nat)
    requires x <= |s.units|
    ensures StepBack(s, x, a).Some? ==> StepBack(s, x, a + c) == StepBack(s, StepBack(s, x, a).value, c)
    decreases a
  {
    if a > 0 && x > 0 {
      StepBackAdd(s, PrevPos(s, x), a - 1, c);
    }
  }

  lemma HeadNotSimple(code: seq<Instr>)
    requires |code| > 0 && (code[0].Split? || code[0].Lookahead?)
    ensures SimpleCount(code) < 0
  {}

  lemma SplitNotSimple(n: Node)
    requires n.Alt? || n.Look?
    ensures SimpleCount(Code(n, false)) < 0
  {
    hide SimpleCount, CodeSize;
    HeadNotSimple(Code(n, false));
  }

  lemma CodeShape(n: Node)
    ensures n.Cat? ==> Code(n, false) == Code(n.l, false) + Code(n.r, false)
                       && (NodeOk(n) ==> NodeOk(n.l) && NodeOk(n.r))
    ensures n.Quant? ==> Code(n, false) == QuantCode(Code(n.body, false), n.min, n.max, n.greedy)
                         && (NodeOk(n) ==> n.min <= n.max && NodeOk(n.body))
  {
    hide QuantCode;
  }

  /** The patterns without parts. */
  lemma SimpleLeaf(m: Machine, n: Node, pc: nat, x: nat)
    requires n.Empty? || n.Single? || n.Assert?
    requires CodeAt(m.prog, pc, Code(n, false)) && ValidSubject(m.subj) && NodeOk(n)
    requires x <= |m.subj.units| && Aligned(m.subj, x) && SimpleCount(Code(n, false)) >= 0
    ensures SimpleRun(m, Results(n, false, m.subj, x), SimpleCount(Code(n, false)), pc,
      pc + CodeSize(Code(n, false)), x)
  {
    hide RunSimple, CodeAt, CodeSize, SimpleRun, AtomInstr, AssertionInstr, Holds, SingleResults, SimpleCount;
    match n
    case Empty => SimpleEmpty(m, pc, x);
    case Single(a) => SimpleSingle(m, a, pc, x);
    case Assert(t) => SimpleTest(m, t, pc, x);
  }

  /** What one straight run over simple code does from an aligned position: at most one
      result, reached character by character, from which as many steps back return. */
  ghost predicate SimpleRun(m: Machine, o: Found, chars: nat, pc: nat, next: nat, x: nat)
    requires x <= |m.subj.units|
  {
    var ys := o.ys;
    && |ys| <= 1 && !o.hang
    && (|ys| == 0 ==> RunSimple(m, pc, x) == SimpleFail)
    && (|ys| == 1 ==> (x <= ys[0] <= |m.subj.units| && Aligned(m.subj, ys[0])
                       && RunSimple(m, pc, x) == RunSimple(m, next, ys[0])
                       && StepBack(m.subj, ys[0], chars) == Some(x)))
  }

  lemma {:induction false} SimpleSound(m: Machine, n: Node, pc: nat, x: nat)
    requires CodeAt(m.prog, pc, Code(n, false)) && SimpleCount(Code(n, false)) >= 0
    requires ValidSubject(m.subj) && NodeOk(n) && x <= |m.subj.units| && Aligned(m.subj, x)
    ensures SimpleRun(m, Results(n, false, m.subj, x), SimpleCount(Code(n, false)), pc,
      pc + CodeSize(Code(n, false)), x)
    decreases n
  {
    hide *;
    CodeShape(n);
    if n.Alt? || n.Look? {
      SplitNotSimple(n);
    }
    match n
    case Cat(l, r) =>
      CodeAtSplit(m.prog, pc, Code(l, false), Code(r, false));
      SimpleConcat(Code(l, false), Code(r, false));
      SimpleSound(m, l, pc, x);
      var o := Results(l, false, m.subj, x);
      if |o.ys| == 1 {
        ResultsToward(l, false, m.subj, x, o.ys[0]);
        SimpleSound(m, r, pc + CodeSize(Code(l, false)), o.ys[0]);
      }
      SimpleRunShort(m, o, SimpleCount(Code(l, false)), pc, pc + CodeSize(Code(l, false)), x);
      SimpleCat(m, l, r, pc, x, o);
    case Quant(body, min, max, greedy) =>
      SimpleQuant(Code(body, false), min, max, greedy);
      SimpleQuantResults(body, min, max, greedy, m.subj, x);
      if max == 1 {
        SimpleSound(m, body, pc, x);
      } else {
        SimpleEmpty(m, pc, x);
      }
    case Alt(l, r) =>
    case Look(_, _, body) =>
    case _ => SimpleLeaf(m, n, pc, x);
  }

  lemma SimpleEmpty(m: Machine, pc: nat, x: nat)
    requires x <= |m.subj.units| && Aligned(m.subj, x)
    ensures CodeSize([]) == 0 && SimpleCount([]) == 0 && SimpleRun(m, Just([x]), 0, pc, pc, x)
  {
    hide RunSimple;
  }

  lemma SimpleSingle(m: Machine, a: Atom, pc: nat, x: nat)
    requires ValidSubject(m.subj) && AtomOk(a) && CodeAt(m.prog, pc, [AtomInstr(a)]) && x <= |m.subj.units|
      && Aligned(m.subj, x)
    ensures SimpleCount([AtomInstr(a)]) == 1
    ensures SimpleRun(m, Just(SingleResults(a, false, m.subj, x)), 1, pc, pc + CodeSize([AtomInstr(a)]), x)
  {
    hide CodeAt, CodeSize, Decode, AtomInstr, CharHit, Matches, NextChar;
    var i, s := AtomInstr(a), m.subj;
    assert [i] + [] == [i] && [i][1..] == [];
    CodeAtHead(m.prog, pc, i, []);
    OneInstr(m, i, []);
    AtomIsChar(a);
    if x < |s.units| {
      CharBelow(s, x);
      AtomHit(a, NextChar(s, x).0);
      StepBackInverts(s, x);
      NextAligned(s, x);
      assert StepBack(s, NextChar(s, x).1, 1) == StepBack(s, x, 0);
    }
  }

  lemma SimpleTest(m: Machine, t: Assertion, pc: nat, x: nat)
    requires CodeAt(m.prog, pc, [AssertionInstr(t)]) && x <= |m.subj.units| && Aligned(m.subj, x)
    ensures SimpleCount([AssertionInstr(t)]) == 0
    ensures SimpleRun(m, Just(if Holds(t, m.subj, x) then [x] else []), 0, pc, pc + CodeSize([AssertionInstr(t)]), x)
  {
    hide CodeAt, CodeSize, Decode, Holds;
    var i := AssertionInstr(t);
    assert [i] + [] == [i] && [i][1..] == [];
    CodeAtHead(m.prog, pc, i, []);
    OneInstr(m, i, []);
  }

  /** Two straight runs in a row. */
  lemma SimpleRunThen(m: Machine, y: nat, r: Found, c1: nat, c2: nat, pc: nat, mid: nat, next: nat, x: nat)
    requires x <= |m.subj.units| && y <= |m.subj.units|
    requires SimpleRun(m, Just([y]), c1, pc, mid, x) && SimpleRun(m, r, c2, mid, next, y)
    ensures SimpleRun(m, r, c1 + c2, pc, next, x)
  {
    hide RunSimple;
    if |r.ys| == 1 {
      StepBackAdd(m.subj, r.ys[0], c2, c1);
    }
  }

  lemma CatResults(l: Node, r: Node, s: Subject, x: nat)
    requires x <= |s.units| && !Results(l, false, s, x).hang
    ensures |Results(l, false, s, x).ys| == 0 ==> Results(Cat(l, r), false, s, x) == Just([])
    ensures |Results(l, false, s, x).ys| == 1 ==>
            && Results(l, false, s, x).ys[0] <= |s.units|
            && Results(Cat(l, r), false, s, x) == Results(r, false, s, Results(l, false, s, x).ys[0])
  {
    var o := Results(l, false, s, x);
    assert Results(Cat(l, r), false, s, x) == FlatResults(r, false, s, x, o);
    hide *;
    ResultsAllToward(l, false, s, x);
    ApplyAllNode(r, false, s, x, o);
    JustIs([]);
    if |o.ys| <= 1 {
      ApplyAllSingle(ThenNode(r), false, s, x, o);
      if |o.ys| == 1 {
        ApplyNode(r, false, s, o.ys[0]);
      }
    }
  }

  lemma SimpleFailRun(m: Machine, c: nat, c': nat, pc: nat, mid: nat, next: nat, x: nat)
    requires x <= |m.subj.units| && SimpleRun(m, Just([]), c, pc, mid, x)
    ensures SimpleRun(m, Just([]), c', pc, next, x)
  {
    hide RunSimple;
  }

  lemma SimpleCat(m: Machine, l: Node, r: Node, pc: nat, x: nat, o: Found)
    requires x <= |m.subj.units| && SimpleCount(Code(l, false)) >= 0 && SimpleCount(Code(r, false)) >= 0
    requires o == Results(l, false, m.subj, x) && |o.ys| <= 1 && !o.hang
    requires SimpleRun(m, o, SimpleCount(Code(l, false)), pc, pc + CodeSize(Code(l, false)), x)
    requires |o.ys| == 1 ==> o.ys[0] <= |m.subj.units|
    requires |o.ys| == 1 ==>
      SimpleRun(m, Results(r, false, m.subj, o.ys[0]), SimpleCount(Code(r, false)), pc + CodeSize(Code(l, false)),
                pc + CodeSize(Code(l, false)) + CodeSize(Code(r, false)), o.ys[0])
    ensures SimpleRun(m, Results(Cat(l, r), false, m.subj, x),
      SimpleCount(Code(l, false)) + SimpleCount(Code(r, false)),
                      pc, pc + CodeSize(Code(l, false) + Code(r, false)), x)
  {
    hide *;
    var cl, cr, s := Code(l, false), Code(r, false), m.subj;
    SizeSplit(cl, cr);
    CatResults(l, r, s, x);
    JustIs(o.ys);
    assert o == Just(o.ys);
    if |o.ys| == 1 {
      assert o.ys == [o.ys[0]];
      SimpleRunThen(m, o.ys[0], Results(r, false, s, o.ys[0]), SimpleCount(cl), SimpleCount(cr), pc,
                    pc + CodeSize(cl), pc + CodeSize(cl) + CodeSize(cr), x);
    } else {
      assert o.ys == [];
      SimpleFailRun(m, SimpleCount(cl), SimpleCount(cl) + SimpleCount(cr), pc, pc + CodeSize(cl),
        pc + CodeSize(cl) + CodeSize(cr), x);
    }
  }

  lemma SimpleRunShort(m: Machine, o: Found, chars: nat, pc: nat, next: nat, x: nat)
    requires x <= |m.subj.units| && SimpleRun(m, o, chars, pc, next, x)
    ensures |o.ys| <= 1 && !o.hang
  {
    hide RunSimple;
  }

  lemma SimpleQuantResults(body: Node, min: nat, max: nat, greedy: bool, s: Subject, x: nat)
    requires x <= |s.units| && (min == max == 0 || min == max == 1)
    ensures Results(Quant(body, min, max, greedy), false, s, x) == if max == 0 then Just([x])
      else Results(body, false, s, x)
  {
    var o := Times(body, false, s, min, x);
    assert Results(Quant(body, min, max, greedy), false, s, x) == RestAll(body, min, max, greedy, false, s, x, o);
    hide Results, Times, RestAll;
    ResultsAllToward(body, false, s, x);
    TimesIs(body, false, s, min, x);
    ZeroMore(body, greedy, false, s, x, Results(body, false, s, x));
    TimesToward(body, false, s, min, x);
    RestAllZero(body, max, greedy, s, x, o);
  }

  lemma {:induction false} RestAllZero(body: Node, k: nat, greedy: bool, s: Subject, x: nat, o: Found)
    requires x <= |s.units| && AllToward(false, s, x, o.ys) && k != INF
    ensures RestAll(body, k, k, greedy, false, s, x, o) == o
    decreases |o.ys|
  {
    hide *;
    var t := ThenRest(body, k, k, greedy);
    ApplyAllRest(body, k, k, greedy, false, s, x, o);
    ApplyAllIs(t, false, s, x, o);
    if |o.ys| > 0 {
      o.HeadTail();
      RestAllZero(body, k, greedy, s, x, o.Tail());
      ApplyAllRest(body, k, k, greedy, false, s, x, o.Tail());
      ApplyRest(body, k, k, greedy, false, s, o.ys[0]);
      RestIs(body, k, k, greedy, false, s, o.ys[0]);
      UpToIs(body, greedy, false, s, 0, o.ys[0]);
      JoinOne(o.ys[0], o.Tail());
    }
  }

  /** Iterating a deterministic body as often as it goes (at most k times unless
      unbounded): the number of iterations and the final position. */
  ghost function Iterate(body: Node, s: Subject, unbounded: bool, k: nat, x: nat): (r: (nat, nat))
    requires x <= |s.units|
    ensures x <= r.1 <= |s.units|
    decreases |s.units| - x
  {
    var ys := Results(body, false, s, x).ys;
    if (!unbounded && k == 0) || |ys| == 0 || ys[0] == x then (0, x)
    else
      assert Toward(false, s, x, ys[0]);
      var (q, y) := Iterate(body, s, unbounded, if unbounded then 0 else k - 1, ys[0]);
      (q + 1, y)
  }

  /** The body runs straight through from every aligned position and moves. */
  ghost predicate Deterministic(body: Node, s: Subject, chars: nat)
  {
    forall x: nat :: x <= |s.units| && Aligned(s, x) ==> StraightAt(body, s, chars, x)
  }

  ghost predicate StraightAt(body: Node, s: Subject, chars: nat, x: nat)
    requires x <= |s.units|
  {
    var ys := Results(body, false, s, x).ys;
    && |ys| <= 1 && !Results(body, false, s, x).hang
    && (|ys| == 1 ==> (x < ys[0] <= |s.units| && Aligned(s, ys[0]) && StepBack(s, ys[0], chars) == Some(x)))
  }

  lemma StraightParts(body: Node, s: Subject, chars: nat, x: nat, ys: seq<nat>)
    requires Deterministic(body, s, chars) && x <= |s.units| && Aligned(s, x) && ys == Results(body, false, s, x).ys
    ensures |ys| <= 1 && !Results(body, false, s, x).hang
    ensures |ys| == 1 ==> x < ys[0] <= |s.units| && Aligned(s, ys[0]) && StepBack(s, ys[0], chars) == Some(x)
  {
    hide Results, StepBack;
    assert StraightAt(body, s, chars, x);
  }

  /** y, then one iteration back, and so on n times. */
  ghost function Down(s: Subject, y: nat, chars: nat, n: nat): (r: seq<nat>)
    requires y <= |s.units|
    ensures |r| >= 1 && r[0] == y
    decreases n
  {
    if n == 0 then [y] else
    match StepBack(s, y, chars)
    case None => [y]
    case Some(z) => [y] + Down(s, z, chars, n - 1)
  }

  lemma {:induction false} DownExtend(s: Subject, y: nat, chars: nat, n: nat, x: nat)
    requires y <= |s.units| && |Down(s, y, chars, n)| == n + 1 && Down(s, y, chars, n)[n] <= |s.units|
    requires StepBack(s, Down(s, y, chars, n)[n], chars) == Some(x)
    ensures Down(s, y, chars, n + 1) == Down(s, y, chars, n) + [x]
    decreases n
  {
    if n == 0 {
      assert Down(s, x, chars, 0) == [x];
    } else {
      var z := StepBack(s, y, chars).value;
      var d := Down(s, z, chars, n - 1);
      assert Down(s, y, chars, n) == [y] + d;
      assert Down(s, y, chars, n)[n] == d[n - 1];
      DownExtend(s, z, chars, n - 1, x);
      assert Down(s, y, chars, n + 1) == [y] + Down(s, z, chars, n);
    }
  }

  lemma IterateIs(body: Node, s: Subject, unbounded: bool, k: nat, x: nat, ys: seq<nat>)
    requires x <= |s.units| && ys == Results(body, false, s, x).ys
    ensures (!unbounded && k == 0) || |ys| == 0 ==> Iterate(body, s, unbounded, k, x) == (0, x)
    ensures |ys| == 1 && x < ys[0] <= |s.units| && (unbounded || k > 0) ==>
            var (q, y) := Iterate(body, s, unbounded, if unbounded then 0 else k - 1, ys[0]);
            Iterate(body, s, unbounded, k, x) == (q + 1, y)
  {
    hide Results;
  }

  /** A single first result: its continuation is all there is. */
  lemma ApplyAllSingle(t: Cont, back: bool, s: Subject, x: nat, o: Found)
    requires x <= |s.units| && AllToward(back, s, x, o.ys) && (t.ThenStar? ==> t.from == x) && |o.ys| <= 1 && !o.hang
    ensures |o.ys| == 0 ==> ApplyAll(t, back, s, x, o) == Just([])
    ensures |o.ys| == 1 ==> o.ys[0] <= |s.units| && ApplyAll(t, back, s, x, o) == Apply(t, back, s, o.ys[0])
  {
    hide *;
    ApplyAllIs(t, back, s, x, o);
    JustIs([]);
    if |o.ys| == 1 {
      ApplyAllIs(t, back, s, x, o.Tail());
      o.HeadTail();
      JoinNothing(Apply(t, back, s, o.ys[0]), o.Tail());
    }
  }

  /** The iterations from x, counted down. */
  ghost predicate CountsDown(s: Subject, r: (nat, nat), chars: nat, x: nat, o: Found)
  {
    r.1 <= |s.units| && o == Just(Down(s, r.1, chars, r.0)) && |o.ys| == r.0 + 1 && o.ys[r.0] == x
  }

  lemma CountsNone(s: Subject, chars: nat, x: nat)
    requires x <= |s.units|
    ensures CountsDown(s, (0, x), chars, x, Just([x]))
  {}

  lemma CountsOne(s: Subject, r: (nat, nat), chars: nat, x: nat, y: nat, o: Found)
    requires CountsDown(s, r, chars, y, o) && y <= |s.units| && StepBack(s, y, chars) == Some(x)
    ensures CountsDown(s, (r.0 + 1, r.1), chars, x, Join(o, Just([x])))
  {
    hide Down, StepBack;
    DownExtend(s, r.1, chars, r.0, x);
  }

  /** Counting down from the furthest iteration is the greedy order of UpTo. */
  lemma {:induction false} UpToIsDown(body: Node, s: Subject, chars: nat, k: nat, x: nat)
    requires Deterministic(body, s, chars) && x <= |s.units| && Aligned(s, x)
    ensures CountsDown(s, Iterate(body, s, false, k, x), chars, x, UpTo(body, true, false, s, k, x))
    decreases k
  {
    hide *;
    var o := Results(body, false, s, x);
    StraightParts(body, s, chars, x, o.ys);
    CountsNone(s, chars, x);
    ResultsAllToward(body, false, s, x);
    UpToIs(body, true, false, s, k, x);
    IterateIs(body, s, false, k, x, o.ys);
    if k > 0 {
      var t := ThenUpTo(body, true, k - 1);
      ApplyAllSingle(t, false, s, x, o);
      ApplyUpTo(body, true, false, s, k - 1, x, o, x);
      if |o.ys| == 1 {
        ApplyUpTo(body, true, false, s, k - 1, x, o, o.ys[0]);
        UpToIsDown(body, s, chars, k - 1, o.ys[0]);
        CountsOne(s, Iterate(body, s, false, k - 1, o.ys[0]), chars, x, o.ys[0],
          UpTo(body, true, false, s, k - 1, o.ys[0]));
      } else {
        JoinNone([x]);
      }
    }
  }

  lemma JoinNone(ys: seq<nat>)
    ensures Join(Just([]), Just(ys)) == Just(ys)
  {
    assert [] + ys == ys;
  }

  lemma {:induction false} StarIsDown(body: Node, s: Subject, chars: nat, x: nat)
    requires Deterministic(body, s, chars) && x <= |s.units| && Aligned(s, x)
    ensures CountsDown(s, Iterate(body, s, true, 0, x), chars, x, Star(body, true, false, s, x))
    decreases |s.units| - x
  {
    hide *;
    var o, t := Results(body, false, s, x), ThenStar(body, true, x);
    StraightParts(body, s, chars, x, o.ys);
    CountsNone(s, chars, x);
    ResultsAllToward(body, false, s, x);
    StarIs(body, true, false, s, x);
    IterateIs(body, s, true, 0, x, o.ys);
    ApplyAllSingle(t, false, s, x, o);
    ApplyAllStar(body, true, false, s, x, o);
    if |o.ys| == 1 {
      ApplyStar(body, true, false, s, x, o.ys[0]);
      StarIsDown(body, s, chars, o.ys[0]);
      CountsOne(s, Iterate(body, s, true, 0, o.ys[0]), chars, x, o.ys[0], Star(body, true, false, s, o.ys[0]));
    } else {
      JoinNone([x]);
    }
  }

  lemma CountsDownIs(s: Subject, r: (nat, nat), chars: nat, x: nat, o: Found)
    requires CountsDown(s, r, chars, x, o)
    ensures r.1 <= |s.units| && o == Just(Down(s, r.1, chars, r.0)) && |Down(s, r.1, chars, r.0)| == r.0 + 1
  {
    hide Down;
  }

  /** What remains to iterate after d iterations. */
  ghost function Left(unbounded: bool, k: nat, d: nat): (r: nat) { if unbounded || k < d then 0 else k - d }

  lemma LeftOne(unbounded: bool, k: nat)
    ensures Left(unbounded, k, 1) == if unbounded || k == 0 then 0 else k - 1
  {}

  /** o, what min iterations from x find, starts the run of Iterate from x. */
  ghost predicate StartsRun(body: Node, s: Subject, unbounded: bool, k: nat, min: nat, x: nat, o: Found)
    requires x <= |s.units|
  {
    var r, ys := Iterate(body, s, unbounded, k, x), o.ys;
    && !o.hang && (r.0 < min ==> ys == [])
    && (r.0 >= min ==> (|ys| == 1 && ys[0] <= |s.units| && Aligned(s, ys[0])
                        && Iterate(body, s, unbounded, Left(unbounded, k, min), ys[0]) == (r.0 - min, r.1)))
  }

  lemma StartsRunZero(body: Node, s: Subject, unbounded: bool, k: nat, x: nat)
    requires x <= |s.units| && Aligned(s, x) && (unbounded ==> k == 0)
    ensures StartsRun(body, s, unbounded, k, 0, x, Just([x]))
  {
    hide Iterate;
  }

  lemma StartsRunStep(body: Node, s: Subject, unbounded: bool, k: nat, min: nat, x: nat, y: nat, zs: Found)
    requires x <= |s.units| && y <= |s.units| && min > 0 && (unbounded || min <= k)
    requires var r := Iterate(body, s, unbounded, Left(unbounded, k, 1), y);
      Iterate(body, s, unbounded, k, x) == (r.0 + 1, r.1)
    requires StartsRun(body, s, unbounded, Left(unbounded, k, 1), min - 1, y, zs)
    ensures StartsRun(body, s, unbounded, k, min, x, zs)
  {
    hide Iterate;
    assert Left(unbounded, Left(unbounded, k, 1), min - 1) == Left(unbounded, k, min);
  }

  lemma StartsRunFail(body: Node, s: Subject, unbounded: bool, k: nat, min: nat, x: nat)
    requires x <= |s.units| && min > 0 && Iterate(body, s, unbounded, k, x) == (0, x)
    ensures StartsRun(body, s, unbounded, k, min, x, Just([]))
  {
    hide Iterate;
  }

  /** The mandatory iterations are the first ones of the run. */
  lemma {:induction false} TimesIsPrefix(body: Node, s: Subject, chars: nat, unbounded: bool, k: nat, min: nat, x: nat)
    requires Deterministic(body, s, chars) && x <= |s.units| && Aligned(s, x) && (unbounded ==> k == 0)
      && (!unbounded ==> min <= k)
    ensures StartsRun(body, s, unbounded, k, min, x, Times(body, false, s, min, x))
    decreases min
  {
    hide *;
    var o := Results(body, false, s, x);
    var ys := o.ys;
    StraightParts(body, s, chars, x, ys);
    var k' := Left(unbounded, k, 1);
    LeftOne(unbounded, k);
    TimesIs(body, false, s, min, x);
    if min == 0 {
      StartsRunZero(body, s, unbounded, k, x);
    } else {
      ResultsAllToward(body, false, s, x);
      IterateIs(body, s, unbounded, k, x, ys);
      ApplyAllSingle(ThenTimes(body, min - 1), false, s, x, o);
      ApplyTimes(body, false, s, min - 1, x, o, x);
      if |ys| == 1 {
        ApplyTimes(body, false, s, min - 1, x, o, ys[0]);
        TimesIsPrefix(body, s, chars, unbounded, k', min - 1, ys[0]);
        StartsRunStep(body, s, unbounded, k, min, x, ys[0], Times(body, false, s, min - 1, ys[0]));
      } else {
        StartsRunFail(body, s, unbounded, k, min, x);
      }
    }
  }

  /** The results of a greedy quantifier over a deterministic body. */
  lemma QuantIsDown(body: Node, s: Subject, chars: nat, min: nat, max: nat, x: nat)
    requires Deterministic(body, s, chars) && x <= |s.units| && Aligned(s, x) && min <= max <= INF
    ensures var (q, y) := Iterate(body, s, max == INF, if max == INF then 0 else max, x);
            RestAll(body, min, max, true, false, s, x, Times(body, false, s, min, x))
              == Just(if q < min then [] else Down(s, y, chars, q - min))
  {
    hide Results, Times, TimesAll, Iterate, Deterministic, StepBack, RestAll, Rest, UpTo, Star, Down;
    var unbounded, k := max == INF, if max == INF then 0 else max;
    var o := Times(body, false, s, min, x);
    var ys := o.ys;
    TimesIsPrefix(body, s, chars, unbounded, k, min, x);
    assert StartsRun(body, s, unbounded, k, min, x, o);
    TimesToward(body, false, s, min, x);
    ApplyAllSingle(ThenRest(body, min, max, true), false, s, x, o);
    ApplyAllRest(body, min, max, true, false, s, x, o);
    if |ys| == 1 {
      ApplyRest(body, min, max, true, false, s, ys[0]);
      RestIs(body, min, max, true, false, s, ys[0]);
      if max == INF {
        StarIsDown(body, s, chars, ys[0]);
        CountsDownIs(s, Iterate(body, s, true, 0, ys[0]), chars, ys[0], Star(body, true, false, s, ys[0]));
      } else {
        UpToIsDown(body, s, chars, max - min, ys[0]);
        CountsDownIs(s, Iterate(body, s, false, max - min, ys[0]), chars, ys[0],
          UpTo(body, true, false, s, max - min, ys[0]));
      }
    }
  }

  /** The VM's run is that iteration. */
  lemma {:induction false} GreedyRuns(m: Machine, body: Node, pc: nat, max: nat, q0: nat, x: nat)
    requires CodeAt(m.prog, pc, Code(body, false)) && Decode(m.prog, pc + CodeSize(Code(body, false))) == Some(Match)
    requires SimpleCount(Code(body, false)) > 0 && ValidSubject(m.subj) && NodeOk(body)
    requires x <= |m.subj.units| && Aligned(m.subj, x) && (max == INF || q0 < max)
    ensures var (q, y) := Iterate(body, m.subj, max == INF, if max == INF then 0 else max - q0, x);
            RunGreedy(m, pc, max, q0, x) == Some((q0 + q, y))
    decreases |m.subj.units| - x
  {
    hide *;
    var s := m.subj;
    var o := Results(body, false, s, x);
    var ys := o.ys;
    var k := if max == INF then 0 else max - q0;
    SimpleSound(m, body, pc, x);
    SimpleEnds(m, o, SimpleCount(Code(body, false)), pc, pc + CodeSize(Code(body, false)), x);
    IterateIs(body, s, max == INF, k, x, ys);
    RunGreedyIs(m, pc, max, q0, x);
    if |ys| == 1 {
      if max != INF && q0 + 1 >= max {
        IterateIs(body, s, false, 0, ys[0], Results(body, false, s, ys[0]).ys);
      } else {
        GreedyRuns(m, body, pc, max, q0 + 1, ys[0]);
      }
    }
  }

  lemma RunGreedyIs(m: Machine, pc: nat, max: nat, q: nat, x: nat)
    requires x <= |m.subj.units|
    ensures RunSimple(m, pc, x) == SimpleFail ==> RunGreedy(m, pc, max, q, x) == Some((q, x))
    ensures RunSimple(m, pc, x).SimpleOk? && RunSimple(m, pc, x).pos != x ==>
            var y := RunSimple(m, pc, x).pos;
            y <= |m.subj.units| &&
            RunGreedy(m, pc, max, q, x) == if q + 1 >= max && max != INF then Some((q + 1, y))
              else RunGreedy(m, pc, max, q + 1, y)
  {
    hide RunSimple;
  }

  lemma SimpleEnds(m: Machine, o: Found, chars: nat, pc: nat, next: nat, x: nat)
    requires x <= |m.subj.units| && SimpleRun(m, o, chars, pc, next, x) && chars > 0
      && Decode(m.prog, next) == Some(Match)
    ensures |o.ys| <= 1 && !o.hang
    ensures |o.ys| == 0 ==> RunSimple(m, pc, x) == SimpleFail
    ensures |o.ys| == 1 ==>
      RunSimple(m, pc, x) == SimpleOk(o.ys[0]) && x < o.ys[0] <= |m.subj.units| && Aligned(m.subj, o.ys[0])
    ensures |o.ys| == 1 ==> StepBack(m.subj, o.ys[0], chars) == Some(x)
  {
    hide Decode;
    if |o.ys| == 1 {
      assert RunSimple(m, next, o.ys[0]) == SimpleOk(o.ys[0]);
      StepBackMoves(m.subj, o.ys[0], chars);
    }
  }

  lemma {:induction false} StepBackMoves(s: Subject, x: nat, n: nat)
    requires x <= |s.units| && n > 0 && StepBack(s, x, n).Some?
    ensures StepBack(s, x, n).value < x
    decreases n
  {
    if n > 1 {
      StepBackMoves(s, PrevPos(s, x), n - 1);
    }
  }

  lemma BodyDeterministic(m: Machine, body: Node, pc: nat)
    requires CodeAt(m.prog, pc, Code(body, false)) && Decode(m.prog, pc + CodeSize(Code(body, false))) == Some(Match)
    requires SimpleCount(Code(body, false)) > 0 && ValidSubject(m.subj) && NodeOk(body)
    ensures Deterministic(body, m.subj, SimpleCount(Code(body, false)))
  {
    hide Results, RunSimple, Code, CodeSize, CodeAt, SimpleCount, Decode, StepBack;
    var c := SimpleCount(Code(body, false));
    forall x: nat | x <= |m.subj.units| && Aligned(m.subj, x)
      ensures StraightAt(body, m.subj, c, x)
    {
      SimpleSound(m, body, pc, x);
      SimpleEnds(m, Results(body, false, m.subj, x), c, pc, pc + CodeSize(Code(body, false)), x);
    }
  }

  lemma DecodedFields(b: seq<byte>, pc: nat, off: int, min: nat, max: nat, count: nat)
    requires Decode(b, pc) == Some(SimpleGreedy(off, min, max, count))
    ensures pc + 17 <= |b| && GetI32(b, pc + 1) == off && GetU32(b, pc + 13) == count
  {
    hide GetI32, GetU32, GetU16;
  }

  /** The saved state of a simple greedy quantifier with n iterations still to give back. */
  ghost function GreedyEntries(pc: nat, y: nat, n: nat, ex: Exit): (r: seq<Entry>)
  {
    if n == 0 then [] else [Entry(AtGreedy, pc + 1, y, ex.stack, ex.caps, n)]
  }

  lemma ResumeIs(m: Machine, pc: nat, y: nat, z: nat, n: nat, ex: Exit, off: nat, min: nat, max: nat, count: nat)
    requires Decode(m.prog, pc) == Some(SimpleGreedy(off, min, max, count)) && ex.pc == pc + 17 + off
    requires y <= |m.subj.units| && n > 0 && StepBack(m.subj, y, count) == Some(z)
    ensures Backtrack(m, ex, GreedyEntries(pc, y, n, ex)) == Leave(ex, z, GreedyEntries(pc, z, n - 1, ex))
  {
    hide Decode, GetI32, GetU32, StepBack;
    DecodedFields(m.prog, pc, off, min, max, count);
    var es := ex.entries + GreedyEntries(pc, y, n, ex);
    assert es[..|es| - 1] == ex.entries;
    assert ex.entries + [] == ex.entries;
  }

  /** Giving back one iteration at a time offers the positions counted down. */
  lemma {:induction false} DownOffers(m: Machine, pc: nat, y: nat, n: nat, ex: Exit, off: nat,
      min: nat, max: nat, count: nat)
    requires Decode(m.prog, pc) == Some(SimpleGreedy(off, min, max, count)) && ex.pc == pc + 17 + off
    requires y <= |m.subj.units| && |Down(m.subj, y, count, n)| == n + 1
    ensures Offers(m, Leave(ex, y, GreedyEntries(pc, y, n, ex)), Just(Down(m.subj, y, count, n)), ex)
    decreases n
  {
    hide Decode, StepBack, Unwind, Reaches, Backtrack, Offers;
    var c, x, ys := Leave(ex, y, GreedyEntries(pc, y, n, ex)), GreedyEntries(pc, y, n, ex), Down(m.subj, y, count, n);
    ReachesRefl(m, c);
    if n == 0 {
      assert ys == [y];
      assert ex.entries + [] == ex.entries;
      OffersHere(m, y, ex);
    } else {
      var z := StepBack(m.subj, y, count).value;
      var tail := Just(Down(m.subj, z, count, n - 1));
      assert ys == [y] + tail.ys;
      ResumeIs(m, pc, y, z, n, ex, off, min, max, count);
      DownOffers(m, pc, z, n - 1, ex, off, min, max, count);
      OffersNext(m, c, y, x, tail, ex);
    }
  }

  lemma SimpleLayout(m: Machine, pc: nat, code: seq<Instr>, min: nat, max: nat, count: nat)
    requires CodeAt(m.prog, pc, [SimpleGreedy(CodeSize(code) + 1, min, max, count)] + code + [Match])
    ensures Decode(m.prog, pc) == Some(SimpleGreedy(CodeSize(code) + 1, min, max, count))
    ensures CodeAt(m.prog, pc + 17, code) && Decode(m.prog, pc + 17 + CodeSize(code)) == Some(Match)
    ensures CodeSize([SimpleGreedy(CodeSize(code) + 1, min, max, count)] + code + [Match]) == 18 + CodeSize(code)
  {
    hide *;
    var a := SimpleGreedy(CodeSize(code) + 1, min, max, count);
    assert [a] + code + [Match] == [a] + (code + [Match]);
    assert [Match] + [] == [Match];
    OneInstr(m, a, code + [Match]);
    SizeSplit(code, [Match]);
    OneInstr(m, Match, []);
    CodeAtHead(m.prog, pc, a, code + [Match]);
    CodeAtSplit(m.prog, pc + 17, code, [Match]);
    CodeAtHead(m.prog, pc + 17 + CodeSize(code), Match, []);
  }

  lemma StepGreedy(m: Machine, pc: nat, off: nat, min: nat, max: nat, count: nat, x: nat, q: nat, y: nat, ex: Exit)
    requires Decode(m.prog, pc) == Some(SimpleGreedy(off, min, max, count)) && x <= |m.subj.units|
      && ex.pc == pc + 17 + off
    requires RunGreedy(m, pc + 17, max, 0, x) == Some((q, y))
    ensures Step(m, Start(pc, x, ex)) ==
            if q < min then Unwind(m, ex.entries, false, ex.caps) else Leave(ex, y, GreedyEntries(pc, y, q - min, ex))
  {
    hide Decode, Unwind, RunGreedy;
    assert ex.entries + [] == ex.entries;
  }

  /** The whole simple greedy quantifier. */
  lemma SimpleQuantOffers(m: Machine, body: Node, min: nat, max: nat, pc: nat, x: nat, ex: Exit)
    requires var code := Code(body, false);
             && SimpleCount(code) > 0
                && CodeAt(m.prog, pc, [SimpleGreedy(CodeSize(code) + 1, min, max, SimpleCount(code))] + code + [Match])
             && ex.pc == pc + 18 + CodeSize(code)
    requires ValidSubject(m.subj) && NodeOk(body) && min <= max <= INF && max > 0
    requires x <= |m.subj.units| && Aligned(m.subj, x)
    ensures Offers(m, Start(pc, x, ex),
      RestAll(body, min, max, true, false, m.subj, x, Times(body, false, m.subj, min, x)), ex)
  {
    hide *;
    var s, code := m.subj, Code(body, false);
    var len, count := CodeSize(code), SimpleCount(code);
    SimpleLayout(m, pc, code, min, max, count);
    BodyDeterministic(m, body, pc + 17);
    GreedyRuns(m, body, pc + 17, max, 0, x);
    var (q, y) := Iterate(body, s, max == INF, if max == INF then 0 else max, x);
    QuantIsDown(body, s, count, min, max, x);
    var zs := RestAll(body, min, max, true, false, s, x, Times(body, false, s, min, x));
    StepGreedy(m, pc, len + 1, min, max, count, x, q, y, ex);
    if q < min {
      OffersNone(m, ex);
    } else {
      IterateDown(body, s, count, max == INF, if max == INF then 0 else max, x, q - min);
      DownOffers(m, pc, y, q - min, ex, len + 1, min, max, count);
    }
    OffersStep(m, Start(pc, x, ex), zs, ex);
  }

  /** The run can be undone step by step as far as it went. */
  lemma IterateDown(body: Node, s: Subject, chars: nat, unbounded: bool, k: nat, x: nat, n: nat)
    requires Deterministic(body, s, chars) && x <= |s.units| && Aligned(s, x) && (unbounded ==> k == 0)
    requires n <= Iterate(body, s, unbounded, k, x).0
    ensures |Down(s, Iterate(body, s, unbounded, k, x).1, chars, n)| == n + 1
  {
    hide Iterate, Deterministic, StepBack, UpTo, Star;
    if unbounded {
      StarIsDown(body, s, chars, x);
      CountsDownIs(s, Iterate(body, s, true, 0, x), chars, x, Star(body, true, false, s, x));
    } else {
      UpToIsDown(body, s, chars, k, x);
      CountsDownIs(s, Iterate(body, s, false, k, x), chars, x, UpTo(body, true, false, s, k, x));
    }
    DownShorter(s, Iterate(body, s, unbounded, k, x).1, chars, n, Iterate(body, s, unbounded, k, x).0);
  }

  lemma {:induction false} DownShorter(s: Subject, y: nat, chars: nat, n: nat, q: nat)
    requires y <= |s.units| && n <= q && |Down(s, y, chars, q)| == q + 1
    ensures |Down(s, y, chars, n)| == n + 1
    decreases n
  {
    hide StepBack;
    if n > 0 {
      DownShorter(s, StepBack(s, y, chars).value, chars, n - 1, q - 1);
    }
  }
}
