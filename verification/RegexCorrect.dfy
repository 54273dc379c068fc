/** Running the compiled code offers exactly the results of the pattern. */
module RegexCorrect {
  import opened RegexBytecode
  import opened RegexSyntax
  import opened RegexCode
  import opened RegexVM
  import opened RegexRep
  import opened RegexClass

  ghost predicate ValidSubject(s: Subject)
  {
    forall i :: 0 <= i < |s.units| ==> s.units[i] < 0x1_0000
  }

  ghost predicate AtomOk(a: Atom)
  {
    (a.Lit? ==> a.c <= 0x10_ffff) && (a.Class? ==> ClassOk(a.points))
  }

  /** Patterns the parser can build. */
  ghost predicate NodeOk(n: Node)
  {
    match n
    case Empty => true
    case Single(a) => AtomOk(a)
    case Assert(_) => true
    case Cat(l, r) => NodeOk(l) && NodeOk(r)
    case Alt(l, r) => NodeOk(l) && NodeOk(r)
    case Look(_, _, body) => NodeOk(body)
    case Quant(body, min, max, _) => NodeOk(body) && min <= max <= INF
  }

  /** n, matched forward or backward, never matches the empty string in s. */
  ghost predicate Consumes(n: Node, back: bool, s: Subject)
  {
    forall x: nat :: x <= |s.units| ==> x !in Results(n, back, s, x).ys
  }

  ghost function Start(pc: nat, x: nat, ex: Exit): (c: Conf)
  {
    Running(State(pc, x, ex.stack, ex.caps, ex.entries))
  }

  /** The code of n at pc offers the results of n, from every aligned position. */
  ghost predicate Compiles(m: Machine, n: Node, back: bool, pc: nat)
  {
    forall x: nat, ex: Exit ::
      x <= |m.subj.units| && Aligned(m.subj, x) && ex.pc == pc + CodeSize(Code(n, back)) ==>
      Offers(m, Start(pc, x, ex), Results(n, back, m.subj, x), ex)
  }

  lemma SizeSplit(a: seq<Instr>, c: seq<Instr>)
    ensures CodeSize(a + c) == CodeSize(a) + CodeSize(c)
  {
    BytesConcat(a, c);
  }

  lemma SizeHead(i: Instr, rest: seq<Instr>)
    ensures CodeSize([i] + rest) == InstrSize(i) + CodeSize(rest)
    ensures CodeSize([i]) == InstrSize(i)
  {
    BytesConcat([i], rest);
    BytesOne(i);
  }

  lemma CharBelow(s: Subject, x: nat)
    requires ValidSubject(s) && x < |s.units|
    ensures NextChar(s, x).0 < 0x11_0000
  {
    if PairAt(s, x) {
      assert s.units[x] % 0x400 < 0x400 && s.units[x + 1] % 0x400 < 0x400;
    }
  }

  lemma AtomHit(a: Atom, c: nat)
    requires AtomOk(a) && c < 0x11_0000
    ensures CharHit(AtomInstr(a), c) <==> Matches(a, c)
    ensures IsChar(AtomInstr(a))
  {
    match a
    case Class(points) => ClassHit(points, c);
    case _ =>
  }

  lemma AtomIsChar(a: Atom)
    ensures IsChar(AtomInstr(a))
  {}

  /** One step, instruction by instruction. */
  lemma StepChar(m: Machine, pc: nat, i: Instr, x: nat, ex: Exit)
    requires Decode(m.prog, pc) == Some(i) && IsChar(i) && x <= |m.subj.units|
    ensures Step(m, Start(pc, x, ex)) ==
            if x < |m.subj.units| && CharHit(i, NextChar(m.subj, x).0) then
              Start(pc + InstrSize(i), NextChar(m.subj, x).1, ex)
            else Unwind(m, ex.entries, false, ex.caps)
  {
    hide Decode, Unwind, CharHit;
  }

  lemma StepPrev(m: Machine, pc: nat, x: nat, ex: Exit)
    requires Decode(m.prog, pc) == Some(Prev) && x <= |m.subj.units|
    ensures Step(m, Start(pc, x, ex)) ==
            if x > 0 then Start(pc + 1, PrevPos(m.subj, x), ex) else Unwind(m, ex.entries, false, ex.caps)
  {
    hide Decode, Unwind;
  }

  lemma StepMatch(m: Machine, pc: nat, x: nat, ex: Exit)
    requires Decode(m.prog, pc) == Some(Match) && x <= |m.subj.units|
    ensures Step(m, Start(pc, x, ex)) == Unwind(m, ex.entries, true, ex.caps)
  {
    hide Decode, Unwind;
  }

  lemma StepLookahead(m: Machine, pc: nat, neg: bool, off: nat, x: nat, ex: Exit)
    requires Decode(m.prog, pc) == Some(Lookahead(neg, off)) && x <= |m.subj.units|
    ensures Step(m, Start(pc, x, ex))
      == Start(pc + 5, x, ex.(entries := ex.entries + [LookEntry(neg, pc + 5 + off, x, ex)]))
  {
    hide Decode, Unwind;
  }

  ghost function LookEntry(neg: bool, pc: nat, x: nat, ex: Exit): (e: Entry)
  {
    Entry(if neg then AtNegLookahead else AtLookahead, pc, x, ex.stack, ex.caps, 0)
  }

  /** Returning to a lookahead mark: continue after it, or fail below it. */
  lemma UnwindLook(m: Machine, neg: bool, pc: nat, x: nat, ex: Exit, ret: bool)
    ensures Unwind(m, ex.entries + [LookEntry(neg, pc, x, ex)], ret, ex.caps) ==
            if ret != neg then Running(State(pc, x, ex.stack, ex.caps, ex.entries))
              else Unwind(m, ex.entries, false, ex.caps)
  {
    var es := ex.entries + [LookEntry(neg, pc, x, ex)];
    assert es[..|es| - 1] == ex.entries;
  }

  lemma SingleForward(m: Machine, a: Atom, pc: nat, x: nat, ex: Exit)
    requires ValidSubject(m.subj) && AtomOk(a) && CodeAt(m.prog, pc, [AtomInstr(a)])
    requires x <= |m.subj.units| && ex.pc == pc + InstrSize(AtomInstr(a))
    ensures Offers(m, Start(pc, x, ex), Just(SingleResults(a, false, m.subj, x)), ex)
  {
    hide Decode, Offers, Unwind, Matches, CharHit, ClassInstr, Step, Start, CodeAt, AtomInstr, NextChar;
    var i, c := AtomInstr(a), Start(pc, x, ex);
    assert [i] + [] == [i];
    CodeAtHead(m.prog, pc, i, []);
    AtomIsChar(a);
    if x < |m.subj.units| {
      CharBelow(m.subj, x);
      AtomHit(a, NextChar(m.subj, x).0);
    }
    StepChar(m, pc, i, x, ex);
    if SingleResults(a, false, m.subj, x) == [] {
      OffersNone(m, ex);
    } else {
      OffersHere(m, NextChar(m.subj, x).1, ex);
    }
    OffersStep(m, c, Just(SingleResults(a, false, m.subj, x)), ex);
  }

  lemma OffersHere(m: Machine, y: nat, ex: Exit)
    ensures Offers(m, Start(ex.pc, y, ex), Just([y]), ex)
  {
    OffersOne(m, y, ex);
  }

  lemma SingleBackward(m: Machine, a: Atom, pc: nat, x: nat, ex: Exit)
    requires ValidSubject(m.subj) && AtomOk(a) && CodeAt(m.prog, pc, [Prev, AtomInstr(a), Prev])
    requires x <= |m.subj.units| && ex.pc == pc + 2 + InstrSize(AtomInstr(a))
    ensures Offers(m, Start(pc, x, ex), Just(SingleResults(a, true, m.subj, x)), ex)
  {
    hide Decode, Offers, Unwind, Matches, CharHit, ClassInstr, Step, Start, CodeAt, AtomInstr, NextChar, PrevPos;
    var i, s := AtomInstr(a), m.subj;
    var ys := SingleResults(a, true, s, x);
    assert [Prev, i, Prev] == [Prev] + [i, Prev] && [i, Prev] == [i] + [Prev] && [Prev] == [Prev] + [];
    CodeAtHead(m.prog, pc, Prev, [i, Prev]);
    CodeAtHead(m.prog, pc + 1, i, [Prev]);
    CodeAtHead(m.prog, pc + 1 + InstrSize(i), Prev, []);
    AtomIsChar(a);
    StepPrev(m, pc, x, ex);
    if x == 0 {
      OffersNone(m, ex);
    } else {
      var y := PrevPos(s, x);
      var z := NextChar(s, y).1;
      CharBelow(s, y);
      AtomHit(a, NextChar(s, y).0);
      PrevAligned(s, x);
      StepChar(m, pc + 1, i, y, ex);
      if ys == [] {
        OffersNone(m, ex);
      } else {
        StepPrev(m, pc + 1 + InstrSize(i), z, ex);
        OffersHere(m, y, ex);
        OffersStep(m, Start(pc + 1 + InstrSize(i), z, ex), Just(ys), ex);
      }
      OffersStep(m, Start(pc + 1, y, ex), Just(ys), ex);
    }
    OffersStep(m, Start(pc, x, ex), Just(ys), ex);
  }

  lemma TestOffers(m: Machine, t: Assertion, pc: nat, x: nat, ex: Exit)
    requires CodeAt(m.prog, pc, [AssertionInstr(t)]) && x <= |m.subj.units| && ex.pc == pc + 1
    ensures Offers(m, Start(pc, x, ex), Just(if Holds(t, m.subj, x) then [x] else []), ex)
  {
    hide Decode, Offers, Unwind, Holds;
    var i := AssertionInstr(t);
    assert [i] + [] == [i];
    CodeAtHead(m.prog, pc, i, []);
    if Holds(t, m.subj, x) {
      OffersOne(m, x, ex);
    } else {
      OffersNone(m, ex);
    }
    OffersStep(m, Start(pc, x, ex), Just(if Holds(t, m.subj, x) then [x] else []), ex);
  }

  /** How a result is continued; one constructor per list-wise continuation of Results. */
  datatype Cont =
    | ThenNode(n: Node)
    | ThenTimes(body: Node, k: nat)
    | ThenUpTo(body: Node, greedy: bool, k: nat)
    | ThenStar(body: Node, greedy: bool, from: nat)
    | ThenRest(body: Node, min: nat, max: nat, greedy: bool)

  ghost function Apply(t: Cont, back: bool, s: Subject, y: nat): (o: Found)
    requires y <= |s.units|
  {
    match t
    case ThenNode(n) => Results(n, back, s, y)
    case ThenTimes(body, k) => Times(body, back, s, k, y)
    case ThenUpTo(body, greedy, k) => UpTo(body, greedy, back, s, k, y)
    case ThenStar(body, greedy, from) => if y == from then EmptyIteration(greedy, y) else Star(body, greedy, back, s, y)
    case ThenRest(body, min, max, greedy) => Rest(body, min, max, greedy, back, s, y)
  }

  ghost function ApplyAll(t: Cont, back: bool, s: Subject, x: nat, o: Found): (r: Found)
    requires x <= |s.units| && AllToward(back, s, x, o.ys) && (t.ThenStar? ==> t.from == x)
  {
    match t
    case ThenNode(n) => FlatResults(n, back, s, x, o)
    case ThenTimes(body, k) => TimesAll(body, back, s, k, x, o)
    case ThenUpTo(body, greedy, k) => UpToAll(body, greedy, back, s, k, x, o)
    case ThenStar(body, greedy, _) => StarAll(body, greedy, back, s, x, o)
    case ThenRest(body, min, max, greedy) => RestAll(body, min, max, greedy, back, s, x, o)
  }

  /** One step of the list-wise continuation. */
  lemma ApplyAllIs(t: Cont, back: bool, s: Subject, x: nat, o: Found)
    requires x <= |s.units| && AllToward(back, s, x, o.ys) && (t.ThenStar? ==> t.from == x)
    ensures |o.ys| == 0 ==> ApplyAll(t, back, s, x, o) == o
    ensures |o.ys| > 0 ==>
            && o.ys[0] <= |s.units| && Toward(back, s, x, o.ys[0]) && AllToward(back, s, x, o.Tail().ys)
            && ApplyAll(t, back, s, x, o) == Join(Apply(t, back, s, o.ys[0]), ApplyAll(t, back, s, x, o.Tail()))
  {
    hide Results, Times, UpTo, Star, Rest, Join;
    assert |o.ys| > 0 ==> Toward(back, s, x, o.ys[0]);
    assert forall k :: 1 <= k < |o.ys| ==> Toward(back, s, x, o.ys[k]);
  }

  /** A continuation as a function of the position. */
  ghost function Continued(t: Cont, back: bool, s: Subject): (F: nat -> Found)
  {
    (y: nat) => if y <= |s.units| then Apply(t, back, s, y) else Just([])
  }

  lemma ContinuedIs(t: Cont, back: bool, s: Subject, y: nat)
    requires y <= |s.units|
    ensures Continued(t, back, s)(y) == Apply(t, back, s, y)
  {
    hide Apply;
  }

  lemma {:induction false} ApplyAllIsBind(t: Cont, back: bool, s: Subject, x: nat, o: Found)
    requires x <= |s.units| && AllToward(back, s, x, o.ys) && (t.ThenStar? ==> t.from == x)
    ensures ApplyAll(t, back, s, x, o) == Bind(o, Continued(t, back, s))
    decreases |o.ys|
  {
    hide *;
    ApplyAllIs(t, back, s, x, o);
    BindIs(o, Continued(t, back, s));
    if |o.ys| > 0 {
      o.HeadTail();
      ContinuedIs(t, back, s, o.ys[0]);
      ApplyAllIsBind(t, back, s, x, o.Tail());
    }
  }

  /** A first fragment followed by a continuation. */
  lemma ContOffers(m: Machine, c: Conf, t: Cont, back: bool, x: nat, o: Found, mid: Exit, ex: Exit)
    requires x <= |m.subj.units| && AllToward(back, m.subj, x, o.ys) && (t.ThenStar? ==> t.from == x)
    requires mid.entries == ex.entries && mid.caps == ex.caps && Offers(m, c, o, mid)
    requires forall k ::
      0 <= k < |o.ys| ==> o.ys[k] <= |m.subj.units| && OffersFrom(m, mid, o.ys[k], Apply(t, back, m.subj, o.ys[k]), ex)
    ensures Offers(m, c, ApplyAll(t, back, m.subj, x, o), ex)
  {
    hide *;
    ApplyAllIsBind(t, back, m.subj, x, o);
    forall k | 0 <= k < |o.ys|
      ensures OffersFrom(m, mid, o.ys[k], Continued(t, back, m.subj)(o.ys[k]), ex)
    {
      ContinuedIs(t, back, m.subj, o.ys[k]);
    }
    OffersBind(m, c, o, Continued(t, back, m.subj), mid, ex);
  }

  lemma ResultsToward(n: Node, back: bool, s: Subject, x: nat, y: nat)
    requires x <= |s.units| && Aligned(s, x) && y in Results(n, back, s, x).ys
    ensures y <= |s.units| && Aligned(s, y)
    ensures y != x ==> Room(back, s, y) < Room(back, s, x)
  {
    hide Results;
    var ys := Results(n, back, s, x).ys;
    var k :| 0 <= k < |ys| && ys[k] == y;
    assert Toward(back, s, x, ys[k]);
  }

  lemma CompilesFrom(m: Machine, n: Node, back: bool, pc: nat, y: nat, at: Exit, ex: Exit)
    requires Compiles(m, n, back, pc) && y <= |m.subj.units| && Aligned(m.subj, y)
    requires at.pc == pc && at.stack == ex.stack && at.caps == ex.caps && ex.pc == pc + CodeSize(Code(n, back))
    ensures OffersFrom(m, at, y, Results(n, back, m.subj, y), ex)
  {
    hide Offers, Results, Code;
    forall es: seq<Entry>
      ensures Offers(m, Running(State(at.pc, y, at.stack, at.caps, es)),
        Results(n, back, m.subj, y), ex.(entries := es))
    {
      assert Start(pc, y, ex.(entries := es)) == Running(State(at.pc, y, at.stack, at.caps, es));
    }
  }

  lemma CatOffers(m: Machine, first: Node, second: Node, back: bool, pc: nat, x: nat, ex: Exit)
    requires Compiles(m, first, back, pc) && Compiles(m, second, back, pc + CodeSize(Code(first, back)))
    requires x <= |m.subj.units| && Aligned(m.subj, x)
    requires ex.pc == pc + CodeSize(Code(first, back)) + CodeSize(Code(second, back))
    ensures Offers(m, Start(pc, x, ex), FlatResults(second, back, m.subj, x, Results(first, back, m.subj, x)), ex)
  {
    hide *;
    var s, o := m.subj, Results(first, back, m.subj, x);
    var ys := o.ys;
    var mid := ex.(pc := pc + CodeSize(Code(first, back)));
    CompilesAt(m, first, back, pc, x, mid);
    StartStack(pc, x, mid, ex);
    ResultsAllToward(first, back, s, x);
    forall k | 0 <= k < |ys|
      ensures ys[k] <= |s.units| && OffersFrom(m, mid, ys[k], Apply(ThenNode(second), back, s, ys[k]), ex)
    {
      ResultsToward(first, back, s, x, ys[k]);
      CompilesFrom(m, second, back, mid.pc, ys[k], mid, ex);
      ApplyNode(second, back, s, ys[k]);
    }
    ContOffers(m, Start(pc, x, ex), ThenNode(second), back, x, o, mid, ex);
    ApplyAllNode(second, back, s, x, o);
  }

  lemma StartStack(pc: nat, x: nat, a: Exit, b: Exit)
    requires a.stack == b.stack && a.caps == b.caps && a.entries == b.entries
    ensures Start(pc, x, a) == Start(pc, x, b)
  {}

  lemma ResultsAllToward(n: Node, back: bool, s: Subject, x: nat)
    requires x <= |s.units|
    ensures AllToward(back, s, x, Results(n, back, s, x).ys)
  {
    hide Results;
  }

  lemma ApplyNode(n: Node, back: bool, s: Subject, y: nat)
    requires y <= |s.units|
    ensures Apply(ThenNode(n), back, s, y) == Results(n, back, s, y)
  {
    hide Results;
  }

  lemma ApplyAllNode(n: Node, back: bool, s: Subject, x: nat, o: Found)
    requires x <= |s.units| && AllToward(back, s, x, o.ys)
    ensures ApplyAll(ThenNode(n), back, s, x, o) == FlatResults(n, back, s, x, o)
  {
    hide FlatResults;
  }

  /** The continuation that adds nothing. */
  ghost function Same(): (F: nat -> Found)
  {
    (y: nat) => Just([y])
  }

  lemma {:induction false} BindSame(o: Found)
    ensures Bind(o, Same()) == o
    decreases |o.ys|
  {
    if |o.ys| > 0 {
      BindSame(o.Tail());
      o.HeadTail();
    }
  }

  /** Results that all pass through the same straight code keep their order. */
  lemma OffersRetarget(m: Machine, c: Conf, o: Found, mid: Exit, ex: Exit)
    requires mid.entries == ex.entries && mid.caps == ex.caps && Offers(m, c, o, mid)
    requires forall y: nat, es: seq<Entry> :: y in o.ys ==>
      Reaches(m, Running(State(mid.pc, y, mid.stack, mid.caps, es)), Running(State(ex.pc, y, ex.stack, ex.caps, es)))
    ensures Offers(m, c, o, ex)
  {
    hide Reaches, Unwind, Offers, Bind;
    forall k | 0 <= k < |o.ys|
      ensures OffersFrom(m, mid, o.ys[k], Same()(o.ys[k]), ex)
    {
      var y := o.ys[k];
      assert y in o.ys && Same()(y) == Just([y]);
      forall es: seq<Entry>
        ensures Offers(m, Running(State(mid.pc, y, mid.stack, mid.caps, es)), Just([y]), ex.(entries := es))
      {
        OffersOne(m, y, ex.(entries := es));
        OffersAfter(m, Running(State(mid.pc, y, mid.stack, mid.caps, es)),
          Running(State(ex.pc, y, ex.stack, ex.caps, es)), Just([y]), ex.(entries := es));
      }
    }
    OffersBind(m, c, o, Same(), mid, ex);
    BindSame(o);
  }

  ghost function SplitFirst(pc: nat, nextFirst: bool, off: int): (r: int) { if nextFirst then pc + 5 else pc + 5 + off }

  ghost function SplitSecond(pc: nat, nextFirst: bool, off: int): (r: int) {
    if nextFirst then pc + 5 + off else pc + 5
  }

  /** A split: one branch, then on backtracking the other. The stack at the split may
      differ from the one at the exit. */
  lemma SplitOffers(m: Machine, pc: nat, nextFirst: bool, off: int, x: nat, at: Exit, ex: Exit, a: Found, b: Found)
    requires Decode(m.prog, pc) == Some(Split(nextFirst, off)) && pc + 5 + off >= 0 && x <= |m.subj.units|
    requires at.caps == ex.caps && at.entries == ex.entries
    requires forall es: seq<Entry> ::
      Offers(m, Start(SplitFirst(pc, nextFirst, off), x, at.(entries := es)), a, ex.(entries := es))
    requires Offers(m, Start(SplitSecond(pc, nextFirst, off), x, at), b, ex)
    ensures Offers(m, Start(pc, x, at), Join(a, b), ex)
  {
    hide Offers, Decode;
    var first, second := SplitFirst(pc, nextFirst, off), SplitSecond(pc, nextFirst, off);
    var e := Entry(AtSplit, second, x, at.stack, at.caps, 0);
    var es := ex.entries + [e];
    assert Step(m, Start(pc, x, at)) == Start(first, x, at.(entries := es));
    assert es[..|es| - 1] == ex.entries;
    assert Backtrack(m, ex, [e]) == Start(second, x, at);
    assert Offers(m, Start(first, x, at.(entries := es)), a, ex.(entries := es));
    OffersAppend(m, Start(first, x, at.(entries := es)), a, b, ex, [e]);
    OffersStep(m, Start(pc, x, at), Join(a, b), ex);
  }

  /** Passing a goto at the end of a fragment. */
  lemma GotoRetarget(m: Machine, c: Conf, o: Found, mid: Exit, off: int, ex: Exit)
    requires Decode(m.prog, mid.pc) == Some(Goto(off)) && mid.pc + 5 + off >= 0 && ex == mid.(pc := mid.pc + 5 + off)
    requires Offers(m, c, o, mid)
    requires forall y :: y in o.ys ==> y <= |m.subj.units|
    ensures Offers(m, c, o, ex)
  {
    hide Offers, Decode, Reaches;
    forall y: nat, es: seq<Entry> | y in o.ys
      ensures Reaches(m, Running(State(mid.pc, y, mid.stack, mid.caps, es)),
        Running(State(ex.pc, y, ex.stack, ex.caps, es)))
    {
      ReachesOne(m, Running(State(mid.pc, y, mid.stack, mid.caps, es)));
    }
    OffersRetarget(m, c, o, mid, ex);
  }

  lemma AltLayout(m: Machine, pc: nat, cl: seq<Instr>, cr: seq<Instr>)
    requires CodeAt(m.prog, pc, [Split(true, CodeSize(cl) + 5)] + cl + [Goto(CodeSize(cr))] + cr)
    ensures Decode(m.prog, pc) == Some(Split(true, CodeSize(cl) + 5)) && CodeAt(m.prog, pc + 5, cl)
    ensures Decode(m.prog, pc + 5 + CodeSize(cl)) == Some(Goto(CodeSize(cr)))
      && CodeAt(m.prog, pc + 10 + CodeSize(cl), cr)
    ensures CodeSize([Split(true, CodeSize(cl) + 5)] + cl + [Goto(CodeSize(cr))] + cr)
      == 10 + CodeSize(cl) + CodeSize(cr)
  {
    hide *;
    BranchSizes(CodeSize(cl) + 5, CodeSize(cr));
    var a, g := Split(true, CodeSize(cl) + 5), Goto(CodeSize(cr));
    assert [a] + cl + [g] + cr == [a] + (cl + ([g] + cr));
    CodeAtHead(m.prog, pc, a, cl + ([g] + cr));
    CodeAtSplit(m.prog, pc + 5, cl, [g] + cr);
    CodeAtHead(m.prog, pc + 5 + CodeSize(cl), g, cr);
    SizeHead(a, cl + ([g] + cr));
    SizeSplit(cl, [g] + cr);
    SizeHead(g, cr);
  }

  lemma AltOffers(m: Machine, l: Node, r: Node, back: bool, pc: nat, x: nat, ex: Exit)
    requires CodeAt(m.prog, pc, Code(Alt(l, r), back)) && ex.pc == pc + CodeSize(Code(Alt(l, r), back))
    requires Compiles(m, l, back, pc + 5) && Compiles(m, r, back, pc + 10 + CodeSize(Code(l, back)))
    requires x <= |m.subj.units| && Aligned(m.subj, x)
    ensures Offers(m, Start(pc, x, ex), Join(Results(l, back, m.subj, x), Results(r, back, m.subj, x)), ex)
  {
    hide *;
    var cl, cr := Code(l, back), Code(r, back);
    CodeOfAlt(l, r, back);
    AltLayout(m, pc, cl, cr);
    SplitTargets(pc, true, CodeSize(cl) + 5);
    forall es: seq<Entry>
      ensures Offers(m, Start(SplitFirst(pc, true, CodeSize(cl) + 5), x, ex.(entries := es)),
        Results(l, back, m.subj, x), ex.(entries := es))
    {
      AltLeft(m, l, back, pc, x, CodeSize(cr), ex.(entries := es));
    }
    CompilesAt(m, r, back, pc + 10 + CodeSize(cl), x, ex);
    SplitOffers(m, pc, true, CodeSize(cl) + 5, x, ex, ex, Results(l, back, m.subj, x), Results(r, back, m.subj, x));
  }

  lemma SplitTargets(pc: nat, nextFirst: bool, off: int)
    ensures SplitFirst(pc, nextFirst, off) == (if nextFirst then pc + 5 else pc + 5 + off)
    ensures SplitSecond(pc, nextFirst, off) == (if nextFirst then pc + 5 + off else pc + 5)
  {}

  lemma CodeOfAlt(l: Node, r: Node, back: bool)
    ensures Code(Alt(l, r), back) ==
            [Split(true, CodeSize(Code(l, back)) + 5)] + Code(l, back) + [Goto(CodeSize(Code(r, back)))] + Code(r, back)
  {}

  lemma CompilesAt(m: Machine, n: Node, back: bool, pc: nat, x: nat, ex: Exit)
    requires Compiles(m, n, back, pc) && x <= |m.subj.units| && Aligned(m.subj, x)
    requires ex.pc == pc + CodeSize(Code(n, back))
    ensures Offers(m, Start(pc, x, ex), Results(n, back, m.subj, x), ex)
  {}

  /** The first alternative and the jump over the second. */
  lemma AltLeft(m: Machine, l: Node, back: bool, pc: nat, x: nat, skip: nat, ex: Exit)
    requires Compiles(m, l, back, pc + 5) && x <= |m.subj.units| && Aligned(m.subj, x)
    requires Decode(m.prog, pc + 5 + CodeSize(Code(l, back))) == Some(Goto(skip))
    requires ex.pc == pc + 10 + CodeSize(Code(l, back)) + skip
    ensures Offers(m, Start(pc + 5, x, ex), Results(l, back, m.subj, x), ex)
  {
    hide Offers, Results, Code, Decode, Compiles, CodeSize;
    var mid := ex.(pc := pc + 5 + CodeSize(Code(l, back)));
    CompilesAt(m, l, back, pc + 5, x, mid);
    forall y | y in Results(l, back, m.subj, x).ys
      ensures y <= |m.subj.units|
    {
      ResultsToward(l, back, m.subj, x, y);
    }
    GotoRetarget(m, Start(pc + 5, x, mid), Results(l, back, m.subj, x), mid, skip, ex);
  }

  lemma BranchSizes(off: int, skip: int)
    ensures InstrSize(Split(true, off)) == 5 && InstrSize(Goto(skip)) == 5
  {}

  lemma LookSizes(neg: bool, off: int)
    ensures InstrSize(Lookahead(neg, off)) == 5 && InstrSize(Match) == 1 && CodeSize([]) == 0
  {}

  lemma LookLayout(m: Machine, pc: nat, neg: bool, c: seq<Instr>)
    requires CodeAt(m.prog, pc, [Lookahead(neg, CodeSize(c) + 1)] + c + [Match])
    ensures Decode(m.prog, pc) == Some(Lookahead(neg, CodeSize(c) + 1)) && CodeAt(m.prog, pc + 5, c)
    ensures Decode(m.prog, pc + 5 + CodeSize(c)) == Some(Match)
    ensures CodeSize([Lookahead(neg, CodeSize(c) + 1)] + c + [Match]) == 6 + CodeSize(c)
  {
    hide *;
    var a := Lookahead(neg, CodeSize(c) + 1);
    assert [a] + c + [Match] == [a] + (c + [Match]);
    assert [Match] + [] == [Match];
    LookSizes(neg, CodeSize(c) + 1);
    CodeAtHead(m.prog, pc, a, c + [Match]);
    CodeAtSplit(m.prog, pc + 5, c, [Match]);
    CodeAtHead(m.prog, pc + 5 + CodeSize(c), Match, []);
    SizeHead(a, c + [Match]);
    SizeSplit(c, [Match]);
    SizeHead(Match, []);
  }

  /** A lookaround succeeds or fails as its body has a result or not, and does not move. */
  lemma LookOffers(m: Machine, neg: bool, behind: bool, body: Node, back: bool, pc: nat, x: nat, ex: Exit)
    requires CodeAt(m.prog, pc, Code(Look(neg, behind, body), back))
    requires ex.pc == pc + CodeSize(Code(Look(neg, behind, body), back))
    requires Compiles(m, body, behind, pc + 5) && x <= |m.subj.units| && Aligned(m.subj, x)
    ensures Offers(m, Start(pc, x, ex), Results(Look(neg, behind, body), back, m.subj, x), ex)
  {
    hide *;
    var c, o := Code(body, behind), Results(body, behind, m.subj, x);
    CodeOfLook(neg, behind, body, back, m.subj, x);
    LookLayout(m, pc, neg, c);
    if |o.ys| > 0 {
      ResultsToward(body, behind, m.subj, x, o.ys[0]);
    }
    forall e: Exit | e.pc == pc + 5 + CodeSize(c)
      ensures Offers(m, Start(pc + 5, x, e), o, e)
    {
      CompilesAt(m, body, behind, pc + 5, x, e);
    }
    LookRun(m, neg, pc, CodeSize(c), x, ex, o, Results(Look(neg, behind, body), back, m.subj, x));
  }

  lemma CodeOfLook(neg: bool, behind: bool, body: Node, back: bool, s: Subject, x: nat)
    requires x <= |s.units|
    ensures Code(Look(neg, behind, body), back)
      == [Lookahead(neg, CodeSize(Code(body, behind)) + 1)] + Code(body, behind) + [Match]
    ensures var o := Results(body, behind, s, x);
            Results(Look(neg, behind, body), back, s, x) ==
            if o.ys == [] && o.hang then o else Just(if (o.ys == []) == neg then [x] else [])
  {}

  lemma LookRun(m: Machine, neg: bool, pc: nat, len: nat, x: nat, ex: Exit, o: Found, r: Found)
    requires Decode(m.prog, pc) == Some(Lookahead(neg, len + 1)) && Decode(m.prog, pc + 5 + len) == Some(Match)
    requires ex.pc == pc + 6 + len && x <= |m.subj.units| && (|o.ys| > 0 ==> o.ys[0] <= |m.subj.units|)
    requires forall e: Exit :: e.pc == pc + 5 + len ==> Offers(m, Start(pc + 5, x, e), o, e)
    requires r == if o.ys == [] && o.hang then o else Just(if (o.ys == []) == neg then [x] else [])
    ensures Offers(m, Start(pc, x, ex), r, ex)
  {
    hide Decode, Reaches, Step, Unwind, LookEntry, Offers;
    var e := LookEntry(neg, ex.pc, x, ex);
    var inner := Exit(pc + 5 + len, ex.stack, ex.caps, ex.entries + [e]);
    var c1 := Start(pc + 5, x, inner);
    StepLookahead(m, pc, neg, len + 1, x, ex);
    assert Offers(m, c1, o, inner);
    if o.ys == [] && o.hang {
      OffersSilence(m, c1, o, inner, ex);
    } else {
      var c2 := if r.ys == [] then Unwind(m, ex.entries, false, ex.caps) else Start(ex.pc, x, ex);
      var t := OffersFirst(m, c1, o, inner);
      if |o.ys| == 0 {
        UnwindLook(m, neg, ex.pc, x, ex, false);
      } else {
        MatchSkips(m, inner.entries, t, ex.caps);
        UnwindLook(m, neg, ex.pc, x, ex, true);
        StepMatch(m, inner.pc, o.ys[0], inner.(entries := inner.entries + t));
        ReachesOne(m, Leave(inner, o.ys[0], t));
        ReachesTrans(m, c1, Leave(inner, o.ys[0], t), c2);
      }
      assert Reaches(m, c1, c2);
      if r.ys == [] {
        OffersNone(m, ex);
      } else {
        OffersHere(m, x, ex);
      }
      OffersAfter(m, c1, c2, r, ex);
    }
    OffersStep(m, Start(pc, x, ex), r, ex);
  }
}
