/** Whole programs (cpp/src/quickjs/libregexp.c, lre_compile and lre_exec): the
    compiled program fits its encoding, always stops, and finds the leftmost, most
    preferred match. */
module RegexProgram {
  import opened RegexBytecode
  import opened RegexSyntax
  import opened RegexCode
  import opened RegexVM
  import opened RegexRep
  import opened RegexClass
  import opened RegexCorrect
  import opened RegexLoops
  import opened RegexQuant
  import opened RegexTheorem

  // ---- the program fits its encoding ----

  lemma EncodableOne(i: Instr)
    ensures EncodableCode([i]) <==> Encodable(i)
    ensures EncodableCode([])
  {
    hide Encodable;
    assert [i][0] == i;
  }

  lemma EncodableJumps(off: int, b: bool)
    requires FitsI32(off)
    ensures Encodable(Split(b, off)) && Encodable(Goto(off)) && Encodable(Loop(off))
    ensures Encodable(BneCharPos(off)) && Encodable(Lookahead(b, off))
  {}

  lemma EncodableOthers(k: nat)
    requires k <= INF
    ensures Encodable(PushI32(k)) && Encodable(PushCharPos) && Encodable(Drop) && Encodable(Match) && Encodable(Prev)
    ensures Encodable(AnyChar) && Encodable(SaveStart(0)) && Encodable(SaveEnd(0))
  {}

  lemma {:induction false} SimpleCountBound(code: seq<Instr>)
    ensures SimpleCount(code) <= CodeSize(code)
  {
    if |code| > 0 {
      SimpleCountBound(code[1..]);
    }
  }

  /** A frame of encodable instructions around encodable code. */
  lemma FramedEncodable(p: seq<Instr>, code: seq<Instr>, z: Instr)
    requires EncodableCode(p) && EncodableCode(code) && Encodable(z)
    ensures EncodableCode(p + (code + [z]))
  {
    hide *;
    EncodableOne(z);
    EncodableSplit(code, [z]);
    EncodableSplit(p, code + [z]);
  }

  lemma FramedSize(p: seq<Instr>, code: seq<Instr>, z: Instr)
    ensures CodeSize(p + (code + [z])) == CodeSize(p) + CodeSize(code) + InstrSize(z)
  {
    hide *;
    SizeHead(z, []);
    SizeSplit(code, [z]);
    SizeSplit(p, code + [z]);
  }

  /** What precedes the body of a loop: a split and, if checked, the position. */
  lemma StarHead(a: Instr, check: bool, rest: seq<Instr>)
    requires a.Split?
    ensures var p := if check then [a] + [PushCharPos] else [a];
            && p + rest == (if check then [a] + ([PushCharPos] + rest) else [a] + rest)
            && CodeSize(p) == 5 + (if check then 1 else 0) && (EncodableCode(p) <==> Encodable(a))
  {
    hide CodeSize, EncodableCode;
    SizeHead(a, [PushCharPos]);
    SizeHead(PushCharPos, []);
    EncodableOne(a);
    EncodableOne(PushCharPos);
    EncodableSplit([a], [PushCharPos]);
  }

  lemma StarEncodable(code: seq<Instr>, greedy: bool, check: bool)
    requires EncodableCode(code) && CodeSize(StarCode(code, greedy, check)) < I32
    ensures EncodableCode(StarCode(code, greedy, check)) && CodeSize(code) <= CodeSize(StarCode(code, greedy, check))
  {
    hide EncodableCode, Encodable, CodeSize, StarCode;
    var len: int, c: int := CodeSize(code), CheckSize(check);
    var a, off := Split(greedy, len + 5 + c), -(5 + c + len + 5);
    var j := if check then BneCharPos(off) else Goto(off);
    var p := if check then [a] + [PushCharPos] else [a];
    StarCodeIs(code, greedy, check);
    StarHead(a, check, code + [j]);
    FramedSize(p, code, j);
    EncodableJumps(len + 5 + c, greedy);
    EncodableJumps(off, greedy);
    FramedEncodable(p, code, j);
  }

  lemma EncodableCons(i: Instr, rest: seq<Instr>)
    requires Encodable(i) && EncodableCode(rest)
    ensures EncodableCode([i] + rest)
  {
    hide Encodable;
  }

  lemma EncodableAround(i: Instr, j: Instr, code: seq<Instr>, k: Instr, l: Instr)
    requires Encodable(i) && Encodable(j) && EncodableCode(code) && Encodable(k) && Encodable(l)
    ensures EncodableCode([i] + ([j] + (code + ([k] + [l]))))
  {
    hide *;
    EncodableOne(l);
    EncodableCons(k, [l]);
    EncodableSplit(code, [k] + [l]);
    EncodableCons(j, code + ([k] + [l]));
    EncodableCons(i, [j] + (code + ([k] + [l])));
  }

  lemma UpToEncodable(code: seq<Instr>, greedy: bool, k: nat)
    requires EncodableCode(code) && CodeSize(code) + 16 < I32 && k <= INF
    ensures EncodableCode(UpToCode(code, greedy, k))
  {
    hide *;
    var len: int := CodeSize(code);
    FitsSmall(len);
    EncodableJumps(len + 5, greedy);
    EncodableJumps(-(5 + len + 5), greedy);
    EncodableOthers(k);
    UpToCodeIs(code, greedy, k);
    EncodableAround(PushI32(k), Split(greedy, len + 5), code, Loop(-(5 + len + 5)), Drop);
  }

  lemma FitsSmall(len: int)
    requires 0 <= len && len + 16 < I32
    ensures FitsI32(len + 5) && FitsI32(-(5 + len + 5))
  {}

  lemma CountedSizes(code: seq<Instr>, greedy: bool, k: nat)
    ensures CodeSize(UpToCode(code, greedy, k)) == 16 + CodeSize(code)
    ensures CodeSize(TimesCode(code, k)) == 11 + CodeSize(code)
  {
    hide CodeSize;
    var len: int := CodeSize(code);
    var a, j, i := Split(greedy, len + 5), Loop(-(5 + len + 5)), Loop(-(len + 5));
    SizeNil();
    SizeHead(a, code);
    SizeHead(j, []);
    SizeHead(i, []);
    SizeHead(Drop, []);
    SizeSplit([a] + code, [j]);
    SizeHead(PushI32(k), [a] + code + [j]);
    SizeSplit([PushI32(k)] + ([a] + code + [j]), [Drop]);
    SizeSplit(code, [i]);
    SizeHead(PushI32(k), code + [i]);
    SizeSplit([PushI32(k)] + (code + [i]), [Drop]);
  }

  lemma OptionalEncodable(code: seq<Instr>, min: nat, max: nat, greedy: bool)
    requires EncodableCode(code) && CodeSize(OptionalCode(code, min, max, greedy)) < I32 && min <= max <= INF
    ensures EncodableCode(OptionalCode(code, min, max, greedy))
  {
    hide *;
    OptionalCodeIs(code, min, max, greedy);
    if max == INF {
      StarEncodable(code, greedy, NeedsCheck(code, greedy));
    } else if max > min {
      CountedSizes(code, greedy, max - min);
      UpToEncodable(code, greedy, max - min);
    } else {
      EncodableOne(Match);
    }
  }

  /** The whole quantifier, when its body is encodable and not dropped. */
  lemma QuantEncodable(code: seq<Instr>, min: nat, max: nat, greedy: bool)
    requires EncodableCode(code) && CodeSize(QuantCode(code, min, max, greedy)) < I32 && min <= max <= INF
    ensures EncodableCode(QuantCode(code, min, max, greedy))
  {
    hide *;
    var len: int := CodeSize(code);
    if greedy && max > 0 && SimpleCount(code) > 0 {
      SimpleQuantEncodable(code, min, max);
    } else {
      QuantCodeIs(code, min, max, greedy);
      if min == 0 {
        if max == 0 {
          EncodableOne(Match);
        } else if max == 1 {
          SizeHead(Split(greedy, len), code);
          SplitSize(greedy, len);
          FitsNat(len);
          EncodableJumps(len, greedy);
          EncodableOne(Split(greedy, len));
          EncodableSplit([Split(greedy, len)], code);
        } else {
          OptionalEncodable(code, 0, max, greedy);
        }
      } else if min == 1 && max == INF && !NeedsCheck(code, greedy) {
        var j := Split(!greedy, -(len + 5));
        SizeSplit(code, [j]);
        SizeHead(j, []);
        SplitSize(!greedy, -(len + 5));
        FitsNat(len + 5);
        EncodableJumps(-(len + 5), !greedy);
        EncodableOne(j);
        EncodableSplit(code, [j]);
      } else {
        var c1, c2 := MandatoryCode(code, min), OptionalCode(code, min, max, greedy);
        SizeSplit(c1, c2);
        MandatoryIs(code, min);
        if min != 1 {
          CountedSizes(code, greedy, min);
          TimesEncodable(code, min);
        }
        OptionalEncodable(code, min, max, greedy);
        EncodableSplit(c1, c2);
      }
    }
  }

  lemma TimesEncodable(code: seq<Instr>, k: nat)
    requires EncodableCode(code) && CodeSize(TimesCode(code, k)) < I32 && k <= INF
    ensures EncodableCode(TimesCode(code, k))
  {
    hide EncodableCode, Encodable, CodeSize;
    var len: int := CodeSize(code);
    var i := Loop(-(len + 5));
    CountedSizes(code, true, k);
    EncodableJumps(-(len + 5), true);
    EncodableOthers(k);
    EncodableOne(PushI32(k));
    EncodableOne(i);
    EncodableOne(Drop);
    EncodableSplit(code, [i]);
    EncodableSplit([PushI32(k)], code + [i]);
    EncodableSplit([PushI32(k)] + (code + [i]), [Drop]);
  }

  lemma MandatoryIs(code: seq<Instr>, min: nat)
    ensures MandatoryCode(code, min) == if min == 1 then code else TimesCode(code, min)
  {}

  lemma FitsNat(k: int)
    requires 0 <= k < I32
    ensures FitsI32(k) && FitsI32(-k)
  {}

  lemma SplitSize(b: bool, off: int)
    ensures InstrSize(Split(b, off)) == 5 && CodeSize([]) == 0
  {}

  lemma SimpleQuantEncodable(code: seq<Instr>, min: nat, max: nat)
    requires EncodableCode(code) && SimpleCount(code) > 0 && 0 < max && min <= max <= INF
    requires CodeSize(QuantCode(code, min, max, true)) < I32
    ensures EncodableCode(QuantCode(code, min, max, true))
  {
    hide EncodableCode, CodeSize, SimpleCount, OptionalCode, MandatoryCode;
    var a := SimpleGreedy(CodeSize(code) + 1, min, max, SimpleCount(code));
    assert QuantCode(code, min, max, true) == [a] + code + [Match];
    SimpleCountBound(code);
    SizeNil();
    SizeHead(a, code);
    SizeSplit([a] + code, [Match]);
    SizeHead(Match, []);
    EncodableOne(a);
    EncodableOne(Match);
    EncodableSplit([a], code);
    EncodableSplit([a] + code, [Match]);
  }

  /** Every fragment that was emitted on the way is smaller than 2^31 bytes. */
  ghost predicate SmallCode(n: Node, back: bool)
  {
    CodeSize(Code(n, back)) < I32 &&
    match n
    case Cat(l, r) => SmallCode(l, back) && SmallCode(r, back)
    case Alt(l, r) => SmallCode(l, back) && SmallCode(r, back)
    case Look(_, behind, body) => SmallCode(body, behind)
    case Quant(body, _, _, _) => SmallCode(body, back)
    case _ => true
  }

  /** Each fragment smaller than 2^31 bytes fits its encoding. */
  lemma {:induction false} CodeEncodable(n: Node, back: bool)
    requires NodeOk(n) && SmallCode(n, back)
    ensures EncodableCode(Code(n, back))
    decreases n
  {
    hide *;
    SmallParts(n, back);
    SimpleCodeIs(n, back);
    match n
    case Empty => EncodableOne(Match);
    case Single(a) => AtomEncodable(a, back);
    case Assert(t) => TestEncodable(t);
    case Cat(l, r) =>
      CodeEncodable(l, back);
      CodeEncodable(r, back);
      EncodableSplit(Code(l, back), Code(r, back));
      EncodableSplit(Code(r, back), Code(l, back));
    case Alt(l, r) =>
      CodeEncodable(l, back);
      CodeEncodable(r, back);
      CodeOfAlt(l, r, back);
      AltEncodable(Code(l, back), Code(r, back));
    case Look(neg, behind, body) =>
      CodeEncodable(body, behind);
      LookCodeIs(neg, behind, body, back);
      LookEncodable(neg, Code(body, behind));
    case Quant(body, min, max, greedy) =>
      CodeEncodable(body, back);
      QuantEncodable(Code(body, back), min, max, greedy);
  }

  lemma LookCodeIs(neg: bool, behind: bool, body: Node, back: bool)
    ensures Code(Look(neg, behind, body), back)
      == [Lookahead(neg, CodeSize(Code(body, behind)) + 1)] + Code(body, behind) + [Match]
  {
    hide CodeSize;
  }

  lemma TestEncodable(t: Assertion)
    ensures EncodableCode([AssertionInstr(t)])
  {
    EncodableOne(AssertionInstr(t));
  }

  lemma AtomEncodable(a: Atom, back: bool)
    requires AtomOk(a)
    ensures EncodableCode(Code(Single(a), back))
  {
    hide EncodableCode, ClassInstr;
    var i := AtomInstr(a);
    if a.Class? {
      ClassEncodable(a.points);
    }
    EncodableOne(i);
    EncodableOne(Prev);
    EncodableSplit([i], [Prev]);
    EncodableSplit([Prev], [i] + [Prev]);
    assert [Prev] + ([i] + [Prev]) == [Prev, i, Prev];
  }

  lemma AltEncodable(cl: seq<Instr>, cr: seq<Instr>)
    requires EncodableCode(cl) && EncodableCode(cr)
    requires CodeSize([Split(true, CodeSize(cl) + 5)] + cl + [Goto(CodeSize(cr))] + cr) < I32
    ensures EncodableCode([Split(true, CodeSize(cl) + 5)] + cl + [Goto(CodeSize(cr))] + cr)
  {
    hide Encodable, CodeSize, EncodableCode;
    var a, g := Split(true, CodeSize(cl) + 5), Goto(CodeSize(cr));
    SizeNil();
    SizeHead(a, cl);
    SizeSplit([a] + cl, [g]);
    SizeHead(g, []);
    SizeSplit([a] + cl + [g], cr);
    EncodableJumps(CodeSize(cl) + 5, true);
    EncodableJumps(CodeSize(cr), true);
    EncodableOne(a);
    EncodableOne(g);
    EncodableSplit([a], cl);
    EncodableSplit([a] + cl, [g]);
    EncodableSplit([a] + cl + [g], cr);
  }

  lemma LookEncodable(neg: bool, c: seq<Instr>)
    requires EncodableCode(c) && CodeSize([Lookahead(neg, CodeSize(c) + 1)] + c + [Match]) < I32
    ensures EncodableCode([Lookahead(neg, CodeSize(c) + 1)] + c + [Match])
  {
    hide Encodable, CodeSize, EncodableCode;
    var a := Lookahead(neg, CodeSize(c) + 1);
    SizeNil();
    SizeHead(a, c);
    SizeSplit([a] + c, [Match]);
    SizeHead(Match, []);
    EncodableJumps(CodeSize(c) + 1, neg);
    EncodableOthers(0);
    EncodableOne(a);
    EncodableOne(Match);
    EncodableSplit([a], c);
    EncodableSplit([a] + c, [Match]);
  }

  lemma SmallParts(n: Node, back: bool)
    requires NodeOk(n) && SmallCode(n, back)
    ensures CodeSize(Code(n, back)) < I32
    ensures n.Single? ==> AtomOk(n.a)
    ensures n.Cat? || n.Alt? ==> NodeOk(n.l) && NodeOk(n.r) && SmallCode(n.l, back) && SmallCode(n.r, back)
    ensures n.Look? ==> NodeOk(n.body) && SmallCode(n.body, n.behind)
    ensures n.Quant? ==> NodeOk(n.body) && SmallCode(n.body, back) && n.min <= n.max <= INF
  {
    hide Code, CodeSize, AtomOk;
  }

  lemma SimpleCodeIs(n: Node, back: bool)
    ensures n.Empty? ==> Code(n, back) == []
    ensures n.Assert? ==> Code(n, back) == [AssertionInstr(n.t)]
    ensures n.Cat? ==> Code(n, back) == if back then Code(n.r, back) + Code(n.l, back)
      else Code(n.l, back) + Code(n.r, back)
    ensures n.Quant? ==> Code(n, back) == QuantCode(Code(n.body, back), n.min, n.max, n.greedy)
  {
    hide CodeSize, QuantCode, AtomInstr, AssertionInstr;
  }

  // ---- running the program ----

  /** What a search comes to. */
  datatype Outcome = Matched(first: nat, last: nat) | NoMatch | Endless

  /** The leftmost start from x on, with the preferred end there; endless where a start before
      that finds nothing but goes on forever. */
  ghost function Search(n: Node, s: Subject, sticky: bool, x: nat): (r: Outcome)
    requires x <= |s.units|
    decreases |s.units| - x
  {
    var o := Results(n, false, s, x);
    if |o.ys| > 0 then Matched(x, o.ys[0])
    else if o.hang then Endless
    else if sticky || x == |s.units| then NoMatch
    else Search(n, s, sticky, NextChar(s, x).1)
  }

  /** The machine stops and reports r. */
  ghost predicate Ends(m: Machine, c: Conf, r: Option<(nat, nat)>)
  {
    match r
    case Some((a, b)) => Reaches(m, c, Done(true, [Some(a), Some(b)]))
    case None => exists caps :: Reaches(m, c, Done(false, caps))
  }

  /** The machine does what the search comes to. */
  ghost predicate Behaves(m: Machine, c: Conf, r: Outcome)
  {
    match r
    case Matched(a, b) => Ends(m, c, Some((a, b)))
    case NoMatch => Ends(m, c, None)
    case Endless => Diverges(m, c)
  }

  lemma BehavesAfter(m: Machine, c: Conf, c': Conf, r: Outcome)
    requires Reaches(m, c, c') && Behaves(m, c', r)
    ensures Behaves(m, c, r)
  {
    hide Reaches, Ends, Diverges;
    match r
    case Matched(a, b) => EndsAfter(m, c, c', Some((a, b)));
    case NoMatch => EndsAfter(m, c, c', None);
    case Endless => DivergesAfter(m, c, c');
  }

  lemma DivergesAfter(m: Machine, c: Conf, c': Conf)
    requires Reaches(m, c, c') && Diverges(m, c')
    ensures Diverges(m, c)
  {
    hide Step, Steps;
    var n: nat :| Steps(m, c, n) == c';
    forall k: nat
      ensures Steps(m, c, k).Running?
    {
      StepsAdd(m, c, n, k);
      assert Steps(m, c', k).Running?;
      StillRunning(m, c, n + k, k);
    }
  }

  lemma BehavesStep(m: Machine, c: Conf, r: Outcome)
    requires Behaves(m, Step(m, c), r)
    ensures Behaves(m, c, r)
  {
    hide *;
    ReachesOne(m, c);
    BehavesAfter(m, c, Step(m, c), r);
  }

  /** A machine that stops does not go on forever, and stops with one outcome. */
  lemma OutcomeUnique(m: Machine, c: Conf, r: Outcome, r': Outcome)
    requires Behaves(m, c, r) && Behaves(m, c, r')
    ensures r == r'
  {
    hide Steps, Step;
    if r != Endless && r' != Endless {
      var d, n := StopsAt(m, c, r);
      var d', n' := StopsAt(m, c, r');
      StepsAdd(m, c, n, n');
      StepsAdd(m, c, n', n);
      StepsStay(m, d, n');
      StepsStay(m, d', n);
    } else if r != r' {
      var e := if r == Endless then r' else r;
      var d, n := StopsAt(m, c, e);
      assert false;
    }
  }

  lemma StopsAt(m: Machine, c: Conf, r: Outcome) returns (d: Conf, n: nat)
    requires Behaves(m, c, r) && r != Endless
    ensures Steps(m, c, n) == d && d.Done? && d.matched == r.Matched?
    ensures r.Matched? ==> d.caps == [Some(r.first), Some(r.last)]
  {
    hide Steps;
    if r.Matched? {
      d := Done(true, [Some(r.first), Some(r.last)]);
      n :| Steps(m, c, n) == d;
    } else {
      var caps :| Reaches(m, c, Done(false, caps));
      d := Done(false, caps);
      n :| Steps(m, c, n) == d;
    }
  }

  lemma EndsAfter(m: Machine, c: Conf, c': Conf, r: Option<(nat, nat)>)
    requires Reaches(m, c, c') && Ends(m, c', r)
    ensures Ends(m, c, r)
  {
    hide Reaches;
    match r
    case Some((a, b)) => ReachesTrans(m, c, c', Done(true, [Some(a), Some(b)]));
    case None =>
      var caps :| Reaches(m, c', Done(false, caps));
      ReachesTrans(m, c, c', Done(false, caps));
  }

  lemma EndsStep(m: Machine, c: Conf, r: Option<(nat, nat)>)
    requires Ends(m, Step(m, c), r)
    ensures Ends(m, c, r)
  {
    hide *;
    ReachesOne(m, c);
    EndsAfter(m, c, Step(m, c), r);
  }

  /** The part from save_start on, tried at x above the saved states es. */
  ghost predicate AttemptAt(m: Machine, pc: nat, n: Node)
  {
    && Decode(m.prog, pc) == Some(SaveStart(0))
    && CodeAt(m.prog, pc + 2, Code(n, false))
    && Decode(m.prog, pc + 2 + CodeSize(Code(n, false))) == Some(SaveEnd(0))
    && Decode(m.prog, pc + 4 + CodeSize(Code(n, false))) == Some(Match)
  }

  ghost function Fresh(pc: nat, x: nat, es: seq<Entry>): (c: Conf)
  {
    Running(State(pc, x, [], [None, None], es))
  }

  lemma StepSave(m: Machine, pc: nat, x: nat, ex: Exit)
    requires x <= |m.subj.units| && |ex.caps| == 2
    ensures Decode(m.prog, pc) == Some(SaveStart(0)) ==>
      Step(m, Start(pc, x, ex)) == Start(pc + 2, x, ex.(caps := [Some(x), ex.caps[1]]))
    ensures Decode(m.prog, pc) == Some(SaveEnd(0)) ==>
      Step(m, Start(pc, x, ex)) == Start(pc + 2, x, ex.(caps := [ex.caps[0], Some(x)]))
  {
    hide Decode, Unwind;
    assert ex.caps[0 := Some(x)] == [Some(x), ex.caps[1]];
    assert ex.caps[1 := Some(x)] == [ex.caps[0], Some(x)];
  }

  lemma Attempt(m: Machine, n: Node, pc: nat, x: nat, es: seq<Entry>)
    requires AttemptAt(m, pc, n) && CompilesAnywhere(m, n, false) && NoLook(es) && x <= |m.subj.units|
      && Aligned(m.subj, x)
    ensures var ys := Results(n, false, m.subj, x).ys;
            if |ys| > 0 then Ends(m, Fresh(pc, x, es), Some((x, ys[0])))
            else if Results(n, false, m.subj, x).hang then Diverges(m, Fresh(pc, x, es))
            else Reaches(m, Fresh(pc, x, es), Unwind(m, es, false, [Some(x), None]))
  {
    hide *;
    var o, len := Results(n, false, m.subj, x), CodeSize(Code(n, false));
    var ys := o.ys;
    var ex0 := Exit(pc + 2 + len, [], [None, None], es);
    var ex := Exit(pc + 2 + len, [], [Some(x), None], es);
    var c := Start(pc + 2, x, ex);
    FreshIs(pc, x, ex0);
    AttemptParts(m, pc, n, len);
    StepSave(m, pc, x, ex0);
    assert ex0.(caps := [Some(x), ex0.caps[1]]) == ex;
    ReachesOne(m, Fresh(pc, x, es));
    assert Reaches(m, Fresh(pc, x, es), c);
    CompilesHere(m, n, false, pc + 2);
    CompilesAt(m, n, false, pc + 2, x, ex);
    if |ys| == 0 && o.hang {
      OffersSilence(m, c, o, ex, ex);
      DivergesAfter(m, Fresh(pc, x, es), c);
    } else if |ys| == 0 {
      var t := OffersFirst(m, c, o, ex);
      ReachesTrans(m, Fresh(pc, x, es), c, Unwind(m, es, false, [Some(x), None]));
    } else {
      ResultsToward(n, false, m.subj, x, ys[0]);
      AttemptFinish(m, c, o, ex, x);
      EndsAfter(m, Fresh(pc, x, es), c, Some((x, ys[0])));
    }
  }

  lemma FreshIs(pc: nat, x: nat, ex: Exit)
    requires ex.stack == [] && ex.caps == [None, None]
    ensures Fresh(pc, x, ex.entries) == Start(pc, x, ex)
  {}

  lemma AttemptParts(m: Machine, pc: nat, n: Node, len: nat)
    requires AttemptAt(m, pc, n) && len == CodeSize(Code(n, false))
    ensures Decode(m.prog, pc) == Some(SaveStart(0)) && CodeAt(m.prog, pc + 2, Code(n, false))
    ensures Decode(m.prog, pc + 2 + len) == Some(SaveEnd(0)) && Decode(m.prog, pc + 4 + len) == Some(Match)
  {
    hide Decode, CodeAt, Code, CodeSize;
  }

  lemma AttemptFinish(m: Machine, c: Conf, o: Found, ex: Exit, x: nat)
    requires |o.ys| > 0 && Offers(m, c, o, ex) && NoLook(ex.entries) && ex.stack == [] && ex.caps == [Some(x), None]
    requires o.ys[0] <= |m.subj.units|
    requires Decode(m.prog, ex.pc) == Some(SaveEnd(0)) && Decode(m.prog, ex.pc + 2) == Some(Match)
    ensures Ends(m, c, Some((x, o.ys[0])))
  {
    hide Decode, Reaches, Unwind, Ends, Offers;
    var t := OffersFirst(m, c, o, ex);
    Finish(m, ex.pc, x, o.ys[0], ex.entries + t);
    EndsAfter(m, c, Leave(ex, o.ys[0], t), Some((x, o.ys[0])));
  }

  /** save_end and match, with nothing but choice points saved. */
  lemma Finish(m: Machine, pc: nat, x: nat, y: nat, es: seq<Entry>)
    requires Decode(m.prog, pc) == Some(SaveEnd(0)) && Decode(m.prog, pc + 2) == Some(Match)
    requires y <= |m.subj.units| && NoLook(es)
    ensures Ends(m, Running(State(pc, y, [], [Some(x), None], es)), Some((x, y)))
  {
    hide Decode, Reaches, Step, Unwind;
    var ex := Exit(pc, [], [Some(x), None], es);
    var ex' := ex.(caps := [Some(x), Some(y)]);
    assert Start(pc, y, ex) == Running(State(pc, y, [], [Some(x), None], es));
    StepSave(m, pc, y, ex);
    StepMatch(m, pc + 2, y, ex');
    assert [] + es == es;
    MatchSkips(m, [], es, ex'.caps);
    UnwindNothing(m, true, ex'.caps);
    ReachesOne(m, Start(pc, y, ex));
    ReachesOne(m, Start(pc + 2, y, ex'));
    ReachesTrans(m, Start(pc, y, ex), Start(pc + 2, y, ex'), Done(true, ex'.caps));
  }

  lemma UnwindNothing(m: Machine, ret: bool, caps: seq<Option<nat>>)
    ensures Unwind(m, [], ret, caps) == Done(ret, caps)
  {}

  ghost predicate ScanAt(m: Machine)
  {
    Decode(m.prog, 0) == Some(Split(false, 6)) && Decode(m.prog, 5) == Some(AnyChar)
      && Decode(m.prog, 6) == Some(Goto(-11))
  }

  ghost function ScanEntry(x: nat): (e: Entry) { Entry(AtSplit, 5, x, [], [None, None], 0) }

  lemma ScanSteps(m: Machine, x: nat)
    requires ScanAt(m) && x <= |m.subj.units|
    ensures Step(m, Fresh(0, x, [])) == Fresh(11, x, [ScanEntry(x)])
    ensures forall caps :: Unwind(m, [ScanEntry(x)], false, caps) == Fresh(5, x, [])
    ensures x == |m.subj.units| ==> Step(m, Fresh(5, x, [])) == Done(false, [None, None])
    ensures x < |m.subj.units| ==> Step(m, Fresh(5, x, [])) == Fresh(6, NextChar(m.subj, x).1, [])
    ensures x < |m.subj.units| ==> Step(m, Fresh(6, NextChar(m.subj, x).1, [])) == Fresh(0, NextChar(m.subj, x).1, [])
  {
    hide Decode, NextChar;
    assert [] + [ScanEntry(x)] == [ScanEntry(x)] && [ScanEntry(x)][..0] == [];
  }

  /** The scan over start positions. */
  lemma {:induction false} ScanEnds(m: Machine, n: Node, x: nat)
    requires ScanAt(m) && AttemptAt(m, 11, n) && CompilesAnywhere(m, n, false) && x <= |m.subj.units|
      && Aligned(m.subj, x)
    ensures Behaves(m, Fresh(0, x, []), Search(n, m.subj, false, x))
    decreases |m.subj.units| - x
  {
    hide *;
    var s, o := m.subj, Results(n, false, m.subj, x);
    var r := Search(n, s, false, x);
    SearchIs(n, s, false, x);
    ScanNoLook(x);
    ScanSteps(m, x);
    Attempt(m, n, 11, x, [ScanEntry(x)]);
    BehavesIs(m, Fresh(11, x, [ScanEntry(x)]), r);
    if |o.ys| == 0 && !o.hang {
      if x == |s.units| {
        EndsNone(m, Done(false, [None, None]));
        BehavesIs(m, Done(false, [None, None]), r);
      } else {
        NextAligned(s, x);
        ScanEnds(m, n, NextChar(s, x).1);
        BehavesStep(m, Fresh(6, NextChar(s, x).1, []), r);
      }
      BehavesStep(m, Fresh(5, x, []), r);
      BehavesAfter(m, Fresh(11, x, [ScanEntry(x)]), Fresh(5, x, []), r);
    }
    BehavesStep(m, Fresh(0, x, []), r);
  }

  lemma ScanNoLook(x: nat)
    ensures NoLook([ScanEntry(x)])
  {}

  lemma BehavesIs(m: Machine, c: Conf, r: Outcome)
    ensures r.Matched? ==> (Behaves(m, c, r) <==> Ends(m, c, Some((r.first, r.last))))
    ensures r.NoMatch? ==> (Behaves(m, c, r) <==> Ends(m, c, None))
    ensures r.Endless? ==> (Behaves(m, c, r) <==> Diverges(m, c))
  {
    hide Ends, Diverges;
  }

  lemma SearchIs(n: Node, s: Subject, sticky: bool, x: nat)
    requires x <= |s.units|
    ensures var o, r := Results(n, false, s, x), Search(n, s, sticky, x);
            && (|o.ys| > 0 ==> r == Matched(x, o.ys[0]))
            && (|o.ys| == 0 && o.hang ==> r == Endless)
            && (|o.ys| == 0 && !o.hang ==> r == if sticky || x == |s.units| then NoMatch
               else Search(n, s, sticky, NextChar(s, x).1))
  {
    hide Results, NextChar;
  }

  lemma EndsNone(m: Machine, c: Conf)
    requires c.Done? && !c.matched
    ensures Ends(m, c, None)
  {
    ReachesRefl(m, c);
    assert c == Done(false, c.caps);
  }

  ghost function AttemptCode(n: Node): (r: seq<Instr>)
  {
    [SaveStart(0)] + (Code(n, false) + ([SaveEnd(0)] + [Match]))
  }

  lemma ProgramIs(n: Node, sticky: bool)
    ensures Program(n, sticky) == if sticky then AttemptCode(n)
      else [Split(false, 6)] + ([AnyChar] + ([Goto(-11)] + AttemptCode(n)))
    ensures InstrSize(Split(false, 6)) == 5 && InstrSize(AnyChar) == 1 && InstrSize(Goto(-11)) == 5
  {
    hide Code;
    var code := Code(n, false);
    assert [SaveStart(0)] + code + [SaveEnd(0), Match] == AttemptCode(n);
    assert Program(n, true) == AttemptCode(n);
    assert Program(n, false) == ScanPrefix() + AttemptCode(n);
    assert ScanPrefix() == [Split(false, 6)] + ([AnyChar] + [Goto(-11)]);
  }

  lemma WholeProgram(b: seq<byte>, code: seq<Instr>)
    requires b == Bytes(code) && EncodableCode(code)
    ensures CodeAt(b, 0, code)
  {
    hide Bytes, EncodableCode;
    assert b[0..0 + |b|] == b;
  }

  lemma ProgramLayout(m: Machine, n: Node, sticky: bool)
    requires m.prog == Bytes(Program(n, sticky)) && EncodableCode(Program(n, sticky))
    ensures sticky ==> AttemptAt(m, 0, n)
    ensures !sticky ==> ScanAt(m) && AttemptAt(m, 11, n)
  {
    hide *;
    ProgramIs(n, sticky);
    var attempt := AttemptCode(n);
    WholeProgram(m.prog, Program(n, sticky));
    if !sticky {
      CodeAtHead(m.prog, 0, Split(false, 6), [AnyChar] + ([Goto(-11)] + attempt));
      CodeAtHead(m.prog, 5, AnyChar, [Goto(-11)] + attempt);
      CodeAtHead(m.prog, 6, Goto(-11), attempt);
      ScanAtIntro(m);
      AttemptLayout(m, n, 11);
    } else {
      AttemptLayout(m, n, 0);
    }
  }

  lemma ScanAtIntro(m: Machine)
    requires Decode(m.prog, 0) == Some(Split(false, 6)) && Decode(m.prog, 5) == Some(AnyChar)
      && Decode(m.prog, 6) == Some(Goto(-11))
    ensures ScanAt(m)
  {
    hide Decode;
  }

  lemma AttemptLayout(m: Machine, n: Node, pc: nat)
    requires CodeAt(m.prog, pc, AttemptCode(n))
    ensures AttemptAt(m, pc, n)
  {
    hide CodeAt, CodeSize, Code, Decode;
    var code := Code(n, false);
    CodeAtHead(m.prog, pc, SaveStart(0), code + ([SaveEnd(0)] + [Match]));
    CodeAtSplit(m.prog, pc + 2, code, [SaveEnd(0)] + [Match]);
    CodeAtHead(m.prog, pc + 2 + CodeSize(code), SaveEnd(0), [Match]);
    assert [Match] + [] == [Match];
    CodeAtHead(m.prog, pc + 4 + CodeSize(code), Match, []);
  }

  lemma ProgramEncodable(n: Node, sticky: bool)
    requires NodeOk(n) && SmallCode(n, false)
    ensures EncodableCode(Program(n, sticky))
  {
    hide *;
    ProgramIs(n, sticky);
    AttemptEncodable(n);
    ScanEncodable();
    if !sticky {
      EncodableCons(Goto(-11), AttemptCode(n));
      EncodableCons(AnyChar, [Goto(-11)] + AttemptCode(n));
      EncodableCons(Split(false, 6), [AnyChar] + ([Goto(-11)] + AttemptCode(n)));
    }
  }

  lemma ScanEncodable()
    ensures Encodable(Goto(-11)) && Encodable(AnyChar) && Encodable(Split(false, 6))
  {}

  lemma AttemptEncodable(n: Node)
    requires NodeOk(n) && SmallCode(n, false)
    ensures EncodableCode(AttemptCode(n))
  {
    var code, last := Code(n, false), [Match];
    assert AttemptCode(n) == [SaveStart(0)] + (code + ([SaveEnd(0)] + last));
    hide *;
    CodeEncodable(n, false);
    EncodableOthers(0);
    EncodableOne(Match);
    EncodableCons(SaveEnd(0), last);
    EncodableSplit(code, [SaveEnd(0)] + last);
    EncodableCons(SaveStart(0), code + ([SaveEnd(0)] + last));
  }

  /** Compilation preserves meaning, for every pattern: from any aligned start the program
      reports the leftmost match with its preferred end, or that there is none, or never stops,
      as the search comes to. */
  lemma ProgramFinds(m: Machine, n: Node, sticky: bool, x: nat)
    requires m.prog == Bytes(Program(n, sticky)) && NodeOk(n) && SmallCode(n, false)
    requires ValidSubject(m.subj) && x <= |m.subj.units| && Aligned(m.subj, x)
    ensures Behaves(m, Fresh(0, x, []), Search(n, m.subj, sticky, x))
  {
    assert NoLook([]);
    hide *;
    var s, o := m.subj, Results(n, false, m.subj, x);
    var r := Search(n, s, sticky, x);
    ProgramEncodable(n, sticky);
    ProgramLayout(m, n, sticky);
    CodeOffers(m, n, false);
    if sticky {
      SearchIs(n, s, true, x);
      Attempt(m, n, 0, x, []);
      BehavesIs(m, Fresh(0, x, []), r);
      if |o.ys| == 0 && !o.hang {
        UnwindNothing(m, false, [Some(x), None]);
        EndsNone(m, Done(false, [Some(x), None]));
        EndsAfter(m, Fresh(0, x, []), Done(false, [Some(x), None]), None);
      }
    } else {
      ScanEnds(m, n, x);
    }
  }

  /** The program stops exactly when the search is not endless. */
  lemma ProgramStops(m: Machine, n: Node, sticky: bool, x: nat)
    requires m.prog == Bytes(Program(n, sticky)) && NodeOk(n) && SmallCode(n, false)
    requires ValidSubject(m.subj) && x <= |m.subj.units| && Aligned(m.subj, x)
    ensures (exists k: nat :: !Steps(m, Fresh(0, x, []), k).Running?) <==> Search(n, m.subj, sticky, x) != Endless
  {
    hide Search, Program, Bytes, Steps;
    ProgramFinds(m, n, sticky, x);
    var c, r := Fresh(0, x, []), Search(n, m.subj, sticky, x);
    if r != Endless {
      var d, k := StopsAt(m, c, r);
    }
  }
}
