/** Every shape of quantifier code except the simple greedy one. */
module RegexQuant {
  import opened RegexBytecode
  import opened RegexSyntax
  import opened RegexCode
  import opened RegexVM
  import opened RegexRep
  import opened RegexCorrect
  import opened RegexLoops

  /** Wherever the code of n stands in the program, it offers the results of n. */
  ghost predicate CompilesAnywhere(m: Machine, n: Node, back: bool)
  {
    forall pc: nat :: CodeAt(m.prog, pc, Code(n, back)) ==> Compiles(m, n, back, pc)
  }

  lemma CompilesHere(m: Machine, n: Node, back: bool, pc: nat)
    requires CompilesAnywhere(m, n, back) && CodeAt(m.prog, pc, Code(n, back))
    ensures Compiles(m, n, back, pc)
  {
    hide CodeAt, Compiles;
  }

  /** The counted loop L: code; loop L; drop stands at pc. */
  ghost predicate TimesAt(m: Machine, pc: nat, code: seq<Instr>)
  {
    var len: int := CodeSize(code);
    && CodeAt(m.prog, pc, code)
    && Decode(m.prog, pc + len) == Some(Loop(-(len + 5)))
    && Decode(m.prog, pc + 5 + len) == Some(Drop)
  }

  lemma TimesAtParts(m: Machine, pc: nat, code: seq<Instr>, len: int)
    requires TimesAt(m, pc, code) && len == CodeSize(code)
    ensures CodeAt(m.prog, pc, code) && Decode(m.prog, pc + len) == Some(Loop(-(len + 5)))
    ensures Decode(m.prog, pc + 5 + len) == Some(Drop)
  {
    hide Decode, CodeAt, CodeSize;
  }

  lemma TimesLayout(m: Machine, pc: nat, code: seq<Instr>, k: nat)
    requires CodeAt(m.prog, pc, TimesCode(code, k))
    ensures Decode(m.prog, pc) == Some(PushI32(k)) && TimesAt(m, pc + 5, code)
    ensures CodeSize(TimesCode(code, k)) == 11 + CodeSize(code)
  {
    hide CodeAt, CodeSize, Decode;
    var len: int := CodeSize(code);
    var j := Loop(-(len + 5));
    var tail := code + ([j] + [Drop]);
    assert TimesCode(code, k) == [PushI32(k)] + tail;
    assert [Drop] + [] == [Drop];
    OneInstr(m, PushI32(k), tail);
    SizeSplit(code, [j] + [Drop]);
    OneInstr(m, j, [Drop]);
    OneInstr(m, Drop, []);
    CodeAtHead(m.prog, pc, PushI32(k), tail);
    CodeAtSplit(m.prog, pc + 5, code, [j] + [Drop]);
    CodeAtHead(m.prog, pc + 5 + len, j, [Drop]);
    CodeAtHead(m.prog, pc + 10 + len, Drop, []);
  }

  lemma TimesIs(body: Node, back: bool, s: Subject, k: nat, x: nat)
    requires x <= |s.units|
    ensures k == 0 ==> Times(body, back, s, k, x) == Just([x])
    ensures k > 0 ==> Times(body, back, s, k, x) == TimesAll(body, back, s, k - 1, x, Results(body, back, s, x))
  {
    hide TimesAll, Results;
  }

  lemma ApplyTimes(body: Node, back: bool, s: Subject, k: nat, x: nat, o: Found, y: nat)
    requires x <= |s.units| && y <= |s.units| && AllToward(back, s, x, o.ys)
    ensures ApplyAll(ThenTimes(body, k), back, s, x, o) == TimesAll(body, back, s, k, x, o)
    ensures Apply(ThenTimes(body, k), back, s, y) == Times(body, back, s, k, y)
  {
    hide TimesAll, Times;
  }

  /** Exactly k more iterations, the counter k on the stack. */
  lemma TimesOffers(m: Machine, body: Node, back: bool, pc: nat, k: nat, x: nat, ex: Exit)
    requires TimesAt(m, pc, Code(body, back)) && Compiles(m, body, back, pc) && k > 0
    requires x <= |m.subj.units| && Aligned(m.subj, x) && ex.pc == pc + 6 + CodeSize(Code(body, back))
    ensures Offers(m, Start(pc, x, Pushed(ex, k)), Times(body, back, m.subj, k, x), ex)
    decreases k, 1
  {
    hide *;
    var s, len, o := m.subj, CodeSize(Code(body, back)), Results(body, back, m.subj, x);
    var ys := o.ys;
    PushedIs(ex, k);
    var mid := Pushed(ex, k).(pc := pc + len);
    CompilesAt(m, body, back, pc, x, mid);
    StartStack(pc, x, mid, Pushed(ex, k));
    forall i | 0 <= i < |ys|
      ensures ys[i] <= |s.units| && OffersFrom(m, mid, ys[i], Apply(ThenTimes(body, k - 1), back, s, ys[i]), ex)
    {
      var y := ys[i];
      ResultsToward(body, back, s, x, y);
      forall es: seq<Entry>
        ensures Offers(m, Start(mid.pc, y, mid.(entries := es)),
          Apply(ThenTimes(body, k - 1), back, s, y), ex.(entries := es))
      {
        TimesBack(m, body, back, pc, k, y, ex.(entries := es));
        PushedIs(ex.(entries := es), k);
        StartStack(mid.pc, y, mid.(entries := es), Pushed(ex.(entries := es), k));
      }
      OffersFromIntro(m, mid, y, Apply(ThenTimes(body, k - 1), back, s, y), ex);
    }
    ResultsAllToward(body, back, s, x);
    ContOffers(m, Start(pc, x, mid), ThenTimes(body, k - 1), back, x, o, mid, ex);
    ApplyTimes(body, back, s, k - 1, x, o, x);
    TimesIs(body, back, s, k, x);
  }

  lemma TimesBack(m: Machine, body: Node, back: bool, pc: nat, k: nat, y: nat, ex: Exit)
    requires TimesAt(m, pc, Code(body, back)) && Compiles(m, body, back, pc) && k > 0
    requires y <= |m.subj.units| && Aligned(m.subj, y) && ex.pc == pc + 6 + CodeSize(Code(body, back))
    ensures Offers(m, Start(pc + CodeSize(Code(body, back)), y, Pushed(ex, k)),
      Apply(ThenTimes(body, k - 1), back, m.subj, y), ex)
    decreases k, 0
  {
    hide *;
    var s := m.subj;
    var len: int := CodeSize(Code(body, back));
    TimesAtParts(m, pc, Code(body, back), len);
    NilToward(back, s, y);
    ApplyTimes(body, back, s, k - 1, y, Just([]), y);
    PushedIs(ex, k);
    PushedIs(ex, k - 1);
    StepLoop(m, pc + len, -(len + 5), y, k, ex);
    if k - 1 > 0 {
      TimesOffers(m, body, back, pc, k - 1, y, ex);
    } else {
      TimesIs(body, back, s, 0, y);
      DropOffers(m, pc + 5 + len, y, 0, ex);
    }
    OffersStep(m, Start(pc + len, y, Pushed(ex, k)), Apply(ThenTimes(body, k - 1), back, s, y), ex);
  }

  lemma PlusLayout(m: Machine, pc: nat, code: seq<Instr>, nextFirst: bool, len: int)
    requires len == CodeSize(code) && CodeAt(m.prog, pc, code + [Split(nextFirst, -(len + 5))])
    ensures CodeAt(m.prog, pc, code) && Decode(m.prog, pc + len) == Some(Split(nextFirst, -(len + 5)))
    ensures CodeSize(code + [Split(nextFirst, -(len + 5))]) == len + 5
  {
    hide *;
    var a := Split(nextFirst, -(len + 5));
    CodeAtSplit(m.prog, pc, code, [a]);
    assert [a] + [] == [a];
    CodeAtHead(m.prog, pc + len, a, []);
    SizeSplit(code, [a]);
    OneInstr(m, a, []);
  }

  /** At least one iteration: the body, then a conditional jump back to it. */
  lemma PlusLoop(m: Machine, body: Node, greedy: bool, back: bool, pc: nat, len: int)
    requires len == CodeSize(Code(body, back)) && CodeAt(m.prog, pc, Code(body, back) + [Split(!greedy, -(len + 5))])
    requires Compiles(m, body, back, pc)
    ensures LoopAt(m, body, greedy, back, pc + len, pc, pc + len + 5)
  {
    hide Compiles, Decode, Code, CodeSize, CodeAt;
    PlusLayout(m, pc, Code(body, back), !greedy, len);
    assert SplitLoop(m, greedy, pc + len, pc, pc + len + 5, !greedy, -(len + 5));
  }

  /** Zero further iterations leave what was found as it is. */
  lemma {:induction false} ZeroMore(body: Node, greedy: bool, back: bool, s: Subject, x: nat, o: Found)
    requires x <= |s.units| && AllToward(back, s, x, o.ys)
    ensures TimesAll(body, back, s, 0, x, o) == o && UpToAll(body, greedy, back, s, 0, x, o) == o
    decreases |o.ys|
  {
    hide *;
    ApplyTimes(body, back, s, 0, x, o, x);
    ApplyUpTo(body, greedy, back, s, 0, x, o, x);
    ApplyAllIs(ThenTimes(body, 0), back, s, x, o);
    ApplyAllIs(ThenUpTo(body, greedy, 0), back, s, x, o);
    if |o.ys| > 0 {
      var y, tail := o.ys[0], o.Tail();
      o.HeadTail();
      ZeroMore(body, greedy, back, s, x, tail);
      ApplyTimes(body, back, s, 0, x, tail, y);
      ApplyUpTo(body, greedy, back, s, 0, x, tail, y);
      TimesIs(body, back, s, 0, y);
      UpToIs(body, greedy, back, s, 0, y);
      JoinOne(y, tail);
    }
  }

  /** code?, and its lazy form. */
  lemma MaybeOffers(m: Machine, body: Node, greedy: bool, back: bool, pc: nat, x: nat, ex: Exit)
    requires CodeAt(m.prog, pc, [Split(greedy, CodeSize(Code(body, back)))] + Code(body, back))
      && CompilesAnywhere(m, body, back)
    requires x <= |m.subj.units| && Aligned(m.subj, x) && ex.pc == pc + 5 + CodeSize(Code(body, back))
    ensures Offers(m, Start(pc, x, ex), UpTo(body, greedy, back, m.subj, 1, x), ex)
    ensures CodeSize([Split(greedy, CodeSize(Code(body, back)))] + Code(body, back)) == 5 + CodeSize(Code(body, back))
  {
    hide *;
    var s, code := m.subj, Code(body, back);
    var len := CodeSize(code);
    var a, o := Split(greedy, len), Results(body, back, s, x);
    CodeAtHead(m.prog, pc, a, code);
    OneInstr(m, a, code);
    CompilesHere(m, body, back, pc + 5);
    UpToIs(body, greedy, back, s, 1, x);
    ResultsAllToward(body, back, s, x);
    ZeroMore(body, greedy, back, s, x, o);
    SplitTargets(pc, greedy, len);
    if greedy {
      forall es: seq<Entry>
        ensures Offers(m, Start(SplitFirst(pc, greedy, len), x, ex.(entries := es)), o, ex.(entries := es))
      {
        CompilesAt(m, body, back, pc + 5, x, ex.(entries := es));
      }
      OffersHere(m, x, ex);
      SplitOffers(m, pc, greedy, len, x, ex, ex, o, Just([x]));
    } else {
      forall es: seq<Entry>
        ensures Offers(m, Start(SplitFirst(pc, greedy, len), x, ex.(entries := es)), Just([x]), ex.(entries := es))
      {
        OffersHere(m, x, ex.(entries := es));
      }
      CompilesAt(m, body, back, pc + 5, x, ex);
      SplitOffers(m, pc, greedy, len, x, ex, ex, Just([x]), o);
    }
  }

  lemma MandatoryOffers(m: Machine, body: Node, min: nat, back: bool, pc: nat, x: nat, ex: Exit)
    requires CodeAt(m.prog, pc, MandatoryCode(Code(body, back), min)) && CompilesAnywhere(m, body, back) && min >= 1
    requires x <= |m.subj.units| && Aligned(m.subj, x) && ex.pc == pc + CodeSize(MandatoryCode(Code(body, back), min))
    ensures Offers(m, Start(pc, x, ex), Times(body, back, m.subj, min, x), ex)
  {
    var s, code := m.subj, Code(body, back);
    assert MandatoryCode(code, min) == if min == 1 then code else TimesCode(code, min);
    hide *;
    if min == 1 {
      CompilesHere(m, body, back, pc);
      CompilesAt(m, body, back, pc, x, ex);
      TimesIs(body, back, s, 1, x);
      ResultsAllToward(body, back, s, x);
      ZeroMore(body, true, back, s, x, Results(body, back, s, x));
    } else {
      TimesLayout(m, pc, code, min);
      TimesAtParts(m, pc + 5, code, CodeSize(code));
      CompilesHere(m, body, back, pc + 5);
      PushedIs(ex, min);
      StepPush(m, pc, min, x, ex);
      TimesOffers(m, body, back, pc + 5, min, x, ex);
      OffersStep(m, Start(pc, x, ex), Times(body, back, s, min, x), ex);
    }
  }

  lemma OptionalOffers(m: Machine, body: Node, min: nat, max: nat, greedy: bool, back: bool, pc: nat, x: nat, ex: Exit)
    requires CodeAt(m.prog, pc, OptionalCode(Code(body, back), min, max, greedy)) && CompilesAnywhere(m, body, back)
    requires max == INF && greedy && !NeedsCheck(Code(body, back), greedy) ==> Consumes(body, back, m.subj)
    requires min <= max <= INF && x <= |m.subj.units| && Aligned(m.subj, x)
    requires ex.pc == pc + CodeSize(OptionalCode(Code(body, back), min, max, greedy))
    ensures Offers(m, Start(pc, x, ex), Rest(body, min, max, greedy, back, m.subj, x), ex)
  {
    hide *;
    var s, code := m.subj, Code(body, back);
    var check := NeedsCheck(code, greedy);
    OptionalCodeIs(code, min, max, greedy);
    RestIs(body, min, max, greedy, back, s, x);
    if max == INF {
      CheckSizeIs(check);
      CheckIsGreedy(code, greedy);
      StarLayout(m, pc, code, greedy, check);
      CompilesHere(m, body, back, pc + 5 + CheckSize(check));
      if check {
        StarOffers(m, body, back, pc, x, ex);
      } else {
        StarLoop(m, body, greedy, back, pc);
        LoopOffers(m, body, greedy, back, pc, pc + 5, x, ex);
      }
    } else if max > min {
      UpToLayout(m, pc, code, greedy, max - min);
      UpToAtParts(m, pc + 5, code, greedy, CodeSize(code));
      CompilesHere(m, body, back, pc + 10);
      PushedIs(ex, max - min);
      StepPush(m, pc, max - min, x, ex);
      UpToOffers(m, body, greedy, back, pc + 5, max - min, x, ex);
      OffersStep(m, Start(pc, x, ex), UpTo(body, greedy, back, s, max - min, x), ex);
    } else {
      SizeNil();
      UpToIs(body, greedy, back, s, 0, x);
      OffersHere(m, x, ex);
    }
  }

  lemma CheckIsGreedy(code: seq<Instr>, greedy: bool)
    ensures NeedsCheck(code, greedy) ==> greedy
  {}

  lemma OptionalCodeIs(code: seq<Instr>, min: nat, max: nat, greedy: bool)
    ensures OptionalCode(code, min, max, greedy) ==
            if max == INF then StarCode(code, greedy, NeedsCheck(code, greedy))
            else if max > min then UpToCode(code, greedy, max - min) else []
  {
    hide StarCode, UpToCode, NeedsCheck;
  }

  lemma RestIs(body: Node, min: nat, max: nat, greedy: bool, back: bool, s: Subject, x: nat)
    requires x <= |s.units| && min <= max
    ensures Rest(body, min, max, greedy, back, s, x) ==
            if max == INF then Star(body, greedy, back, s, x) else UpTo(body, greedy, back, s, max - min, x)
  {
    hide Star, UpTo;
  }

  /** Mandatory iterations followed by optional ones. */
  lemma BothOffers(m: Machine, body: Node, min: nat, max: nat, greedy: bool, back: bool, pc: nat, x: nat, ex: Exit)
    requires CodeAt(m.prog, pc, MandatoryCode(Code(body, back), min) + OptionalCode(Code(body, back), min, max, greedy))
    requires CompilesAnywhere(m, body, back) && 1 <= min <= max <= INF
    requires max == INF && greedy && !NeedsCheck(Code(body, back), greedy) ==> Consumes(body, back, m.subj)
    requires x <= |m.subj.units| && Aligned(m.subj, x)
    requires ex.pc == pc
      + CodeSize(MandatoryCode(Code(body, back), min) + OptionalCode(Code(body, back), min, max, greedy))
    ensures Offers(m, Start(pc, x, ex),
      RestAll(body, min, max, greedy, back, m.subj, x, Times(body, back, m.subj, min, x)), ex)
  {
    hide *;
    var s, code := m.subj, Code(body, back);
    var c1, c2, o := MandatoryCode(code, min), OptionalCode(code, min, max, greedy), Times(body, back, s, min, x);
    var ys := o.ys;
    CodeAtSplit(m.prog, pc, c1, c2);
    SizeSplit(c1, c2);
    var mid := ex.(pc := pc + CodeSize(c1));
    MandatoryOffers(m, body, min, back, pc, x, mid);
    StartStack(pc, x, mid, ex);
    TimesToward(body, back, s, min, x);
    forall i | 0 <= i < |ys|
      ensures ys[i] <= |s.units|
        && OffersFrom(m, mid, ys[i], Apply(ThenRest(body, min, max, greedy), back, s, ys[i]), ex)
    {
      var y := ys[i];
      TowardAt(back, s, x, ys, i);
      ApplyRest(body, min, max, greedy, back, s, y);
      forall es: seq<Entry>
        ensures Offers(m, Start(mid.pc, y, mid.(entries := es)),
          Rest(body, min, max, greedy, back, s, y), ex.(entries := es))
      {
        OptionalOffers(m, body, min, max, greedy, back, mid.pc, y, ex.(entries := es));
        StartStack(mid.pc, y, mid.(entries := es), ex.(entries := es));
      }
      OffersFromIntro(m, mid, y, Rest(body, min, max, greedy, back, s, y), ex);
    }
    ContOffers(m, Start(pc, x, mid), ThenRest(body, min, max, greedy), back, x, o, mid, ex);
    ApplyAllRest(body, min, max, greedy, back, s, x, o);
  }

  lemma TimesToward(body: Node, back: bool, s: Subject, k: nat, x: nat)
    requires x <= |s.units|
    ensures AllToward(back, s, x, Times(body, back, s, k, x).ys)
  {
    hide Times;
  }

  lemma TowardAt(back: bool, s: Subject, x: nat, ys: seq<nat>, i: nat)
    requires AllToward(back, s, x, ys) && i < |ys| && Aligned(s, x)
    ensures ys[i] <= |s.units| && Aligned(s, ys[i]) && Toward(back, s, x, ys[i])
  {}

  lemma ApplyRest(body: Node, min: nat, max: nat, greedy: bool, back: bool, s: Subject, y: nat)
    requires y <= |s.units|
    ensures Apply(ThenRest(body, min, max, greedy), back, s, y) == Rest(body, min, max, greedy, back, s, y)
  {
    hide Rest;
  }

  lemma ApplyAllRest(body: Node, min: nat, max: nat, greedy: bool, back: bool, s: Subject, x: nat, o: Found)
    requires x <= |s.units| && AllToward(back, s, x, o.ys)
    ensures ApplyAll(ThenRest(body, min, max, greedy), back, s, x, o) == RestAll(body, min, max, greedy, back, s, x, o)
  {
    hide RestAll;
  }

  lemma RestAllOne(body: Node, min: nat, max: nat, greedy: bool, back: bool, s: Subject, x: nat)
    requires x <= |s.units| && AllToward(back, s, x, Just([x]).ys)
    ensures RestAll(body, min, max, greedy, back, s, x, Just([x])) == Rest(body, min, max, greedy, back, s, x)
  {
    hide *;
    var o, t := Just([x]), ThenRest(body, min, max, greedy);
    JustIs([x]);
    ApplyAllRest(body, min, max, greedy, back, s, x, o);
    ApplyAllIs(t, back, s, x, o);
    ApplyAllIs(t, back, s, x, o.Tail());
    o.HeadTail();
    ApplyRest(body, min, max, greedy, back, s, x);
    JoinNothing(Apply(t, back, s, x), o.Tail());
  }

  lemma JustIs(ys: seq<nat>)
    ensures Just(ys).ys == ys && !Just(ys).hang
  {}

  lemma JoinNothing(a: Found, b: Found)
    requires b.ys == [] && !b.hang
    ensures Join(a, b) == a
  {
    assert a.ys + [] == a.ys;
  }

  /** All shapes but the simple greedy one. */
  lemma GeneralQuantOffers(m: Machine, body: Node, min: nat, max: nat, greedy: bool,
      back: bool, pc: nat, x: nat, ex: Exit)
    requires !(greedy && max > 0 && SimpleCount(Code(body, back)) > 0)
    requires CodeAt(m.prog, pc, QuantCode(Code(body, back), min, max, greedy)) && CompilesAnywhere(m, body, back)
    requires max == INF && greedy && !NeedsCheck(Code(body, back), greedy) ==> Consumes(body, back, m.subj)
    requires min <= max <= INF && x <= |m.subj.units| && Aligned(m.subj, x)
    requires ex.pc == pc + CodeSize(QuantCode(Code(body, back), min, max, greedy))
    ensures Offers(m, Start(pc, x, ex),
      RestAll(body, min, max, greedy, back, m.subj, x, Times(body, back, m.subj, min, x)), ex)
  {
    hide *;
    var s, code := m.subj, Code(body, back);
    var len: int := CodeSize(code);
    QuantCodeIs(code, min, max, greedy);
    ResultsAllToward(body, back, s, x);
    if min == 0 {
      TimesIs(body, back, s, 0, x);
      TimesToward(body, back, s, 0, x);
      RestAllOne(body, min, max, greedy, back, s, x);
      RestIs(body, min, max, greedy, back, s, x);
      if max == 0 {
        SizeNil();
        UpToIs(body, greedy, back, s, 0, x);
        OffersHere(m, x, ex);
      } else if max == 1 {
        OneInstr(m, Split(greedy, len), code);
        MaybeOffers(m, body, greedy, back, pc, x, ex);
      } else {
        OptionalOffers(m, body, 0, max, greedy, back, pc, x, ex);
      }
    } else if min == 1 && max == INF && !NeedsCheck(code, greedy) {
      PlusLayout(m, pc, code, !greedy, len);
      CompilesHere(m, body, back, pc);
      PlusLoop(m, body, greedy, back, pc, len);
      PlusOffers(m, body, greedy, back, pc + len, pc, x, ex);
      TimesIs(body, back, s, 1, x);
      ZeroMore(body, true, back, s, x, Results(body, back, s, x));
    } else {
      BothOffers(m, body, min, max, greedy, back, pc, x, ex);
    }
  }

  lemma QuantCodeIs(code: seq<Instr>, min: nat, max: nat, greedy: bool)
    requires !(greedy && max > 0 && SimpleCount(code) > 0)
    ensures var len: int := CodeSize(code);
            QuantCode(code, min, max, greedy) ==
            if min == 0 then
              if max == 0 then [] else if max == 1 then [Split(greedy, len)] + code
                else OptionalCode(code, 0, max, greedy)
            else if min == 1 && max == INF && !NeedsCheck(code, greedy) then code + [Split(!greedy, -(len + 5))]
            else MandatoryCode(code, min) + OptionalCode(code, min, max, greedy)
    ensures INF > 1
  {
    hide CodeSize, OptionalCode, MandatoryCode, NeedsCheck, SimpleCount;
  }
}
