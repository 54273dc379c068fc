/** Quantifier loops: the emitted loop code offers the iterated results. */
module RegexLoops {
  import opened RegexBytecode
  import opened RegexSyntax
  import opened RegexCode
  import opened RegexVM
  import opened RegexRep
  import opened RegexCorrect

  lemma StepGoto(m: Machine, pc: nat, off: int, x: nat, ex: Exit)
    requires Decode(m.prog, pc) == Some(Goto(off)) && x <= |m.subj.units| && pc + 5 + off >= 0
    ensures Step(m, Start(pc, x, ex)) == Start(pc + 5 + off, x, ex)
  {
    hide Decode, Unwind;
  }

  lemma StepPush(m: Machine, pc: nat, k: nat, x: nat, ex: Exit)
    requires Decode(m.prog, pc) == Some(PushI32(k)) && x <= |m.subj.units|
    ensures Step(m, Start(pc, x, ex)) == Start(pc + 5, x, ex.(stack := ex.stack + [k]))
  {
    hide Decode, Unwind;
  }

  lemma StepPushPos(m: Machine, pc: nat, x: nat, ex: Exit)
    requires Decode(m.prog, pc) == Some(PushCharPos) && x <= |m.subj.units|
    ensures Step(m, Start(pc, x, ex)) == Start(pc + 1, x, ex.(stack := ex.stack + [x]))
  {
    hide Decode, Unwind;
  }

  lemma StepBne(m: Machine, pc: nat, off: int, x: nat, k: nat, ex: Exit)
    requires Decode(m.prog, pc) == Some(BneCharPos(off)) && x <= |m.subj.units| && pc + 5 + off >= 0
    ensures Step(m, Start(pc, x, ex.(stack := ex.stack + [k]))) == Start(if k != x then pc + 5 + off else pc + 5, x, ex)
  {
    hide Decode, Unwind;
    var st := ex.stack + [k];
    assert st[..|st| - 1] == ex.stack;
  }

  lemma StepDrop(m: Machine, pc: nat, x: nat, k: nat, ex: Exit)
    requires Decode(m.prog, pc) == Some(Drop) && x <= |m.subj.units|
    ensures Step(m, Start(pc, x, ex.(stack := ex.stack + [k]))) == Start(pc + 1, x, ex)
  {
    hide Decode, Unwind;
    var st := ex.stack + [k];
    assert st[..|st| - 1] == ex.stack;
  }

  lemma StepLoop(m: Machine, pc: nat, off: int, x: nat, k: nat, ex: Exit)
    requires Decode(m.prog, pc) == Some(Loop(off)) && x <= |m.subj.units| && k > 0 && pc + 5 + off >= 0
    ensures Step(m, Start(pc, x, ex.(stack := ex.stack + [k])))
         == Start(if k - 1 != 0 then pc + 5 + off else pc + 5, x, ex.(stack := ex.stack + [k - 1]))
  {
    hide Decode, Unwind;
    var st := ex.stack + [k];
    assert st[|st| - 1 := k - 1] == ex.stack + [k - 1];
  }

  ghost function CheckSize(check: bool): (r: nat) { if check then 1 else 0 }

  lemma StarLayout(m: Machine, pc: nat, code: seq<Instr>, greedy: bool, check: bool)
    requires CodeAt(m.prog, pc, StarCode(code, greedy, check))
    ensures var len, c := CodeSize(code), CheckSize(check);
            && Decode(m.prog, pc) == Some(Split(greedy, len + 5 + c))
            && (check ==> Decode(m.prog, pc + 5) == Some(PushCharPos))
            && CodeAt(m.prog, pc + 5 + c, code)
            && (check ==> Decode(m.prog, pc + 6 + len) == Some(BneCharPos(-(5 + c + len + 5))))
            && (!check ==> Decode(m.prog, pc + 5 + len) == Some(Goto(-(5 + c + len + 5))))
            && CodeSize(StarCode(code, greedy, check)) == 10 + c + len
  {
    hide *;
    var len: int, c: int := CodeSize(code), CheckSize(check);
    var a := Split(greedy, len + 5 + c);
    var j := if check then BneCharPos(-(5 + c + len + 5)) else Goto(-(5 + c + len + 5));
    StarCodeIs(code, greedy, check);
    CheckSizeIs(check);
    SizeSplit(code, [j]);
    OneInstr(m, a, []);
    OneInstr(m, j, []);
    assert [j] + [] == [j];
    if check {
      CodeAtHead(m.prog, pc, a, [PushCharPos] + (code + [j]));
      OneInstr(m, a, [PushCharPos] + (code + [j]));
      OneInstr(m, PushCharPos, code + [j]);
      CodeAtHead(m.prog, pc + 5, PushCharPos, code + [j]);
      CodeAtSplit(m.prog, pc + 6, code, [j]);
      CodeAtHead(m.prog, pc + 6 + len, j, []);
    } else {
      CodeAtHead(m.prog, pc, a, code + [j]);
      OneInstr(m, a, code + [j]);
      CodeAtSplit(m.prog, pc + 5, code, [j]);
      CodeAtHead(m.prog, pc + 5 + len, j, []);
    }
  }

  lemma StarCodeIs(code: seq<Instr>, greedy: bool, check: bool)
    ensures var len: int, c: int := CodeSize(code), CheckSize(check);
            StarCode(code, greedy, check) ==
            if check then [Split(greedy, len + 5 + c)] + ([PushCharPos] + (code + [BneCharPos(-(5 + c + len + 5))]))
            else [Split(greedy, len + 5 + c)] + (code + [Goto(-(5 + c + len + 5))])
  {
    hide CodeSize;
  }

  lemma OneInstr(m: Machine, i: Instr, rest: seq<Instr>)
    ensures CodeSize([i] + rest) == InstrSize(i) + CodeSize(rest)
    ensures CodeSize([i]) == InstrSize(i)
    ensures i.Split? || i.Goto? || i.Loop? || i.PushI32? || i.BneCharPos? || i.Lookahead? ==> InstrSize(i) == 5
    ensures i.PushCharPos? || i.Drop? || i.Match? || i.Prev? ==> InstrSize(i) == 1
    ensures i.SimpleGreedy? ==> InstrSize(i) == 17
  {
    SizeHead(i, rest);
  }

  lemma SizeNil()
    ensures CodeSize([]) == 0
  {}

  lemma CheckSizeIs(check: bool)
    ensures CheckSize(check) == if check then 1 else 0
  {}

  lemma ConsumesAt(n: Node, s: Subject, back: bool, x: nat, y: nat)
    requires Consumes(n, back, s) && x <= |s.units| && y in Results(n, back, s, x).ys
    ensures y != x
  {
    hide Results;
  }

  lemma OffersFromIntro(m: Machine, at: Exit, y: nat, f: Found, ex: Exit)
    requires forall es: seq<Entry> :: Offers(m, Start(at.pc, y, at.(entries := es)), f, ex.(entries := es))
    ensures OffersFrom(m, at, y, f, ex)
  {
    hide Offers;
    forall es: seq<Entry>
      ensures Offers(m, Running(State(at.pc, y, at.stack, at.caps, es)), f, ex.(entries := es))
    {
      assert Start(at.pc, y, at.(entries := es)) == Running(State(at.pc, y, at.stack, at.caps, es));
    }
  }

  lemma ApplyAllStar(body: Node, greedy: bool, back: bool, s: Subject, x: nat, o: Found)
    requires x <= |s.units| && AllToward(back, s, x, o.ys)
    ensures ApplyAll(ThenStar(body, greedy, x), back, s, x, o) == StarAll(body, greedy, back, s, x, o)
  {
    hide StarAll;
  }

  lemma ApplyStar(body: Node, greedy: bool, back: bool, s: Subject, x: nat, y: nat)
    requires y <= |s.units|
    ensures Apply(ThenStar(body, greedy, x), back, s, y) == if y == x then EmptyIteration(greedy, y)
      else Star(body, greedy, back, s, y)
  {
    hide Star;
  }

  lemma StarIs(body: Node, greedy: bool, back: bool, s: Subject, x: nat)
    requires x <= |s.units|
    ensures var more := StarAll(body, greedy, back, s, x, Results(body, back, s, x));
            Star(body, greedy, back, s, x) == if greedy then Join(more, Just([x])) else Join(Just([x]), more)
  {
    hide StarAll, Results, Join;
  }

  lemma EmptyIterationIs(greedy: bool, x: nat)
    ensures EmptyIteration(greedy, x) == if greedy then Just([x]) else Found([], true)
  {}

  // ---- loops without a check ----

  /** A loop without a zero-advance check: a split at h between the body at b and the exit q, and
      a way back from the end of the body to h. */
  ghost predicate LoopAt(m: Machine, body: Node, greedy: bool, back: bool, h: nat, b: nat, q: nat)
  {
    && Compiles(m, body, back, b)
    && (exists nextFirst, off: int :: SplitLoop(m, greedy, h, b, q, nextFirst, off))
    && (b + CodeSize(Code(body, back)) == h || exists off: int :: GotoLoop(m, b, CodeSize(Code(body, back)), h, off))
  }

  ghost predicate SplitLoop(m: Machine, greedy: bool, h: nat, b: nat, q: nat, nextFirst: bool, off: int)
  {
    && Decode(m.prog, h) == Some(Split(nextFirst, off)) && h + 5 + off >= 0
    && SplitFirst(h, nextFirst, off) == (if greedy then b else q)
       && SplitSecond(h, nextFirst, off) == (if greedy then q else b)
  }

  ghost predicate GotoLoop(m: Machine, b: nat, len: nat, h: nat, off: int)
  {
    Decode(m.prog, b + len) == Some(Goto(off)) && b + len + 5 + off == h
  }

  lemma LoopBody(m: Machine, body: Node, greedy: bool, back: bool, h: nat, b: nat, q: nat)
      returns (nextFirst: bool, off: int)
    requires LoopAt(m, body, greedy, back, h, b, q)
    ensures Compiles(m, body, back, b) && SplitLoop(m, greedy, h, b, q, nextFirst, off)
  {
    hide Compiles, SplitLoop, Code, CodeSize, GotoLoop;
    nextFirst, off :| SplitLoop(m, greedy, h, b, q, nextFirst, off);
  }

  /** From the end of the body back to the split. */
  lemma LoopBack(m: Machine, body: Node, greedy: bool, back: bool, h: nat, b: nat, q: nat, y: nat, ex: Exit)
    requires LoopAt(m, body, greedy, back, h, b, q) && y <= |m.subj.units|
    ensures Reaches(m, Start(b + CodeSize(Code(body, back)), y, ex), Start(h, y, ex))
  {
    hide Compiles, SplitLoop, Code, CodeSize, Decode, Step, Reaches, Start;
    var e := b + CodeSize(Code(body, back));
    if e == h {
      ReachesRefl(m, Start(h, y, ex));
    } else {
      var off: int :| GotoLoop(m, b, CodeSize(Code(body, back)), h, off);
      StepGoto(m, e, off, y, ex);
      ReachesOne(m, Start(e, y, ex));
    }
  }

  /** One split of such a loop. */
  lemma LoopSplit(m: Machine, greedy: bool, h: nat, b: nat, nextFirst: bool, off: int, x: nat, more: Found, ex: Exit)
    requires SplitLoop(m, greedy, h, b, ex.pc, nextFirst, off) && x <= |m.subj.units|
    requires forall es: seq<Entry> :: Offers(m, Start(b, x, ex.(entries := es)), more, ex.(entries := es))
    ensures Offers(m, Start(h, x, ex), AndHere(greedy, more, x), ex)
  {
    hide Decode, Offers, Start, Join;
    assert ex.(entries := ex.entries) == ex;
    if greedy {
      OffersHere(m, x, ex);
      SplitOffers(m, h, nextFirst, off, x, ex, ex, more, Just([x]));
    } else {
      forall es: seq<Entry>
        ensures Offers(m, Start(SplitFirst(h, nextFirst, off), x, ex.(entries := es)), Just([x]), ex.(entries := es))
      {
        OffersHere(m, x, ex.(entries := es));
      }
      assert Offers(m, Start(b, x, ex.(entries := ex.entries)), more, ex.(entries := ex.entries));
      SplitOffers(m, h, nextFirst, off, x, ex, ex, Just([x]), more);
    }
  }

  /** Turns of the loop that start elsewhere. */
  ghost predicate OthersLoop(m: Machine, body: Node, greedy: bool, back: bool, h: nat, x: nat, ex: Exit)
    requires x <= |m.subj.units|
  {
    forall y, es: seq<Entry> :: y in Results(body, back, m.subj, x).ys && y != x && y <= |m.subj.units| ==>
      Offers(m, Start(h, y, ex.(entries := es)), Star(body, greedy, back, m.subj, y), ex.(entries := es))
  }

  /** Coming to h from the end of an iteration. */
  lemma OtherTurn(m: Machine, body: Node, greedy: bool, back: bool, h: nat, b: nat, x: nat, y: nat, ex: Exit)
    requires LoopAt(m, body, greedy, back, h, b, ex.pc) && x <= |m.subj.units|
      && OthersLoop(m, body, greedy, back, h, x, ex)
    requires y in Results(body, back, m.subj, x).ys && y != x && y <= |m.subj.units|
    ensures OffersFrom(m, ex.(pc := b + CodeSize(Code(body, back))), y, Star(body, greedy, back, m.subj, y), ex)
  {
    hide Results, Star, Offers, Start, LoopAt, Code, CodeSize, Reaches;
    var mid, f := ex.(pc := b + CodeSize(Code(body, back))), Star(body, greedy, back, m.subj, y);
    forall es: seq<Entry>
      ensures Offers(m, Start(mid.pc, y, mid.(entries := es)), f, ex.(entries := es))
    {
      LoopBack(m, body, greedy, back, h, b, ex.pc, y, ex.(entries := es));
      OffersAfter(m, Start(mid.pc, y, ex.(entries := es)), Start(h, y, ex.(entries := es)), f, ex.(entries := es));
      StartStack(mid.pc, y, mid.(entries := es), ex.(entries := es));
    }
    OffersFromIntro(m, mid, y, f, ex);
  }

  /** An iteration that always moves. */
  lemma ConsumingIteration(m: Machine, body: Node, greedy: bool, back: bool, h: nat, b: nat, x: nat, ex: Exit)
    requires LoopAt(m, body, greedy, back, h, b, ex.pc) && x <= |m.subj.units| && Aligned(m.subj, x)
    requires OthersLoop(m, body, greedy, back, h, x, ex) && x !in Results(body, back, m.subj, x).ys
    ensures Offers(m, Start(b, x, ex), StarAll(body, greedy, back, m.subj, x, Results(body, back, m.subj, x)), ex)
  {
    hide *;
    var s, o := m.subj, Results(body, back, m.subj, x);
    var nextFirst, off := LoopBody(m, body, greedy, back, h, b, ex.pc);
    var mid := ex.(pc := b + CodeSize(Code(body, back)));
    CompilesAt(m, body, back, b, x, mid);
    StartStack(b, x, mid, ex);
    forall k | 0 <= k < |o.ys|
      ensures o.ys[k] <= |s.units|
        && OffersFrom(m, mid, o.ys[k], Apply(ThenStar(body, greedy, x), back, s, o.ys[k]), ex)
    {
      ResultsToward(body, back, s, x, o.ys[k]);
      OtherTurn(m, body, greedy, back, h, b, x, o.ys[k], ex);
      ApplyStar(body, greedy, back, s, x, o.ys[k]);
    }
    ResultsAllToward(body, back, s, x);
    ContOffers(m, Start(b, x, ex), ThenStar(body, greedy, x), back, x, o, mid, ex);
    ApplyAllStar(body, greedy, back, s, x, o);
  }

  /** A lazy iteration for n steps, when a turn that comes back to x stays busy that long. */
  lemma LazyIteration(m: Machine, body: Node, back: bool, h: nat, b: nat, x: nat, n: nat, S: set<nat>, ex: Exit)
    requires LoopAt(m, body, false, back, h, b, ex.pc) && x <= |m.subj.units| && Aligned(m.subj, x)
    requires OthersLoop(m, body, false, back, h, x, ex)
    requires Covers(S, StarAll(body, false, back, m.subj, x, Results(body, back, m.subj, x)))
    requires forall es: seq<Entry> :: Busy(m, Start(h, x, ex.(entries := es)), n, S, ex.(entries := es))
    ensures OffersAt(m, Start(b, x, ex),
      StarAll(body, false, back, m.subj, x, Results(body, back, m.subj, x)), S, n, ex)
  {
    hide *;
    var s, o := m.subj, Results(body, back, m.subj, x);
    var t := ThenStar(body, false, x);
    var F, T := Continued(t, back, s), Elems(o.ys);
    var nextFirst, off := LoopBody(m, body, false, back, h, b, ex.pc);
    var mid := ex.(pc := b + CodeSize(Code(body, back)));
    CompilesAt(m, body, back, b, x, mid);
    StartStack(b, x, mid, ex);
    ElemsCover(o);
    OffersTo(m, Start(b, x, ex), o, T, n, mid);
    ResultsAllToward(body, back, s, x);
    ApplyAllIsBind(t, back, s, x, o);
    ApplyAllStar(body, false, back, s, x, o);
    forall k: nat | k < |o.ys| && Live(o.ys, F, k)
      ensures OffersFromAt(m, mid, o.ys[k], F(o.ys[k]), S, n, ex)
    {
      BindCovers(o, F, S, k);
      LazyTurn(m, body, back, h, b, x, o.ys[k], n, S, ex);
    }
    if NoneHangs(o.ys, F) {
      NoneHangsMoves(body, back, s, x, o.ys);
      forall j: nat | j <= n
        ensures Continues(m, mid, T, F, S, j, ex)
      {
        forall k | 0 <= k < |o.ys|
          ensures Covers(S, F(o.ys[k])) && OffersFromAt(m, mid, o.ys[k], F(o.ys[k]), S, j, ex)
        {
          AllLive(o.ys, F, k);
          BindCovers(o, F, S, k);
          ResultsToward(body, back, s, x, o.ys[k]);
          OtherTurn(m, body, false, back, h, b, x, o.ys[k], ex);
          ContinuedIs(t, back, s, o.ys[k]);
          ApplyStar(body, false, back, s, x, o.ys[k]);
          FromOffers(m, mid, o.ys[k], F(o.ys[k]), S, j, ex);
        }
        ContinuesIntro(m, mid, o.ys, F, S, j, ex);
      }
    }
    OffersBindAt(m, Start(b, x, ex), o, F, T, S, n, mid, ex);
  }

  lemma NoneHangsMoves(body: Node, back: bool, s: Subject, x: nat, ys: seq<nat>)
    requires x <= |s.units| && NoneHangs(ys, Continued(ThenStar(body, false, x), back, s))
    ensures x !in ys
  {
    hide Apply, Continued;
    ContinuedIs(ThenStar(body, false, x), back, s, x);
    ApplyStar(body, false, back, s, x, x);
  }

  lemma LazyTurn(m: Machine, body: Node, back: bool, h: nat, b: nat, x: nat, y: nat, n: nat, S: set<nat>, ex: Exit)
    requires LoopAt(m, body, false, back, h, b, ex.pc) && x <= |m.subj.units| && Aligned(m.subj, x)
    requires OthersLoop(m, body, false, back, h, x, ex) && y in Results(body, back, m.subj, x).ys
    requires Covers(S, Continued(ThenStar(body, false, x), back, m.subj)(y))
    requires forall es: seq<Entry> :: Busy(m, Start(h, x, ex.(entries := es)), n, S, ex.(entries := es))
    ensures OffersFromAt(m, ex.(pc := b + CodeSize(Code(body, back))), y,
      Continued(ThenStar(body, false, x), back, m.subj)(y), S, n, ex)
  {
    hide *;
    var s, t := m.subj, ThenStar(body, false, x);
    ResultsToward(body, back, s, x, y);
    ContinuedIs(t, back, s, y);
    ApplyStar(body, false, back, s, x, y);
    var mid, f := ex.(pc := b + CodeSize(Code(body, back))), Continued(t, back, s)(y);
    if y != x {
      OtherTurn(m, body, false, back, h, b, x, y, ex);
      FromOffers(m, mid, y, f, S, n, ex);
    } else {
      EmptyIterationIs(false, x);
      forall es: seq<Entry>
        ensures OffersAt(m, Start(mid.pc, x, ex.(entries := es)), f, S, n, ex.(entries := es))
      {
        LoopBack(m, body, false, back, h, b, ex.pc, x, ex.(entries := es));
        BusyAfter(m, Start(mid.pc, x, ex.(entries := es)), Start(h, x, ex.(entries := es)), n, S, ex.(entries := es));
        OffersNil(m, Start(mid.pc, x, ex.(entries := es)), f, S, n, ex.(entries := es));
      }
      FromAtIntro(m, mid, x, f, S, n, ex);
    }
  }

  lemma FromAtIntro(m: Machine, mid: Exit, y: nat, f: Found, S: set<nat>, n: nat, ex: Exit)
    requires mid == ex.(pc := mid.pc)
    requires forall es: seq<Entry> :: OffersAt(m, Start(mid.pc, y, ex.(entries := es)), f, S, n, ex.(entries := es))
    ensures OffersFromAt(m, mid, y, f, S, n, ex)
  {
    hide OffersAt;
    forall es: seq<Entry>
      ensures OffersAt(m, Running(State(mid.pc, y, mid.stack, mid.caps, es)), f, S, n, ex.(entries := es))
    {
      assert Start(mid.pc, y, ex.(entries := es)) == Running(State(mid.pc, y, mid.stack, mid.caps, es));
    }
  }

  /** The exit is tried first. */
  lemma LazyStep(m: Machine, h: nat, b: nat, nextFirst: bool, off: int, x: nat, ex: Exit)
    requires SplitLoop(m, false, h, b, ex.pc, nextFirst, off) && x <= |m.subj.units|
    ensures Start(h, x, ex).Running?
      && Step(m, Start(h, x, ex)) == Leave(ex, x, [Entry(AtSplit, b, x, ex.stack, ex.caps, 0)])
    ensures Backtrack(m, ex, [Entry(AtSplit, b, x, ex.stack, ex.caps, 0)]) == Start(b, x, ex)
    ensures NoLook([Entry(AtSplit, b, x, ex.stack, ex.caps, 0)])
  {
    hide Decode;
    var e := Entry(AtSplit, b, x, ex.stack, ex.caps, 0);
    assert (ex.entries + [e])[..|ex.entries + [e]| - 1] == ex.entries;
  }

  /** A lazy loop that can come back to where it started stays busy. */
  lemma {:induction false} LazyBusy(m: Machine, body: Node, back: bool, h: nat, b: nat, x: nat, n: nat, ex: Exit)
    requires LoopAt(m, body, false, back, h, b, ex.pc) && x <= |m.subj.units| && Aligned(m.subj, x)
    requires OthersLoop(m, body, false, back, h, x, ex) && Star(body, false, back, m.subj, x).hang
    ensures Busy(m, Start(h, x, ex), n, Elems(Star(body, false, back, m.subj, x).ys), ex)
    decreases n
  {
    hide *;
    var s := m.subj;
    var S, more := Elems(Star(body, false, back, s, x).ys), StarAll(body, false, back, s, x, Results(body, back, s, x));
    StarIs(body, false, back, s, x);
    ElemsCover(Star(body, false, back, s, x));
    LaterCovered(S, x, more);
    var c := Start(h, x, ex);
    if n == 0 {
      BusyNone(m, c, S, ex);
    } else {
      var nextFirst, off := LoopBody(m, body, false, back, h, b, ex.pc);
      LazyStep(m, h, b, nextFirst, off, x, ex);
      forall es: seq<Entry>
        ensures Busy(m, Start(h, x, ex.(entries := es)), n - 1, S, ex.(entries := es))
      {
        OthersMoved(m, body, false, back, h, x, ex, es);
        LazyBusy(m, body, back, h, b, x, n - 1, ex.(entries := es));
      }
      LazyIteration(m, body, back, h, b, x, n - 1, S, ex);
      var e := Entry(AtSplit, b, x, ex.stack, ex.caps, 0);
      NoLookNil();
      assert ex.entries + [] == ex.entries && ex.(entries := ex.entries + []) == ex;
      OffersThenBusy(m, Start(b, x, ex), more, S, n - 1, ex, []);
      ReachesRefl(m, Leave(ex, x, [e]));
      BusyOffer(m, Leave(ex, x, [e]), x, [e], n - 1, S, ex);
      BusyStep(m, c, n, S, ex);
    }
  }

  lemma LaterCovered(S: set<nat>, x: nat, more: Found)
    requires Covers(S, Join(Just([x]), more))
    ensures x in S && Covers(S, more) && Join(Just([x]), more).hang == more.hang
  {
    assert ([x] + more.ys)[0] == x;
    assert forall k :: 0 <= k < |more.ys| ==> ([x] + more.ys)[k + 1] == more.ys[k];
  }

  lemma OthersMoved(m: Machine, body: Node, greedy: bool, back: bool, h: nat, x: nat, ex: Exit, es: seq<Entry>)
    requires x <= |m.subj.units| && OthersLoop(m, body, greedy, back, h, x, ex)
    ensures OthersLoop(m, body, greedy, back, h, x, ex.(entries := es))
  {
    hide Offers, Results, Star;
    assert forall fs: seq<Entry> :: ex.(entries := es).(entries := fs) == ex.(entries := fs);
  }

  /** A loop without a check, for a greedy body that consumes or a lazy one of any kind. */
  lemma LoopOffers(m: Machine, body: Node, greedy: bool, back: bool, h: nat, b: nat, x: nat, ex: Exit)
    requires LoopAt(m, body, greedy, back, h, b, ex.pc) && (greedy ==> Consumes(body, back, m.subj))
    requires x <= |m.subj.units| && Aligned(m.subj, x)
    ensures Offers(m, Start(h, x, ex), Star(body, greedy, back, m.subj, x), ex)
    decreases Room(back, m.subj, x)
  {
    hide *;
    var s, o := m.subj, Results(body, back, m.subj, x);
    var more := StarAll(body, greedy, back, s, x, o);
    forall y, es: seq<Entry> | y in o.ys && y != x && y <= |s.units|
      ensures Offers(m, Start(h, y, ex.(entries := es)), Star(body, greedy, back, s, y), ex.(entries := es))
    {
      ResultsToward(body, back, s, x, y);
      LoopOffers(m, body, greedy, back, h, b, y, ex.(entries := es));
    }
    OthersIntro(m, body, greedy, back, h, x, ex);
    if x in o.ys {
      if greedy {
        ConsumesAt(body, s, back, x, x);
      }
      LazyOffers(m, body, back, h, b, x, ex);
      return;
    }
    var nextFirst, off := LoopBody(m, body, greedy, back, h, b, ex.pc);
    forall es: seq<Entry>
      ensures Offers(m, Start(b, x, ex.(entries := es)), more, ex.(entries := es))
    {
      OthersMoved(m, body, greedy, back, h, x, ex, es);
      ConsumingIteration(m, body, greedy, back, h, b, x, ex.(entries := es));
    }
    LoopSplit(m, greedy, h, b, nextFirst, off, x, more, ex);
    StarHere(body, greedy, back, s, x);
  }

  lemma StarHere(body: Node, greedy: bool, back: bool, s: Subject, x: nat)
    requires x <= |s.units|
    ensures Star(body, greedy, back, s, x)
      == AndHere(greedy, StarAll(body, greedy, back, s, x, Results(body, back, s, x)), x)
  {
    hide StarAll, Results, AndHere;
  }

  lemma OthersIntro(m: Machine, body: Node, greedy: bool, back: bool, h: nat, x: nat, ex: Exit)
    requires x <= |m.subj.units|
    requires forall y, es: seq<Entry> :: y in Results(body, back, m.subj, x).ys && y != x && y <= |m.subj.units| ==>
      Offers(m, Start(h, y, ex.(entries := es)), Star(body, greedy, back, m.subj, y), ex.(entries := es))
    ensures OthersLoop(m, body, greedy, back, h, x, ex)
  {
    hide Offers, Results, Star;
  }

  /** A body that can stay at x makes the loop hang. */
  lemma {:induction false} StayingHangs(body: Node, back: bool, s: Subject, x: nat, o: Found)
    requires x <= |s.units| && AllToward(back, s, x, o.ys) && x in o.ys
    ensures StarAll(body, false, back, s, x, o).hang
    decreases |o.ys|
  {
    hide *;
    ApplyAllStar(body, false, back, s, x, o);
    ApplyAllIs(ThenStar(body, false, x), back, s, x, o);
    ApplyStar(body, false, back, s, x, o.ys[0]);
    EmptyIterationIs(false, x);
    o.HeadTail();
    JoinHangs(Apply(ThenStar(body, false, x), back, s, o.ys[0]),
      ApplyAll(ThenStar(body, false, x), back, s, x, o.Tail()));
    if o.ys[0] != x {
      assert o.ys == [o.ys[0]] + o.ys[1..];
      ApplyAllStar(body, false, back, s, x, o.Tail());
      StayingHangs(body, back, s, x, o.Tail());
    }
  }

  lemma JoinHangs(a: Found, b: Found)
    ensures Join(a, b).hang <==> a.hang || b.hang
  {}

  lemma LazyOffers(m: Machine, body: Node, back: bool, h: nat, b: nat, x: nat, ex: Exit)
    requires LoopAt(m, body, false, back, h, b, ex.pc) && x <= |m.subj.units| && Aligned(m.subj, x)
    requires OthersLoop(m, body, false, back, h, x, ex) && x in Results(body, back, m.subj, x).ys
    ensures Offers(m, Start(h, x, ex), Star(body, false, back, m.subj, x), ex)
  {
    hide *;
    var s, o, r := m.subj, Results(body, back, m.subj, x), Star(body, false, back, m.subj, x);
    var more := StarAll(body, false, back, s, x, o);
    ResultsAllToward(body, back, s, x);
    StayingHangs(body, back, s, x, o);
    StarIs(body, false, back, s, x);
    JoinOne(x, more);
    var S := Elems(r.ys);
    ElemsCover(r);
    LaterCovered(S, x, more);
    var nextFirst, off := LoopBody(m, body, false, back, h, b, ex.pc);
    LazyStep(m, h, b, nextFirst, off, x, ex);
    ReachesOne(m, Start(h, x, ex));
    forall n: nat
      ensures OffersAt(m, Start(h, x, ex), r, S, n, ex)
    {
      forall es: seq<Entry>
        ensures Busy(m, Start(h, x, ex.(entries := es)), n, S, ex.(entries := es))
      {
        OthersMoved(m, body, false, back, h, x, ex, es);
        LazyBusy(m, body, back, h, b, x, n, ex.(entries := es));
      }
      LazyIteration(m, body, back, h, b, x, n, S, ex);
      OffersCons(m, Start(h, x, ex), x, [Entry(AtSplit, b, x, ex.stack, ex.caps, 0)], more, S, n, ex);
    }
    OffersIntro(m, Start(h, x, ex), r, ex);
  }

  lemma JoinOne(x: nat, more: Found)
    ensures Join(Just([x]), more) == Found([x] + more.ys, more.hang)
  {}

  /** At least one iteration, then such a loop: the body at b is entered first. */
  lemma PlusOffers(m: Machine, body: Node, greedy: bool, back: bool, h: nat, b: nat, x: nat, ex: Exit)
    requires LoopAt(m, body, greedy, back, h, b, ex.pc) && (greedy ==> Consumes(body, back, m.subj))
    requires x <= |m.subj.units| && Aligned(m.subj, x)
    ensures Offers(m, Start(b, x, ex),
      RestAll(body, 1, INF, greedy, back, m.subj, x, Results(body, back, m.subj, x)), ex)
  {
    hide *;
    var s, o, t := m.subj, Results(body, back, m.subj, x), ThenRest(body, 1, INF, greedy);
    var nextFirst, off := LoopBody(m, body, greedy, back, h, b, ex.pc);
    var mid := ex.(pc := b + CodeSize(Code(body, back)));
    CompilesAt(m, body, back, b, x, mid);
    StartStack(b, x, mid, ex);
    forall k | 0 <= k < |o.ys|
      ensures o.ys[k] <= |s.units| && OffersFrom(m, mid, o.ys[k], Apply(t, back, s, o.ys[k]), ex)
    {
      var y := o.ys[k];
      ResultsToward(body, back, s, x, y);
      PlusRest(body, greedy, back, s, y);
      var f := Star(body, greedy, back, s, y);
      forall es: seq<Entry>
        ensures Offers(m, Start(mid.pc, y, mid.(entries := es)), f, ex.(entries := es))
      {
        LoopOffers(m, body, greedy, back, h, b, y, ex.(entries := es));
        LoopBack(m, body, greedy, back, h, b, ex.pc, y, ex.(entries := es));
        OffersAfter(m, Start(mid.pc, y, ex.(entries := es)), Start(h, y, ex.(entries := es)), f, ex.(entries := es));
        StartStack(mid.pc, y, mid.(entries := es), ex.(entries := es));
      }
      OffersFromIntro(m, mid, y, f, ex);
    }
    ResultsAllToward(body, back, s, x);
    ContOffers(m, Start(b, x, ex), t, back, x, o, mid, ex);
    PlusAll(body, greedy, back, s, x, o);
  }

  lemma PlusRest(body: Node, greedy: bool, back: bool, s: Subject, y: nat)
    requires y <= |s.units|
    ensures Apply(ThenRest(body, 1, INF, greedy), back, s, y) == Star(body, greedy, back, s, y)
  {
    hide Star, UpTo;
  }

  lemma PlusAll(body: Node, greedy: bool, back: bool, s: Subject, x: nat, o: Found)
    requires x <= |s.units| && AllToward(back, s, x, o.ys)
    ensures ApplyAll(ThenRest(body, 1, INF, greedy), back, s, x, o) == RestAll(body, 1, INF, greedy, back, s, x, o)
  {
    hide RestAll;
  }

  // ---- the greedy loop with a check ----

  /** One more iteration, then the loop again. */
  lemma StarIteration(m: Machine, body: Node, back: bool, pc: nat, x: nat, ex: Exit)
    requires CodeAt(m.prog, pc, StarCode(Code(body, back), true, true)) && Compiles(m, body, back, pc + 6)
    requires x <= |m.subj.units| && Aligned(m.subj, x) && ex.pc == pc + 11 + CodeSize(Code(body, back))
    ensures Offers(m, Start(pc + 5, x, ex), StarAll(body, true, back, m.subj, x, Results(body, back, m.subj, x)), ex)
    decreases Room(back, m.subj, x), 1
  {
    hide *;
    var s, len, o := m.subj, CodeSize(Code(body, back)), Results(body, back, m.subj, x);
    var t := ThenStar(body, true, x);
    CheckSizeIs(true);
    StarLayout(m, pc, Code(body, back), true, true);
    var mid := ex.(pc := pc + 6 + len, stack := ex.stack + [x]);
    CompilesAt(m, body, back, pc + 6, x, mid);
    forall k | 0 <= k < |o.ys|
      ensures o.ys[k] <= |s.units| && OffersFrom(m, mid, o.ys[k], Apply(t, back, s, o.ys[k]), ex)
    {
      var y := o.ys[k];
      ResultsToward(body, back, s, x, y);
      forall es: seq<Entry>
        ensures Offers(m, Start(mid.pc, y, mid.(entries := es)), Apply(t, back, s, y), ex.(entries := es))
      {
        StarBack(m, body, back, pc, x, y, ex.(entries := es));
        StartStack(mid.pc, y, mid.(entries := es), ex.(entries := es).(stack := ex.stack + [x]));
      }
      OffersFromIntro(m, mid, y, Apply(t, back, s, y), ex);
    }
    ResultsAllToward(body, back, s, x);
    ContOffers(m, Start(pc + 6, x, mid), t, back, x, o, mid, ex);
    ApplyAllStar(body, true, back, s, x, o);
    StepPushPos(m, pc + 5, x, ex);
    StartStack(pc + 6, x, mid, ex.(stack := ex.stack + [x]));
    OffersStep(m, Start(pc + 5, x, ex), ApplyAll(t, back, s, x, o), ex);
  }

  /** The jump back after an iteration that ended at y. */
  lemma StarBack(m: Machine, body: Node, back: bool, pc: nat, x: nat, y: nat, ex: Exit)
    requires CodeAt(m.prog, pc, StarCode(Code(body, back), true, true)) && Compiles(m, body, back, pc + 6)
    requires x <= |m.subj.units| && y <= |m.subj.units| && Aligned(m.subj, y)
      && ex.pc == pc + 11 + CodeSize(Code(body, back))
    requires y != x ==> Room(back, m.subj, y) < Room(back, m.subj, x)
    ensures Offers(m, Start(pc + 6 + CodeSize(Code(body, back)), y, ex.(stack := ex.stack + [x])),
                   Apply(ThenStar(body, true, x), back, m.subj, y), ex)
    decreases Room(back, m.subj, x), 0
  {
    hide *;
    var s := m.subj;
    var len: int := CodeSize(Code(body, back));
    CheckSizeIs(true);
    StarLayout(m, pc, Code(body, back), true, true);
    ApplyStar(body, true, back, s, x, y);
    EmptyIterationIs(true, y);
    if y != x {
      StarOffers(m, body, back, pc, y, ex);
    } else {
      OffersHere(m, y, ex);
    }
    StepBne(m, pc + 6 + len, -(5 + 1 + len + 5), y, x, ex);
    OffersStep(m, Start(pc + 6 + len, y, ex.(stack := ex.stack + [x])), Apply(ThenStar(body, true, x), back, s, y), ex);
  }

  /** The unbounded greedy loop. */
  lemma StarOffers(m: Machine, body: Node, back: bool, pc: nat, x: nat, ex: Exit)
    requires CodeAt(m.prog, pc, StarCode(Code(body, back), true, true)) && Compiles(m, body, back, pc + 6)
    requires x <= |m.subj.units| && Aligned(m.subj, x) && ex.pc == pc + 11 + CodeSize(Code(body, back))
    ensures Offers(m, Start(pc, x, ex), Star(body, true, back, m.subj, x), ex)
    decreases Room(back, m.subj, x), 2
  {
    hide *;
    var s, off := m.subj, CodeSize(Code(body, back)) + 6;
    var more := StarAll(body, true, back, s, x, Results(body, back, s, x));
    CheckSizeIs(true);
    StarLayout(m, pc, Code(body, back), true, true);
    StarIs(body, true, back, s, x);
    SplitTargets(pc, true, off);
    forall es: seq<Entry>
      ensures Offers(m, Start(SplitFirst(pc, true, off), x, ex.(entries := es)), more, ex.(entries := es))
    {
      StarIteration(m, body, back, pc, x, ex.(entries := es));
    }
    OffersHere(m, x, ex);
    SplitOffers(m, pc, true, off, x, ex, ex, more, Just([x]));
  }

  /** The unchecked form of the same code is a loop without a check. */
  lemma StarLoop(m: Machine, body: Node, greedy: bool, back: bool, pc: nat)
    requires CodeAt(m.prog, pc, StarCode(Code(body, back), greedy, false)) && Compiles(m, body, back, pc + 5)
    ensures LoopAt(m, body, greedy, back, pc, pc + 5, pc + 10 + CodeSize(Code(body, back)))
  {
    hide Compiles, Decode, Code, CodeSize, CodeAt, StarCode;
    var len: int := CodeSize(Code(body, back));
    StarLayout(m, pc, Code(body, back), greedy, false);
    assert SplitLoop(m, greedy, pc, pc + 5, pc + 10 + len, greedy, len + 5);
    assert GotoLoop(m, pc + 5, len, pc, -(5 + len + 5));
  }

  lemma UpToLayout(m: Machine, pc: nat, code: seq<Instr>, greedy: bool, k: nat)
    requires CodeAt(m.prog, pc, UpToCode(code, greedy, k))
    ensures Decode(m.prog, pc) == Some(PushI32(k)) && UpToAt(m, pc + 5, code, greedy)
    ensures CodeSize(UpToCode(code, greedy, k)) == 16 + CodeSize(code)
  {
    hide *;
    var len: int := CodeSize(code);
    var a, j := Split(greedy, len + 5), Loop(-(5 + len + 5));
    var tail := code + ([j] + [Drop]);
    UpToCodeIs(code, greedy, k);
    assert [Drop] + [] == [Drop];
    OneInstr(m, PushI32(k), [a] + tail);
    OneInstr(m, a, tail);
    SizeSplit(code, [j] + [Drop]);
    OneInstr(m, j, [Drop]);
    OneInstr(m, Drop, []);
    CodeAtHead(m.prog, pc, PushI32(k), [a] + tail);
    CodeAtHead(m.prog, pc + 5, a, tail);
    CodeAtSplit(m.prog, pc + 10, code, [j] + [Drop]);
    CodeAtHead(m.prog, pc + 10 + len, j, [Drop]);
    CodeAtHead(m.prog, pc + 15 + len, Drop, []);
    UpToAtIntro(m, pc + 5, code, greedy, len);
  }

  lemma UpToCodeIs(code: seq<Instr>, greedy: bool, k: nat)
    ensures var len: int := CodeSize(code);
            UpToCode(code, greedy, k)
              == [PushI32(k)] + ([Split(greedy, len + 5)] + (code + ([Loop(-(5 + len + 5))] + [Drop])))
  {
    hide CodeSize;
  }

  lemma UpToAtIntro(m: Machine, pc: nat, code: seq<Instr>, greedy: bool, len: int)
    requires len == CodeSize(code)
    requires Decode(m.prog, pc) == Some(Split(greedy, len + 5)) && CodeAt(m.prog, pc + 5, code)
    requires Decode(m.prog, pc + 5 + len) == Some(Loop(-(5 + len + 5)))
    requires Decode(m.prog, pc + 10 + len) == Some(Drop)
    ensures UpToAt(m, pc, code, greedy)
  {
    hide Decode, CodeAt, CodeSize;
  }

  /** The counted loop L: split D; code; loop L; D: drop stands at pc. */
  ghost predicate UpToAt(m: Machine, pc: nat, code: seq<Instr>, greedy: bool)
  {
    var len: int := CodeSize(code);
    && Decode(m.prog, pc) == Some(Split(greedy, len + 5)) && CodeAt(m.prog, pc + 5, code)
    && Decode(m.prog, pc + 5 + len) == Some(Loop(-(5 + len + 5)))
    && Decode(m.prog, pc + 10 + len) == Some(Drop)
  }

  lemma UpToAtParts(m: Machine, pc: nat, code: seq<Instr>, greedy: bool, len: int)
    requires UpToAt(m, pc, code, greedy) && len == CodeSize(code)
    ensures Decode(m.prog, pc) == Some(Split(greedy, len + 5)) && CodeAt(m.prog, pc + 5, code)
    ensures Decode(m.prog, pc + 5 + len) == Some(Loop(-(5 + len + 5)))
    ensures Decode(m.prog, pc + 10 + len) == Some(Drop)
  {
    hide Decode, CodeAt, CodeSize;
  }

  lemma UpToIs(body: Node, greedy: bool, back: bool, s: Subject, k: nat, x: nat)
    requires x <= |s.units|
    ensures k == 0 ==> UpTo(body, greedy, back, s, k, x) == Just([x])
    ensures k > 0 ==>
            var more := UpToAll(body, greedy, back, s, k - 1, x, Results(body, back, s, x));
            UpTo(body, greedy, back, s, k, x) == if greedy then Join(more, Just([x])) else Join(Just([x]), more)
  {
    hide UpToAll, Results, Join;
  }

  lemma ApplyUpTo(body: Node, greedy: bool, back: bool, s: Subject, k: nat, x: nat, o: Found, y: nat)
    requires x <= |s.units| && y <= |s.units| && AllToward(back, s, x, o.ys)
    ensures ApplyAll(ThenUpTo(body, greedy, k), back, s, x, o) == UpToAll(body, greedy, back, s, k, x, o)
    ensures Apply(ThenUpTo(body, greedy, k), back, s, y) == UpTo(body, greedy, back, s, k, y)
  {
    hide UpToAll, UpTo;
  }

  ghost function Pushed(ex: Exit, k: nat): (r: Exit)
  {
    ex.(stack := ex.stack + [k])
  }

  /** Leaving the counted loop: drop the counter. */
  lemma DropOffers(m: Machine, pc: nat, x: nat, k: nat, ex: Exit)
    requires Decode(m.prog, pc) == Some(Drop) && x <= |m.subj.units| && ex.pc == pc + 1
    ensures Offers(m, Start(pc, x, Pushed(ex, k)), Just([x]), ex)
  {
    hide Decode, Offers, Step, Start;
    StepDrop(m, pc, x, k, ex);
    OffersHere(m, x, ex);
    OffersStep(m, Start(pc, x, Pushed(ex, k)), Just([x]), ex);
  }

  /** Up to k more iterations, the counter k on the stack. */
  lemma UpToOffers(m: Machine, body: Node, greedy: bool, back: bool, pc: nat, k: nat, x: nat, ex: Exit)
    requires UpToAt(m, pc, Code(body, back), greedy) && Compiles(m, body, back, pc + 5) && k > 0
    requires x <= |m.subj.units| && Aligned(m.subj, x) && ex.pc == pc + 11 + CodeSize(Code(body, back))
    ensures Offers(m, Start(pc, x, Pushed(ex, k)), UpTo(body, greedy, back, m.subj, k, x), ex)
    decreases k, 2
  {
    hide *;
    var s, len := m.subj, CodeSize(Code(body, back));
    var more := UpToAll(body, greedy, back, s, k - 1, x, Results(body, back, s, x));
    UpToAtParts(m, pc, Code(body, back), greedy, len);
    UpToIs(body, greedy, back, s, k, x);
    SplitTargets(pc, greedy, len + 5);
    PushedIs(ex, k);
    if greedy {
      forall es: seq<Entry>
        ensures Offers(m, Start(SplitFirst(pc, greedy, len + 5), x, Pushed(ex, k).(entries := es)), more,
          ex.(entries := es))
      {
        UpToIteration(m, body, greedy, back, pc, k, x, ex.(entries := es));
        PushedIs(ex.(entries := es), k);
      }
      DropOffers(m, pc + 10 + len, x, k, ex);
      SplitOffers(m, pc, greedy, len + 5, x, Pushed(ex, k), ex, more, Just([x]));
    } else {
      forall es: seq<Entry>
        ensures Offers(m, Start(SplitFirst(pc, greedy, len + 5), x, Pushed(ex, k).(entries := es)),
          Just([x]), ex.(entries := es))
      {
        DropOffers(m, pc + 10 + len, x, k, ex.(entries := es));
        PushedIs(ex.(entries := es), k);
      }
      UpToIteration(m, body, greedy, back, pc, k, x, ex);
      SplitOffers(m, pc, greedy, len + 5, x, Pushed(ex, k), ex, Just([x]), more);
    }
  }

  lemma PushedIs(ex: Exit, k: nat)
    ensures Pushed(ex, k) == ex.(stack := ex.stack + [k])
  {}

  lemma UpToIteration(m: Machine, body: Node, greedy: bool, back: bool, pc: nat, k: nat, x: nat, ex: Exit)
    requires UpToAt(m, pc, Code(body, back), greedy) && Compiles(m, body, back, pc + 5) && k > 0
    requires x <= |m.subj.units| && Aligned(m.subj, x) && ex.pc == pc + 11 + CodeSize(Code(body, back))
    ensures Offers(m, Start(pc + 5, x, Pushed(ex, k)),
      UpToAll(body, greedy, back, m.subj, k - 1, x, Results(body, back, m.subj, x)), ex)
    decreases k, 1
  {
    hide *;
    var s, len, o := m.subj, CodeSize(Code(body, back)), Results(body, back, m.subj, x);
    var ys := o.ys;
    PushedIs(ex, k);
    var mid := Pushed(ex, k).(pc := pc + 5 + len);
    CompilesAt(m, body, back, pc + 5, x, mid);
    StartStack(pc + 5, x, mid, Pushed(ex, k));
    forall i | 0 <= i < |ys|
      ensures ys[i] <= |s.units| && OffersFrom(m, mid, ys[i], Apply(ThenUpTo(body, greedy, k - 1), back, s, ys[i]), ex)
    {
      var y := ys[i];
      ResultsToward(body, back, s, x, y);
      forall es: seq<Entry>
        ensures Offers(m, Start(mid.pc, y, mid.(entries := es)),
          Apply(ThenUpTo(body, greedy, k - 1), back, s, y), ex.(entries := es))
      {
        UpToBack(m, body, greedy, back, pc, k, y, ex.(entries := es));
        PushedIs(ex.(entries := es), k);
        StartStack(mid.pc, y, mid.(entries := es), Pushed(ex.(entries := es), k));
      }
      OffersFromIntro(m, mid, y, Apply(ThenUpTo(body, greedy, k - 1), back, s, y), ex);
    }
    ResultsAllToward(body, back, s, x);
    ContOffers(m, Start(pc + 5, x, mid), ThenUpTo(body, greedy, k - 1), back, x, o, mid, ex);
    ApplyUpTo(body, greedy, back, s, k - 1, x, o, x);
  }

  lemma UpToBack(m: Machine, body: Node, greedy: bool, back: bool, pc: nat, k: nat, y: nat, ex: Exit)
    requires UpToAt(m, pc, Code(body, back), greedy) && Compiles(m, body, back, pc + 5) && k > 0
    requires y <= |m.subj.units| && Aligned(m.subj, y) && ex.pc == pc + 11 + CodeSize(Code(body, back))
    ensures Offers(m, Start(pc + 5 + CodeSize(Code(body, back)), y, Pushed(ex, k)),
      Apply(ThenUpTo(body, greedy, k - 1), back, m.subj, y), ex)
    decreases k, 0
  {
    hide *;
    var s := m.subj;
    var len: int := CodeSize(Code(body, back));
    UpToAtParts(m, pc, Code(body, back), greedy, len);
    NilToward(back, s, y);
    ApplyUpTo(body, greedy, back, s, k - 1, y, Just([]), y);
    var zs := Apply(ThenUpTo(body, greedy, k - 1), back, s, y);
    PushedIs(ex, k);
    PushedIs(ex, k - 1);
    StepLoop(m, pc + 5 + len, -(5 + len + 5), y, k, ex);
    if k - 1 > 0 {
      UpToOffers(m, body, greedy, back, pc, k - 1, y, ex);
    } else {
      UpToIs(body, greedy, back, s, 0, y);
      DropOffers(m, pc + 10 + len, y, 0, ex);
    }
    OffersStep(m, Start(pc + 5 + len, y, Pushed(ex, k)), zs, ex);
  }

  lemma NilToward(back: bool, s: Subject, x: nat)
    ensures AllToward(back, s, x, Just([]).ys)
  {}
}
