/** The two analyses of emitted code: what surely advances does, and what counts
    as simple runs straight through, so that a greedy loop over it is one run
    and backward steps (cpp/src/quickjs/libregexp.c, re_check_advance,
    re_is_simple_quantifier, REOP_simple_greedy_quant). */
module RegexSimple {
  import opened RegexBytecode
  import opened RegexSyntax
  import opened RegexCode
  import opened RegexCorrect
  import opened RegexLoops
  import opened RegexQuant

  // ---- advancing ----

  lemma {:induction false} AdvancesConcat(a: seq<Instr>, c: seq<Instr>)
    requires SurelyAdvances(a + c)
    ensures SurelyAdvances(a) || SurelyAdvances(c)
    decreases |a|
  {
    if |a| == 0 {
      assert a + c == c;
    } else {
      assert (a + c)[1..] == a[1..] + c;
      if !IsChar(a[0]) {
        AdvancesConcat(a[1..], c);
      }
    }
  }

  /** Instructions at which the analysis gives up. */
  predicate Blocks(i: Instr)
  {
    i.Split? || i.Goto? || i.Loop? || i.Lookahead? || i.BneCharPos? || i.SimpleGreedy? || i.Match?
  }

  lemma {:induction false} AdvancesBlocked(a: seq<Instr>, i: Instr, c: seq<Instr>)
    requires SurelyAdvances(a + ([i] + c)) && Blocks(i)
    ensures SurelyAdvances(a)
    decreases |a|
  {
    var d := [i] + c;
    assert |a| == 0 ==> a + d == d;
    assert d[0] == i;
    if |a| > 0 {
      assert (a + d)[1..] == a[1..] + d;
      if !IsChar(a[0]) {
        AdvancesBlocked(a[1..], i, c);
      }
    }
  }

  /** Continuing from strictly beyond x stays strictly beyond x. */
  lemma {:induction false} ApplyAllStrict(t: Cont, back: bool, s: Subject, x: nat, o: Found)
    requires x <= |s.units| && AllToward(back, s, x, o.ys) && (t.ThenStar? ==> t.from == x) && x !in o.ys
    ensures x !in ApplyAll(t, back, s, x, o).ys
    decreases |o.ys|
  {
    hide Results, Times, UpTo, Star, Rest, ApplyAll, Apply;
    ApplyAllIs(t, back, s, x, o);
    if |o.ys| > 0 {
      assert o.ys[0] in o.ys && forall y :: y in o.ys[1..] ==> y in o.ys;
      ApplyAllStrict(t, back, s, x, o.Tail());
      BeyondStrict(t, back, s, x, o.ys[0]);
    }
  }

  lemma BeyondStrict(t: Cont, back: bool, s: Subject, x: nat, y: nat)
    requires Toward(back, s, x, y) && y != x
    ensures x !in Apply(t, back, s, y).ys
  {
    hide Apply;
    ApplyToward(t, back, s, y);
    var zs := Apply(t, back, s, y).ys;
    assert forall k :: 0 <= k < |zs| ==> Toward(back, s, y, zs[k]);
  }

  lemma ApplyToward(t: Cont, back: bool, s: Subject, y: nat)
    requires y <= |s.units|
    ensures AllToward(back, s, y, Apply(t, back, s, y).ys)
  {
    hide Results, Times, UpTo, Star, Rest;
  }

  /** A continuation that consumes leaves x behind even if the first part did not. */
  lemma {:induction false} FlatStrict(n: Node, back: bool, s: Subject, x: nat, o: Found)
    requires x <= |s.units| && AllToward(back, s, x, o.ys)
    requires forall y: nat :: y <= |s.units| ==> y !in Results(n, back, s, y).ys
    ensures x !in FlatResults(n, back, s, x, o).ys
    decreases |o.ys|
  {
    hide Results;
    if |o.ys| > 0 {
      var y := o.ys[0];
      assert Toward(back, s, x, y);
      FlatStrict(n, back, s, x, o.Tail());
      var zs := Results(n, back, s, y).ys;
      assert AllToward(back, s, y, zs);
      forall k | 0 <= k < |zs|
        ensures zs[k] != x
      {
        assert Toward(back, s, y, zs[k]);
        assert y !in zs;
      }
    }
  }

  /** A sequence leaves x behind if its first part does, or its second part always consumes. */
  lemma CatStrict(first: Node, second: Node, back: bool, s: Subject, x: nat)
    requires x <= |s.units|
    requires x !in Results(first, back, s, x).ys
               || forall y: nat :: y <= |s.units| ==> y !in Results(second, back, s, y).ys
    ensures x !in FlatResults(second, back, s, x, Results(first, back, s, x)).ys
  {
    hide Results, FlatResults;
    var o := Results(first, back, s, x);
    ResultsAllToward(first, back, s, x);
    if x !in o.ys {
      ApplyAllStrict(ThenNode(second), back, s, x, o);
    } else {
      FlatStrict(second, back, s, x, o);
    }
  }

  /** Of the code that holds no sequence and no quantifier, only an atom's advances. */
  lemma LeafAdvances(n: Node, back: bool)
    requires SurelyAdvances(Code(n, back)) && !n.Cat? && !n.Quant?
    ensures n.Single?
  {
    hide QuantCode, CodeSize;
    match n
    case Assert(t) => TestDoesNotAdvance(AssertionInstr(t));
    case _ =>
  }

  lemma SingleStrict(a: Atom, back: bool, s: Subject, x: nat)
    requires x <= |s.units|
    ensures x !in Results(Single(a), back, s, x).ys
  {
    hide Matches, NextChar, PrevPos;
  }

  /** Code that surely advances belongs to a pattern that cannot match the empty string. */
  lemma {:induction false} AdvanceSound(n: Node, back: bool, s: Subject, x: nat)
    requires SurelyAdvances(Code(n, back)) && x <= |s.units|
    ensures x !in Results(n, back, s, x).ys
    decreases n
  {
    hide FlatResults, Times, RestAll, QuantCode, CodeSize;
    match n
    case Cat(l, r) =>
      var first, second := if back then r else l, if back then l else r;
      AdvancesConcat(Code(first, back), Code(second, back));
      if SurelyAdvances(Code(first, back)) {
        AdvanceSound(first, back, s, x);
      } else {
        forall y: nat | y <= |s.units|
          ensures y !in Results(second, back, s, y).ys
        {
          AdvanceSound(second, back, s, y);
        }
      }
      CatStrict(first, second, back, s, x);
    case Quant(body, min, max, greedy) =>
      QuantAdvances(Code(body, back), min, max, greedy);
      AdvanceSound(body, back, s, x);
      QuantStrict(body, min, max, greedy, back, s, x);
    case Single(a) => SingleStrict(a, back, s, x);
    case _ => LeafAdvances(n, back);
  }

  lemma TestDoesNotAdvance(i: Instr)
    requires SurelyAdvances([i])
    ensures IsChar(i)
  {
    assert [i][1..] == [];
  }

  lemma QuantStrict(body: Node, min: nat, max: nat, greedy: bool, back: bool, s: Subject, x: nat)
    requires min >= 1 && x <= |s.units| && x !in Results(body, back, s, x).ys
    ensures x !in Results(Quant(body, min, max, greedy), back, s, x).ys
  {
    var ys := Times(body, back, s, min, x);
    assert Results(Quant(body, min, max, greedy), back, s, x) == RestAll(body, min, max, greedy, back, s, x, ys);
    hide *;
    TimesIs(body, back, s, min, x);
    ResultsAllToward(body, back, s, x);
    ApplyAllStrict(ThenTimes(body, min - 1), back, s, x, Results(body, back, s, x));
    ApplyTimes(body, back, s, min - 1, x, Results(body, back, s, x), x);
    TimesToward(body, back, s, min, x);
    ApplyAllStrict(ThenRest(body, min, max, greedy), back, s, x, ys);
    ApplyAllRest(body, min, max, greedy, back, s, x, ys);
  }

  /** Quantifier code advances only through a mandatory iteration of an advancing body. */
  lemma QuantAdvances(code: seq<Instr>, min: nat, max: nat, greedy: bool)
    requires SurelyAdvances(QuantCode(code, min, max, greedy))
    ensures min >= 1 && SurelyAdvances(code)
  {
    hide CodeSize, StarCode, UpToCode, TimesCode, SimpleCount, OptionalCode, MandatoryCode;
    var len: int := CodeSize(code);
    if greedy && max > 0 && SimpleCount(code) > 0 {
      assert false;
    }
    QuantCodeIs(code, min, max, greedy);
    OptionalDoesNotAdvance(code, min, max, greedy);
    OptionalDoesNotAdvance(code, 0, max, greedy);
    if min >= 1 {
      if min == 1 && max == INF && !NeedsCheck(code, greedy) {
        assert [Split(!greedy, -(len + 5))] + [] == [Split(!greedy, -(len + 5))];
        AdvancesBlocked(code, Split(!greedy, -(len + 5)), []);
      } else {
        AdvancesConcat(MandatoryCode(code, min), OptionalCode(code, min, max, greedy));
        MandatoryAdvances(code, min);
      }
    }
  }

  lemma OptionalDoesNotAdvance(code: seq<Instr>, min: nat, max: nat, greedy: bool)
    ensures !SurelyAdvances(OptionalCode(code, min, max, greedy))
  {
    hide CodeSize, NeedsCheck;
    OptionalCodeIs(code, min, max, greedy);
    StarCodeIs(code, greedy, NeedsCheck(code, greedy));
    var len: int := CodeSize(code);
    var loop := [Split(greedy, len + 5)] + (code + ([Loop(-(5 + len + 5))] + [Drop]));
    if max != INF && max > min {
      UpToCodeIs(code, greedy, max - min);
      assert ([PushI32(max - min)] + loop)[1..] == loop;
    }
  }

  lemma MandatoryAdvances(code: seq<Instr>, min: nat)
    requires SurelyAdvances(MandatoryCode(code, min))
    ensures SurelyAdvances(code)
  {
    hide CodeSize;
    if min != 1 {
      var j := Loop(-((CodeSize(code) as int) + 5));
      var rest := code + ([j] + [Drop]);
      assert TimesCode(code, min) == [PushI32(min)] + rest;
      assert TimesCode(code, min)[1..] == rest;
      AdvancesBlocked(code, j, [Drop]);
    }
  }

  // ---- captures ----

  lemma CaptureFreeSplit(a: seq<Instr>, c: seq<Instr>)
    ensures CaptureFree(a + c) <==> CaptureFree(a) && CaptureFree(c)
  {
    hide OfCapture;
    var h := a + c;
    assert forall k :: 0 <= k < |a| ==> a[k] == h[k];
    assert forall k :: 0 <= k < |c| ==> c[k] == h[|a| + k];
    assert forall k :: 0 <= k < |h| ==> h[k] == if k < |a| then a[k] else c[k - |a|];
  }

  lemma CaptureFreeOne(i: Instr)
    ensures CaptureFree([i]) <==> !OfCapture(i)
  {
    assert [i][0] == i;
  }

  lemma CaptureFreeNil()
    ensures CaptureFree([])
  {}

  /** The code of a pattern without groups has no instructions of captures. */
  lemma {:induction false} CaptureFreeCode(n: Node, back: bool)
    ensures CaptureFree(Code(n, back))
    decreases n
  {
    hide CaptureFree, CodeSize, QuantCode, AtomInstr, AssertionInstr;
    match n
    case Empty => CaptureFreeNil();
    case Single(a) => CaptureFreeAtom(a, back);
    case Assert(t) => CaptureFreeTest(t);
    case Cat(l, r) =>
      CaptureFreeCode(l, back);
      CaptureFreeCode(r, back);
      CaptureFreeSplit(Code(l, back), Code(r, back));
      CaptureFreeSplit(Code(r, back), Code(l, back));
    case Alt(l, r) =>
      CaptureFreeCode(l, back);
      CaptureFreeCode(r, back);
      CaptureFreeAlt(Code(l, back), Code(r, back));
    case Look(neg, behind, body) =>
      CaptureFreeCode(body, behind);
      CaptureFreeLook(neg, Code(body, behind));
    case Quant(body, min, max, greedy) =>
      CaptureFreeCode(body, back);
      CaptureFreeQuant(Code(body, back), min, max, greedy);
  }

  lemma CaptureFreeAlt(cl: seq<Instr>, cr: seq<Instr>)
    requires CaptureFree(cl) && CaptureFree(cr)
    ensures CaptureFree([Split(true, CodeSize(cl) + 5)] + cl + [Goto(CodeSize(cr))] + cr)
  {
    hide CaptureFree, CodeSize;
    var a, g := Split(true, CodeSize(cl) + 5), Goto(CodeSize(cr));
    CaptureFreeOne(a);
    CaptureFreeOne(g);
    CaptureFreeSplit([a], cl);
    CaptureFreeSplit([a] + cl, [g]);
    CaptureFreeSplit([a] + cl + [g], cr);
  }

  lemma CaptureFreeLook(neg: bool, c: seq<Instr>)
    requires CaptureFree(c)
    ensures CaptureFree([Lookahead(neg, CodeSize(c) + 1)] + c + [Match])
  {
    hide CaptureFree, CodeSize;
    var a := Lookahead(neg, CodeSize(c) + 1);
    CaptureFreeOne(a);
    CaptureFreeOne(Match);
    CaptureFreeSplit([a], c);
    CaptureFreeSplit([a] + c, [Match]);
  }

  lemma CaptureFreeAtom(a: Atom, back: bool)
    ensures CaptureFree(Code(Single(a), back))
  {
    hide ClassPairs;
  }

  lemma CaptureFreeTest(t: Assertion)
    ensures CaptureFree([AssertionInstr(t)])
  {}

  lemma CaptureFreeQuant(code: seq<Instr>, min: nat, max: nat, greedy: bool)
    requires CaptureFree(code)
    ensures CaptureFree(QuantCode(code, min, max, greedy))
  {
    hide CodeSize, SimpleCount, NeedsCheck, OptionalCode, MandatoryCode;
    CaptureFreeOptional(code, 0, max, greedy);
    CaptureFreeOptional(code, min, max, greedy);
    CaptureFreeMandatory(code, min);
    CaptureFreeSplit(MandatoryCode(code, min), OptionalCode(code, min, max, greedy));
  }

  lemma CaptureFreeOptional(code: seq<Instr>, min: nat, max: nat, greedy: bool)
    requires CaptureFree(code)
    ensures CaptureFree(OptionalCode(code, min, max, greedy))
  {
    hide CodeSize, NeedsCheck;
  }

  lemma CaptureFreeMandatory(code: seq<Instr>, min: nat)
    requires CaptureFree(code)
    ensures CaptureFree(MandatoryCode(code, min))
  {
    hide CodeSize;
  }

  /** Without a check, the body advances. */
  lemma UncheckedAdvances(body: Node, back: bool)
    ensures !NeedsCheck(Code(body, back), true) ==> SurelyAdvances(Code(body, back))
  {
    hide *;
    CheckNeeded(Code(body, back));
    CaptureFreeCode(body, back);
    PlainCheck(Code(body, back));
  }

  lemma CheckNeeded(code: seq<Instr>)
    ensures NeedsCheck(code, true) <==> AdvanceCheck(code) == 0
  {
    hide AdvanceCheck;
  }
}
