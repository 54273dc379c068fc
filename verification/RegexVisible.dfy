/** What the two scans of emitted code (cpp/src/quickjs/libregexp.c, re_check_advance and
    re_is_simple_quantifier) find in the code of a pattern without groups, read off the
    pattern itself. */
module RegexVisible {
  import opened RegexBytecode
  import opened RegexSyntax
  import opened RegexCode
  import opened RegexCorrect

  // ---- the pattern ----

  /** The characters of a straight run of atoms and assertions, read forward; -1 for anything
      else. A quantifier of exactly one iteration adds no code of its own unless greedy around
      characters. */
  function StraightCount(n: Node, back: bool): (r: int)
    ensures r >= -1
  {
    match n
    case Empty => 0
    case Single(_) => if back then -1 else 1
    case Assert(_) => 0
    case Cat(l, r) =>
      var a, c := StraightCount(l, back), StraightCount(r, back);
      if a < 0 || c < 0 then -1 else a + c
    case Alt(_, _) => -1
    case Look(_, _, _) => -1
    case Quant(body, min, max, greedy) =>
      var a := StraightCount(body, back);
      if max == 0 then 0 else if min == max == 1 && !(greedy && a > 0) then a else -1
  }

  /** Nothing but assertions. */
  predicate OnlyTests(n: Node)
  {
    match n
    case Empty => true
    case Assert(_) => true
    case Cat(l, r) => OnlyTests(l) && OnlyTests(r)
    case Quant(body, min, max, _) => max == 0 || (min == max == 1 && OnlyTests(body))
    case _ => false
  }

  /** An atom is read before any branch: not in an alternative, a lookaround or an optional
      iteration, nor in a greedy run of simple code. */
  predicate AtomFirst(n: Node, back: bool)
  {
    match n
    case Single(_) => true
    case Cat(l, r) =>
      var first, second := if back then r else l, if back then l else r;
      AtomFirst(first, back) || (OnlyTests(first) && AtomFirst(second, back))
    case Quant(body, min, max, greedy) => min > 0 && !(greedy && StraightCount(body, back) > 0) && AtomFirst(body, back)
    case _ => false
  }

  // ---- the code ----

  /** Instructions the advance scan passes over. */
  predicate Passable(i: Instr)
  {
    IsTest(i) || i.PushI32? || i.PushCharPos? || i.Drop? || i.Prev? || OfCapture(i)
  }

  predicate Open(code: seq<Instr>)
  {
    |code| == 0 || (Passable(code[0]) && Open(code[1..]))
  }

  lemma {:induction false} AdvancesSplit(a: seq<Instr>, c: seq<Instr>)
    ensures SurelyAdvances(a + c) <==> SurelyAdvances(a) || (Open(a) && SurelyAdvances(c))
    decreases |a|
  {
    if |a| == 0 {
      assert a + c == c;
    } else {
      assert (a + c)[1..] == a[1..] + c;
      AdvancesSplit(a[1..], c);
    }
  }

  lemma {:induction false} OpenSplit(a: seq<Instr>, c: seq<Instr>)
    ensures Open(a + c) <==> Open(a) && Open(c)
    decreases |a|
  {
    if |a| == 0 {
      assert a + c == c;
    } else {
      assert (a + c)[1..] == a[1..] + c;
      OpenSplit(a[1..], c);
    }
  }

  lemma {:induction false} CountSplit(a: seq<Instr>, c: seq<Instr>)
    ensures SimpleCount(a + c) ==
      if SimpleCount(a) < 0 || SimpleCount(c) < 0 then -1 else SimpleCount(a) + SimpleCount(c)
    decreases |a|
  {
    if |a| == 0 {
      assert a + c == c;
    } else {
      assert (a + c)[1..] == a[1..] + c;
      CountSplit(a[1..], c);
    }
  }

  lemma OneInstr(i: Instr)
    ensures SurelyAdvances([i]) <==> IsChar(i)
    ensures Open([i]) <==> Passable(i)
    ensures SimpleCount([i]) == if IsChar(i) then 1 else if IsTest(i) then 0 else -1
  {
    assert [i][1..] == [];
  }

  /** The three answers for a piece of code. */
  datatype Scan = Scan(count: int, advances: bool, open: bool)

  function ScanOf(code: seq<Instr>): (r: Scan)
  {
    Scan(SimpleCount(code), SurelyAdvances(code), Open(code))
  }

  function Then(a: Scan, c: Scan): (r: Scan)
  {
    Scan(if a.count < 0 || c.count < 0 then -1 else a.count + c.count,
         a.advances || (a.open && c.advances), a.open && c.open)
  }

  function Stop(): (r: Scan) { Scan(-1, false, false) }

  function Skip(): (r: Scan) { Scan(-1, false, true) }

  lemma ScanSplit(a: seq<Instr>, c: seq<Instr>)
    ensures ScanOf(a + c) == Then(ScanOf(a), ScanOf(c))
  {
    hide SurelyAdvances, Open, SimpleCount;
    AdvancesSplit(a, c);
    OpenSplit(a, c);
    CountSplit(a, c);
  }

  lemma ScanOne(i: Instr)
    ensures i.Split? || i.Goto? || i.Loop? || i.Lookahead? || i.BneCharPos? || i.SimpleGreedy? || i.Match? ==>
      ScanOf([i]) == Stop()
    ensures i.PushI32? || i.PushCharPos? || i.Drop? || i.Prev? ==> ScanOf([i]) == Skip()
    ensures IsChar(i) ==> ScanOf([i]) == Scan(1, true, false)
    ensures IsTest(i) ==> ScanOf([i]) == Scan(0, false, true)
    ensures ScanOf([]) == Scan(0, false, true)
  {
    OneInstr(i);
  }

  lemma StopFirst(i: Instr, c: seq<Instr>)
    requires ScanOf([i]) == Stop()
    ensures ScanOf([i] + c) == Stop()
  {
    hide ScanOf;
    ScanSplit([i], c);
  }

  lemma OptionalStops(code: seq<Instr>, min: nat, max: nat, greedy: bool)
    ensures var s := ScanOf(OptionalCode(code, min, max, greedy));
            if max == INF then s == Stop()
            else if max > min then !s.advances && !s.open && s.count == -1
            else s == Scan(0, false, true)
  {
    hide ScanOf, CodeSize, NeedsCheck;
    var len: int := CodeSize(code);
    var split := Split(greedy, len + 5);
    ScanOne(split);
    ScanOne(PushI32(max));
    if max == INF {
      var check := NeedsCheck(code, greedy);
      var head := Split(greedy, len + 5 + if check then 1 else 0);
      ScanOne(head);
      var j := if check then BneCharPos(-(5 + 1 + len + 5)) else Goto(-(5 + len + 5));
      var rest := (if check then [PushCharPos] else []) + code + [j];
      assert StarCode(code, greedy, check) == [head] + rest;
      StopFirst(head, rest);
    } else if max > min {
      var k: nat := max - min;
      var rest := code + [Loop(-(5 + len + 5))] + [Drop];
      ScanOne(PushI32(k));
      StopFirst(split, rest);
      assert UpToCode(code, greedy, k) == [PushI32(k)] + ([split] + rest);
      ScanSplit([PushI32(k)], [split] + rest);
    }
  }

  lemma TimesScan(code: seq<Instr>, k: nat)
    ensures ScanOf(TimesCode(code, k)) == Scan(-1, SurelyAdvances(code), false)
  {
    hide CodeSize, SurelyAdvances, Open, SimpleCount;
    var j := Loop(-((CodeSize(code) as int) + 5));
    ScanOne(PushI32(k));
    ScanOne(j);
    ScanOne(Drop);
    assert TimesCode(code, k) == [PushI32(k)] + (code + ([j] + [Drop]));
    ScanSplit([j], [Drop]);
    ScanSplit(code, [j] + [Drop]);
    ScanSplit([PushI32(k)], code + ([j] + [Drop]));
  }

  function QuantScan(body: Scan, min: nat, max: nat, greedy: bool): (r: Scan)
  {
    if max == 0 then Scan(0, false, true)
    else if greedy && body.count > 0 then Stop()
    else if min == 0 then Stop()
    else if min == max == 1 then body
    else Scan(-1, body.advances, false)
  }

  lemma QuantScans(code: seq<Instr>, min: nat, max: nat, greedy: bool)
    requires min <= max
    ensures ScanOf(QuantCode(code, min, max, greedy)) == QuantScan(ScanOf(code), min, max, greedy)
  {
    hide CodeSize, SurelyAdvances, Open, SimpleCount, OptionalCode, TimesCode, NeedsCheck;
    var len: int := CodeSize(code);
    var rest := OptionalCode(code, min, max, greedy);
    OptionalStops(code, min, max, greedy);
    ScanOne(Match);
    ScanOne(Split(greedy, len));
    ScanOne(Split(!greedy, -(len + 5)));
    if max == 0 {
      assert QuantCode(code, min, max, greedy) == [];
    } else if greedy && SimpleCount(code) > 0 {
      var g := SimpleGreedy(CodeSize(code) + 1, min, max, SimpleCount(code));
      ScanOne(g);
      assert [g] + code + [Match] == [g] + (code + [Match]);
      StopFirst(g, code + [Match]);
    } else if min == 0 {
      StopFirst(Split(greedy, len), code);
    } else if min == 1 {
      ScanSplit(code, [Split(!greedy, -(len + 5))]);
      ScanSplit(code, rest);
    } else {
      TimesScan(code, min);
      ScanSplit(TimesCode(code, min), rest);
    }
  }

  /** The scans see of the code of a pattern exactly what the pattern shows. */
  lemma {:induction false} ScansVisible(n: Node, back: bool)
    requires NodeOk(n)
    ensures ScanOf(Code(n, back)) == Scan(StraightCount(n, back), AtomFirst(n, back), OnlyTests(n))
    decreases n
  {
    hide ScanOf, CodeSize, QuantCode, AtomOk, Code;
    match n
    case Empty => LeafScan(n, back);
    case Single(a) => AtomScan(a, back);
    case Assert(t) => LeafScan(n, back);
    case Cat(l, r) =>
      ScansVisible(l, back);
      ScansVisible(r, back);
      CatScan(l, r, back);
    case Alt(l, r) => AltScan(l, r, back);
    case Look(neg, behind, body) => LookScan(neg, behind, body, back);
    case Quant(body, min, max, greedy) =>
      ScansVisible(body, back);
      QuantScans(Code(body, back), min, max, greedy);
      QuantCodeOf(n, back);
      if OnlyTests(body) {
        TestsRead(body, back);
      }
  }

  lemma QuantCodeOf(n: Node, back: bool)
    requires n.Quant?
    ensures Code(n, back) == QuantCode(Code(n.body, back), n.min, n.max, n.greedy)
  {
    hide QuantCode;
  }

  lemma LeafScan(n: Node, back: bool)
    requires n.Empty? || n.Assert?
    ensures ScanOf(Code(n, back)) == Scan(0, false, true)
  {
    hide ScanOf;
    ScanOne(if n.Assert? then AssertionInstr(n.t) else Match);
  }

  lemma CatScan(l: Node, r: Node, back: bool)
    ensures var a, c := ScanOf(Code(l, back)), ScanOf(Code(r, back));
            ScanOf(Code(Cat(l, r), back)) == if back then Then(c, a) else Then(a, c)
  {
    hide ScanOf, Then;
    ScanSplit(Code(l, back), Code(r, back));
    ScanSplit(Code(r, back), Code(l, back));
  }

  lemma AltScan(l: Node, r: Node, back: bool)
    ensures ScanOf(Code(Alt(l, r), back)) == Stop()
  {
    hide ScanOf, CodeSize;
    var cl, cr := Code(l, back), Code(r, back);
    var s, g := Split(true, CodeSize(cl) + 5), Goto(CodeSize(cr));
    ScanOne(s);
    assert [s] + cl + [g] + cr == [s] + (cl + [g] + cr);
    StopFirst(s, cl + [g] + cr);
  }

  lemma LookScan(neg: bool, behind: bool, body: Node, back: bool)
    ensures ScanOf(Code(Look(neg, behind, body), back)) == Stop()
  {
    hide ScanOf, CodeSize;
    var c := Code(body, behind);
    var i := Lookahead(neg, CodeSize(c) + 1);
    ScanOne(i);
    assert [i] + c + [Match] == [i] + (c + [Match]);
    StopFirst(i, c + [Match]);
  }

  lemma {:induction false} TestsRead(n: Node, back: bool)
    requires OnlyTests(n)
    ensures StraightCount(n, back) == 0
    decreases n
  {
    match n
    case Cat(l, r) =>
      TestsRead(l, back);
      TestsRead(r, back);
    case Quant(body, _, max, _) =>
      if max > 0 {
        TestsRead(body, back);
      }
    case _ =>
  }

  lemma AtomScan(a: Atom, back: bool)
    ensures ScanOf(Code(Single(a), back)) == Scan(if back then -1 else 1, true, false)
  {
    hide ScanOf, ClassPairs;
    var i := AtomInstr(a);
    assert IsChar(i);
    ScanOne(i);
    ScanOne(Prev);
    assert [Prev, i, Prev] == [Prev] + ([i] + [Prev]);
    ScanSplit([i], [Prev]);
    ScanSplit([Prev], [i] + [Prev]);
  }
}
