/** The compiler as it works (cpp/src/quickjs/libregexp.c, re_emit_op to
    lre_compile): one byte buffer that is appended to, inserted into, copied from,
    rotated and patched, ending as the code of the pattern. */
module RegexCompiler {
  import CharRanges
  import opened RegexBytecode
  import opened RegexSyntax
  import opened RegexCode
  import opened RegexAnalysis
  import opened RegexClass

  /** Every class has few enough ranges to be emitted. */
  predicate ClassesFit(n: Node)
  {
    match n
    case Single(a) => a.Class? ==> |a.points| / 2 < 65535
    case Cat(l, r) => ClassesFit(l) && ClassesFit(r)
    case Alt(l, r) => ClassesFit(l) && ClassesFit(r)
    case Look(_, _, body) => ClassesFit(body)
    case Quant(body, _, _, _) => ClassesFit(body)
    case _ => true
  }

  /** What the parser builds: range lists of even length, repetition counts in order. */
  ghost predicate Parsed(n: Node)
  {
    match n
    case Single(a) => a.Class? ==> |a.points| % 2 == 0
    case Cat(l, r) => Parsed(l) && Parsed(r)
    case Alt(l, r) => Parsed(l) && Parsed(r)
    case Look(_, _, body) => Parsed(body)
    case Quant(body, min, max, _) => Parsed(body) && min <= max <= INF
    case _ => true
  }

  /** The terms of an alternative and the alternatives of a disjunction, in the order the
      parser meets them. */
  function Terms(n: Node): (ts: seq<Node>)
    ensures forall t :: t in ts ==> Size(t) <= Size(n) && (n.Cat? ==> Size(t) < Size(n))
    ensures !n.Cat? ==> ts == if n.Empty? then [] else [n]
  {
    if n.Cat? then Terms(n.l) + [n.r] else if n.Empty? then [] else [n]
  }

  function Alternatives(n: Node): (ts: seq<Node>)
    ensures |ts| >= 1
    ensures forall t :: t in ts ==> Size(t) <= Size(n) && (n.Alt? ==> Size(t) < Size(n))
    ensures !n.Alt? ==> ts == [n]
  {
    if n.Alt? then Alternatives(n.l) + [n.r] else [n]
  }

  function Size(n: Node): (k: nat)
  {
    match n
    case Cat(l, r) => 1 + Size(l) + Size(r)
    case Alt(l, r) => 1 + Size(l) + Size(r)
    case Look(_, _, body) => 1 + Size(body)
    case Quant(body, _, _, _) => 1 + Size(body)
    case _ => 0
  }

  /** The pattern made of the first k terms or alternatives. */
  function CatAll(ts: seq<Node>): (n: Node)
  {
    if |ts| == 0 then Empty else Cat(CatAll(ts[..|ts| - 1]), ts[|ts| - 1])
  }

  function AltAll(ts: seq<Node>): (n: Node)
    requires |ts| >= 1
  {
    if |ts| == 1 then ts[0] else Alt(AltAll(ts[..|ts| - 1]), ts[|ts| - 1])
  }

  lemma {:induction false} CatAllTerms(n: Node, back: bool)
    ensures Code(CatAll(Terms(n)), back) == Code(n, back)
    ensures ClassesFit(n) <==> forall t :: t in Terms(n) ==> ClassesFit(t)
    ensures Parsed(n) ==> forall t :: t in Terms(n) ==> Parsed(t)
    decreases n
  {
    hide CodeSize, QuantCode;
    var ts := Terms(n);
    if n.Cat? {
      CatAllTerms(n.l, back);
      assert ts[..|ts| - 1] == Terms(n.l) && ts[|ts| - 1] == n.r;
      assert n.r in ts && forall u :: u in Terms(n.l) ==> u in ts;
    } else if !n.Empty? {
      assert ts[..0] == [] && ts[0] == n;
      assert CatAll(ts) == Cat(CatAll([]), n);
      assert CatAll([]) == Empty && Code(Empty, back) == [];
      assert Code(CatAll(ts), back) == Code(n, back);
    }
  }

  lemma {:induction false} AltAllAlternatives(n: Node)
    ensures AltAll(Alternatives(n)) == n
    ensures ClassesFit(n) <==> forall t :: t in Alternatives(n) ==> ClassesFit(t)
    ensures Parsed(n) ==> forall t :: t in Alternatives(n) ==> Parsed(t)
    decreases n
  {
    if n.Alt? {
      AltAllAlternatives(n.l);
      var ts := Alternatives(n);
      assert ts[..|ts| - 1] == Alternatives(n.l);
      assert n.r in ts && forall u :: u in Alternatives(n.l) ==> u in ts;
    } else {
      assert Alternatives(n)[0] == n;
    }
  }

  /** What the analyses need of emitted code. */
  predicate Scannable(code: seq<Instr>)
  {
    RangesFit(code) && CaptureFree(code)
  }

  lemma ScannableSplit(a: seq<Instr>, c: seq<Instr>)
    ensures Scannable(a + c) <==> Scannable(a) && Scannable(c)
  {
    var h := a + c;
    assert forall k :: 0 <= k < |a| ==> a[k] == h[k];
    assert forall k :: 0 <= k < |c| ==> c[k] == h[|a| + k];
    assert forall k :: 0 <= k < |h| ==> h[k] == if k < |a| then a[k] else c[k - |a|];
  }

  lemma ScannableOne(i: Instr)
    requires RangeFits(i) && !OfCapture(i)
    ensures Scannable([i])
  {}

  lemma {:induction false} ScannableCode(n: Node, back: bool)
    requires ClassesFit(n)
    ensures Scannable(Code(n, back))
    decreases n
  {
    hide Scannable, CodeSize, QuantCode, AtomInstr, AssertionInstr;
    match n
    case Empty => ScannableNil();
    case Single(a) => ScannableAtom(a, back);
    case Assert(t) => ScannableTest(t);
    case Cat(l, r) =>
      ScannableCode(l, back);
      ScannableCode(r, back);
      ScannableSplit(Code(l, back), Code(r, back));
      ScannableSplit(Code(r, back), Code(l, back));
    case Alt(l, r) =>
      ScannableCode(l, back);
      ScannableCode(r, back);
      ScannableAlt(Code(l, back), Code(r, back));
    case Look(neg, behind, body) =>
      ScannableCode(body, behind);
      ScannableLook(neg, Code(body, behind));
    case Quant(body, min, max, greedy) =>
      ScannableCode(body, back);
      ScannableQuant(Code(body, back), min, max, greedy);
  }

  lemma ScannableAlt(cl: seq<Instr>, cr: seq<Instr>)
    requires Scannable(cl) && Scannable(cr)
    ensures Scannable([Split(true, CodeSize(cl) + 5)] + cl + [Goto(CodeSize(cr))] + cr)
  {
    hide Scannable, CodeSize;
    var a, g := Split(true, CodeSize(cl) + 5), Goto(CodeSize(cr));
    ScannableOne(a);
    ScannableOne(g);
    ScannableSplit([a], cl);
    ScannableSplit([a] + cl, [g]);
    ScannableSplit([a] + cl + [g], cr);
  }

  lemma ScannableLook(neg: bool, c: seq<Instr>)
    requires Scannable(c)
    ensures Scannable([Lookahead(neg, CodeSize(c) + 1)] + c + [Match])
  {
    hide Scannable, CodeSize;
    var a := Lookahead(neg, CodeSize(c) + 1);
    ScannableOne(a);
    ScannableOne(Match);
    ScannableSplit([a], c);
    ScannableSplit([a] + c, [Match]);
  }

  lemma ScannableNil()
    ensures Scannable([])
  {}

  lemma ScannableAtom(a: Atom, back: bool)
    requires a.Class? ==> |a.points| / 2 < 65535
    ensures Scannable(Code(Single(a), back))
  {
    hide ClassPairs;
  }

  lemma ScannableTest(t: Assertion)
    ensures Scannable([AssertionInstr(t)])
  {}

  lemma ScannableQuant(code: seq<Instr>, min: nat, max: nat, greedy: bool)
    requires Scannable(code)
    ensures Scannable(QuantCode(code, min, max, greedy))
  {
    hide CodeSize, SimpleCount, NeedsCheck, OptionalCode, MandatoryCode;
    ScannableOptional(code, 0, max, greedy);
    ScannableOptional(code, min, max, greedy);
    ScannableMandatory(code, min);
    ScannableSplit(MandatoryCode(code, min), OptionalCode(code, min, max, greedy));
  }

  lemma ScannableOptional(code: seq<Instr>, min: nat, max: nat, greedy: bool)
    requires Scannable(code)
    ensures Scannable(OptionalCode(code, min, max, greedy))
  {
    hide CodeSize, NeedsCheck;
  }

  lemma ScannableMandatory(code: seq<Instr>, min: nat)
    requires Scannable(code)
    ensures Scannable(MandatoryCode(code, min))
  {
    hide CodeSize;
  }

  lemma EncodeJump(off: int, b: bool)
    ensures Encode(Goto(off)) == [7] + PutU32(off)
    ensures Encode(Split(b, off)) == [if b then 9 else 8] + PutU32(off)
    ensures Encode(Loop(off)) == [14] + PutU32(off)
  {
    hide PutU32;
  }

  lemma EncodeTest(off: int, b: bool)
    ensures Encode(BneCharPos(off)) == [26] + PutU32(off)
    ensures Encode(Lookahead(b, off)) == [if b then 24 else 23] + PutU32(off)
  {
    hide PutU32;
  }

  lemma EncodePlain(k: nat)
    ensures Encode(PushI32(k)) == [15] + PutU32(k)
    ensures Encode(Drop) == [16] && Encode(Match) == [10] && Encode(PushCharPos) == [25] && Encode(Prev) == [27]
  {
    hide PutU32;
  }

  lemma BytesCons(i: Instr, rest: seq<Instr>)
    ensures Bytes([i] + rest) == Encode(i) + Bytes(rest) && CodeSize([i] + rest) == InstrSize(i) + CodeSize(rest)
  {
    assert ([i] + rest)[1..] == rest;
  }

  lemma BytesSnoc(code: seq<Instr>, i: Instr)
    ensures Bytes(code + [i]) == Bytes(code) + Encode(i)
  {
    BytesConcat(code, [i]);
    BytesOne(i);
  }

  /** The bytes of each shape of quantifier code. */
  lemma SimpleBytes(code: seq<Instr>, min: nat, max: nat, count: nat)
    ensures Bytes([SimpleGreedy(CodeSize(code) + 1, min, max, count)] + code + [Match]) ==
            ([28] + PutU32(CodeSize(code) + 1) + PutU32(min) + PutU32(max) + PutU32(count)) + (Bytes(code) + [10])
  {
    var a := SimpleGreedy(CodeSize(code) + 1, min, max, count);
    assert Encode(a) == [28] + PutU32(CodeSize(code) + 1) + PutU32(min) + PutU32(max) + PutU32(count);
    EncodePlain(0);
    hide Encode, Bytes, PutU32, CodeSize;
    assert [a] + code + [Match] == [a] + (code + [Match]);
    BytesCons(a, code + [Match]);
    BytesSnoc(code, Match);
  }

  lemma MaybeBytes(code: seq<Instr>, b: bool, off: int)
    ensures Bytes([Split(b, off)] + code) == ([if b then 9 else 8] + PutU32(off)) + Bytes(code)
  {
    hide *;
    EncodeJump(off, b);
    BytesCons(Split(b, off), code);
  }

  lemma PlusBytes(code: seq<Instr>, b: bool, off: int)
    ensures Bytes(code + [Split(b, off)]) == Bytes(code) + ([if b then 9 else 8] + PutU32(off))
  {
    hide *;
    EncodeJump(off, b);
    BytesSnoc(code, Split(b, off));
  }

  /** The head and the tail around the body of an unbounded loop. */
  function StarHead(len: nat, greedy: bool, check: bool): (r: seq<byte>)
    ensures |r| == 5 + if check then 1 else 0
  {
    ([if greedy then 9 else 8] + PutU32(len + 5 + if check then 1 else 0)) + (if check then [25] else [])
  }

  function StarTail(len: nat, check: bool): (r: seq<byte>)
  {
    var c := if check then 1 else 0;
    [if check then 26 else 7] + PutU32(-(5 + c + len + 5))
  }

  /** Both groupings of a concatenation of four. */
  lemma Regroup(a: seq<byte>, b: seq<byte>, c: seq<byte>, d: seq<byte>)
    ensures a + ((b + c) + d) == a + b + c + d && a + (b + (c + d)) == (a + b) + c + d
  {}

  lemma StarBytes(code: seq<Instr>, greedy: bool, check: bool)
    ensures Bytes(StarCode(code, greedy, check))
      == StarHead(CodeSize(code), greedy, check) + Bytes(code) + StarTail(CodeSize(code), check)
  {
    hide *;
    var len: int, c: int := CodeSize(code), if check then 1 else 0;
    var a := Split(greedy, len + 5 + c);
    var j := if check then BneCharPos(-(5 + c + len + 5)) else Goto(-(5 + c + len + 5));
    StarShape(code, greedy, check, a, j);
    LoopBytes(a, code, j);
    StarFrame(len, greedy, check, c, a, j);
  }

  lemma StarFrame(len: nat, greedy: bool, check: bool, c: int, a: Instr, j: Instr)
    requires c == (if check then 1 else 0) && a == Split(greedy, len + 5 + c)
    requires j == if check then BneCharPos(-(5 + c + len + 5)) else Goto(-(5 + c + len + 5))
    ensures StarHead(len, greedy, check) == if check then Encode(a) + Encode(PushCharPos) else Encode(a)
    ensures StarTail(len, check) == Encode(j)
  {
    hide *;
    EncodeJump(len + 5 + c, greedy);
    EncodeJump(-(5 + c + len + 5), greedy);
    EncodeTest(-(5 + c + len + 5), greedy);
    StarEndsAre(len, greedy, check);
    EncodePlain(0);
    AppendNil(Encode(a));
  }

  lemma LoopBytes(a: Instr, code: seq<Instr>, j: Instr)
    ensures Bytes([a] + ([PushCharPos] + (code + [j]))) == (Encode(a) + Encode(PushCharPos)) + Bytes(code) + Encode(j)
    ensures Bytes([a] + (code + [j])) == Encode(a) + Bytes(code) + Encode(j)
  {
    hide *;
    BytesCons(a, [PushCharPos] + (code + [j]));
    BytesCons(a, code + [j]);
    BytesCons(PushCharPos, code + [j]);
    BytesSnoc(code, j);
    Regroup(Encode(a), Encode(PushCharPos), Bytes(code), Encode(j));
  }

  lemma StarEndsAre(len: nat, greedy: bool, check: bool)
    ensures var c: int := if check then 1 else 0;
            && StarHead(len, greedy, check)
               == ([if greedy then 9 else 8] + PutU32(len + 5 + c)) + (if check then [25] else [])
            && StarTail(len, check) == [if check then 26 else 7] + PutU32(-(5 + c + len + 5))
  {
    hide PutU32;
  }

  lemma AppendNil(b: seq<byte>)
    ensures b + [] == b
  {}

  lemma StarShape(code: seq<Instr>, greedy: bool, check: bool, a: Instr, j: Instr)
    requires var len: int, c: int := CodeSize(code), if check then 1 else 0;
             a == Split(greedy, len + 5 + c) && j == if check then BneCharPos(-(5 + c + len + 5))
               else Goto(-(5 + c + len + 5))
    ensures StarCode(code, greedy, check) == [a] + if check then [PushCharPos] + (code + [j]) else code + [j]
  {
    hide CodeSize;
  }

  function UpToHead(len: nat, greedy: bool, k: nat): (r: seq<byte>)
    ensures |r| == 10
  {
    ([15] + PutU32(k)) + ([if greedy then 9 else 8] + PutU32(len + 5))
  }

  lemma UpToBytes(code: seq<Instr>, greedy: bool, k: nat)
    ensures var len: int := CodeSize(code);
            Bytes(UpToCode(code, greedy, k))
              == UpToHead(len, greedy, k) + Bytes(code) + ([14] + PutU32(-(5 + len + 5))) + [16]
  {
    hide *;
    var len: int := CodeSize(code);
    var p, a, j := PushI32(k), Split(greedy, len + 5), Loop(-(5 + len + 5));
    CountedShapes(code, greedy, k);
    EncodeJump(len + 5, greedy);
    EncodeJump(-(5 + len + 5), greedy);
    EncodePlain(k);
    UpToHeadIs(len, greedy, k);
    CountedBytes(p, a, code, j);
  }

  lemma UpToHeadIs(len: nat, greedy: bool, k: nat)
    ensures UpToHead(len, greedy, k) == ([15] + PutU32(k)) + ([if greedy then 9 else 8] + PutU32(len + 5))
  {
    hide PutU32;
  }

  lemma CountedShapes(code: seq<Instr>, greedy: bool, k: nat)
    ensures var len: int := CodeSize(code);
            && UpToCode(code, greedy, k)
               == [PushI32(k)] + ([Split(greedy, len + 5)] + ((code + [Loop(-(5 + len + 5))]) + [Drop]))
            && TimesCode(code, k) == [PushI32(k)] + ((code + [Loop(-(len + 5))]) + [Drop])
  {
    hide CodeSize;
  }

  lemma CountedBytes(p: Instr, a: Instr, code: seq<Instr>, j: Instr)
    ensures Bytes([p] + ([a] + ((code + [j]) + [Drop])))
      == (Encode(p) + Encode(a)) + Bytes(code) + Encode(j) + Encode(Drop)
    ensures Bytes([p] + ((code + [j]) + [Drop])) == Encode(p) + Bytes(code) + Encode(j) + Encode(Drop)
  {
    hide *;
    BytesCons(p, [a] + ((code + [j]) + [Drop]));
    BytesCons(p, (code + [j]) + [Drop]);
    BytesCons(a, (code + [j]) + [Drop]);
    BytesSnoc(code + [j], Drop);
    BytesSnoc(code, j);
    Regroup(Encode(p), Bytes(code), Encode(j), Encode(Drop));
    Regroup(Encode(a), Bytes(code), Encode(j), Encode(Drop));
    Regroup(Encode(p), Encode(a), Bytes(code) + Encode(j), Encode(Drop));
    Regroup(Encode(p) + Encode(a), Bytes(code), Encode(j), Encode(Drop));
  }

  lemma TimesBytes(code: seq<Instr>, k: nat)
    ensures var len: int := CodeSize(code);
            Bytes(TimesCode(code, k)) == ([15] + PutU32(k)) + Bytes(code) + ([14] + PutU32(-(len + 5))) + [16]
  {
    hide *;
    var len: int := CodeSize(code);
    var p, j := PushI32(k), Loop(-(len + 5));
    CountedShapes(code, true, k);
    EncodeJump(-(len + 5), true);
    EncodePlain(k);
    CountedBytes(p, Drop, code, j);
  }

  lemma BytesNil()
    ensures Bytes([]) == []
  {}

  lemma ScannableParts(code: seq<Instr>)
    requires Scannable(code)
    ensures RangesFit(code) && CapturesFit(code) && CaptureFree(code)
  {}

  lemma OptionalShapes(code: seq<Instr>, min: nat, max: nat, greedy: bool)
    ensures MandatoryCode(code, min) == if min == 1 then code else TimesCode(code, min)
    ensures OptionalCode(code, min, max, greedy) ==
            if max == INF then StarCode(code, greedy, NeedsCheck(code, greedy))
            else if max > min then UpToCode(code, greedy, max - min) else []
  {
    hide StarCode, UpToCode, TimesCode, NeedsCheck;
  }

  lemma QuantShapes(code: seq<Instr>, min: nat, max: nat, greedy: bool)
    ensures var len: int := CodeSize(code); var check := NeedsCheck(code, greedy);
            QuantCode(code, min, max, greedy) ==
            if greedy && max > 0 && SimpleCount(code) > 0 then
              [SimpleGreedy(len + 1, min, max, SimpleCount(code))] + code + [Match]
            else if min == 0 then
              if max == 0 then [] else if max == 1 then [Split(greedy, len)] + code
              else if max == INF then StarCode(code, greedy, check) else UpToCode(code, greedy, max)
            else if min == 1 && max == INF && !check then code + [Split(!greedy, -(len + 5))]
            else MandatoryCode(code, min) + OptionalCode(code, min, max, greedy)
    ensures NeedsCheck(code, greedy) == (greedy && AdvanceCheck(code) == 0) && INF > 1
  {
    hide CodeSize, StarCode, UpToCode, OptionalCode, MandatoryCode, SimpleCount, AdvanceCheck;
    OptionalShapes(code, 0, max, greedy);
  }

  lemma SimpleShape(code: seq<Instr>, min: nat, max: nat)
    requires max > 0 && SimpleCount(code) > 0
    ensures QuantCode(code, min, max, true)
      == [SimpleGreedy(CodeSize(code) + 1, min, max, SimpleCount(code))] + code + [Match]
  {
    hide CodeSize, SimpleCount, OptionalCode, MandatoryCode, NeedsCheck;
  }

  lemma PlusShape(code: seq<Instr>, greedy: bool)
    requires !NeedsCheck(code, greedy) && !(greedy && SimpleCount(code) > 0)
    ensures QuantCode(code, 1, INF, greedy) == code + [Split(!greedy, -((CodeSize(code) as int) + 5))]
    ensures |Bytes(code)| == CodeSize(code)
  {
    hide CodeSize, SimpleCount, OptionalCode, MandatoryCode, NeedsCheck;
  }

  lemma RepeatShape(code: seq<Instr>, min: nat, max: nat, greedy: bool)
    requires min > 0 && !(min == 1 && max == INF && !NeedsCheck(code, greedy))
      && !(greedy && max > 0 && SimpleCount(code) > 0)
    ensures QuantCode(code, min, max, greedy) == MandatoryCode(code, min) + OptionalCode(code, min, max, greedy)
  {
    hide CodeSize, SimpleCount, OptionalCode, MandatoryCode, NeedsCheck;
  }

  lemma CheckIs(code: seq<Instr>, greedy: bool)
    ensures NeedsCheck(code, greedy) == (greedy && AdvanceCheck(code) == 0)
  {
    hide AdvanceCheck;
  }

  lemma {:induction false} PairBytes16Snoc(pairs: seq<(nat, nat)>, p: (nat, nat))
    ensures PairBytes16(pairs + [p]) == PairBytes16(pairs) + (PutU16(p.0) + PutU16(p.1))
    decreases |pairs|
  {
    hide PutU16;
    if |pairs| == 0 {
      assert pairs + [p] == [p] && [p][1..] == [] && PairBytes16([]) == [];
    } else {
      assert (pairs + [p])[1..] == pairs[1..] + [p];
      PairBytes16Snoc(pairs[1..], p);
    }
  }

  lemma {:induction false} PairBytes32Snoc(pairs: seq<(nat, nat)>, p: (nat, nat))
    ensures PairBytes32(pairs + [p]) == PairBytes32(pairs) + (PutU32(p.0) + PutU32(p.1))
    decreases |pairs|
  {
    hide PutU32;
    if |pairs| == 0 {
      assert pairs + [p] == [p] && [p][1..] == [] && PairBytes32([]) == [];
    } else {
      assert (pairs + [p])[1..] == pairs[1..] + [p];
      PairBytes32Snoc(pairs[1..], p);
    }
  }

  lemma WrapAround()
    ensures PutU32(-1) == PutU32(CharRanges.UINT32_MAX)
  {}

  lemma EncodeRange(pairs: seq<(nat, nat)>)
    ensures Encode(Range(pairs)) == ([21] + PutU16(|pairs|)) + PairBytes16(pairs)
  {
    hide Encode, PutU16, PutU32, PairBytes16, PairBytes32;
    EncodeWideIs(Range(pairs));
  }

  lemma EncodeRange32(pairs: seq<(nat, nat)>)
    ensures Encode(Range32(pairs)) == ([22] + PutU16(|pairs|)) + PairBytes32(pairs)
  {
    hide Encode, PutU16, PutU32, PairBytes16, PairBytes32;
    EncodeWideIs(Range32(pairs));
  }

  lemma EncodeChar(c: nat)
    ensures Encode(Char32(c)) == [2] + PutU32(c) && Encode(Char(c)) == [1] + PutU16(c)
  {
    hide PutU16, PutU32, PairBytes16, PairBytes32;
  }

  lemma ClassInstrIs(points: seq<nat>)
    requires |points| % 2 == 0
    ensures |points| == 0 ==> ClassInstr(points) == Char32(CharRanges.UINT32_MAX)
    ensures |points| > 0 ==>
            var high := points[|points| - 1];
            var top := if high == CharRanges.UINT32_MAX then points[|points| - 2] else high;
            ClassInstr(points) == if top <= 0xffff then Range(ClassPairs(points, false))
              else Range32(ClassPairs(points, true))
    ensures CharRanges.UINT32_MAX == 0xffff_ffff
  {
    hide ClassPairs;
  }

  lemma PairBytesNil(pairs: seq<(nat, nat)>)
    ensures PairBytes16(pairs[..0]) == [] && PairBytes32(pairs[..0]) == []
  {}

  /** Term, alternative and disjunction call each other on the same pattern only in this
      order. */
  function TermRank(n: Node): (r: nat) { if n.Cat? || n.Empty? then 4 else 1 }

  function DisjunctionRank(n: Node): (r: nat) { if n.Alt? then 0 else 3 }

  lemma BytesAlt(l: Node, r: Node, back: bool)
    ensures var cl, cr := Code(l, back), Code(r, back);
            Bytes(Code(Alt(l, r), back)) ==
            (([9] + PutU32(CodeSize(cl) + 5)) + Bytes(cl)) + ([7] + PutU32(CodeSize(cr))) + Bytes(cr)
  {
    hide *;
    var cl, cr := Code(l, back), Code(r, back);
    var a, g := Split(true, CodeSize(cl) + 5), Goto(CodeSize(cr));
    AltShape(l, r, back);
    EncodeJump(CodeSize(cl) + 5, true);
    EncodeJump(CodeSize(cr), true);
    AroundBytes(a, cl, g, cr);
  }

  lemma AltShape(l: Node, r: Node, back: bool)
    ensures var cl, cr := Code(l, back), Code(r, back);
            Code(Alt(l, r), back) == [Split(true, CodeSize(cl) + 5)] + cl + [Goto(CodeSize(cr))] + cr
  {
    hide CodeSize;
  }

  lemma LookShape(neg: bool, behind: bool, body: Node, back: bool)
    ensures Code(Look(neg, behind, body), back)
      == [Lookahead(neg, CodeSize(Code(body, behind)) + 1)] + Code(body, behind) + [Match]
  {
    hide CodeSize;
  }

  lemma AroundBytes(a: Instr, cl: seq<Instr>, g: Instr, cr: seq<Instr>)
    ensures Bytes([a] + cl + [g] + cr) == ((Encode(a) + Bytes(cl)) + Encode(g)) + Bytes(cr)
  {
    hide *;
    BytesConcat([a] + cl + [g], cr);
    BytesSnoc([a] + cl, g);
    BytesCons(a, cl);
  }

  lemma BytesLook(neg: bool, behind: bool, body: Node, back: bool)
    ensures var c := Code(body, behind);
            Bytes(Code(Look(neg, behind, body), back))
              == ([if neg then 24 else 23] + PutU32(CodeSize(c) + 1)) + Bytes(c) + [10]
  {
    hide *;
    var c := Code(body, behind);
    var a := Lookahead(neg, CodeSize(c) + 1);
    LookShape(neg, behind, body, back);
    EncodeTest(CodeSize(c) + 1, neg);
    EncodePlain(0);
    BytesSnoc([a] + c, Match);
    BytesCons(a, c);
  }

  lemma BytesSingle(a: Atom, back: bool)
    ensures Bytes(Code(Single(a), back)) == if back then [27] + Encode(AtomInstr(a)) + [27] else Encode(AtomInstr(a))
  {
    hide AtomInstr, Encode, Bytes;
    var i := AtomInstr(a);
    EncodePlain(0);
    BytesOne(i);
    assert [Prev, i, Prev] == [Prev] + [i] + [Prev];
    BytesSnoc([Prev] + [i], Prev);
    BytesCons(Prev, [i]);
  }

  lemma BytesAssert(t: Assertion)
    ensures Bytes(Code(Assert(t), false)) == [OpCode(AssertionInstr(t))]
      && Code(Assert(t), true) == Code(Assert(t), false)
  {
    BytesOne(AssertionInstr(t));
  }

  lemma EncodeDots()
    ensures Encode(Dot) == [3] && Encode(AnyChar) == [4]
  {}

  lemma QuantCodeIs(body: Node, min: nat, max: nat, greedy: bool, back: bool)
    ensures Code(Quant(body, min, max, greedy), back) == QuantCode(Code(body, back), min, max, greedy)
  {
    hide QuantCode;
  }

  lemma CatAllNil(ts: seq<Node>, back: bool)
    ensures Bytes(Code(CatAll(ts[..0]), back)) == [] && FirstFit(ts, 0)
  {}

  lemma CatAllSnoc(ts: seq<Node>, i: nat, back: bool)
    requires i < |ts|
    ensures var done := CatAll(ts[..i]);
            Bytes(Code(CatAll(ts[..i + 1]), back)) ==
            if back then Bytes(Code(ts[i], back)) + Bytes(Code(done, back))
              else Bytes(Code(done, back)) + Bytes(Code(ts[i], back))
  {
    var ts' := ts[..i + 1];
    assert ts'[..|ts'| - 1] == ts[..i] && ts'[|ts'| - 1] == ts[i];
    var done := CatAll(ts[..i]);
    assert CatAll(ts') == Cat(done, ts[i]);
    assert Code(Cat(done, ts[i]), back) == if back then Code(ts[i], back) + Code(done, back)
      else Code(done, back) + Code(ts[i], back);
    hide *;
    BytesConcat(Code(ts[i], back), Code(done, back));
    BytesConcat(Code(done, back), Code(ts[i], back));
  }

  lemma AltAllSnoc(ts: seq<Node>, i: nat)
    requires 0 < i < |ts|
    ensures AltAll(ts[..i + 1]) == Alt(AltAll(ts[..i]), ts[i])
  {
    var ts' := ts[..i + 1];
    assert ts'[..|ts'| - 1] == ts[..i] && ts'[|ts'| - 1] == ts[i];
  }

  ghost predicate FirstFit(ts: seq<Node>, i: nat)
  {
    i <= |ts| && forall k :: 0 <= k < i ==> ClassesFit(ts[k])
  }

  lemma FirstFitNext(ts: seq<Node>, i: nat)
    requires i < |ts|
    ensures FirstFit(ts, 0) && (FirstFit(ts, i) && ClassesFit(ts[i]) ==> FirstFit(ts, i + 1))
  {}

  lemma FirstFitAll(ts: seq<Node>)
    requires FirstFit(ts, |ts|)
    ensures forall t :: t in ts ==> ClassesFit(t)
  {}

  lemma AltAllOne(ts: seq<Node>)
    requires |ts| >= 1
    ensures AltAll(ts[..1]) == ts[0]
  {}

  lemma TermsShrink(n: Node, i: nat)
    requires i < |Terms(n)|
    ensures Size(Terms(n)[i]) < Size(n) || (Size(Terms(n)[i]) == Size(n) && TermRank(Terms(n)[i]) < 2)
  {
    assert Terms(n)[i] in Terms(n);
  }

  lemma AlternativesShrink(n: Node, i: nat)
    requires i < |Alternatives(n)|
    ensures Size(Alternatives(n)[i]) < Size(n)
      || (i == 0 && |Alternatives(n)| == 1 && Size(Alternatives(n)[i]) == Size(n) && DisjunctionRank(n) == 3)
  {
    assert Alternatives(n)[i] in Alternatives(n);
  }

  /** The buffer byte_code and the operations on it. */
  class Emitter {
    var code: seq<byte>

    constructor ()
      ensures code == []
    {
      code := [];
    }

    /** re_emit_op. */
    method EmitOp(op: byte)
      modifies this
      ensures code == old(code) + [op]
    {
      code := code + [op];
    }

    /** re_emit_op_u8. */
    method EmitOpU8(op: byte, v: byte)
      modifies this
      ensures code == old(code) + [op, v]
    {
      code := code + [op] + [v];
    }

    /** re_emit_op_u16. */
    method EmitOpU16(op: byte, v: nat)
      modifies this
      ensures code == old(code) + ([op] + PutU16(v))
    {
      code := code + [op];
      code := code + PutU16(v);
    }

    /** re_emit_op_u32: returns where the field is. */
    method EmitOpU32(op: byte, v: int) returns (pos: nat)
      modifies this
      ensures code == old(code) + ([op] + PutU32(v)) && pos == |old(code)| + 1
    {
      code := code + [op];
      pos := |code|;
      code := code + PutU32(v);
    }

    /** re_emit_goto: an offset relative to the end of the instruction. */
    method EmitGoto(op: byte, target: nat)
      modifies this
      ensures code == old(code) + ([op] + PutU32(target - (|old(code)| + 5)))
    {
      code := code + [op];
      var pos := |code|;
      code := code + PutU32(target - (pos + 4));
    }

    /** dbuf_insert: a gap with unspecified contents. */
    method Insert(pos: nat, len: nat)
      requires pos <= |code|
      modifies this
      ensures |code| == |old(code)| + len && code[..pos] == old(code)[..pos] && code[pos + len..] == old(code)[pos..]
    {
      assert |seq<byte>(len, _ => 0)| == len;
      var gap: seq<byte> :| |gap| == len;
      code := code[..pos] + gap + code[pos..];
    }

    /** Stores into bytes already there (put_u32 and single bytes). */
    method Store(pos: nat, field: seq<byte>)
      requires pos + |field| <= |code|
      modifies this
      ensures code == old(code)[..pos] + field + old(code)[pos + |field|..]
    {
      code := code[..pos] + field + code[pos + |field|..];
    }

    /** dbuf_put_self. */
    method PutSelf(offset: nat, len: nat)
      requires offset + len <= |code|
      modifies this
      ensures code == old(code) + old(code)[offset..offset + len]
    {
      code := code + code[offset..offset + len];
    }
  
    /** The insertion of a header of known bytes at pos. */
    method InsertHeader(pos: nat, header: seq<byte>)
      requires pos <= |code|
      modifies this
      ensures code == old(code)[..pos] + header + old(code)[pos..]
    {
      Insert(pos, |header|);
      Store(pos, header);
    }

    /** A simple greedy quantifier around the atom at start. */
    method WrapSimple(start: nat, min: nat, max: nat, count: nat, ghost body: seq<Instr>)
      requires start <= |code| && code[start..] == Bytes(body)
      modifies this
      ensures code == old(code)[..start] + Bytes([SimpleGreedy(CodeSize(body) + 1, min, max, count)] + body + [Match])
    {
      hide Bytes, PutU32, CodeSize;
      SimpleBytes(body, min, max, count);
      EmitOp(10);
      Insert(start, 17);
      var len := |code| - start - 17;
      Store(start, [28] + PutU32(len) + PutU32(min) + PutU32(max) + PutU32(count));
    }

    /** An optional unbounded tail whose body is the atom at start itself. */
    method WrapStar(start: nat, greedy: bool, check: bool, ghost body: seq<Instr>)
      requires start <= |code| && code[start..] == Bytes(body)
      modifies this
      ensures code == old(code)[..start] + Bytes(StarCode(body, greedy, check))
    {
      hide Bytes, PutU32, CodeSize, StarCode;
      StarBytes(body, greedy, check);
      var len := |code| - start;
      var c := if check then 1 else 0;
      InsertHeader(start, [if greedy then 9 else 8] + PutU32(len + 5 + c) + if check then [25] else []);
      EmitGoto(if check then 26 else 7, start);
    }

    /** At most k iterations of the atom at start. */
    method WrapUpTo(start: nat, greedy: bool, k: nat, ghost body: seq<Instr>)
      requires start <= |code| && code[start..] == Bytes(body)
      modifies this
      ensures code == old(code)[..start] + Bytes(UpToCode(body, greedy, k))
    {
      hide Bytes, PutU32, CodeSize, UpToCode;
      UpToBytes(body, greedy, k);
      var len := |code| - start;
      InsertHeader(start, ([15] + PutU32(k)) + ([if greedy then 9 else 8] + PutU32(len + 5)));
      EmitGoto(14, start + 5);
      EmitOp(16);
    }

    /** Exactly k iterations of the atom at start. */
    method WrapTimes(start: nat, k: nat, ghost body: seq<Instr>)
      requires start <= |code| && code[start..] == Bytes(body)
      modifies this
      ensures code == old(code)[..start] + Bytes(TimesCode(body, k))
    {
      hide Bytes, PutU32, CodeSize, TimesCode;
      TimesBytes(body, k);
      InsertHeader(start, [15] + PutU32(k));
      EmitGoto(14, start + 5);
      EmitOp(16);
    }
  
    /** An optional unbounded tail whose body is a copy of the atom at start. */
    method CopyStar(start: nat, len: nat, greedy: bool, check: bool, ghost body: seq<Instr>)
      requires start + len <= |code| && code[start..start + len] == Bytes(body)
      modifies this
      ensures code == old(code) + Bytes(StarCode(body, greedy, check))
    {
      hide Bytes, PutU32, CodeSize, StarCode;
      StarBytes(body, greedy, check);
      var pos, c := |code|, if check then 1 else 0;
      var _ := EmitOpU32(if greedy then 9 else 8, len + 5 + c);
      if check {
        EmitOp(25);
      }
      assert code == old(code) + StarHead(len, greedy, check);
      PutSelf(start, len);
      EmitGoto(if check then 26 else 7, pos);
    }

    /** At most k iterations of a copy of the atom at start. */
    method CopyUpTo(start: nat, len: nat, greedy: bool, k: nat, ghost body: seq<Instr>)
      requires start + len <= |code| && code[start..start + len] == Bytes(body)
      modifies this
      ensures code == old(code) + Bytes(UpToCode(body, greedy, k))
    {
      hide Bytes, PutU32, CodeSize, UpToCode;
      UpToBytes(body, greedy, k);
      var _ := EmitOpU32(15, k);
      var pos := |code|;
      var _ := EmitOpU32(if greedy then 9 else 8, len + 5);
      assert code == old(code) + UpToHead(len, greedy, k);
      PutSelf(start, len);
      EmitGoto(14, pos);
      EmitOp(16);
    }

    /** The quantifier part of re_parse_term, applied to the atom at start. */
    method Quantify(start: nat, min: nat, max: nat, greedy: bool, ghost body: seq<Instr>)
      requires start <= |code| && code[start..] == Bytes(body) && Scannable(body) && min <= max <= INF
      modifies this
      ensures code == old(code)[..start] + Bytes(QuantCode(body, min, max, greedy))
    {
      hide *;
      ScannableParts(body);
      var check := false;
      if greedy {
        if max > 0 {
          var count := SimpleQuantifier(code[start..], body);
          if count > 0 {
            SimpleShape(body, min, max);
            WrapSimple(start, min, max, count, body);
            return;
          }
        }
        var advances := CheckAdvance(code[start..], body);
        check := advances == 0;
      }
      CheckIs(body, greedy);
      if min == 0 {
        Optional(start, max, greedy, check, body);
      } else if min == 1 && max == INF && !check {
        PlusShape(body, greedy);
        WrapPlus(start, greedy, body);
      } else {
        RepeatShape(body, min, max, greedy);
        Repeat(start, min, max, greedy, check, body);
      }
    }

    /** A backward split after the atom at start. */
    method WrapPlus(start: nat, greedy: bool, ghost body: seq<Instr>)
      requires start <= |code| && code[start..] == Bytes(body)
      modifies this
      ensures code == old(code)[..start] + Bytes(body + [Split(!greedy, -((CodeSize(body) as int) + 5))])
    {
      hide Bytes, PutU32, CodeSize;
      PlusBytes(body, !greedy, -(|code| - start + 5));
      EmitGoto(if greedy then 8 else 9, start);
    }

    /** No mandatory iterations. */
    method Optional(start: nat, max: nat, greedy: bool, check: bool, ghost body: seq<Instr>)
      requires start <= |code| && code[start..] == Bytes(body) && check == NeedsCheck(body, greedy) && max <= INF
      requires !(greedy && max > 0 && SimpleCount(body) > 0)
      modifies this
      ensures code == old(code)[..start] + Bytes(QuantCode(body, 0, max, greedy))
    {
      hide Bytes, PutU32, CodeSize, QuantCode, StarCode, UpToCode, TimesCode, OptionalCode, MandatoryCode, SimpleCount,
        AdvanceCheck, NeedsCheck;
      QuantShapes(body, 0, max, greedy);
      var len := |code| - start;
      if max == 0 {
        code := code[..start];
        BytesNil();
      } else if max == 1 {
        MaybeBytes(body, greedy, len);
        InsertHeader(start, [if greedy then 9 else 8] + PutU32(len));
      } else if max == INF {
        WrapStar(start, greedy, check, body);
      } else {
        WrapUpTo(start, greedy, max, body);
      }
    }

    /** Mandatory iterations, then optional ones on a copy. */
    method Repeat(start: nat, min: nat, max: nat, greedy: bool, check: bool, ghost body: seq<Instr>)
      requires start <= |code| && code[start..] == Bytes(body) && check == NeedsCheck(body, greedy)
        && 0 < min <= max <= INF
      modifies this
      ensures code == old(code)[..start] + Bytes(MandatoryCode(body, min) + OptionalCode(body, min, max, greedy))
    {
      hide Bytes, PutU32, CodeSize, StarCode, UpToCode, TimesCode, OptionalCode, MandatoryCode, NeedsCheck;
      BytesConcat(MandatoryCode(body, min), OptionalCode(body, min, max, greedy));
      OptionalShapes(body, min, max, greedy);
      TimesBytes(body, min);
      var len, at := |code| - start, start;
      if min != 1 {
        WrapTimes(start, min, body);
        at := start + 5;
      }
      assert code == old(code)[..start] + Bytes(MandatoryCode(body, min));
      assert at + len <= |code| && code[at..at + len] == Bytes(body);
      if max == INF {
        CopyStar(at, len, greedy, check, body);
      } else if max > min {
        CopyUpTo(at, len, greedy, max - min, body);
      } else {
        BytesNil();
      }
    }
  
    /** re_emit_range: fails only on too many ranges. */
    method EmitRange(points: seq<nat>) returns (ok: bool)
      requires |points| % 2 == 0
      modifies this
      ensures ok <==> |points| / 2 < 65535
      ensures ok ==> code == old(code) + Encode(ClassInstr(points))
    {
      hide *;
      var n := |points| / 2;
      if n >= 65535 {
        return false;
      }
      ClassInstrIs(points);
      WrapAround();
      ok := true;
      if n == 0 {
        EncodeChar(CharRanges.UINT32_MAX);
        var _ := EmitOpU32(2, -1);
      } else {
        var high := points[|points| - 1];
        if high == CharRanges.UINT32_MAX {
          high := points[|points| - 2];
        }
        if high <= 0xffff {
          EncodeRange(ClassPairs(points, false));
          EmitOpU16(21, n);
          EmitPairs16(points);
        } else {
          EncodeRange32(ClassPairs(points, true));
          EmitOpU16(22, n);
          EmitPairs32(points);
        }
      }
    }

    method EmitPairs16(points: seq<nat>)
      requires |points| % 2 == 0
      modifies this
      ensures code == old(code) + PairBytes16(ClassPairs(points, false))
    {
      hide PutU16, PairBytes16, ClassPairs;
      ghost var pairs := ClassPairs(points, false);
      var i := 0;
      PairBytesNil(pairs);
      while i < |points|
        invariant i % 2 == 0 && 0 <= i <= |points|
        invariant code == old(code) + PairBytes16(pairs[..i / 2])
        decreases |points| - i
      {
        code := code + PutU16(points[i]);
        var high := if points[i + 1] == 0 then CharRanges.UINT32_MAX else points[i + 1] - 1;
        if high == CharRanges.UINT32_MAX - 1 {
          high := 0xffff;
        }
        code := code + PutU16(high);
        ghost var k := i / 2;
        ClassPairsAt(points, false, k);
        assert pairs[k] == (points[i], high);
        PairBytes16Snoc(pairs[..k], pairs[k]);
        assert pairs[..k + 1] == pairs[..k] + [pairs[k]];
        i := i + 2;
      }
      assert pairs[..|points| / 2] == pairs;
    }

    method EmitPairs32(points: seq<nat>)
      requires |points| % 2 == 0
      modifies this
      ensures code == old(code) + PairBytes32(ClassPairs(points, true))
    {
      hide PutU32, PairBytes32, ClassPairs;
      ghost var pairs := ClassPairs(points, true);
      var i := 0;
      PairBytesNil(pairs);
      WrapAround();
      while i < |points|
        invariant i % 2 == 0 && 0 <= i <= |points|
        invariant code == old(code) + PairBytes32(pairs[..i / 2])
        decreases |points| - i
      {
        code := code + PutU32(points[i]);
        var end: int := points[i + 1];
        code := code + PutU32(end - 1);
        ghost var k := i / 2;
        ClassPairsAt(points, true, k);
        assert pairs[k].0 == points[i] && PutU32(pairs[k].1) == PutU32(end - 1);
        PairBytes32Snoc(pairs[..k], pairs[k]);
        assert pairs[..k + 1] == pairs[..k] + [pairs[k]];
        i := i + 2;
      }
      assert pairs[..|points| / 2] == pairs;
    }
  
    /** A character, dot or class, between steps back when matching backward. */
    method EmitAtom(a: Atom, back: bool) returns (ok: bool)
      requires a.Class? ==> |a.points| % 2 == 0
      modifies this
      ensures ok <==> ClassesFit(Single(a))
      ensures ok ==> code == old(code) + Bytes(Code(Single(a), back))
    {
      hide Bytes, Encode, ClassInstr, PutU16, PutU32, Code;
      BytesSingle(a, back);
      ok := true;
      if back {
        EmitOp(27);
      }
      ghost var before := code;
      match a {
        case Lit(c) =>
          EncodeChar(c);
          if c <= 0xffff {
            EmitOpU16(1, c);
          } else {
            var _ := EmitOpU32(2, c);
          }
        case NonTerminator =>
          EncodeDots();
          EmitOp(3);
        case AnyAtom =>
          EncodeDots();
          EmitOp(4);
        case Class(points) =>
          ok := EmitRange(points);
          if !ok {
            return;
          }
      }
      assert code == before + Encode(AtomInstr(a));
      if back {
        EmitOp(27);
      }
    }

    /** re_parse_term: an atom, assertion, lookaround or group, and its quantifier. */
    method Term(n: Node, back: bool) returns (ok: bool)
      requires Parsed(n)
      modifies this
      ensures ok <==> ClassesFit(n)
      ensures ok ==> code == old(code) + Bytes(Code(n, back))
      decreases Size(n), TermRank(n)
    {
      hide Bytes, Code, PutU32, CodeSize, Scannable;
      match n {
        case Single(a) => ok := EmitAtom(a, back);
        case Assert(t) =>
          BytesAssert(t);
          EmitOp(OpCode(AssertionInstr(t)));
          ok := true;
        case Look(neg, behind, body) =>
          BytesLook(neg, behind, body, back);
          var pos := EmitOpU32(if neg then 24 else 23, 0);
          ok := Disjunction(body, behind);
          if ok {
            EmitOp(10);
            Store(pos, PutU32(|code| - (pos + 4)));
          }
        case Quant(body, min, max, greedy) =>
          var start := |code|;
          ok := Term(body, back);
          if ok {
            ScannableCode(body, back);
            QuantCodeIs(body, min, max, greedy, back);
            Quantify(start, min, max, greedy, Code(body, back));
          }
        case _ => ok := Disjunction(n, back);
      }
    }

    /** re_parse_alternative: when matching backward each new term is moved before the
        others. */
    method Alternative(n: Node, back: bool) returns (ok: bool)
      requires Parsed(n)
      modifies this
      ensures ok <==> ClassesFit(n)
      ensures ok ==> code == old(code) + Bytes(Code(n, back))
      decreases Size(n), 2
    {
      hide *;
      var start := |code|;
      var terms := Terms(n);
      CatAllTerms(n, back);
      CatAllNil(terms, back);
      var i := 0;
      while i < |terms|
        invariant 0 <= i <= |terms| && start == |old(code)| && FirstFit(terms, i)
        invariant code == old(code) + Bytes(Code(CatAll(terms[..i]), back))
      {
        var termStart := |code|;
        TermsShrink(n, i);
        assert terms[i] in terms;
        ok := Term(terms[i], back);
        if !ok {
          return;
        }
        if back {
          Rotate(start, termStart);
        }
        CatAllSnoc(terms, i, back);
        FirstFitNext(terms, i);
        i := i + 1;
      }
      FirstFitAll(terms);
      assert terms[..|terms|] == terms;
      ok := true;
    }

    /** The last fragment, from mid on, is moved to start: the rest is moved up by its size
        and the copy left beyond the end is put in front. */
    method Rotate(start: nat, mid: nat)
      requires start <= mid <= |code|
      modifies this
      ensures code == old(code)[..start] + old(code)[mid..] + old(code)[start..mid]
    {
      var end, size := |code|, |code| - mid;
      var buf := code[..start + size] + code[start..];
      assert |buf| == end + size && buf[end..] == code[mid..] && buf[start + size..end] == code[start..mid];
      code := buf[..start] + buf[end..] + buf[start + size..end];
    }

    /** re_parse_disjunction: a split goes before what has been emitted, a goto after it. */
    method Disjunction(n: Node, back: bool) returns (ok: bool)
      requires Parsed(n)
      modifies this
      ensures ok <==> ClassesFit(n)
      ensures ok ==> code == old(code) + Bytes(Code(n, back))
      decreases Size(n), DisjunctionRank(n)
    {
      hide *;
      var start := |code|;
      var parts := Alternatives(n);
      AltAllAlternatives(n);
      AltAllOne(parts);
      AlternativesShrink(n, 0);
      FirstFitNext(parts, 0);
      assert parts[0] in parts;
      ok := Alternative(parts[0], back);
      if !ok {
        return;
      }
      var i := 1;
      while i < |parts|
        invariant 1 <= i <= |parts| && start == |old(code)| && FirstFit(parts, i)
        invariant code == old(code) + Bytes(Code(AltAll(parts[..i]), back))
      {
        AlternativesShrink(n, i);
        AltAllSnoc(parts, i);
        assert parts[i] in parts;
        ok := AddAlternative(start, AltAll(parts[..i]), parts[i], back);
        if !ok {
          return;
        }
        FirstFitNext(parts, i);
        i := i + 1;
      }
      FirstFitAll(parts);
      assert parts[..|parts|] == parts;
    }

    /** One turn of that loop. */
    method AddAlternative(start: nat, ghost done: Node, n: Node, back: bool) returns (ok: bool)
      requires start <= |code| && code[start..] == Bytes(Code(done, back)) && Parsed(n)
      modifies this
      ensures ok <==> ClassesFit(n)
      ensures ok ==> code == old(code)[..start] + Bytes(Code(Alt(done, n), back))
      decreases Size(n), 3
    {
      hide Bytes, Code, CodeSize, ClassesFit, Parsed, PutU32;
      BytesAlt(done, n, back);
      var len := |code| - start;
      InsertHeader(start, [9] + PutU32(len + 5));
      var pos := EmitOpU32(7, 0);
      ok := Alternative(n, back);
      if ok {
        Store(pos, PutU32(|code| - (pos + 4)));
      }
    }
  }
}
