/** The code a pattern compiles to (cpp/src/quickjs/libregexp.c, re_parse_term to
    lre_compile), as a function of the pattern. */
module RegexCode {
  import CharRanges
  import opened RegexBytecode
  import opened RegexSyntax

  /** Interval bounds of a class with its upper ends made inclusive; in the 16-bit form
      the unbounded end becomes 0xffff. */
  function ClassPairs(points: seq<nat>, wide: bool): (r: seq<(nat, nat)>)
    ensures |r| == |points| / 2
  {
    if |points| < 2 then [] else
    [(points[0], if !wide && points[1] == CharRanges.UINT32_MAX then 0xffff else if points[1] > 0 then points[1] - 1
      else CharRanges.UINT32_MAX)]
      + ClassPairs(points[2..], wide)
  }

  /** The largest bound that must fit in 16 bits. */
  function ClassHigh(points: seq<nat>): (h: nat)
    requires |points| >= 2
  {
    if points[|points| - 1] == CharRanges.UINT32_MAX then points[|points| - 2] else points[|points| - 1]
  }

  /** re_emit_range. */
  function ClassInstr(points: seq<nat>): (i: Instr)
  {
    if |points| / 2 == 0 then Char32(CharRanges.UINT32_MAX)
    else if ClassHigh(points) <= 0xffff then Range(ClassPairs(points, false))
    else Range32(ClassPairs(points, true))
  }

  function AtomInstr(a: Atom): (i: Instr)
  {
    match a
    case Lit(c) => if c <= 0xffff then Char(c) else Char32(c)
    case NonTerminator => Dot
    case AnyAtom => AnyChar
    case Class(points) => ClassInstr(points)
  }

  function AssertionInstr(t: Assertion): (i: Instr)
  {
    match t
    case AtLineStart => LineStart
    case AtLineEnd => LineEnd
    case AtWordBoundary => WordBoundary
    case NotAtWordBoundary => NotWordBoundary
  }

  /** re_is_simple_quantifier: the number of characters, or -1. */
  function SimpleCount(code: seq<Instr>): (r: int)
    ensures r >= -1
  {
    if |code| == 0 then 0
    else if !IsChar(code[0]) && !IsTest(code[0]) then -1
    else
      var rest := SimpleCount(code[1..]);
      if rest < 0 then -1 else if IsChar(code[0]) then rest + 1 else rest
  }

  /** Instructions that record a capture or refer to one. */
  predicate OfCapture(i: Instr) { i.SaveStart? || i.SaveEnd? || i.SaveReset? || i.BackRef? }

  /** Whether the code surely consumes a character, if a back reference consumes none. */
  predicate SurelyAdvances(code: seq<Instr>)
  {
    |code| > 0 &&
    (IsChar(code[0]) ||
     ((IsTest(code[0]) || code[0].PushI32? || code[0].PushCharPos? || code[0].Drop? || code[0].Prev?
       || OfCapture(code[0]))
      && SurelyAdvances(code[1..])))
  }

  /** The captures that re_check_advance takes an instruction to set; of a reset, not the last. */
  predicate Sets(i: Instr, c: nat)
  {
    ((i.SaveStart? || i.SaveEnd?) && i.k == c) || (i.SaveReset? && i.low <= c < i.high)
  }

  /** The code refers to a capture of its own. */
  predicate OwnReference(code: seq<Instr>)
  {
    exists k, l :: 0 <= k < |code| && 0 <= l < |code| && code[l].BackRef? && Sets(code[k], code[l].k)
  }

  /** re_check_advance. */
  function AdvanceCheck(code: seq<Instr>): (r: int)
  {
    if OwnReference(code) then -1 else if SurelyAdvances(code) then 1 else 0
  }

  predicate CaptureFree(code: seq<Instr>)
  {
    forall i :: 0 <= i < |code| ==> !OfCapture(code[i])
  }

  lemma PlainCheck(code: seq<Instr>)
    requires CaptureFree(code)
    ensures AdvanceCheck(code) == if SurelyAdvances(code) then 1 else 0
  {
    hide SurelyAdvances;
  }

  /** The optional unbounded tail: L: split exit; [push_char_pos;] code; (goto | bne_char_pos) L. */
  function StarCode(code: seq<Instr>, greedy: bool, check: bool): (r: seq<Instr>)
  {
    var len := CodeSize(code);
    var c := if check then 1 else 0;
    [Split(greedy, len + 5 + c)] + (if check then [PushCharPos] else []) + code
      + [if check then BneCharPos(-(5 + c + len + 5)) else Goto(-(5 + c + len + 5))]
  }

  /** Up to k more: push_i32 k; L: split exit; code; loop L; exit: drop. */
  function UpToCode(code: seq<Instr>, greedy: bool, k: nat): (r: seq<Instr>)
  {
    var len := CodeSize(code);
    [PushI32(k)] + ([Split(greedy, len + 5)] + code + [Loop(-(5 + len + 5))]) + [Drop]
  }

  /** Exactly k: push_i32 k; L: code; loop L; drop. */
  function TimesCode(code: seq<Instr>, k: nat): (r: seq<Instr>)
  {
    [PushI32(k)] + (code + [Loop(-(CodeSize(code) + 5))]) + [Drop]
  }

  function NeedsCheck(code: seq<Instr>, greedy: bool): (r: bool)
  {
    greedy && AdvanceCheck(code) == 0
  }

  function MandatoryCode(code: seq<Instr>, min: nat): (r: seq<Instr>)
  {
    if min == 1 then code else TimesCode(code, min)
  }

  function OptionalCode(code: seq<Instr>, min: nat, max: nat, greedy: bool): (r: seq<Instr>)
  {
    if max == INF then StarCode(code, greedy, NeedsCheck(code, greedy))
    else if max > min then UpToCode(code, greedy, max - min)
    else []
  }

  function QuantCode(code: seq<Instr>, min: nat, max: nat, greedy: bool): (r: seq<Instr>)
  {
    if greedy && max > 0 && SimpleCount(code) > 0 then
      [SimpleGreedy(CodeSize(code) + 1, min, max, SimpleCount(code))] + code + [Match]
    else if min == 0 then
      if max == 0 then []
      else if max == 1 then [Split(greedy, CodeSize(code))] + code
      else OptionalCode(code, 0, max, greedy)
    else if min == 1 && max == INF && !NeedsCheck(code, greedy) then
      code + [Split(!greedy, -(CodeSize(code) + 5))]
    else MandatoryCode(code, min) + OptionalCode(code, min, max, greedy)
  }

  /** The code of a pattern, matching forward or backward. */
  function Code(n: Node, back: bool): (r: seq<Instr>)
  {
    match n
    case Empty => []
    case Single(a) => if back then [Prev, AtomInstr(a), Prev] else [AtomInstr(a)]
    case Assert(t) => [AssertionInstr(t)]
    case Cat(l, r) => if back then Code(r, back) + Code(l, back) else Code(l, back) + Code(r, back)
    case Alt(l, r) =>
      var cl, cr := Code(l, back), Code(r, back);
      [Split(true, CodeSize(cl) + 5)] + cl + [Goto(CodeSize(cr))] + cr
    case Look(neg, behind, body) =>
      var c := Code(body, behind);
      [Lookahead(neg, CodeSize(c) + 1)] + c + [Match]
    case Quant(body, min, max, greedy) => QuantCode(Code(body, back), min, max, greedy)
  }

  /** The whole program (lre_compile): unless sticky, a lazy scan over start positions. */
  function ScanPrefix(): (r: seq<Instr>)
  {
    [Split(false, 6), AnyChar, Goto(-11)]
  }

  function Program(n: Node, sticky: bool): (r: seq<Instr>)
  {
    (if sticky then [] else ScanPrefix()) + [SaveStart(0)] + Code(n, false) + [SaveEnd(0), Match]
  }
}
