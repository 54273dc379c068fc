/** Patterns with capture groups and back references (cpp/src/quickjs/libregexp.c,
    re_parse_term): the code of every pattern keeps to the static analysis on every run. */
module RegexCapture {
  import opened RegexBytecode
  import opened RegexSyntax
  import opened RegexCode
  import opened RegexAnalysis
  import opened RegexVM
  import opened RegexCorrect
  import opened RegexProgram
  import opened RegexStack
  import opened RegexSafety
  import opened RegexSimple

  /** Patterns; groups are numbered from 1 in the order of their opening. */
  datatype Term =
    | Bare(n: Node)
    | Seq(l: Term, r: Term)
    | Or(l: Term, r: Term)
    | Around(neg: bool, behind: bool, body: Term)
    | Repeat(body: Term, min: nat, max: nat, greedy: bool)
    | Group(k: nat, body: Term)
    | Reference(k: nat)

  /** The numbers of the first and the last group, 0 if there is none. */
  function FirstGroup(t: Term): (k: nat)
  {
    match t
    case Bare(_) => 0
    case Seq(l, r) => if FirstGroup(l) != 0 then FirstGroup(l) else FirstGroup(r)
    case Or(l, r) => if FirstGroup(l) != 0 then FirstGroup(l) else FirstGroup(r)
    case Around(_, _, body) => FirstGroup(body)
    case Repeat(body, _, _, _) => FirstGroup(body)
    case Group(k, _) => k
    case Reference(_) => 0
  }

  function LastGroup(t: Term): (k: nat)
  {
    match t
    case Bare(_) => 0
    case Seq(l, r) => if LastGroup(r) != 0 then LastGroup(r) else LastGroup(l)
    case Or(l, r) => if LastGroup(r) != 0 then LastGroup(r) else LastGroup(l)
    case Around(_, _, body) => LastGroup(body)
    case Repeat(body, _, _, _) => LastGroup(body)
    case Group(k, body) => if LastGroup(body) != 0 then LastGroup(body) else k
    case Reference(_) => 0
  }

  /** A repetition that may be skipped first forgets the groups in it. */
  function ResetCode(body: Term, min: nat): (r: seq<Instr>)
  {
    if min == 0 && FirstGroup(body) != 0 then [SaveReset(FirstGroup(body), LastGroup(body))] else []
  }

  /** The code of a pattern, matching forward or backward. */
  function TermCode(t: Term, back: bool): (r: seq<Instr>)
  {
    match t
    case Bare(n) => Code(n, back)
    case Seq(l, r) => if back then TermCode(r, back) + TermCode(l, back) else TermCode(l, back) + TermCode(r, back)
    case Or(l, r) => OrCode(TermCode(l, back), TermCode(r, back))
    case Around(neg, behind, body) => AroundCode(neg, TermCode(body, behind))
    case Repeat(body, min, max, greedy) => ResetCode(body, min) + QuantCode(TermCode(body, back), min, max, greedy)
    case Group(k, body) => GroupCode(TermCode(body, back), k, back)
    case Reference(k) => [BackRef(back, k)]
  }

  function OrCode(cl: seq<Instr>, cr: seq<Instr>): (r: seq<Instr>)
  {
    [Split(true, CodeSize(cl) + 5)] + cl + [Goto(CodeSize(cr))] + cr
  }

  function AroundCode(neg: bool, c: seq<Instr>): (r: seq<Instr>)
  {
    [Lookahead(neg, CodeSize(c) + 1)] + c + [Match]
  }

  /** Backward, the end is met first. */
  function GroupCode(c: seq<Instr>, k: nat, back: bool): (r: seq<Instr>)
  {
    [if back then SaveEnd(k) else SaveStart(k)] + c + [if back then SaveStart(k) else SaveEnd(k)]
  }

  /** The whole program (lre_compile). */
  function TermProgram(t: Term, sticky: bool): (r: seq<Instr>)
  {
    ((if sticky then [] else ScanPrefix()) + [SaveStart(0)] + TermCode(t, false)) + [SaveEnd(0), Match]
  }

  /** Of a pattern without groups it is the program proved correct. */
  lemma BareProgram(n: Node, sticky: bool)
    ensures TermProgram(Bare(n), sticky) == Program(n, sticky)
  {
    hide Code, ScanPrefix, Program;
    ProgramIsFlat(n, sticky);
  }

  /** What the parser grants, with n captures in all. */
  ghost predicate TermOk(t: Term, n: nat)
  {
    match t
    case Bare(m) => NodeOk(m)
    case Seq(l, r) => TermOk(l, n) && TermOk(r, n)
    case Or(l, r) => TermOk(l, n) && TermOk(r, n)
    case Around(_, _, body) => TermOk(body, n)
    case Repeat(body, min, max, _) => TermOk(body, n) && min <= max <= INF
    case Group(k, body) => TermOk(body, n) && k < n
    case Reference(k) => k < CAPTURE_COUNT_MAX
  }

  /** Every fragment that was emitted on the way is smaller than 2^31 bytes. */
  ghost predicate TermSmall(t: Term, back: bool)
  {
    CodeSize(TermCode(t, back)) < I32 &&
    match t
    case Bare(n) => SmallCode(n, back)
    case Seq(l, r) => TermSmall(l, back) && TermSmall(r, back)
    case Or(l, r) => TermSmall(l, back) && TermSmall(r, back)
    case Around(_, behind, body) => TermSmall(body, behind)
    case Repeat(body, _, _, _) => TermSmall(body, back)
    case Group(_, body) => TermSmall(body, back)
    case Reference(_) => true
  }

  // ---- steady code ----

  lemma CaptureSteady(i: Instr)
    requires OfCapture(i)
    ensures Steady([i])
  {
    NetOne(i);
  }

  lemma SteadyReset(body: Term, min: nat)
    ensures Steady(ResetCode(body, min))
  {
    hide Steady, FirstGroup, LastGroup;
    NilSteady();
    CaptureSteady(SaveReset(FirstGroup(body), LastGroup(body)));
  }

  lemma SteadyGroup(c: seq<Instr>, k: nat, back: bool)
    requires Steady(c)
    ensures Steady(GroupCode(c, k, back))
  {
    hide Steady;
    var i, j := if back then SaveEnd(k) else SaveStart(k), if back then SaveStart(k) else SaveEnd(k);
    CaptureSteady(i);
    CaptureSteady(j);
    SteadyConcat([i], c);
    SteadyConcat([i] + c, [j]);
  }

  lemma {:induction false} SteadyTerm(t: Term, back: bool)
    ensures Steady(TermCode(t, back))
    decreases t
  {
    hide Steady, CodeSize, QuantCode, Code, ResetCode, GroupCode;
    match t
    case Bare(n) => SteadyCode(n, back);
    case Seq(l, r) =>
      SteadyTerm(l, back);
      SteadyTerm(r, back);
      SteadyConcat(TermCode(l, back), TermCode(r, back));
      SteadyConcat(TermCode(r, back), TermCode(l, back));
    case Or(l, r) =>
      SteadyTerm(l, back);
      SteadyTerm(r, back);
      SteadyAlt(TermCode(l, back), TermCode(r, back));
    case Around(neg, behind, body) =>
      SteadyTerm(body, behind);
      SteadyAround(Lookahead(neg, CodeSize(TermCode(body, behind)) + 1), TermCode(body, behind), Match);
    case Repeat(body, min, max, greedy) =>
      SteadyTerm(body, back);
      SteadyReset(body, min);
      SteadyQuant(TermCode(body, back), min, max, greedy);
      SteadyConcat(ResetCode(body, min), QuantCode(TermCode(body, back), min, max, greedy));
    case Group(k, body) =>
      SteadyTerm(body, back);
      SteadyGroup(TermCode(body, back), k, back);
    case Reference(k) => CaptureSteady(BackRef(back, k));
  }

  // ---- encodable code ----

  lemma GroupsBelow(t: Term, n: nat)
    requires TermOk(t, n)
    ensures FirstGroup(t) != 0 ==> FirstGroup(t) < n && LastGroup(t) < n
    ensures LastGroup(t) != 0 ==> LastGroup(t) < n
  {}

  lemma EncodableReset(body: Term, min: nat, n: nat)
    requires TermOk(body, n) && n <= CAPTURE_COUNT_MAX
    ensures EncodableCode(ResetCode(body, min))
  {
    hide FirstGroup, LastGroup, TermOk;
    GroupsBelow(body, n);
  }

  lemma EncodableGroup(c: seq<Instr>, k: nat, back: bool)
    requires EncodableCode(c) && k < CAPTURE_COUNT_MAX
    ensures EncodableCode(GroupCode(c, k, back))
  {
    hide EncodableCode;
    var i, j := if back then SaveEnd(k) else SaveStart(k), if back then SaveStart(k) else SaveEnd(k);
    EncodableOne(i);
    EncodableOne(j);
    EncodableSplit([i], c);
    EncodableSplit([i] + c, [j]);
  }

  lemma {:induction false} TermEncodable(t: Term, back: bool, n: nat)
    requires TermOk(t, n) && TermSmall(t, back) && n <= CAPTURE_COUNT_MAX
    ensures EncodableCode(TermCode(t, back))
    decreases t
  {
    hide EncodableCode, CodeSize, QuantCode, Code, ResetCode, GroupCode, NodeOk, SmallCode;
    match t
    case Bare(m) => CodeEncodable(m, back);
    case Seq(l, r) =>
      TermEncodable(l, back, n);
      TermEncodable(r, back, n);
      EncodableSplit(TermCode(l, back), TermCode(r, back));
      EncodableSplit(TermCode(r, back), TermCode(l, back));
    case Or(l, r) =>
      TermEncodable(l, back, n);
      TermEncodable(r, back, n);
      AltEncodable(TermCode(l, back), TermCode(r, back));
    case Around(neg, behind, body) =>
      TermEncodable(body, behind, n);
      LookEncodable(neg, TermCode(body, behind));
    case Repeat(body, min, max, greedy) =>
      var c := QuantCode(TermCode(body, back), min, max, greedy);
      TermEncodable(body, back, n);
      EncodableReset(body, min, n);
      SizeSplit(ResetCode(body, min), c);
      QuantEncodable(TermCode(body, back), min, max, greedy);
      EncodableSplit(ResetCode(body, min), c);
    case Group(k, body) =>
      TermEncodable(body, back, n);
      EncodableGroup(TermCode(body, back), k, back);
    case Reference(k) => EncodableReference(back, k);
  }

  lemma EncodableReference(back: bool, k: nat)
    requires k < CAPTURE_COUNT_MAX
    ensures EncodableCode([BackRef(back, k)])
  {
    EncodableOne(BackRef(back, k));
  }

  // ---- room for the captures ----

  ghost predicate Within(code: seq<Instr>, n: nat)
  {
    forall i :: 0 <= i < |code| ==> CapturesOf(code[i]) <= n
  }

  lemma WithinSplit(a: seq<Instr>, c: seq<Instr>, n: nat)
    ensures Within(a + c, n) <==> Within(a, n) && Within(c, n)
  {
    hide CapturesOf;
    var h := a + c;
    assert forall k :: 0 <= k < |a| ==> a[k] == h[k];
    assert forall k :: 0 <= k < |c| ==> c[k] == h[|a| + k];
    assert forall k :: 0 <= k < |h| ==> h[k] == if k < |a| then a[k] else c[k - |a|];
  }

  lemma WithinOne(i: Instr, n: nat)
    ensures Within([i], n) <==> CapturesOf(i) <= n
  {
    assert [i][0] == i;
  }

  lemma WithinFree(code: seq<Instr>, n: nat)
    requires CaptureFree(code) && n >= 1
    ensures Within(code, n)
  {}

  lemma {:induction false} CapturesWithin(p: seq<Instr>, n: nat)
    requires Within(p, n) && n >= 1
    ensures Captures(p) <= n
    decreases |p|
  {
    if |p| > 0 {
      CapturesWithin(p[..|p| - 1], n);
    }
  }

  lemma WithinQuant(code: seq<Instr>, min: nat, max: nat, greedy: bool, n: nat)
    requires Within(code, n) && n >= 1
    ensures Within(QuantCode(code, min, max, greedy), n)
  {
    hide CodeSize, SimpleCount, NeedsCheck, OptionalCode, MandatoryCode;
    WithinOptional(code, 0, max, greedy, n);
    WithinOptional(code, min, max, greedy, n);
    WithinMandatory(code, min, n);
    WithinSplit(MandatoryCode(code, min), OptionalCode(code, min, max, greedy), n);
  }

  lemma WithinOptional(code: seq<Instr>, min: nat, max: nat, greedy: bool, n: nat)
    requires Within(code, n) && n >= 1
    ensures Within(OptionalCode(code, min, max, greedy), n)
  {
    hide CodeSize, NeedsCheck;
  }

  lemma WithinMandatory(code: seq<Instr>, min: nat, n: nat)
    requires Within(code, n) && n >= 1
    ensures Within(MandatoryCode(code, min), n)
  {
    hide CodeSize;
  }

  lemma WithinReset(body: Term, min: nat, n: nat)
    requires TermOk(body, n)
    ensures Within(ResetCode(body, min), n)
  {
    hide FirstGroup, LastGroup, TermOk;
    GroupsBelow(body, n);
  }

  lemma WithinOr(cl: seq<Instr>, cr: seq<Instr>, n: nat)
    requires Within(cl, n) && Within(cr, n) && n >= 1
    ensures Within(OrCode(cl, cr), n)
  {
    hide CodeSize;
  }

  lemma WithinAround(neg: bool, c: seq<Instr>, n: nat)
    requires Within(c, n) && n >= 1
    ensures Within(AroundCode(neg, c), n)
  {
    hide CodeSize;
  }

  lemma WithinGroup(c: seq<Instr>, k: nat, back: bool, n: nat)
    requires Within(c, n) && k < n
    ensures Within(GroupCode(c, k, back), n)
  {}

  lemma {:induction false} WithinTerm(t: Term, back: bool, n: nat)
    requires TermOk(t, n) && n >= 1
    ensures Within(TermCode(t, back), n)
    decreases t
  {
    hide Within, CodeSize, QuantCode, Code, ResetCode, GroupCode, OrCode, AroundCode, NodeOk;
    match t
    case Bare(m) =>
      CaptureFreeCode(m, back);
      WithinFree(Code(m, back), n);
    case Seq(l, r) =>
      WithinTerm(l, back, n);
      WithinTerm(r, back, n);
      WithinSplit(TermCode(l, back), TermCode(r, back), n);
      WithinSplit(TermCode(r, back), TermCode(l, back), n);
    case Or(l, r) =>
      WithinTerm(l, back, n);
      WithinTerm(r, back, n);
      WithinOr(TermCode(l, back), TermCode(r, back), n);
    case Around(neg, behind, body) =>
      WithinTerm(body, behind, n);
      WithinAround(neg, TermCode(body, behind), n);
    case Repeat(body, min, max, greedy) =>
      WithinTerm(body, back, n);
      WithinReset(body, min, n);
      WithinQuant(TermCode(body, back), min, max, greedy, n);
      WithinSplit(ResetCode(body, min), QuantCode(TermCode(body, back), min, max, greedy), n);
    case Group(k, body) =>
      WithinTerm(body, back, n);
      WithinGroup(TermCode(body, back), k, back, n);
    case Reference(k) => WithinOne(BackRef(back, k), n);
  }

  // ---- whole programs ----

  lemma ScanParts(n: nat)
    requires n >= 1
    ensures EncodableCode(ScanPrefix()) && Within(ScanPrefix(), n)
  {
    ScanEncodable();
  }

  lemma EndParts(n: nat)
    requires n >= 1
    ensures EncodableCode([SaveStart(0)]) && Within([SaveStart(0)], n)
    ensures EncodableCode([SaveEnd(0), Match]) && Within([SaveEnd(0), Match], n)
    ensures EncodableCode([]) && Within([], n)
  {}

  /** Every compiled program is sound, and the captures of the pattern are enough for it. */
  lemma TermProgramSound(t: Term, sticky: bool, n: nat)
    requires TermOk(t, n) && TermSmall(t, false) && 1 <= n <= CAPTURE_COUNT_MAX
    ensures Sound(TermProgram(t, sticky)) && Captures(TermProgram(t, sticky)) <= n
  {
    hide *;
    var pre, c, last := if sticky then [] else ScanPrefix(), TermCode(t, false), [SaveEnd(0), Match];
    ScanParts(n);
    EndParts(n);
    TermEncodable(t, false, n);
    WithinTerm(t, false, n);
    NilSteady();
    ScanSteady();
    SaveSteady();
    SteadyTerm(t, false);
    SteadyConcat(pre, [SaveStart(0)]);
    SteadyConcat(pre + [SaveStart(0)], c);
    EncodableSplit(pre, [SaveStart(0)]);
    EncodableSplit(pre + [SaveStart(0)], c);
    EncodableSplit(pre + [SaveStart(0)] + c, last);
    WithinSplit(pre, [SaveStart(0)], n);
    WithinSplit(pre + [SaveStart(0)], c, n);
    WithinSplit(pre + [SaveStart(0)] + c, last, n);
    TermProgramIs(t, sticky);
    SoundFrom(pre + [SaveStart(0)] + c, TermProgram(t, sticky));
    CapturesWithin(TermProgram(t, sticky), n);
  }

  lemma TermProgramIs(t: Term, sticky: bool)
    ensures TermProgram(t, sticky)
      == ((if sticky then [] else ScanPrefix()) + [SaveStart(0)] + TermCode(t, false)) + [SaveEnd(0), Match]
  {
    hide TermCode, ScanPrefix;
  }

  /** For every pattern with n - 1 groups, every subject, every start and every number of steps: the
      machine is not stuck, so no capture is out of range and no pop finds the stack empty; while
      it runs, pc is the address of an instruction k, the stack is as high as counted along the
      code up to k, and no higher than the computed peak. */
  lemma RunsStaySafe(m: Machine, t: Term, sticky: bool, n: nat, x: nat, steps: nat)
    requires m.prog == Bytes(TermProgram(t, sticky)) && x <= |m.subj.units|
    requires TermOk(t, n) && TermSmall(t, false) && 1 <= n <= CAPTURE_COUNT_MAX
    ensures var p := TermProgram(t, sticky); var c := Steps(m, Initial(x, n), steps);
            && !c.Stuck?
            && (c.Running? ==> At(p, c.st.pc, |c.st.stack|) && |c.st.stack| <= Peak(p, |p|))
  {
    hide *;
    TermProgramSound(t, sticky, n);
    SoundRuns(m, TermProgram(t, sticky), n, x, steps);
  }
}
