/** The backtracking virtual machine (cpp/src/quickjs/libregexp.c,
    lre_exec_backtrack) as a step function on configurations. */
module RegexVM {
  import opened RegexBytecode
  import opened RegexSyntax

  /** Stack cells are as wide as pointers. */
  const UINTPTR_MAX: nat

  datatype Kind = AtSplit | AtLookahead | AtNegLookahead | AtGreedy

  /** One saved state (REExecState). */
  datatype Entry = Entry(kind: Kind, pc: nat, pos: nat, stack: seq<nat>, caps: seq<Option<nat>>, count: nat)

  datatype State = State(pc: nat, pos: nat, stack: seq<nat>, caps: seq<Option<nat>>, entries: seq<Entry>)

  /** Stuck: bytecode the compiler never emits (bad opcode, jump, stack or buffer access). */
  datatype Conf = Running(st: State) | Done(matched: bool, caps: seq<Option<nat>>) | Stuck

  /** A program and the subject it runs on. */
  datatype Machine = Machine(prog: seq<byte>, subj: Subject)

  /** Inclusive ranges as the VM tests them: the 16-bit form reads a last bound of
      0xffff as unbounded. */
  ghost predicate PairsHit(pairs: seq<(nat, nat)>, wide: bool, c: nat)
  {
    || (exists k :: 0 <= k < |pairs| && pairs[k].0 <= c <= pairs[k].1)
    || (!wide && |pairs| > 0 && c >= 0xffff && pairs[|pairs| - 1].1 == 0xffff)
  }

  /** Whether a character instruction accepts c. */
  ghost predicate CharHit(i: Instr, c: nat)
  {
    match i
    case Char(d) => c == d
    case Char32(d) => c == d
    case Dot => !IsLineTerminator(c)
    case AnyChar => true
    case Range(pairs) => PairsHit(pairs, false, c)
    case Range32(pairs) => PairsHit(pairs, true, c)
    case _ => false
  }

  predicate TestHolds(i: Instr, s: Subject, x: nat)
    requires IsTest(i) && x <= |s.units|
  {
    match i
    case LineStart => Holds(AtLineStart, s, x)
    case LineEnd => Holds(AtLineEnd, s, x)
    case WordBoundary => Holds(AtWordBoundary, s, x)
    case NotWordBoundary => Holds(NotAtWordBoundary, s, x)
  }

  /** n characters back; None when that leaves the buffer. */
  function StepBack(s: Subject, x: nat, n: nat): (r: Option<nat>)
    requires x <= |s.units|
    ensures r.Some? ==> r.value <= x
    decreases n
  {
    if n == 0 then Some(x) else if x == 0 then None else StepBack(s, PrevPos(s, x), n - 1)
  }

  /** Return to the saved states after a match (ret) or a failure (not ret). */
  function Unwind(m: Machine, es: seq<Entry>, ret: bool, caps: seq<Option<nat>>): (c: Conf)
    decreases |es|
  {
    if |es| == 0 then Done(ret, caps) else
    var e, below := es[|es| - 1], es[..|es| - 1];
    match e.kind
    case AtSplit =>
      if !ret then Running(State(e.pc, e.pos, e.stack, e.caps, below)) else Unwind(m, below, ret, caps)
    case AtGreedy =>
      if !ret then ResumeGreedy(m, e, below) else Unwind(m, below, ret, caps)
    case AtLookahead =>
      if ret then Running(State(e.pc, e.pos, e.stack, caps, below)) else Unwind(m, below, false, caps)
    case AtNegLookahead =>
      if !ret then Running(State(e.pc, e.pos, e.stack, e.caps, below)) else Unwind(m, below, false, caps)
  }

  /** One iteration fewer of a simple greedy quantifier. */
  function ResumeGreedy(m: Machine, e: Entry, below: seq<Entry>): (c: Conf)
  {
    if e.pc + 16 > |m.prog| || e.pos > |m.subj.units| || e.count == 0 then Stuck else
    var off, chars := GetI32(m.prog, e.pc), GetU32(m.prog, e.pc + 12);
    match StepBack(m.subj, e.pos, chars)
    case None => Stuck
    case Some(y) =>
      if e.pc + 16 + off < 0 then Stuck else
      var rest := if e.count == 1 then below else below + [e.(pos := y, count := e.count - 1)];
      Running(State(e.pc + 16 + off, y, e.stack, e.caps, rest))
  }

  datatype SimpleEnd = SimpleFail | SimpleOk(pos: nat) | SimpleStuck

  /** A nested run of a simple quantifier's body up to its match (no_recurse). */
  ghost function RunSimple(m: Machine, pc: nat, x: nat): (r: SimpleEnd)
    requires x <= |m.subj.units|
    ensures r.SimpleOk? ==> x <= r.pos <= |m.subj.units|
    decreases |m.prog| - pc
  {
    match Decode(m.prog, pc)
    case None => SimpleStuck
    case Some(i) =>
      if i == Match then SimpleOk(x)
      else if IsChar(i) then
        if x < |m.subj.units| && CharHit(i, NextChar(m.subj, x).0)
        then RunSimple(m, pc + InstrSize(i), NextChar(m.subj, x).1) else SimpleFail
      else if IsTest(i) then
        if TestHolds(i, m.subj, x) then RunSimple(m, pc + InstrSize(i), x) else SimpleFail
      else SimpleStuck
  }

  /** Iterate the body greedily: number of iterations and final position. None when the
      body is not simple or an iteration does not move (the C loop would not end). */
  ghost function RunGreedy(m: Machine, pc: nat, max: nat, q: nat, x: nat): (r: Option<(nat, nat)>)
    requires x <= |m.subj.units|
    ensures r.Some? ==> x <= r.value.1 <= |m.subj.units|
    decreases |m.subj.units| - x
  {
    match RunSimple(m, pc, x)
    case SimpleStuck => None
    case SimpleFail => Some((q, x))
    case SimpleOk(y) =>
      if y == x then None
      else if q + 1 >= max && max != INF then Some((q + 1, y))
      else RunGreedy(m, pc, max, q + 1, y)
  }

  function Jump(st: State, next: nat, off: int): (c: Conf)
  {
    if next + off < 0 then Stuck else Running(st.(pc := next + off))
  }

  ghost function Fail(m: Machine, st: State): (c: Conf)
  {
    Unwind(m, st.entries, false, st.caps)
  }

  ghost function ExecGreedy(m: Machine, st: State, i: Instr, next: nat): (c: Conf)
    requires i.SimpleGreedy? && st.pos <= |m.subj.units| && next >= 16
  {
    if next + i.off < 0 then Stuck else
    match RunGreedy(m, next, i.max, 0, st.pos)
    case None => Stuck
    case Some((q, y)) =>
      if q < i.min then Fail(m, st)
      else
        var es := if q > i.min then st.entries + [Entry(AtGreedy, next - 16, y, st.stack, st.caps, q - i.min)]
          else st.entries;
        Running(st.(pc := next + i.off, pos := y, entries := es))
  }

  /** Captures low to high forgotten. */
  function ResetCaptures(caps: seq<Option<nat>>, low: nat, high: nat): (r: seq<Option<nat>>)
    ensures |r| == |caps|
  {
    seq(|caps|, i requires 0 <= i < |caps| => if 2 * low <= i <= 2 * high + 1 then None else caps[i])
  }

  /** A back reference: the captured text again, from x on or, backward, before x; a capture
      that is not set matches the empty string. The end, if it is there. */
  function SameText(s: Subject, back: bool, start: Option<nat>, end: Option<nat>, x: nat): (y: Option<nat>)
    requires x <= |s.units|
    ensures y.Some? ==> y.value <= |s.units|
  {
    if start.None? || end.None? then Some(x)
    else if start.value > |s.units| || end.value > |s.units| then None
    else if back then SameBefore(s, start.value, end.value, x) else SameAfter(s, start.value, end.value, x)
  }

  function SameAfter(s: Subject, i: nat, end: nat, x: nat): (y: Option<nat>)
    requires x <= |s.units| && end <= |s.units|
    ensures y.Some? ==> y.value <= |s.units|
    decreases |s.units| - i
  {
    if i >= end then Some(x)
    else if x == |s.units| then None
    else
      var (c1, i') := NextChar(Cut(s, end), i);
      var (c2, y) := NextChar(s, x);
      if c1 == c2 then SameAfter(s, i', end, y) else None
  }

  /** The subject up to a position, where reading a captured character stops. */
  function Cut(s: Subject, end: nat): (r: Subject)
    requires end <= |s.units|
  {
    s.(units := s.units[..end])
  }

  function SameBefore(s: Subject, start: nat, i: nat, x: nat): (y: Option<nat>)
    requires x <= |s.units| && i <= |s.units|
    ensures y.Some? ==> y.value <= |s.units|
    decreases i
  {
    if i <= start then Some(x)
    else if x == 0 then None
    else if PrevFrom(s, i, start).0 != PrevFrom(s, x, 0).0 then None
    else SameBefore(s, start, PrevFrom(s, i, start).1, PrevFrom(s, x, 0).1)
  }

  /** GET_PREV_CHAR: the character before i and its position, not reading before low. */
  function PrevFrom(s: Subject, i: nat, low: nat): (r: (nat, nat))
    requires low < i <= |s.units|
    ensures r.1 < i
  {
    if i >= low + 2 && PairAt(s, i - 2) then (NextChar(s, i - 2).0, i - 2) else (s.units[i - 1], i - 1)
  }

  /** One instruction. */
  ghost function Exec(m: Machine, st: State, i: Instr, next: nat): (c: Conf)
    requires st.pos <= |m.subj.units| && next >= InstrSize(i)
  {
    if IsChar(i) then
      if st.pos < |m.subj.units| && CharHit(i, NextChar(m.subj, st.pos).0)
      then Running(st.(pc := next, pos := NextChar(m.subj, st.pos).1)) else Fail(m, st)
    else if IsTest(i) then
      if TestHolds(i, m.subj, st.pos) then Running(st.(pc := next)) else Fail(m, st)
    else
      match i
      case Match => Unwind(m, st.entries, true, st.caps)
      case Goto(off) => Jump(st, next, off)
      case Split(nextFirst, off) =>
        if next + off < 0 then Stuck else
        var first, second := if nextFirst then next else next + off, if nextFirst then next + off else next;
        Running(st.(pc := first, entries := st.entries + [Entry(AtSplit, second, st.pos, st.stack, st.caps, 0)]))
      case Lookahead(neg, off) =>
        if next + off < 0 then Stuck else
        var kind := if neg then AtNegLookahead else AtLookahead;
        Running(st.(pc := next, entries := st.entries + [Entry(kind, next + off, st.pos, st.stack, st.caps, 0)]))
      case SaveStart(k) =>
        if 2 * k + 1 >= |st.caps| then Stuck else Running(st.(pc := next, caps := st.caps[2 * k := Some(st.pos)]))
      case SaveEnd(k) => if 2 * k + 1 >= |st.caps| then Stuck
        else Running(st.(pc := next, caps := st.caps[2 * k + 1 := Some(st.pos)]))
      case SaveReset(low, high) =>
        if 2 * high + 1 >= |st.caps| then Stuck
        else Running(st.(pc := next, caps := ResetCaptures(st.caps, low, high)))
      case BackRef(back, k) =>
        if 2 * k + 1 >= |st.caps| then Fail(m, st)
        else
          var y := SameText(m.subj, back, st.caps[2 * k], st.caps[2 * k + 1], st.pos);
          if y.None? then Fail(m, st) else Running(st.(pc := next, pos := y.value))
      case PushI32(n) => Running(st.(pc := next, stack := st.stack + [n]))
      case Drop => if |st.stack| == 0 then Stuck else Running(st.(pc := next, stack := st.stack[..|st.stack| - 1]))
      case Loop(off) =>
        if |st.stack| == 0 then Stuck else
        var top := st.stack[|st.stack| - 1];
        var left := if top == 0 then UINTPTR_MAX else top - 1;
        var st' := st.(stack := st.stack[|st.stack| - 1 := left]);
        if left != 0 then Jump(st', next, off) else Running(st'.(pc := next))
      case PushCharPos => Running(st.(pc := next, stack := st.stack + [st.pos]))
      case BneCharPos(off) =>
        if |st.stack| == 0 then Stuck else
        var st' := st.(stack := st.stack[..|st.stack| - 1]);
        if st.stack[|st.stack| - 1] != st.pos then Jump(st', next, off) else Running(st'.(pc := next))
      case Prev => if st.pos == 0 then Fail(m, st) else Running(st.(pc := next, pos := PrevPos(m.subj, st.pos)))
      case SimpleGreedy(_, _, _, _) => ExecGreedy(m, st, i, next)
      case _ => Stuck
  }

  ghost function Step(m: Machine, c: Conf): (c': Conf)
  {
    if !c.Running? then c else
    var st := c.st;
    if st.pos > |m.subj.units| then Stuck else
    match Decode(m.prog, st.pc)
    case None => Stuck
    case Some(i) => Exec(m, st, i, st.pc + InstrSize(i))
  }

  ghost function Steps(m: Machine, c: Conf, n: nat): (c': Conf)
    decreases n
  {
    if n == 0 then c else Steps(m, Step(m, c), n - 1)
  }

  /** c' is reached from c in finitely many steps. */
  ghost predicate Reaches(m: Machine, c: Conf, c': Conf)
  {
    exists n: nat :: Steps(m, c, n) == c'
  }

  lemma ReachesRefl(m: Machine, c: Conf)
    ensures Reaches(m, c, c)
  {
    assert Steps(m, c, 0) == c;
  }

  lemma ReachesStep(m: Machine, c: Conf, c': Conf)
    requires Reaches(m, Step(m, c), c')
    ensures Reaches(m, c, c')
  {
    var n: nat :| Steps(m, Step(m, c), n) == c';
    assert Steps(m, c, n + 1) == c';
  }

  lemma {:induction false} StepsAdd(m: Machine, c: Conf, n: nat, k: nat)
    ensures Steps(m, Steps(m, c, n), k) == Steps(m, c, n + k)
    decreases n
  {
    if n > 0 {
      StepsAdd(m, Step(m, c), n - 1, k);
    }
  }

  lemma ReachesTrans(m: Machine, c: Conf, c': Conf, c'': Conf)
    requires Reaches(m, c, c') && Reaches(m, c', c'')
    ensures Reaches(m, c, c'')
  {
    var n: nat :| Steps(m, c, n) == c';
    var k: nat :| Steps(m, c', k) == c'';
    StepsAdd(m, c, n, k);
  }
}
