/** Every run of every compiled program keeps to the static analysis: it never gets
    stuck, pops an empty stack, leaves the code or exceeds the computed stack size. */
module RegexSafety {
  import opened RegexBytecode
  import opened RegexSyntax
  import opened RegexCode
  import opened RegexAnalysis
  import opened RegexVM
  import opened RegexCorrect
  import opened RegexGreedy
  import opened RegexProgram
  import opened RegexStack

  /** How many captures the instructions of p set or reset; capture 0 is the whole match. */
  function Captures(p: seq<Instr>): (c: nat)
    ensures c >= 1 && forall k :: 0 <= k < |p| ==> CapturesOf(p[k]) <= c
  {
    if |p| == 0 then 1 else
    var c, d := Captures(p[..|p| - 1]), CapturesOf(p[|p| - 1]);
    if c >= d then c else d
  }

  function CapturesOf(i: Instr): (c: nat)
  {
    if i.SaveStart? || i.SaveEnd? then i.k + 1 else if i.SaveReset? then i.high + 1 else 1
  }

  /** Room for all of them. */
  predicate Enough(p: seq<Instr>, caps: seq<Option<nat>>) { |caps| >= 2 * Captures(p) }

  /** A program whose jumps stay before its last instruction, a match. */
  ghost predicate Sound(p: seq<Instr>)
  {
    && |p| > 0 && p[|p| - 1] == Match && EncodableCode(p)
    && JumpsBelow(p, |p| - 1)
  }

  ghost predicate JumpsBelow(p: seq<Instr>, n: nat)
    requires n <= |p|
  {
    forall k :: 0 <= k < |p| ==> JumpOk(p, n, k)
  }

  ghost predicate SoundMachine(m: Machine, p: seq<Instr>)
  {
    Sound(p) && m.prog == Bytes(p)
  }

  /** Address pc is that of instruction k, with h its height. */
  ghost predicate At(p: seq<Instr>, pc: nat, h: nat)
  {
    exists k :: 0 <= k < |p| && Addr(p, k) == pc && Height(p, k) == h
  }

  /** Characters read by n iterations of c characters. */
  ghost function Chars(n: nat, c: nat): (r: nat) { n * c }

  ghost predicate GreedyAt(m: Machine, p: seq<Instr>, k: nat, e: Entry)
    requires k < |p| && e.pos <= |m.subj.units|
  {
    && p[k].SimpleGreedy? && e.pc == Addr(p, k) + 1 && |e.stack| == Height(p, k) && e.count >= 1
    && StepBack(m.subj, e.pos, Chars(e.count, p[k].count)).Some?
  }

  ghost predicate EntryOk(m: Machine, p: seq<Instr>, e: Entry)
  {
    && e.pos <= |m.subj.units| && Enough(p, e.caps)
    && if e.kind == AtGreedy then exists k :: 0 <= k < |p| && GreedyAt(m, p, k, e) else At(p, e.pc, |e.stack|)
  }

  ghost predicate EntriesOk(m: Machine, p: seq<Instr>, es: seq<Entry>)
  {
    forall i :: 0 <= i < |es| ==> EntryOk(m, p, es[i])
  }

  /** What every reachable configuration satisfies. */
  ghost predicate Safe(m: Machine, p: seq<Instr>, c: Conf)
  {
    match c
    case Running(st) => st.pos <= |m.subj.units| && Enough(p, st.caps) && At(p, st.pc, |st.stack|)
      && EntriesOk(m, p, st.entries)
    case Done(_, _) => true
    case Stuck => false
  }

  lemma AtDecodes(m: Machine, p: seq<Instr>, k: nat)
    requires SoundMachine(m, p) && k < |p|
    ensures Decode(m.prog, Addr(p, k)) == Some(p[k]) && Addr(p, k + 1) == Addr(p, k) + InstrSize(p[k])
  {
    assert EncodableCode(p) && m.prog == Bytes(p);
    hide *;
    AddrNext(p, k);
    WholeProgram(m.prog, p);
    DecodeAt(m.prog, p[..k], p[k], p[k + 1..], p);
  }

  lemma AddrNext(p: seq<Instr>, k: nat)
    requires k < |p|
    ensures Addr(p, k) == CodeSize(p[..k]) && Addr(p, k + 1) == Addr(p, k) + InstrSize(p[k])
    ensures p == p[..k] + ([p[k]] + p[k + 1..])
  {
    hide CodeSize, InstrSize;
    assert p[..k + 1] == p[..k] + [p[k]];
    SizeSplit(p[..k], [p[k]]);
    BytesOne(p[k]);
  }

  lemma DecodeAt(b: seq<byte>, pre: seq<Instr>, i: Instr, post: seq<Instr>, p: seq<Instr>)
    requires p == pre + ([i] + post) && CodeAt(b, 0, p)
    ensures Decode(b, CodeSize(pre)) == Some(i)
  {
    hide *;
    CodeAtSplit(b, 0, pre, [i] + post);
    CodeAtHead(b, CodeSize(pre), i, post);
  }

  lemma AtNext(p: seq<Instr>, k: nat)
    requires Sound(p) && k < |p| && p[k] != Match
    ensures k + 1 < |p| && Height(p, k + 1) == Height(p, k) + Delta(p[k]) && Height(p, k + 1) >= 0 && Height(p, k) >= 0
    ensures At(p, Addr(p, k + 1), Height(p, k + 1))
  {
    hide JumpOk, Addr;
    assert k + 1 < |p|;
    SoundHeight(p, k);
    SoundHeight(p, k + 1);
  }

  lemma {:induction false} SoundHeight(p: seq<Instr>, k: nat)
    requires Sound(p) && k <= |p|
    ensures Height(p, k) >= 0
  {
    hide EncodableCode;
    if k > 0 {
      SoundHeight(p, k - 1);
      assert JumpOk(p, |p| - 1, k - 1);
    }
  }

  lemma LandsAt(p: seq<Instr>, k: nat, off: int, h: nat)
    requires Sound(p) && k < |p| && Lands(p, |p| - 1, k, off, h)
    ensures Addr(p, k + 1) + off >= 0 && At(p, Addr(p, k + 1) + off, h)
  {
    hide Sound, Addr, Height;
    var j :| 0 <= j <= |p| - 1 && Addr(p, j) == Addr(p, k + 1) + off && Height(p, j) == h;
  }

  // ---- simple greedy quantifiers ----

  /** n characters forward. */
  ghost function Advance(s: Subject, x: nat, n: nat): (r: Option<nat>)
    requires x <= |s.units|
    ensures r.Some? ==> x <= r.value <= |s.units|
    decreases n
  {
    if n == 0 then Some(x) else if x == |s.units| then None else Advance(s, NextChar(s, x).1, n - 1)
  }

  lemma {:induction false} AdvanceAdd(s: Subject, x: nat, a: nat, c: nat)
    requires x <= |s.units| && Advance(s, x, a).Some?
    ensures Advance(s, x, a + c) == Advance(s, Advance(s, x, a).value, c)
    decreases a
  {
    if a > 0 {
      AdvanceAdd(s, NextChar(s, x).1, a - 1, c);
    }
  }

  /** As many characters back stay inside the subject, wherever the advance began. */
  lemma {:induction false} AdvanceUndone(s: Subject, x: nat, n: nat)
    requires x <= |s.units| && Advance(s, x, n).Some?
    ensures StepBack(s, Advance(s, x, n).value, n).Some?
    ensures n > 0 ==> Aligned(s, Advance(s, x, n).value)
    decreases n
  {
    hide NextChar, PrevPos, Aligned;
    if n > 0 {
      AdvanceSome(s, x, n - 1);
      AdvanceUndone(s, x, n - 1);
      AdvanceAdd(s, x, n - 1, 1);
      var z, y := Advance(s, x, n - 1).value, Advance(s, x, n).value;
      assert Advance(s, z, 1)
        == Some(NextChar(s, z).1) by { assert Advance(s, NextChar(s, z).1, 0) == Some(NextChar(s, z).1); }
      NextAligned(s, z);
      assert StepBack(s, y, n) == StepBack(s, PrevPos(s, y), n - 1);
      if n > 1 {
        StepBackInverts(s, z);
      } else {
        assert StepBack(s, PrevPos(s, y), 0).Some?;
      }
    }
  }

  lemma {:induction false} AdvanceSome(s: Subject, x: nat, n: nat)
    requires x <= |s.units| && Advance(s, x, n + 1).Some?
    ensures Advance(s, x, n).Some? && Advance(s, x, n).value < |s.units|
    decreases n
  {
    hide NextChar;
    if n > 0 {
      AdvanceSome(s, NextChar(s, x).1, n - 1);
    }
  }

  /** A simple body up to its match runs or fails, and reads count characters. */
  lemma {:induction false} BodyRuns(m: Machine, p: seq<Instr>, k: nat, e: nat, x: nat)
    requires SoundMachine(m, p) && k <= e < |p| && p[e] == Match && SimpleCount(p[k..e]) >= 0 && x <= |m.subj.units|
    ensures var r := RunSimple(m, Addr(p, k), x);
            r == SimpleFail || (r.SimpleOk? && Advance(m.subj, x, SimpleCount(p[k..e])) == Some(r.pos))
    decreases e - k
  {
    hide Decode, Sound, NextChar, CharHit, TestHolds, Addr;
    AtDecodes(m, p, k);
    if k < e {
      var body := p[k..e];
      assert body[0] == p[k] && body[1..] == p[k + 1..e];
      if IsChar(p[k]) {
        if x < |m.subj.units| {
          BodyRuns(m, p, k + 1, e, NextChar(m.subj, x).1);
        }
      } else {
        BodyRuns(m, p, k + 1, e, x);
      }
    } else {
      assert p[k..e] == [];
    }
  }

  /** r.0 iterations of c characters lead from x to r.1. */
  ghost predicate Iterations(s: Subject, x: nat, c: nat, r: (nat, nat))
    requires x <= |s.units|
  {
    r.1 <= |s.units| && Advance(s, x, Chars(r.0, c)) == Some(r.1)
  }

  lemma IterationsZero(s: Subject, x: nat, c: nat)
    requires x <= |s.units|
    ensures Iterations(s, x, c, (0, x))
  {
    assert Chars(0, c) == 0;
  }

  lemma IterationsNext(s: Subject, x: nat, c: nat, y: nat, n: nat, z: nat)
    requires x <= |s.units| && y <= |s.units| && Advance(s, x, c) == Some(y) && Iterations(s, y, c, (n, z))
    ensures Iterations(s, x, c, (n + 1, z))
  {
    hide Advance;
    assert c + Chars(n, c) == Chars(n + 1, c);
    AdvanceAdd(s, x, c, Chars(n, c));
  }

  lemma {:induction false} GreedySafe(m: Machine, p: seq<Instr>, k: nat, e: nat, max: nat, q: nat, x: nat)
    requires SoundMachine(m, p) && k <= e < |p| && p[e] == Match && SimpleCount(p[k..e]) > 0 && x <= |m.subj.units|
    ensures var r := RunGreedy(m, Addr(p, k), max, q, x);
            r.Some? && r.value.0 >= q && Iterations(m.subj, x, SimpleCount(p[k..e]), (r.value.0 - q, r.value.1))
    decreases |m.subj.units| - x
  {
    hide *;
    var c := SimpleCount(p[k..e]);
    BodyRuns(m, p, k, e, x);
    RunGreedyIs(m, Addr(p, k), max, q, x);
    IterationsZero(m.subj, x, c);
    var r := RunSimple(m, Addr(p, k), x);
    if r.SimpleOk? {
      var y := r.pos;
      AdvanceMoves(m.subj, x, c);
      if q + 1 >= max && max != INF {
        IterationsZero(m.subj, y, c);
        IterationsNext(m.subj, x, c, y, 0, y);
      } else {
        GreedySafe(m, p, k, e, max, q + 1, y);
        var t := RunGreedy(m, Addr(p, k), max, q + 1, y).value;
        IterationsNext(m.subj, x, c, y, t.0 - q - 1, t.1);
      }
    }
  }

  lemma AdvanceMoves(s: Subject, x: nat, n: nat)
    requires x <= |s.units| && n > 0 && Advance(s, x, n).Some?
    ensures x < Advance(s, x, n).value <= |s.units|
  {}

  // ---- each step ----

  lemma EntriesInit(m: Machine, p: seq<Instr>, es: seq<Entry>)
    requires EntriesOk(m, p, es) && |es| > 0
    ensures EntriesOk(m, p, es[..|es| - 1]) && EntryOk(m, p, es[|es| - 1])
  {
    hide EntryOk;
  }

  lemma EntriesPush(m: Machine, p: seq<Instr>, es: seq<Entry>, e: Entry)
    requires EntriesOk(m, p, es) && EntryOk(m, p, e)
    ensures EntriesOk(m, p, es + [e])
  {
    hide EntryOk;
  }

  lemma SafeRunning(m: Machine, p: seq<Instr>, st: State)
    requires st.pos <= |m.subj.units| && Enough(p, st.caps) && At(p, st.pc, |st.stack|) && EntriesOk(m, p, st.entries)
    ensures Safe(m, p, Running(st))
  {
    hide At, EntriesOk;
  }

  /** What JumpOk says of a simple greedy quantifier in a sound program. */
  lemma GreedyJump(p: seq<Instr>, k: nat)
    requires Sound(p) && k < |p| && p[k].SimpleGreedy?
    ensures Lands(p, |p| - 1, k, p[k].off, Height(p, k)) && SimpleAfter(p, k, p[k].count) && Height(p, k) >= 0
  {
    hide Lands, SimpleAfter, EncodableCode, Height;
    assert JumpOk(p, |p| - 1, k);
    SoundHeight(p, k);
  }

  lemma GiveBack(s: Subject, x: nat, count: nat, c: nat)
    requires x <= |s.units| && count >= 1 && StepBack(s, x, Chars(count, c)).Some?
    ensures StepBack(s, x, c).Some? && StepBack(s, StepBack(s, x, c).value, Chars(count - 1, c)).Some?
  {
    hide StepBack;
    var rest := Chars(count - 1, c);
    assert Chars(count, c) == c + rest;
    StepBackSome(s, x, c, rest);
    StepBackAdd(s, x, c, rest);
  }

  lemma ResumeTo(m: Machine, e: Entry, below: seq<Entry>, pc: nat, off: int, min: nat, max: nat, count: nat, y: nat)
    requires Decode(m.prog, pc) == Some(SimpleGreedy(off, min, max, count)) && e.pc == pc + 1 && pc + 17 + off >= 0
    requires e.pos <= |m.subj.units| && e.count >= 1 && StepBack(m.subj, e.pos, count) == Some(y)
    ensures ResumeGreedy(m, e, below) ==
            Running(State(pc + 17 + off, y, e.stack, e.caps, if e.count == 1 then below
              else below + [e.(pos := y, count := e.count - 1)]))
  {
    hide Decode, GetI32, GetU32, StepBack;
    DecodedFields(m.prog, pc, off, min, max, count);
  }

  lemma GreedyEntryOk(m: Machine, p: seq<Instr>, k: nat, e: Entry)
    requires k < |p| && e.kind == AtGreedy && Enough(p, e.caps) && e.pos <= |m.subj.units|
    requires p[k].SimpleGreedy? && e.pc == Addr(p, k) + 1 && |e.stack| == Height(p, k) && e.count >= 1
    requires StepBack(m.subj, e.pos, Chars(e.count, p[k].count)).Some?
    ensures EntryOk(m, p, e)
  {
    hide Addr, Height, StepBack;
    assert GreedyAt(m, p, k, e);
  }

  /** Giving back one iteration. */
  lemma ResumeSafe(m: Machine, p: seq<Instr>, e: Entry, below: seq<Entry>, k: nat)
    requires SoundMachine(m, p) && e.kind == AtGreedy && e.pos <= |m.subj.units| && Enough(p, e.caps)
      && EntriesOk(m, p, below)
    requires k < |p| && GreedyAt(m, p, k, e)
    ensures Safe(m, p, ResumeGreedy(m, e, below))
  {
    hide *;
    GreedyParts(m, p, k, e);
    GreedyJump(p, k);
    AtDecodes(m, p, k);
    GiveBack(m.subj, e.pos, e.count, p[k].count);
    ResumeWith(m, p, e, below, k, Addr(p, k), p[k].off, p[k].min, p[k].max, p[k].count,
      StepBack(m.subj, e.pos, p[k].count).value);
  }

  lemma ResumeWith(m: Machine, p: seq<Instr>, e: Entry, below: seq<Entry>, k: nat, pc: nat, off: int, min: nat,
      max: nat, count: nat, y: nat)
    requires Sound(p) && e.kind == AtGreedy && e.pos <= |m.subj.units| && Enough(p, e.caps) && EntriesOk(m, p, below)
    requires k < |p| && p[k] == SimpleGreedy(off, min, max, count) && e.pc == pc + 1 && |e.stack| == Height(p, k)
      && e.count >= 1
    requires pc == Addr(p, k) && Decode(m.prog, pc) == Some(SimpleGreedy(off, min, max, count))
    requires Addr(p, k + 1) == pc + InstrSize(p[k]) && Lands(p, |p| - 1, k, off, Height(p, k))
    requires StepBack(m.subj, e.pos, count) == Some(y) && StepBack(m.subj, y, Chars(e.count - 1, count)).Some?
    ensures Safe(m, p, ResumeGreedy(m, e, below))
  {
    hide *;
    GreedySize(off, min, max, count);
    LandsAt(p, k, off, |e.stack|);
    ResumeTo(m, e, below, pc, off, min, max, count, y);
    StepBackBound(m.subj, e.pos, count);
    var e' := e.(pos := y, count := e.count - 1);
    if e.count > 1 {
      GreedyEntryOk(m, p, k, e');
      EntriesPush(m, p, below, e');
    }
    SafeRunning(m, p, State(pc + 17 + off, y, e.stack, e.caps, if e.count == 1 then below else below + [e']));
  }

  lemma StepBackBound(s: Subject, x: nat, n: nat)
    requires x <= |s.units| && StepBack(s, x, n).Some?
    ensures StepBack(s, x, n).value <= x
  {}

  lemma GreedySize(off: int, min: nat, max: nat, count: nat)
    ensures InstrSize(SimpleGreedy(off, min, max, count)) == 17
  {}

  lemma GreedyParts(m: Machine, p: seq<Instr>, k: nat, e: Entry)
    requires SoundMachine(m, p) && k < |p| && e.pos <= |m.subj.units| && GreedyAt(m, p, k, e)
    ensures Sound(p) && p[k].SimpleGreedy? && e.pc == Addr(p, k) + 1 && |e.stack| == Height(p, k) && e.count >= 1
    ensures StepBack(m.subj, e.pos, Chars(e.count, p[k].count)).Some?
    ensures p[k] == SimpleGreedy(p[k].off, p[k].min, p[k].max, p[k].count)
  {
    hide Sound, Addr, Height, StepBack;
  }

  lemma {:induction false} StepBackSome(s: Subject, x: nat, a: nat, c: nat)
    requires x <= |s.units| && StepBack(s, x, a + c).Some?
    ensures StepBack(s, x, a).Some?
    decreases a
  {
    if a > 0 {
      StepBackSome(s, PrevPos(s, x), a - 1, c);
    }
  }

  lemma {:induction false} UnwindSafe(m: Machine, p: seq<Instr>, es: seq<Entry>, ret: bool, caps: seq<Option<nat>>)
    requires SoundMachine(m, p) && EntriesOk(m, p, es) && Enough(p, caps)
    ensures Safe(m, p, Unwind(m, es, ret, caps))
    decreases |es|
  {
    hide SoundMachine, EntriesOk, At, ResumeGreedy;
    if |es| > 0 {
      EntriesInit(m, p, es);
      var e, below := es[|es| - 1], es[..|es| - 1];
      UnwindSafe(m, p, below, ret, caps);
      UnwindSafe(m, p, below, false, caps);
      if e.kind == AtGreedy {
        var k :| 0 <= k < |p| && GreedyAt(m, p, k, e);
        ResumeSafe(m, p, e, below, k);
      }
    }
  }

  lemma FallThrough(m: Machine, p: seq<Instr>, st: State, k: nat, st': State)
    requires SoundMachine(m, p) && k < |p| && p[k] != Match && Safe(m, p, Running(st)) && |st.stack| == Height(p, k)
    requires st'.pc == Addr(p, k + 1) && |st'.stack| == |st.stack| + Delta(p[k]) && st'.pos <= |m.subj.units|
    requires Enough(p, st'.caps) && st'.entries == st.entries
    ensures Safe(m, p, Running(st'))
  {
    hide Sound, At, EntriesOk, Height, Addr;
    AtNext(p, k);
  }

  lemma JumpSafe(m: Machine, p: seq<Instr>, st: State, k: nat, off: int, st': State)
    requires SoundMachine(m, p) && k < |p| && Safe(m, p, Running(st)) && Lands(p, |p| - 1, k, off, |st'.stack|)
    requires st'.pos == st.pos && st'.caps == st.caps && st'.entries == st.entries
    ensures Addr(p, k + 1) + off >= 0 && Safe(m, p, Jump(st', Addr(p, k + 1), off))
  {
    hide Sound, At, EntriesOk, Height, Addr, Lands;
    LandsAt(p, k, off, |st'.stack|);
  }

  /** A branch to either side of a split or lookaround. */
  lemma BranchSafe(m: Machine, p: seq<Instr>, st: State, k: nat, off: int)
    requires SoundMachine(m, p) && k < |p| && p[k] != Match && Delta(p[k]) == 0 && Safe(m, p, Running(st))
      && |st.stack| == Height(p, k)
    requires Lands(p, |p| - 1, k, off, Height(p, k))
    ensures Addr(p, k + 1) + off >= 0 && At(p, Addr(p, k + 1), |st.stack|) && At(p, Addr(p, k + 1) + off, |st.stack|)
  {
    hide Sound, At, EntriesOk, Height, Addr, Lands;
    AtNext(p, k);
    LandsAt(p, k, off, |st.stack|);
  }

  lemma SplitSafe(m: Machine, p: seq<Instr>, st: State, kind: Kind, first: nat, second: nat)
    requires Safe(m, p, Running(st)) && kind != AtGreedy && At(p, first, |st.stack|) && At(p, second, |st.stack|)
    ensures Safe(m, p, Running(st.(pc := first,
      entries := st.entries + [Entry(kind, second, st.pos, st.stack, st.caps, 0)])))
  {
    hide At, EntriesOk;
    EntriesPush(m, p, st.entries, Entry(kind, second, st.pos, st.stack, st.caps, 0));
  }

  lemma CharSafe(m: Machine, p: seq<Instr>, st: State, k: nat, next: nat)
    requires SoundMachine(m, p) && k < |p| && (IsChar(p[k]) || IsTest(p[k]) || p[k].Prev?)
    requires Safe(m, p, Running(st)) && |st.stack| == Height(p, k) && st.pos <= |m.subj.units|
    requires st.pc == Addr(p, k) && next == Addr(p, k + 1) == Addr(p, k) + InstrSize(p[k])
    ensures Safe(m, p, Exec(m, st, p[k], next))
  {
    hide SoundMachine, Safe, Addr, Height, CharHit, TestHolds, NextChar, PrevPos, Unwind,
      EntriesOk, At, Decode, InstrSize;
    assert Delta(p[k]) == 0 && p[k] != Match;
    SafeParts(m, p, st, k);
    UnwindSafe(m, p, st.entries, false, st.caps);
    FallThrough(m, p, st, k, st.(pc := next));
    if st.pos < |m.subj.units| {
      FallThrough(m, p, st, k, st.(pc := next, pos := NextChar(m.subj, st.pos).1));
    }
    if st.pos > 0 {
      FallThrough(m, p, st, k, st.(pc := next, pos := PrevPos(m.subj, st.pos)));
    }
  }

  /** The parts of Safe and of JumpOk that the instruction cases use. */
  lemma SafeParts(m: Machine, p: seq<Instr>, st: State, k: nat)
    requires SoundMachine(m, p) && k < |p| && Safe(m, p, Running(st)) && |st.stack| == Height(p, k)
    ensures EntriesOk(m, p, st.entries) && Enough(p, st.caps) && st.pos <= |m.subj.units| && Sound(p)
    ensures Delta(p[k]) < 0 || p[k].Loop? ==> |st.stack| >= 1
    ensures p[k].SaveStart? || p[k].SaveEnd? ==> 2 * p[k].k + 1 < |st.caps|
    ensures p[k].SaveReset? ==> 2 * p[k].high + 1 < |st.caps|
    ensures p[k].Goto? || p[k].Split? || p[k].Loop? || p[k].Lookahead? ==> Lands(p, |p| - 1, k, p[k].off, |st.stack|)
    ensures p[k].BneCharPos? ==> Lands(p, |p| - 1, k, p[k].off, |st.stack| - 1)
  {
    hide EntriesOk, At, Lands, SimpleAfter, Height, EncodableCode;
    assert JumpOk(p, |p| - 1, k);
    assert CapturesOf(p[k]) <= Captures(p);
  }

  lemma StackSafe(m: Machine, p: seq<Instr>, st: State, k: nat, next: nat)
    requires SoundMachine(m, p) && k < |p|
      && (p[k].PushI32? || p[k].PushCharPos? || p[k].Drop?)
    requires Safe(m, p, Running(st)) && |st.stack| == Height(p, k) && st.pos <= |m.subj.units|
    requires st.pc == Addr(p, k) && next == Addr(p, k + 1) == Addr(p, k) + InstrSize(p[k])
    ensures Safe(m, p, Exec(m, st, p[k], next))
  {
    hide SoundMachine, Safe, Sound, Addr, Height, Unwind, EntriesOk, At, Decode, Lands, SimpleAfter, InstrSize, JumpOk;
    SafeParts(m, p, st, k);
    var n := |st.stack|;
    match p[k] {
      case PushI32(v) => FallThrough(m, p, st, k, st.(pc := next, stack := st.stack + [v]));
      case PushCharPos => FallThrough(m, p, st, k, st.(pc := next, stack := st.stack + [st.pos]));
      case Drop => FallThrough(m, p, st, k, st.(pc := next, stack := st.stack[..n - 1]));
    }
  }

  /** Captures set, reset and referred to. */
  lemma CaptureSafe(m: Machine, p: seq<Instr>, st: State, k: nat, next: nat)
    requires SoundMachine(m, p) && k < |p| && OfCapture(p[k])
    requires Safe(m, p, Running(st)) && |st.stack| == Height(p, k) && st.pos <= |m.subj.units|
    requires st.pc == Addr(p, k) && next == Addr(p, k + 1) == Addr(p, k) + InstrSize(p[k])
    ensures Safe(m, p, Exec(m, st, p[k], next))
  {
    hide SoundMachine, Safe, Sound, Addr, Height, Unwind, EntriesOk, At, Decode, Lands, SimpleAfter, InstrSize, JumpOk,
      SameText, ResetCaptures, Captures;
    SafeParts(m, p, st, k);
    match p[k] {
      case SaveStart(c) => FallThrough(m, p, st, k, st.(pc := next, caps := st.caps[2 * c := Some(st.pos)]));
      case SaveEnd(c) => FallThrough(m, p, st, k, st.(pc := next, caps := st.caps[2 * c + 1 := Some(st.pos)]));
      case SaveReset(low, high) =>
        FallThrough(m, p, st, k, st.(pc := next, caps := ResetCaptures(st.caps, low, high)));
      case BackRef(back, c) =>
        UnwindSafe(m, p, st.entries, false, st.caps);
        if 2 * c + 1 < |st.caps| {
          var y := SameText(m.subj, back, st.caps[2 * c], st.caps[2 * c + 1], st.pos);
          if y.Some? {
            FallThrough(m, p, st, k, st.(pc := next, pos := y.value));
          }
        }
    }
  }

  lemma JumpsSafe(m: Machine, p: seq<Instr>, st: State, k: nat, next: nat)
    requires SoundMachine(m, p) && k < |p| && (p[k].Goto? || p[k].Loop? || p[k].BneCharPos?)
    requires Safe(m, p, Running(st)) && |st.stack| == Height(p, k) && st.pos <= |m.subj.units|
    requires st.pc == Addr(p, k) && next == Addr(p, k + 1) == Addr(p, k) + InstrSize(p[k])
    ensures Safe(m, p, Exec(m, st, p[k], next))
  {
    hide SoundMachine, Safe, Sound, Addr, Height, Unwind, EntriesOk, At, Decode, Lands,
      SimpleAfter, Jump, InstrSize, JumpOk;
    SafeParts(m, p, st, k);
    var n := |st.stack|;
    match p[k] {
      case Goto(off) => JumpSafe(m, p, st, k, off, st);
      case Loop(off) =>
        var top := st.stack[n - 1];
        var st' := st.(stack := st.stack[n - 1 := if top == 0 then UINTPTR_MAX else top - 1]);
        JumpSafe(m, p, st, k, off, st');
        FallThrough(m, p, st, k, st'.(pc := next));
      case BneCharPos(off) =>
        var st' := st.(stack := st.stack[..n - 1]);
        JumpSafe(m, p, st, k, off, st');
        FallThrough(m, p, st, k, st'.(pc := next));
    }
  }

  lemma BranchesSafe(m: Machine, p: seq<Instr>, st: State, k: nat, next: nat)
    requires SoundMachine(m, p) && k < |p| && (p[k].Split? || p[k].Lookahead?)
    requires Safe(m, p, Running(st)) && |st.stack| == Height(p, k) && st.pos <= |m.subj.units|
    requires st.pc == Addr(p, k) && next == Addr(p, k + 1) == Addr(p, k) + InstrSize(p[k])
    ensures Safe(m, p, Exec(m, st, p[k], next))
  {
    hide SoundMachine, Safe, Sound, Addr, Height, Unwind, EntriesOk, At, Decode, Lands, SimpleAfter, InstrSize, JumpOk;
    SafeParts(m, p, st, k);
    var off := p[k].off;
    BranchSafe(m, p, st, k, off);
    match p[k] {
      case Split(nextFirst, _) =>
        SplitSafe(m, p, st, AtSplit, if nextFirst then next else next + off, if nextFirst then next + off else next);
      case Lookahead(neg, _) => SplitSafe(m, p, st, if neg then AtNegLookahead else AtLookahead, next, next + off);
    }
  }

  lemma GreedyStepSafe(m: Machine, p: seq<Instr>, st: State, k: nat, next: nat)
    requires SoundMachine(m, p) && k < |p| && p[k].SimpleGreedy?
    requires Safe(m, p, Running(st)) && |st.stack| == Height(p, k) && st.pos <= |m.subj.units|
    requires st.pc == Addr(p, k) && next == Addr(p, k + 1) == Addr(p, k) + InstrSize(p[k])
    ensures Safe(m, p, Exec(m, st, p[k], next))
  {
    hide *;
    SafeParts(m, p, st, k);
    GreedyJump(p, k);
    GreedyWidth(p, k);
    var i := p[k];
    LandsAt(p, k, i.off, |st.stack|);
    var e := BodyEnd(p, k, i.count);
    GreedySafe(m, p, k + 1, e, i.max, 0, st.pos);
    GreedyExecIs(m, st, i, next);
    var r := RunGreedy(m, next, i.max, 0, st.pos).value;
    if r.0 < i.min {
      UnwindSafe(m, p, st.entries, false, st.caps);
    } else {
      GreedyCanUndo(m.subj, st.pos, i.count, r.0, r.1, r.0 - i.min);
      GreedyLeaves(m, p, k, st, next, i.off, r.1, r.0 - i.min);
    }
  }

  lemma GreedyWidth(p: seq<Instr>, k: nat)
    requires k < |p| && p[k].SimpleGreedy?
    ensures InstrSize(p[k]) == 17
  {}

  lemma GreedyExecIs(m: Machine, st: State, i: Instr, next: nat)
    requires i.SimpleGreedy? && st.pos <= |m.subj.units| && next >= InstrSize(i)
    ensures InstrSize(i) == 17 && i == SimpleGreedy(i.off, i.min, i.max, i.count)
    ensures var g := RunGreedy(m, next, i.max, 0, st.pos);
            next + i.off >= 0 && g.Some? ==>
            Exec(m, st, i, next) ==
            if g.value.0 < i.min then Unwind(m, st.entries, false, st.caps)
            else Running(st.(pc := next + i.off, pos := g.value.1,
                             entries := GreedyPushed(st, next, g.value.1, g.value.0 - i.min)))
  {
    hide Unwind, RunGreedy;
  }

  ghost function GreedyPushed(st: State, next: nat, y: nat, n: nat): (es: seq<Entry>)
    requires next >= 16
  {
    if n > 0 then st.entries + [Entry(AtGreedy, next - 16, y, st.stack, st.caps, n)] else st.entries
  }

  lemma GreedyLeaves(m: Machine, p: seq<Instr>, k: nat, st: State, next: nat, off: int, y: nat, n: nat)
    requires k < |p| && p[k].SimpleGreedy? && next == Addr(p, k) + 17 && |st.stack| == Height(p, k) && next + off >= 0
    requires y <= |m.subj.units| && Enough(p, st.caps) && EntriesOk(m, p, st.entries) && At(p, next + off, |st.stack|)
    requires StepBack(m.subj, y, Chars(n, p[k].count)).Some?
    ensures Safe(m, p, Running(st.(pc := next + off, pos := y, entries := GreedyPushed(st, next, y, n))))
  {
    hide Addr, Height, At, EntriesOk, StepBack, EntryOk;
    if n > 0 {
      var e := Entry(AtGreedy, next - 16, y, st.stack, st.caps, n);
      GreedyEntryOk(m, p, k, e);
      EntriesPush(m, p, st.entries, e);
    }
  }

  lemma BodyEnd(p: seq<Instr>, k: nat, count: nat) returns (e: nat)
    requires k < |p| && SimpleAfter(p, k, count)
    ensures k + 1 <= e < |p| && p[e] == Match && SimpleCount(p[k + 1..e]) == count && count > 0
  {
    hide SimpleCount;
    e :| k + 1 <= e < |p| && BodyEnds(p, k, e, count);
  }

  lemma GreedyCanUndo(s: Subject, x: nat, c: nat, q: nat, y: nat, n: nat)
    requires x <= |s.units| && Iterations(s, x, c, (q, y)) && n <= q
    ensures y <= |s.units| && StepBack(s, y, Chars(n, c)).Some?
  {
    hide StepBack, Advance;
    var a, b := Chars(n, c), Chars(q - n, c);
    assert Chars(q, c) == a + b;
    AdvanceUndone(s, x, Chars(q, c));
    StepBackSome(s, y, a, b);
  }

  lemma ExecSafe(m: Machine, p: seq<Instr>, st: State, k: nat)
    requires SoundMachine(m, p) && k < |p|
    requires Safe(m, p, Running(st)) && st.pc == Addr(p, k) && |st.stack| == Height(p, k) && st.pos <= |m.subj.units|
    ensures Addr(p, k + 1) >= InstrSize(p[k]) && Safe(m, p, Exec(m, st, p[k], Addr(p, k + 1)))
  {
    AtDecodes(m, p, k);
    var next := Addr(p, k + 1);
    assert p[k] == Match ==> Exec(m, st, p[k], next) == Unwind(m, st.entries, true, st.caps) by { hide Unwind, Addr; }
    InstrCases(p[k]);
    hide *;
    SafeParts(m, p, st, k);
    match p[k] {
      case Match => UnwindSafe(m, p, st.entries, true, st.caps);
      case Goto(_) => JumpsSafe(m, p, st, k, next);
      case Loop(_) => JumpsSafe(m, p, st, k, next);
      case BneCharPos(_) => JumpsSafe(m, p, st, k, next);
      case Split(_, _) => BranchesSafe(m, p, st, k, next);
      case Lookahead(_, _) => BranchesSafe(m, p, st, k, next);
      case SimpleGreedy(_, _, _, _) => GreedyStepSafe(m, p, st, k, next);
      case PushI32(_) => StackSafe(m, p, st, k, next);
      case PushCharPos => StackSafe(m, p, st, k, next);
      case Drop => StackSafe(m, p, st, k, next);
      case SaveStart(_) => CaptureSafe(m, p, st, k, next);
      case SaveEnd(_) => CaptureSafe(m, p, st, k, next);
      case SaveReset(_, _) => CaptureSafe(m, p, st, k, next);
      case BackRef(_, _) => CaptureSafe(m, p, st, k, next);
      case _ => CharSafe(m, p, st, k, next);
    }
  }

  lemma InstrCases(i: Instr)
    ensures i.Char? || i.Char32? || i.Dot? || i.AnyChar? || i.Range? || i.Range32? ==> IsChar(i)
    ensures i.LineStart? || i.LineEnd? || i.WordBoundary? || i.NotWordBoundary? ==> IsTest(i)
  {}

  /** One step from a safe configuration of a sound program is safe. */
  lemma StepSafe(m: Machine, p: seq<Instr>, c: Conf)
    requires SoundMachine(m, p) && Safe(m, p, c)
    ensures Safe(m, p, Step(m, c))
  {
    hide *;
    if c.Running? {
      var st := c.st;
      RunningParts(m, p, st);
      var k := AtIndex(p, st.pc, |st.stack|);
      AtDecodes(m, p, k);
      ExecSafe(m, p, st, k);
      StepIs(m, st, p[k]);
    } else {
      StepStops(m, c);
    }
  }

  lemma RunningParts(m: Machine, p: seq<Instr>, st: State)
    requires Safe(m, p, Running(st))
    ensures At(p, st.pc, |st.stack|) && st.pos <= |m.subj.units|
  {
    hide At, EntriesOk;
  }

  lemma StepStops(m: Machine, c: Conf)
    requires !c.Running?
    ensures Step(m, c) == c
  {}

  lemma AtIndex(p: seq<Instr>, pc: nat, h: nat) returns (k: nat)
    requires At(p, pc, h)
    ensures k < |p| && Addr(p, k) == pc && Height(p, k) == h
  {
    hide Addr, Height;
    k :| 0 <= k < |p| && Addr(p, k) == pc && Height(p, k) == h;
  }

  lemma StepIs(m: Machine, st: State, i: Instr)
    requires Decode(m.prog, st.pc) == Some(i) && st.pos <= |m.subj.units|
    ensures Step(m, Running(st)) == Exec(m, st, i, st.pc + InstrSize(i))
  {
    hide Decode, Exec, InstrSize;
  }

  lemma {:induction false} StepsSafe(m: Machine, p: seq<Instr>, c: Conf, n: nat)
    requires SoundMachine(m, p) && Safe(m, p, c)
    ensures Safe(m, p, Steps(m, c, n))
    decreases n
  {
    hide SoundMachine, Safe, Step;
    if n > 0 {
      StepSafe(m, p, c);
      StepsSafe(m, p, Step(m, c), n - 1);
    }
  }

  // ---- whole programs ----

  lemma ScanSteady()
    ensures Steady(ScanPrefix())
  {
    hide Height, CodeSize, Lands, Net, Addr;
    var a, g, f := Split(false, 6), Goto(-11), ScanPrefix();
    NetOne(a);
    NetOne(g);
    NetOne(AnyChar);
    assert f == [a] + [AnyChar] + [g];
    NetConcat([a], [AnyChar]);
    NetConcat([a] + [AnyChar], [g]);
    SizeSplit([a], [AnyChar]);
    SizeSplit([a] + [AnyChar], [g]);
    BytesOne(a);
    BytesOne(g);
    BytesOne(AnyChar);
    NilNet();
    assert f == [] + [a] + [AnyChar, g] && f == f + [] && f == ([a] + [AnyChar]) + [g] + [] && f == [] + f;
    PlaceJump([], a, [AnyChar, g], f, [], 6);
    PlaceJump([a] + [AnyChar], g, [], [], f, -11);
    assert JumpOk(f, |f|, 0) && JumpOk(f, |f|, 2);
    PlainJump(f, 1);
  }

  lemma SaveSteady()
    ensures Steady([SaveStart(0)])
  {
    NetOne(SaveStart(0));
  }

  lemma SoundFrom(f: seq<Instr>, p: seq<Instr>)
    requires Steady(f) && p == f + [SaveEnd(0), Match] && EncodableCode(p)
    ensures Sound(p)
  {
    hide Height, Net, JumpOk, EncodableCode;
    var n := |f| + 1;
    forall k: nat | k < |p|
      ensures JumpOk(p, n, k)
    {
      if k < |f| {
        JumpLeft(f, [SaveEnd(0), Match], k);
        LandsFurther(p, |f|, n, k);
      } else {
        EndJump(p, n, k);
      }
    }
    assert JumpsBelow(p, n);
  }

  lemma EndJump(p: seq<Instr>, n: nat, k: nat)
    requires k < |p| && n <= |p| && (p[k] == SaveEnd(0) || p[k] == Match)
    ensures JumpOk(p, n, k)
  {}

  lemma ProgramIsFlat(n: Node, sticky: bool)
    ensures Program(n, sticky)
      == ((if sticky then [] else ScanPrefix()) + [SaveStart(0)] + Code(n, false)) + [SaveEnd(0), Match]
  {
    hide Code, ScanPrefix;
  }

  /** A fresh start at x with room for n captures. */
  ghost function Initial(x: nat, n: nat): (c: Conf)
  {
    Running(State(0, x, [], seq(2 * n, _ => None), []))
  }

  /** For every sound program, every subject, every start and every number of steps: the machine
      is not stuck; while it runs, pc is the address of an instruction k, the stack is as
      high as counted along the code up to k, and no higher than the computed peak. */
  lemma SoundRuns(m: Machine, p: seq<Instr>, captures: nat, x: nat, steps: nat)
    requires Sound(p) && m.prog == Bytes(p) && x <= |m.subj.units| && captures >= Captures(p)
    ensures var c := Steps(m, Initial(x, captures), steps);
            && !c.Stuck?
            && (c.Running? ==> At(p, c.st.pc, |c.st.stack|) && |c.st.stack| <= Peak(p, |p|))
  {
    hide *;
    InitialSafe(m, p, captures, x);
    StepsSafe(m, p, Initial(x, captures), steps);
    SafeMeans(m, p, Steps(m, Initial(x, captures), steps));
  }

  lemma InitialSafe(m: Machine, p: seq<Instr>, captures: nat, x: nat)
    requires Sound(p) && m.prog == Bytes(p) && x <= |m.subj.units| && captures >= Captures(p)
    ensures SoundMachine(m, p) && Safe(m, p, Initial(x, captures))
  {
    hide Sound, Captures;
    assert |p| > 0 by { assert Sound(p); SoundNonempty(p); }
    assert p[..0] == [];
    NilNet();
    assert Addr(p, 0) == 0 && Height(p, 0) == 0;
  }

  lemma SoundNonempty(p: seq<Instr>)
    requires Sound(p)
    ensures |p| > 0
  {}

  lemma SafeMeans(m: Machine, p: seq<Instr>, c: Conf)
    requires Safe(m, p, c)
    ensures !c.Stuck?
    ensures c.Running? ==> At(p, c.st.pc, |c.st.stack|) && |c.st.stack| <= Peak(p, |p|)
  {
    hide EntriesOk, Peak, Height, Addr;
    if c.Running? {
      var k := AtIndex(p, c.st.pc, |c.st.stack|);
      PeakAbove(p, k);
    }
  }

  lemma PeakAbove(p: seq<Instr>, k: nat)
    requires k <= |p|
    ensures Height(p, k) <= Peak(p, |p|)
  {}
}
