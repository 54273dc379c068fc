/** What groups record and what back references match (cpp/src/quickjs/libregexp.c,
    lre_exec_backtrack). */
module RegexGroups {
  import opened RegexBytecode
  import opened RegexSyntax
  import opened RegexCorrect
  import opened RegexVM
  import opened RegexCapture
  import opened RegexCharacters

  // ---- back references ----

  /** The n code units from i on stand also at x. */
  predicate Repeated(s: Subject, i: nat, x: nat, n: nat)
  {
    i + n <= |s.units| && x + n <= |s.units| && s.units[x..x + n] == s.units[i..i + n]
  }

  lemma RepeatedAt(s: Subject, i: nat, x: nat, n: nat, d: nat)
    requires Repeated(s, i, x, n) && d < n
    ensures s.units[x + d] == s.units[i + d]
  {
    assert s.units[x..x + n][d] == s.units[i..i + n][d];
  }

  /** Inside a captured text whose end is no lone half, characters are read as elsewhere. */
  lemma CutReads(s: Subject, i: nat, end: nat)
    requires i < end <= |s.units| && Aligned(s, end)
    ensures NextChar(Cut(s, end), i) == NextChar(s, i) && NextChar(s, i).1 <= end
  {}

  lemma SameReads(s: Subject, i: nat, x: nat)
    requires ValidSubject(s) && i < |s.units| && x < |s.units| && NextChar(s, i).0 == NextChar(s, x).0
    ensures NextChar(s, i).1 - i == NextChar(s, x).1 - x && Repeated(s, i, x, NextChar(s, i).1 - i)
  {
    assert s.units[i] < 0x1_0000 && s.units[x] < 0x1_0000;
  }

  /** The first character of a repeated text is the same, where neither end cuts one. */
  lemma RepeatedReads(s: Subject, i: nat, x: nat, n: nat)
    requires Repeated(s, i, x, n) && n > 0 && Aligned(s, i + n) && Aligned(s, x + n)
    ensures NextChar(s, i).0 == NextChar(s, x).0
  {
    RepeatedAt(s, i, x, n, 0);
    if n > 1 {
      RepeatedAt(s, i, x, n, 1);
    }
  }

  lemma RepeatedSplit(s: Subject, i: nat, x: nat, k: nat, n: nat)
    requires k <= n
    ensures Repeated(s, i, x, n) <==> Repeated(s, i, x, k) && Repeated(s, i + k, x + k, n - k)
  {
    if i + n <= |s.units| && x + n <= |s.units| {
      var a, c := s.units[x..x + n], s.units[i..i + n];
      assert a == s.units[x..x + k] + s.units[x + k..x + n] && c == s.units[i..i + k] + s.units[i + k..i + n];
      assert a[..k] == s.units[x..x + k] && a[k..] == s.units[x + k..x + n];
      assert c[..k] == s.units[i..i + k] && c[k..] == s.units[i + k..i + n];
    }
  }

  lemma {:induction false} AfterMatches(s: Subject, i: nat, end: nat, x: nat)
    requires ValidSubject(s) && i <= end <= |s.units| && x <= |s.units|
    requires Aligned(s, i) && Aligned(s, end) && Aligned(s, x)
    ensures var n := end - i;
            SameAfter(s, i, end, x) == if Repeated(s, i, x, n) && Aligned(s, x + n) then Some(x + n) else None
    decreases end - i
  {
    hide NextChar, Aligned, Repeated, ValidSubject;
    var n := end - i;
    RepeatedBounds(s, i, x, n);
    if i < end && x < |s.units| {
      CutReads(s, i, end);
      var (c1, j) := NextChar(s, i);
      var (c2, y) := NextChar(s, x);
      NextAligned(s, i);
      NextAligned(s, x);
      if c1 == c2 {
        SameReads(s, i, x);
        RepeatedSplit(s, i, x, j - i, n);
        AfterMatches(s, j, end, y);
      } else if Repeated(s, i, x, n) && Aligned(s, x + n) {
        RepeatedReads(s, i, x, n);
        assert false;
      }
    }
  }

  lemma RepeatedBounds(s: Subject, i: nat, x: nat, n: nat)
    ensures Repeated(s, i, x, n) ==> i + n <= |s.units| && x + n <= |s.units|
    ensures i <= |s.units| && x <= |s.units| ==> Repeated(s, i, x, 0)
  {}

  /** Reading back from an end that is no lone half, not before low, which is none either. */
  lemma CutReadsBack(s: Subject, i: nat, low: nat)
    requires low < i <= |s.units| && Aligned(s, i) && Aligned(s, low)
    ensures low <= PrevFrom(s, i, low).1 && Aligned(s, PrevFrom(s, i, low).1)
    ensures NextChar(s, PrevFrom(s, i, low).1) == (PrevFrom(s, i, low).0, i)
  {}

  lemma {:induction false} BeforeMatches(s: Subject, start: nat, i: nat, x: nat)
    requires ValidSubject(s) && start <= i <= |s.units| && x <= |s.units|
    requires Aligned(s, start) && Aligned(s, i) && Aligned(s, x)
    ensures var n := i - start;
            SameBefore(s, start, i, x) ==
            if x >= n && Repeated(s, start, x - n, n) && Aligned(s, x - n) then Some(x - n) else None
    decreases i - start
  {
    hide NextChar, Aligned, Repeated, ValidSubject, PrevFrom;
    var n := i - start;
    if i == start {
      RepeatedBounds(s, start, x, 0);
    } else if x > 0 {
      AlignedZero(s);
      CutReadsBack(s, i, start);
      CutReadsBack(s, x, 0);
      var (c1, j) := PrevFrom(s, i, start);
      var (c2, y) := PrevFrom(s, x, 0);
      if c1 == c2 {
        SameReads(s, j, y);
        BeforeMatches(s, start, j, y);
        if x >= n {
          RepeatedSplit(s, start, x - n, n - (i - j), n);
        }
      } else if x >= n && Repeated(s, start, x - n, n) && Aligned(s, x - n) {
        RepeatedReadsBack(s, j, i, y, x, n);
        assert false;
      }
    }
  }

  lemma PairRead(s: Subject, j: nat)
    requires j < |s.units|
    ensures NextChar(s, j).1 == if PairAt(s, j) then j + 2 else j + 1
  {}

  lemma SameUnits(s: Subject, j: nat, y: nat)
    requires j < |s.units| && y < |s.units| && (PairAt(s, j) <==> PairAt(s, y)) && s.units[j] == s.units[y]
    requires PairAt(s, j) ==> s.units[j + 1] == s.units[y + 1]
    ensures NextChar(s, j).0 == NextChar(s, y).0
  {}

  lemma RepeatedReadsBack(s: Subject, j: nat, i: nat, y: nat, x: nat, n: nat)
    requires 0 < n <= i <= |s.units| && n <= x <= |s.units| && Repeated(s, i - n, x - n, n)
    requires Aligned(s, i - n) && Aligned(s, x - n) && i - n <= j < i && y < x
    requires NextChar(s, j).1 == i && NextChar(s, y).1 == x
    requires Aligned(s, j) && Aligned(s, y)
    ensures NextChar(s, j).0 == NextChar(s, y).0
  {
    hide NextChar, Repeated, IsLead, IsTrail;
    PairRead(s, j);
    PairRead(s, y);
    RepeatedAt(s, i - n, x - n, n, n - 1);
    if n > 1 {
      RepeatedAt(s, i - n, x - n, n, n - 2);
    }
    SameUnits(s, j, y);
  }

  /** A back reference to a set capture, between whole characters: it goes over the captured text
      if that stands at x, or backward before x, and its far end cuts no character; otherwise
      the machine backtracks. A reference to a capture that is not set stays. */
  lemma ReferenceStep(m: Machine, st: State, back: bool, k: nat)
    requires Decode(m.prog, st.pc) == Some(BackRef(back, k)) && ValidSubject(m.subj)
    requires st.pos <= |m.subj.units| && Aligned(m.subj, st.pos) && 2 * k + 1 < |st.caps|
    requires st.caps[2 * k].Some? && st.caps[2 * k + 1].Some? ==>
      && st.caps[2 * k].value <= st.caps[2 * k + 1].value <= |m.subj.units|
      && Aligned(m.subj, st.caps[2 * k].value) && Aligned(m.subj, st.caps[2 * k + 1].value)
    ensures st.caps[2 * k].None? || st.caps[2 * k + 1].None? ==> Step(m, Running(st)) == Running(st.(pc := st.pc + 2))
    ensures st.caps[2 * k].Some? && st.caps[2 * k + 1].Some? ==>
      var i, x := st.caps[2 * k].value, st.pos;
      var n := st.caps[2 * k + 1].value - i;
      Step(m, Running(st)) ==
        if !back && Repeated(m.subj, i, x, n) && Aligned(m.subj, x + n) then
          Running(st.(pc := st.pc + 2, pos := x + n))
        else if back && x >= n && Repeated(m.subj, i, x - n, n) && Aligned(m.subj, x - n) then
          Running(st.(pc := st.pc + 2, pos := x - n))
        else Fail(m, st)
  {
    hide Decode, Fail, SameAfter, SameBefore, Aligned, Repeated, ValidSubject;
    if st.caps[2 * k].Some? && st.caps[2 * k + 1].Some? {
      AfterMatches(m.subj, st.caps[2 * k].value, st.caps[2 * k + 1].value, st.pos);
      BeforeMatches(m.subj, st.caps[2 * k].value, st.caps[2 * k + 1].value, st.pos);
    }
  }

  // ---- groups ----

  /** A group around code that goes from a state to another records the text in between,
      whichever way it is matched, and nothing else. */
  lemma GroupRecords(m: Machine, k: nat, c: seq<Instr>, back: bool, st: State, st': State)
      returns (caps: seq<Option<nat>>)
    requires CodeAt(m.prog, st.pc, GroupCode(c, k, back)) && 2 * k + 1 < |st.caps|
    requires st.pos <= |m.subj.units| && st'.pos <= |m.subj.units|
    requires var near := if back then 2 * k + 1 else 2 * k;
      && |st'.caps| == |st.caps| && st'.pc == st.pc + 2 + CodeSize(c) && st'.caps[near] == Some(st.pos)
      && Reaches(m, Running(st.(pc := st.pc + 2, caps := st.caps[near := Some(st.pos)])), Running(st'))
    ensures Reaches(m, Running(st), Running(st'.(pc := st'.pc + 2, caps := caps))) && |caps| == |st.caps|
    ensures caps[2 * k] == Some(if back then st'.pos else st.pos)
    ensures caps[2 * k + 1] == Some(if back then st.pos else st'.pos)
    ensures forall i :: 0 <= i < |caps| && i != 2 * k && i != 2 * k + 1 ==> caps[i] == st'.caps[i]
  {
    hide Decode, CodeSize, CodeAt, Reaches;
    var first, last := if back then SaveEnd(k) else SaveStart(k), if back then SaveStart(k) else SaveEnd(k);
    var near, far := if back then 2 * k + 1 else 2 * k, if back then 2 * k else 2 * k + 1;
    assert GroupCode(c, k, back) == [first] + (c + ([last] + []));
    CodeAtHead(m.prog, st.pc, first, c + ([last] + []));
    CodeAtSplit(m.prog, st.pc + 2, c, [last] + []);
    CodeAtHead(m.prog, st'.pc, last, []);
    var inner := st.(pc := st.pc + 2, caps := st.caps[near := Some(st.pos)]);
    caps := st'.caps[far := Some(st'.pos)];
    var outer := st'.(pc := st'.pc + 2, caps := caps);
    assert Step(m, Running(st)) == Running(inner);
    assert Step(m, Running(st')) == Running(outer);
    ReachesRefl(m, Running(outer));
    ReachesStep(m, Running(st'), Running(outer));
    ReachesTrans(m, Running(inner), Running(st'), Running(outer));
    ReachesStep(m, Running(st), Running(outer));
  }

  /** Resetting forgets the captures from low to high and no others. */
  lemma ResetForgets(caps: seq<Option<nat>>, low: nat, high: nat, k: nat)
    requires 2 * k + 1 < |caps|
    ensures var r := ResetCaptures(caps, low, high);
            if low <= k <= high then r[2 * k] == r[2 * k + 1] == None
            else r[2 * k] == caps[2 * k] && r[2 * k + 1] == caps[2 * k + 1]
  {}

  function Groups(t: Term): (n: nat)
  {
    match t
    case Bare(_) => 0
    case Seq(l, r) => Groups(l) + Groups(r)
    case Or(l, r) => Groups(l) + Groups(r)
    case Around(_, _, body) => Groups(body)
    case Repeat(body, _, _, _) => Groups(body)
    case Group(_, body) => 1 + Groups(body)
    case Reference(_) => 0
  }

  /** The groups are numbered a, a + 1 and so on, as they open. */
  predicate Numbered(t: Term, a: nat)
  {
    match t
    case Bare(_) => true
    case Seq(l, r) => Numbered(l, a) && Numbered(r, a + Groups(l))
    case Or(l, r) => Numbered(l, a) && Numbered(r, a + Groups(l))
    case Around(_, _, body) => Numbered(body, a)
    case Repeat(body, _, _, _) => Numbered(body, a)
    case Group(k, body) => k == a && Numbered(body, a + 1)
    case Reference(_) => true
  }

  lemma {:induction false} FirstAndLast(t: Term, a: nat)
    requires Numbered(t, a) && a >= 1
    ensures FirstGroup(t) == if Groups(t) == 0 then 0 else a
    ensures LastGroup(t) == if Groups(t) == 0 then 0 else a + Groups(t) - 1
    decreases t
  {
    match t
    case Bare(_) =>
    case Seq(l, r) =>
      FirstAndLast(l, a);
      FirstAndLast(r, a + Groups(l));
    case Or(l, r) =>
      FirstAndLast(l, a);
      FirstAndLast(r, a + Groups(l));
    case Around(_, _, body) => FirstAndLast(body, a);
    case Repeat(body, _, _, _) => FirstAndLast(body, a);
    case Group(_, body) => FirstAndLast(body, a + 1);
    case Reference(_) =>
  }

  /** A repetition that may be skipped first forgets exactly the groups of its body. */
  lemma ResetsItsGroups(body: Term, min: nat, a: nat, caps: seq<Option<nat>>, k: nat)
    requires Numbered(body, a) && a >= 1 && 2 * k + 1 < |caps|
    ensures ResetCode(body, min) ==
      if min == 0 && Groups(body) > 0 then [SaveReset(a, a + Groups(body) - 1)] else []
    ensures Groups(body) > 0 ==>
      var r := ResetCaptures(caps, a, a + Groups(body) - 1);
      if a <= k < a + Groups(body) then r[2 * k] == r[2 * k + 1] == None
      else r[2 * k] == caps[2 * k] && r[2 * k + 1] == caps[2 * k + 1]
  {
    FirstAndLast(body, a);
    if Groups(body) > 0 {
      ResetForgets(caps, a, a + Groups(body) - 1, k);
    }
  }
}
