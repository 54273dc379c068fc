/** The recursive matcher of ECMA-262 (section 21.2.2 of the 2020 edition) as it is written
    there, on the list of characters of the subject, with its own character sets and
    assertions; that the matcher on code units agrees with it; whole programs. */
module RegexReference {
  import opened RegexBytecode
  import opened RegexSyntax
  import opened RegexCode
  import opened RegexVM
  import opened RegexCorrect
  import opened RegexProgram
  import opened RegexStandard
  import opened RegexCharacters
  import CharRanges

  // ---- characters and assertions ----

  datatype Text = Text(chars: seq<nat>, multiline: bool)

  function TextOf(s: Subject): (t: Text)
  {
    Text(Characters(s, 0), s.multiline)
  }

  predicate InInterval(points: seq<nat>, c: nat, i: nat)
  {
    2 * i + 1 < |points| && points[2 * i] <= c && c < points[2 * i + 1]
  }

  /** LineTerminator: LF, CR, LS and PS. */
  predicate Terminates(c: nat)
  {
    c == 10 || c == 13 || c == 0x2028 || c == 0x2029
  }

  /** WordCharacters without ignoring case: letters, digits and the underscore. */
  predicate InWord(c: nat)
  {
    'a' as nat <= c <= 'z' as nat || 'A' as nat <= c <= 'Z' as nat || '0' as nat <= c <= '9' as nat || c == '_' as nat
  }

  /** The character set an atom stands for. */
  ghost predicate InCharSet(a: Atom, c: nat)
  {
    match a
    case Lit(d) => c == d
    case NonTerminator => !Terminates(c)
    case AnyAtom => true
    case Class(points) => exists i: nat :: InInterval(points, c, i)
  }

  /** IsWordChar. */
  predicate WordCharAt(t: Text, e: int)
  {
    0 <= e < |t.chars| && InWord(t.chars[e])
  }

  /** Section 21.2.2.6. */
  predicate Asserted(a: Assertion, t: Text, e: nat)
    requires e <= |t.chars|
  {
    match a
    case AtLineStart => e == 0 || (t.multiline && Terminates(t.chars[e - 1]))
    case AtLineEnd => e == |t.chars| || (t.multiline && Terminates(t.chars[e]))
    case AtWordBoundary => WordCharAt(t, e - 1) != WordCharAt(t, e)
    case NotAtWordBoundary => WordCharAt(t, e - 1) == WordCharAt(t, e)
  }

  lemma SameCharacter(a: Atom, c: nat)
    ensures InCharSet(a, c) <==> Matches(a, c)
  {
    if a.Class? {
      forall i: nat
        ensures InInterval(a.points, c, i) <==> CharRanges.Inside(a.points, c, i)
      {
      }
    }
  }

  /** The machine's assertions at the place of a character are the standard's. */
  lemma SameAssertion(a: Assertion, s: Subject, e: nat)
    requires e <= |Characters(s, 0)|
    ensures Holds(a, s, Offset(s, 0, e)) <==> Asserted(a, TextOf(s), e)
  {
    hide NextChar, PeekPrev, Characters, Offset;
    OffsetFirst(s);
    OffsetEnd(s, 0, e);
    if e > 0 {
      OffsetBack(s, e);
    }
    if e < |Characters(s, 0)| {
      OffsetReads(s, 0, e);
    }
  }

  lemma OffsetFirst(s: Subject)
    ensures Offset(s, 0, 0) == 0
  {}

  // ---- the matcher ----

  ghost function CharMatcher(n: Node, back: bool, t: Text, e: nat, c: nat -> Option<nat>): (r: Option<nat>)
    requires e <= |t.chars|
    decreases n, 0
  {
    match n
    case Empty => c(e)
    case Single(a) =>
      var f: int := if back then e - 1 else e + 1;
      if f < 0 || f > |t.chars| then None
      else if InCharSet(a, t.chars[if back then f else e]) then c(f) else None
    case Assert(a) => if Asserted(a, t, e) then c(e) else None
    case Cat(l, r) =>
      if back then CharMatcher(r, back, t, e, CharThen(l, back, t, c))
        else CharMatcher(l, back, t, e, CharThen(r, back, t, c))
    case Alt(l, r) =>
      var z := CharMatcher(l, back, t, e, c);
      if z.Some? then z else CharMatcher(r, back, t, e, c)
    case Look(neg, behind, body) =>
      var z := CharMatcher(body, behind, t, e, Identity());
      if z.Some? != neg then c(e) else None
    case Quant(body, min, max, greedy) => CharRepeat(body, min, max, greedy, back, t, e, c)
  }

  ghost function CharThen(n: Node, back: bool, t: Text, c: nat -> Option<nat>): (d: nat -> Option<nat>)
    decreases n, 1
  {
    (e: nat) => if e <= |t.chars| then CharMatcher(n, back, t, e, c) else None
  }

  function Ahead(back: bool, t: Text, e: nat): (d: nat)
    requires e <= |t.chars|
  {
    if back then e else |t.chars| - e
  }

  /** RepeatMatcher. */
  ghost function CharRepeat(body: Node, min: nat, max: nat, greedy: bool, back: bool, t: Text, e: nat,
      c: nat -> Option<nat>): (r: Option<nat>)
    requires e <= |t.chars|
    decreases body, 2, min, Ahead(back, t, e), 1
  {
    if max == 0 then c(e) else
    var d := CharIteration(body, min, max, greedy, back, t, e, c);
    if min != 0 then CharMatcher(body, back, t, e, d)
    else if !greedy then
      var z := c(e);
      if z.Some? then z else CharMatcher(body, back, t, e, d)
    else
      var z := CharMatcher(body, back, t, e, d);
      if z.Some? then z else c(e)
  }

  /** The continuation of one iteration from e, which ends further on or at e. */
  ghost function CharIteration(body: Node, min: nat, max: nat, greedy: bool, back: bool, t: Text, e: nat,
      c: nat -> Option<nat>): (d: nat -> Option<nat>)
    requires e <= |t.chars| && max > 0
    decreases body, 2, min, Ahead(back, t, e), 0
  {
    (f: nat) =>
      if f > |t.chars| || (if back then e < f else f < e) then None
      else if min == 0 && f == e then None
      else CharRepeat(body, if min == 0 then 0 else min - 1, if max == INF then INF else max - 1, greedy, back, t, f, c)
  }

  // ---- both matchers ----

  /** The same end, as an index of characters and as one of code units. */
  ghost predicate Same(s: Subject, p: Option<nat>, q: Option<nat>)
  {
    && (p.None? <==> q.None?)
    && (p.Some? ==> p.value <= |Characters(s, 0)| && q.value == Offset(s, 0, p.value))
  }

  ghost predicate SameEverywhere(s: Subject, c: nat -> Option<nat>, d: nat -> Option<nat>)
  {
    forall e: nat :: e <= |Characters(s, 0)| ==> Same(s, c(e), d(Offset(s, 0, e)))
  }

  /** What Matcher comes to, at the place of character e. */
  ghost function UnitMatcher(n: Node, back: bool, s: Subject, e: nat, d: nat -> Option<nat>): (r: Option<nat>)
    requires e <= |Characters(s, 0)|
  {
    Matcher(n, back, s, Offset(s, 0, e), d)
  }

  ghost function UnitRepeat(body: Node, min: nat, max: nat, greedy: bool, back: bool, s: Subject, e: nat,
      d: nat -> Option<nat>): (r: Option<nat>)
    requires e <= |Characters(s, 0)|
  {
    Repeat(body, min, max, greedy, back, s, Offset(s, 0, e), d)
  }

  lemma SameAt(s: Subject, c: nat -> Option<nat>, d: nat -> Option<nat>, e: nat)
    requires SameEverywhere(s, c, d) && e <= |Characters(s, 0)|
    ensures Same(s, c(e), d(Offset(s, 0, e)))
  {
    hide Same;
  }

  lemma SameIdentity(s: Subject)
    ensures SameEverywhere(s, Identity(), Identity())
  {
    hide Characters, Offset;
  }

  lemma OffsetToward(s: Subject, back: bool, e: nat, f: nat)
    requires e <= |Characters(s, 0)| && f <= |Characters(s, 0)|
    ensures Toward(back, s, Offset(s, 0, e), Offset(s, 0, f)) <==> if back then f <= e else e <= f
    ensures Offset(s, 0, e) == Offset(s, 0, f) <==> e == f
  {
    hide Offset, Characters, Aligned;
    AlignedZero(s);
    OffsetAligned(s, 0, e);
    OffsetAligned(s, 0, f);
    if e < f {
      OffsetOrder(s, 0, e, f);
    }
    if f < e {
      OffsetOrder(s, 0, f, e);
    }
  }

  lemma SimulatesSingle(a: Atom, back: bool, s: Subject, e: nat, c: nat -> Option<nat>, d: nat -> Option<nat>)
    requires e <= |Characters(s, 0)| && SameEverywhere(s, c, d)
    ensures Same(s, CharMatcher(Single(a), back, TextOf(s), e, c), UnitMatcher(Single(a), back, s, e, d))
  {
    hide Offset, Characters, NextChar, PrevPos, PeekPrev, InCharSet, Matches, SameEverywhere, Same;
    OffsetFirst(s);
    OffsetEnd(s, 0, e);
    if back {
      if e > 0 {
        OffsetBack(s, e);
        OffsetReads(s, 0, e - 1);
        SameCharacter(a, Characters(s, 0)[e - 1]);
        SameAt(s, c, d, e - 1);
      }
    } else if e < |Characters(s, 0)| {
      OffsetReads(s, 0, e);
      SameCharacter(a, Characters(s, 0)[e]);
      SameAt(s, c, d, e + 1);
    }
    NoneSame(s);
  }

  lemma NoneSame(s: Subject)
    ensures Same(s, None, None)
  {}

  /** The matcher on code units does, at the place of each character, what the standard's does. */
  lemma {:induction false} Simulates(n: Node, back: bool, s: Subject, e: nat, c: nat -> Option<nat>,
      d: nat -> Option<nat>)
    requires e <= |Characters(s, 0)| && SameEverywhere(s, c, d)
    ensures Same(s, CharMatcher(n, back, TextOf(s), e, c), UnitMatcher(n, back, s, e, d))
    decreases n, 0
  {
    hide *;
    var t := TextOf(s);
    TextIs(s);
    SameAt(s, c, d, e);
    CharMatcherIs(n, back, t, e, c);
    UnitMatcherIs(n, back, s, e, d);
    NoneSame(s);
    match n {
      case Empty =>
      case Single(a) => SimulatesSingle(a, back, s, e, c, d);
      case Assert(a) => SameAssertion(a, s, e);
      case Cat(l, r) =>
        var p, q := if back then r else l, if back then l else r;
        SimulatesThen(q, back, s, c, d);
        Simulates(p, back, s, e, CharThen(q, back, t, c), ThenMatch(q, back, s, d));
      case Alt(l, r) =>
        Simulates(l, back, s, e, c, d);
        Simulates(r, back, s, e, c, d);
        SameElse(s, CharMatcher(l, back, t, e, c), CharMatcher(r, back, t, e, c),
          UnitMatcher(l, back, s, e, d), UnitMatcher(r, back, s, e, d));
      case Look(neg, behind, body) =>
        SameIdentity(s);
        Simulates(body, behind, s, e, Identity(), Identity());
        SameNone(s, CharMatcher(body, behind, t, e, Identity()), UnitMatcher(body, behind, s, e, Identity()));
      case Quant(body, min, max, greedy) =>
        SimulatesRepeat(body, min, max, greedy, back, s, e, c, d);
    }
  }

  lemma {:induction false} SimulatesThen(n: Node, back: bool, s: Subject, c: nat -> Option<nat>, d: nat -> Option<nat>)
    requires SameEverywhere(s, c, d)
    ensures SameEverywhere(s, CharThen(n, back, TextOf(s), c), ThenMatch(n, back, s, d))
    decreases n, 1
  {
    hide *;
    TextIs(s);
    var c', d' := CharThen(n, back, TextOf(s), c), ThenMatch(n, back, s, d);
    forall e: nat | e <= |Characters(s, 0)|
      ensures Same(s, c'(e), d'(Offset(s, 0, e)))
    {
      CharThenIs(n, back, TextOf(s), c, e);
      ThenMatchIs(n, back, s, d, Offset(s, 0, e));
      UnitMatcherAt(n, back, s, e, d);
      Simulates(n, back, s, e, c, d);
    }
    SameIntro(s, c', d');
  }

  lemma {:induction false} SimulatesRepeat(body: Node, min: nat, max: nat, greedy: bool, back: bool, s: Subject, e: nat,
      c: nat -> Option<nat>, d: nat -> Option<nat>)
    requires e <= |Characters(s, 0)| && SameEverywhere(s, c, d)
    ensures Same(s, CharRepeat(body, min, max, greedy, back, TextOf(s), e, c),
      UnitRepeat(body, min, max, greedy, back, s, e, d))
    decreases body, 2, min, Ahead(back, TextOf(s), e), 1
  {
    hide *;
    var t := TextOf(s);
    TextIs(s);
    SameAt(s, c, d, e);
    CharRepeatIs(body, min, max, greedy, back, t, e, c);
    UnitRepeatIs(body, min, max, greedy, back, s, e, d);
    if max > 0 {
      var c', d' := CharIteration(body, min, max, greedy, back, t, e, c),
        NextIteration(body, min, max, greedy, back, s, Offset(s, 0, e), d);
      SimulatesIteration(body, min, max, greedy, back, s, e, c, d);
      Simulates(body, back, s, e, c', d');
      var p, q := CharMatcher(body, back, t, e, c'), UnitMatcher(body, back, s, e, d');
      SameElse(s, p, c(e), q, d(Offset(s, 0, e)));
      SameElse(s, c(e), p, d(Offset(s, 0, e)), q);
    }
  }

  lemma {:induction false} SimulatesIteration(body: Node, min: nat, max: nat, greedy: bool, back: bool, s: Subject,
      e: nat, c: nat -> Option<nat>, d: nat -> Option<nat>)
    requires e <= |Characters(s, 0)| && SameEverywhere(s, c, d) && max > 0
    ensures SameEverywhere(s, CharIteration(body, min, max, greedy, back, TextOf(s), e, c),
      NextIteration(body, min, max, greedy, back, s, Offset(s, 0, e), d))
    decreases body, 2, min, Ahead(back, TextOf(s), e), 0
  {
    hide *;
    var t, x := TextOf(s), Offset(s, 0, e);
    TextIs(s);
    NoneSame(s);
    var c', d' := CharIteration(body, min, max, greedy, back, t, e, c),
      NextIteration(body, min, max, greedy, back, s, x, d);
    forall f: nat | f <= |Characters(s, 0)|
      ensures Same(s, c'(f), d'(Offset(s, 0, f)))
    {
      CharIterationIs(body, min, max, greedy, back, t, e, c, f);
      OffsetToward(s, back, e, f);
      if (if back then f <= e else e <= f) && !(min == 0 && f == e) {
        AheadLess(back, t, e, f);
        NextIterationIs(body, min, max, greedy, back, s, x, d, Offset(s, 0, f));
        var min', max' := if min == 0 then 0 else min - 1, if max == INF then INF else max - 1;
        SimulatesRepeat(body, min', max', greedy, back, s, f, c, d);
        UnitRepeatAt(body, min', max', greedy, back, s, f, d);
      } else {
        NextIterationFails(body, min, max, greedy, back, s, x, d, Offset(s, 0, f));
      }
    }
    SameIntro(s, c', d');
  }

  lemma TextIs(s: Subject)
    ensures TextOf(s).chars == Characters(s, 0)
  {}

  lemma AheadLess(back: bool, t: Text, e: nat, f: nat)
    requires e <= |t.chars| && f <= |t.chars| && if back then f <= e else e <= f
    ensures Ahead(back, t, f) <= Ahead(back, t, e) && (e != f ==> Ahead(back, t, f) < Ahead(back, t, e))
  {}

  lemma SameIntro(s: Subject, c: nat -> Option<nat>, d: nat -> Option<nat>)
    requires forall e: nat :: e <= |Characters(s, 0)| ==> Same(s, c(e), d(Offset(s, 0, e)))
    ensures SameEverywhere(s, c, d)
  {
    hide Same, Characters, Offset;
  }

  lemma SameNone(s: Subject, p: Option<nat>, q: Option<nat>)
    requires Same(s, p, q)
    ensures p.None? <==> q.None?
  {}

  lemma SameElse(s: Subject, p: Option<nat>, p': Option<nat>, q: Option<nat>, q': Option<nat>)
    requires Same(s, p, q) && Same(s, p', q')
    ensures Same(s, if p.Some? then p else p', if q.Some? then q else q')
  {}

  lemma CharMatcherIs(n: Node, back: bool, t: Text, e: nat, c: nat -> Option<nat>)
    requires e <= |t.chars|
    ensures n.Empty? ==> CharMatcher(n, back, t, e, c) == c(e)
    ensures n.Assert? ==> CharMatcher(n, back, t, e, c) == if Asserted(n.t, t, e) then c(e) else None
    ensures n.Cat? ==>
      var p, q := if back then n.r else n.l, if back then n.l else n.r;
      CharMatcher(n, back, t, e, c) == CharMatcher(p, back, t, e, CharThen(q, back, t, c))
    ensures n.Alt? ==>
      var z := CharMatcher(n.l, back, t, e, c);
      CharMatcher(n, back, t, e, c) == if z.Some? then z else CharMatcher(n.r, back, t, e, c)
    ensures n.Look? ==>
      var z := CharMatcher(n.body, n.behind, t, e, Identity());
      CharMatcher(n, back, t, e, c) == if z.Some? != n.neg then c(e) else None
    ensures n.Quant? ==> CharMatcher(n, back, t, e, c) == CharRepeat(n.body, n.min, n.max, n.greedy, back, t, e, c)
  {
    hide InCharSet, Asserted, CharRepeat, CharThen;
  }

  lemma UnitMatcherIs(n: Node, back: bool, s: Subject, e: nat, d: nat -> Option<nat>)
    requires e <= |Characters(s, 0)|
    ensures n.Empty? ==> UnitMatcher(n, back, s, e, d) == d(Offset(s, 0, e))
    ensures n.Assert? ==>
      UnitMatcher(n, back, s, e, d) == if Holds(n.t, s, Offset(s, 0, e)) then d(Offset(s, 0, e)) else None
    ensures n.Cat? ==>
      var p, q := if back then n.r else n.l, if back then n.l else n.r;
      UnitMatcher(n, back, s, e, d) == UnitMatcher(p, back, s, e, ThenMatch(q, back, s, d))
    ensures n.Alt? ==>
      var z := UnitMatcher(n.l, back, s, e, d);
      UnitMatcher(n, back, s, e, d) == if z.Some? then z else UnitMatcher(n.r, back, s, e, d)
    ensures n.Look? ==>
      var z := UnitMatcher(n.body, n.behind, s, e, Identity());
      UnitMatcher(n, back, s, e, d) == if z.None? == n.neg then d(Offset(s, 0, e)) else None
    ensures n.Quant? ==> UnitMatcher(n, back, s, e, d) == UnitRepeat(n.body, n.min, n.max, n.greedy, back, s, e, d)
  {
    hide Matches, Holds, Repeat, ThenMatch, NextChar, PrevPos, Characters, Offset;
  }

  lemma UnitMatcherAt(n: Node, back: bool, s: Subject, e: nat, d: nat -> Option<nat>)
    requires e <= |Characters(s, 0)|
    ensures UnitMatcher(n, back, s, e, d) == Matcher(n, back, s, Offset(s, 0, e), d)
  {
    hide Matcher;
  }

  lemma UnitRepeatAt(body: Node, min: nat, max: nat, greedy: bool, back: bool, s: Subject, e: nat,
      d: nat -> Option<nat>)
    requires e <= |Characters(s, 0)|
    ensures UnitRepeat(body, min, max, greedy, back, s, e, d) ==
      Repeat(body, min, max, greedy, back, s, Offset(s, 0, e), d)
  {
    hide Repeat;
  }

  lemma CharThenIs(n: Node, back: bool, t: Text, c: nat -> Option<nat>, e: nat)
    requires e <= |t.chars|
    ensures CharThen(n, back, t, c)(e) == CharMatcher(n, back, t, e, c)
  {
    hide CharMatcher;
  }

  lemma CharRepeatIs(body: Node, min: nat, max: nat, greedy: bool, back: bool, t: Text, e: nat, c: nat -> Option<nat>)
    requires e <= |t.chars|
    ensures max == 0 ==> CharRepeat(body, min, max, greedy, back, t, e, c) == c(e)
    ensures max > 0 ==>
      var z := CharMatcher(body, back, t, e, CharIteration(body, min, max, greedy, back, t, e, c));
      CharRepeat(body, min, max, greedy, back, t, e, c) ==
        if min > 0 then z else if greedy then (if z.Some? then z else c(e)) else if c(e).Some? then c(e) else z
  {
    hide CharMatcher, CharIteration;
  }

  lemma UnitRepeatIs(body: Node, min: nat, max: nat, greedy: bool, back: bool, s: Subject, e: nat,
      d: nat -> Option<nat>)
    requires e <= |Characters(s, 0)|
    ensures max == 0 ==> UnitRepeat(body, min, max, greedy, back, s, e, d) == d(Offset(s, 0, e))
    ensures max > 0 ==>
      var x := Offset(s, 0, e);
      var z := UnitMatcher(body, back, s, e, NextIteration(body, min, max, greedy, back, s, x, d));
      UnitRepeat(body, min, max, greedy, back, s, e, d) ==
        if min > 0 then z else if greedy then (if z.Some? then z else d(x)) else if d(x).Some? then d(x) else z
  {
    hide Matcher, NextIteration, Characters, Offset;
  }

  lemma NextIterationFails(body: Node, min: nat, max: nat, greedy: bool, back: bool, s: Subject, x: nat,
      d: nat -> Option<nat>, y: nat)
    requires x <= |s.units| && max > 0 && (!Toward(back, s, x, y) || (min == 0 && y == x))
    ensures NextIteration(body, min, max, greedy, back, s, x, d)(y) == None
  {
    hide Repeat;
  }

  lemma CharIterationIs(body: Node, min: nat, max: nat, greedy: bool, back: bool, t: Text, e: nat,
      c: nat -> Option<nat>, f: nat)
    requires e <= |t.chars| && max > 0 && f <= |t.chars|
    ensures CharIteration(body, min, max, greedy, back, t, e, c)(f) ==
      if (if back then e < f else f < e) || (min == 0 && f == e) then None
      else CharRepeat(body, if min == 0 then 0 else min - 1, if max == INF then INF else max - 1, greedy, back, t, f, c)
  {
    hide CharRepeat;
  }

  // ---- whole programs ----

  /** The index of code units of the end e. */
  function EndUnit(s: Subject, e: nat): (x: nat)
  {
    if e >= |Characters(s, 0)| then |s.units| else Offset(s, 0, e)
  }

  /** RegExpBuiltinExec: the matcher at the character that the code unit x belongs to, then,
      unless sticky, at the next index. */
  ghost function StandardExec(n: Node, s: Subject, sticky: bool, x: nat): (r: Option<(nat, nat)>)
    requires x <= |s.units|
    decreases |s.units| - x
  {
    match CharMatcher(n, false, TextOf(s), CharIndex(s, 0, x), Identity())
    case Some(e) => Some((x, EndUnit(s, e)))
    case None => if sticky || x == |s.units| then None else StandardExec(n, s, sticky, x + CodePointAt(s, x).1)
  }

  /** Where the character of the code unit x starts. */
  function CharStart(s: Subject, x: nat): (y: nat)
    ensures y <= x
  {
    if Aligned(s, x) then x else x - 1
  }

  /** The same by the matcher on code units. */
  lemma ExecStep(n: Node, s: Subject, sticky: bool, x: nat)
    requires x <= |s.units|
    ensures var z := Matcher(n, false, s, CharStart(s, x), Identity());
      StandardExec(n, s, sticky, x) ==
        if z.Some? then Some((x, z.value))
        else if sticky || x == |s.units| then None else StandardExec(n, s, sticky, NextChar(s, x).1)
  {
    hide CharMatcher, Matcher, Characters, Offset, CharIndex, CodePointAt, NextChar, Aligned;
    var e := CharIndex(s, 0, x);
    AlignedZero(s);
    IndexOffset(s, 0, x);
    SameIdentity(s);
    Simulates(n, false, s, e, Identity(), Identity());
    UnitMatcherAt(n, false, s, e, Identity());
    if x < |s.units| {
      NextIs(s, x);
    }
    var p := CharMatcher(n, false, TextOf(s), e, Identity());
    if p.Some? {
      OffsetEnd(s, 0, p.value);
    }
  }

  /** An outcome as a report. */
  ghost function Reported(r: Outcome): (p: Option<(nat, nat)>)
    requires r != Endless
  {
    match r
    case Matched(a, b) => Some((a, b))
    case NoMatch => None
  }

  lemma {:induction false} ExecIsSearch(n: Node, s: Subject, sticky: bool, x: nat)
    requires Searches(n, false, s) && x <= |s.units| && Aligned(s, x)
    ensures Search(n, s, sticky, x) != Endless && StandardExec(n, s, sticky, x) == Reported(Search(n, s, sticky, x))
    decreases |s.units| - x
  {
    hide Searches, Matcher, Results, FirstOf, NextChar, Aligned, StandardExec;
    ExecStep(n, s, sticky, x);
    SearchesAt(n, false, s, x, Identity());
    FirstOfIdentity(Results(n, false, s, x).ys);
    if x < |s.units| {
      NextAligned(s, x);
    }
    if x < |s.units| {
      ExecIsSearch(n, s, sticky, NextChar(s, x).1);
    }
  }

  /** The compiled program does what the standard prescribes. */
  lemma ProgramMeetsStandard(m: Machine, n: Node, sticky: bool, x: nat)
    requires m.prog == Bytes(Program(n, sticky)) && NodeOk(n) && SmallCode(n, false)
    requires ValidSubject(m.subj) && QuantifiersAgree(n, false, m.subj)
    requires x <= |m.subj.units| && Aligned(m.subj, x)
    ensures Ends(m, Fresh(0, x, []), StandardExec(n, m.subj, sticky, x))
  {
    hide *;
    ProgramFinds(m, n, sticky, x);
    StandardSearches(n, false, m.subj);
    ExecIsSearch(n, m.subj, sticky, x);
    BehavesEnds(m, Fresh(0, x, []), Search(n, m.subj, sticky, x));
  }

  lemma BehavesEnds(m: Machine, c: Conf, r: Outcome)
    requires r != Endless
    ensures Behaves(m, c, r) <==> Ends(m, c, Reported(r))
  {
    hide Ends;
  }
}
