/** Subject strings, patterns and what a pattern can match, as an ordered list
    of end positions (most preferred first). */
module RegexSyntax {
  import CharRanges

  /** A subject: code units, whether surrogate pairs are one character (buffer type 2
      of the VM), and the multiline flag. */
  datatype Subject = Subject(units: seq<nat>, utf16: bool, multiline: bool)

  predicate IsLead(c: nat) { 0xd800 <= c < 0xdc00 }

  predicate IsTrail(c: nat) { 0xdc00 <= c < 0xe000 }

  predicate PairAt(s: Subject, i: nat)
  {
    s.utf16 && i + 1 < |s.units| && IsLead(s.units[i]) && IsTrail(s.units[i + 1])
  }

  /** Not between the two halves of a surrogate pair. */
  predicate Aligned(s: Subject, i: nat)
  {
    !(i > 0 && PairAt(s, i - 1))
  }

  /** GET_CHAR: the character at i and the position after it. */
  function NextChar(s: Subject, i: nat): (r: (nat, nat))
    requires i < |s.units|
    ensures i < r.1 <= |s.units| && r.1 <= i + 2
  {
    if PairAt(s, i) then
      ((s.units[i] % 0x400) * 0x400 + s.units[i + 1] % 0x400 + 0x1_0000, i + 2)
    else (s.units[i], i + 1)
  }

  /** PREV_CHAR: the position one character back. */
  function PrevPos(s: Subject, i: nat): (r: nat)
    requires 0 < i <= |s.units|
    ensures r < i
  {
    if s.utf16 && IsTrail(s.units[i - 1]) && i - 1 > 0 && IsLead(s.units[i - 2]) then i - 2 else i - 1
  }

  /** PEEK_PREV_CHAR: the character before i. */
  function PeekPrev(s: Subject, i: nat): (c: nat)
    requires 0 < i <= |s.units|
  {
    if i >= 2 && PairAt(s, i - 2) then NextChar(s, i - 2).0 else s.units[i - 1]
  }

  /** Stepping back undoes stepping forward exactly from aligned positions. */
  lemma StepBackInverts(s: Subject, i: nat)
    requires i < |s.units|
    ensures PrevPos(s, NextChar(s, i).1) == i <==> Aligned(s, i)
  {}

  lemma NextAligned(s: Subject, i: nat)
    requires i < |s.units|
    ensures Aligned(s, NextChar(s, i).1)
  {}

  lemma PrevAligned(s: Subject, i: nat)
    requires 0 < i <= |s.units|
    ensures Aligned(s, PrevPos(s, i))
    ensures PrevPos(s, NextChar(s, PrevPos(s, i)).1) == PrevPos(s, i)
    ensures Aligned(s, i) ==> NextChar(s, PrevPos(s, i)) == (PeekPrev(s, i), i)
  {}

  predicate IsLineTerminator(c: nat) { c == 0x0a || c == 0x0d || c == 0x2028 || c == 0x2029 }

  predicate IsWordChar(c: nat)
  {
    0x30 <= c <= 0x39 || 0x61 <= c <= 0x7a || 0x41 <= c <= 0x5a || c == 0x5f
  }

  datatype Atom =
    | Lit(c: nat)
    | NonTerminator
    | AnyAtom
    | Class(points: seq<nat>)

  datatype Assertion = AtLineStart | AtLineEnd | AtWordBoundary | NotAtWordBoundary

  /** Patterns without captures and back references. A sequence of terms and a list of
      alternatives are left-nested Cat and Alt, in the order the parser meets them. */
  datatype Node =
    | Empty
    | Single(a: Atom)
    | Assert(t: Assertion)
    | Cat(l: Node, r: Node)
    | Alt(l: Node, r: Node)
    | Look(neg: bool, behind: bool, body: Node)
    | Quant(body: Node, min: nat, max: nat, greedy: bool)

  /** INT32_MAX stands for an unbounded quantifier. */
  const INF: nat := 0x7fff_ffff

  ghost predicate Matches(a: Atom, c: nat)
  {
    match a
    case Lit(d) => c == d
    case NonTerminator => !IsLineTerminator(c)
    case AnyAtom => true
    case Class(points) => CharRanges.Contains(points, c)
  }

  predicate WordAt(s: Subject, x: nat)
    requires x <= |s.units|
  {
    x < |s.units| && IsWordChar(NextChar(s, x).0)
  }

  predicate WordBefore(s: Subject, x: nat)
    requires x <= |s.units|
  {
    x > 0 && IsWordChar(PeekPrev(s, x))
  }

  predicate Holds(t: Assertion, s: Subject, x: nat)
    requires x <= |s.units|
  {
    match t
    case AtLineStart => x == 0 || (s.multiline && IsLineTerminator(PeekPrev(s, x)))
    case AtLineEnd => x == |s.units| || (s.multiline && IsLineTerminator(NextChar(s, x).0))
    case AtWordBoundary => WordBefore(s, x) != WordAt(s, x)
    case NotAtWordBoundary => WordBefore(s, x) == WordAt(s, x)
  }

  /** y is x or further in the direction of matching, inside the subject, and not inside
      a surrogate pair unless x is. */
  ghost predicate Toward(back: bool, s: Subject, x: nat, y: nat)
  {
    && (if back then y <= x else x <= y)
    && x <= |s.units| && y <= |s.units|
    && (Aligned(s, x) ==> Aligned(s, y))
  }

  ghost predicate AllToward(back: bool, s: Subject, x: nat, ys: seq<nat>)
  {
    forall k :: 0 <= k < |ys| ==> Toward(back, s, x, ys[k])
  }

  /** The end positions found, most preferred first, and whether the search goes on forever
      after the last of them is rejected. */
  datatype Found = Found(ys: seq<nat>, hang: bool) {
    ghost function Tail(): (o: Found)
      requires |ys| > 0
    {
      Found(ys[1..], hang)
    }

    lemma HeadTail()
      requires |ys| > 0
      ensures Found([ys[0]] + Tail().ys, Tail().hang) == this && Tail().hang == hang && Tail().ys == ys[1..]
    {}
  }

  ghost function Just(ys: seq<nat>): (o: Found) { Found(ys, false) }

  /** First a; what follows is never reached when a goes on forever. */
  ghost function Join(a: Found, b: Found): (o: Found)
  {
    if a.hang then a else Found(a.ys + b.ys, b.hang)
  }

  lemma JoinIs(a: Found, b: Found)
    ensures a.hang ==> Join(a, b) == a
    ensures |a.ys| == 0 && !a.hang ==> Join(a, b) == b
  {
    assert [] + b.ys == b.ys;
  }

  lemma JoinCons(a: Found, b: Found)
    requires |a.ys| > 0
    ensures Found([a.ys[0]] + Join(a.Tail(), b).ys, Join(a.Tail(), b).hang) == Join(a, b)
  {
    assert [a.ys[0]] + (a.ys[1..] + b.ys) == a.ys + b.ys;
  }

  /** Distance left in the direction of matching. */
  function Room(back: bool, s: Subject, x: nat): (d: nat)
    requires x <= |s.units|
  {
    if back then x else |s.units| - x
  }

  ghost function SingleResults(a: Atom, back: bool, s: Subject, x: nat): (ys: seq<nat>)
    requires x <= |s.units|
    ensures AllToward(back, s, x, ys)
    ensures |ys| <= 1 && (|ys| == 1 ==> ys[0] != x)
  {
    if back then
      if x > 0 && Matches(a, NextChar(s, PrevPos(s, x)).0) then PrevAligned(s, x); [PrevPos(s, x)] else []
    else
      if x < |s.units| && Matches(a, NextChar(s, x).0) then NextAligned(s, x); [NextChar(s, x).1] else []
  }

  /** What n finds from x, in the order the backtracking search of the program tries it. */
  ghost function Results(n: Node, back: bool, s: Subject, x: nat): (o: Found)
    requires x <= |s.units|
    ensures AllToward(back, s, x, o.ys)
    decreases n, 0
  {
    match n
    case Empty => Just([x])
    case Single(a) => Just(SingleResults(a, back, s, x))
    case Assert(t) => Just(if Holds(t, s, x) then [x] else [])
    case Cat(l, r) =>
      if back then FlatResults(l, back, s, x, Results(r, back, s, x))
      else FlatResults(r, back, s, x, Results(l, back, s, x))
    case Alt(l, r) => Join(Results(l, back, s, x), Results(r, back, s, x))
    case Look(neg, behind, body) =>
      var o := Results(body, behind, s, x);
      if o.ys == [] && o.hang then o else Just(if (o.ys == []) == neg then [x] else [])
    case Quant(body, min, max, greedy) => RestAll(body, min, max, greedy, back, s, x, Times(body, back, s, min, x))
  }

  ghost function FlatResults(n: Node, back: bool, s: Subject, x: nat, o: Found): (r: Found)
    requires x <= |s.units| && AllToward(back, s, x, o.ys)
    ensures AllToward(back, s, x, r.ys)
    decreases n, 1, |o.ys|
  {
    if |o.ys| == 0 then o else Join(Results(n, back, s, o.ys[0]), FlatResults(n, back, s, x, o.Tail()))
  }

  /** Exactly k iterations. */
  ghost function Times(body: Node, back: bool, s: Subject, k: nat, x: nat): (o: Found)
    requires x <= |s.units|
    ensures AllToward(back, s, x, o.ys)
    decreases body, 2, k, 0
  {
    if k == 0 then Just([x]) else TimesAll(body, back, s, k - 1, x, Results(body, back, s, x))
  }

  ghost function TimesAll(body: Node, back: bool, s: Subject, k: nat, x: nat, o: Found): (r: Found)
    requires x <= |s.units| && AllToward(back, s, x, o.ys)
    ensures AllToward(back, s, x, r.ys)
    decreases body, 2, k, 1, |o.ys|
  {
    if |o.ys| == 0 then o else Join(Times(body, back, s, k, o.ys[0]), TimesAll(body, back, s, k, x, o.Tail()))
  }

  /** x itself, after the others if greedy. */
  ghost function AndHere(greedy: bool, more: Found, x: nat): (o: Found)
  {
    if greedy then Join(more, Just([x])) else Join(Just([x]), more)
  }

  /** Up to k iterations, as many as possible first if greedy. */
  ghost function UpTo(body: Node, greedy: bool, back: bool, s: Subject, k: nat, x: nat): (o: Found)
    requires x <= |s.units|
    ensures AllToward(back, s, x, o.ys)
    decreases body, 2, k, 0
  {
    if k == 0 then Just([x])
      else AndHere(greedy, UpToAll(body, greedy, back, s, k - 1, x, Results(body, back, s, x)), x)
  }

  ghost function UpToAll(body: Node, greedy: bool, back: bool, s: Subject, k: nat, x: nat, o: Found): (r: Found)
    requires x <= |s.units| && AllToward(back, s, x, o.ys)
    ensures AllToward(back, s, x, r.ys)
    decreases body, 2, k, 1, |o.ys|
  {
    if |o.ys| == 0 then o
      else Join(UpTo(body, greedy, back, s, k, o.ys[0]), UpToAll(body, greedy, back, s, k, x, o.Tail()))
  }

  /** An iteration that did not move: a greedy loop checks for it and ends; a lazy one does not
      check, and starts over from the same place. */
  ghost function EmptyIteration(greedy: bool, x: nat): (o: Found)
  {
    if greedy then Just([x]) else Found([], true)
  }

  /** Any number of iterations. */
  ghost function Star(body: Node, greedy: bool, back: bool, s: Subject, x: nat): (o: Found)
    requires x <= |s.units|
    ensures AllToward(back, s, x, o.ys)
    decreases body, 3, Room(back, s, x), 1
  {
    AndHere(greedy, StarAll(body, greedy, back, s, x, Results(body, back, s, x)), x)
  }

  ghost function StarAll(body: Node, greedy: bool, back: bool, s: Subject, x: nat, o: Found): (r: Found)
    requires x <= |s.units| && AllToward(back, s, x, o.ys)
    ensures AllToward(back, s, x, r.ys)
    decreases body, 3, Room(back, s, x), 0, |o.ys|
  {
    if |o.ys| == 0 then o else
    Join(if o.ys[0] == x then EmptyIteration(greedy, x)
      else Star(body, greedy, back, s, o.ys[0]), StarAll(body, greedy, back, s, x, o.Tail()))
  }

  /** What follows the mandatory iterations. */
  ghost function Rest(body: Node, min: nat, max: nat, greedy: bool, back: bool, s: Subject, x: nat): (o: Found)
    requires x <= |s.units|
    ensures AllToward(back, s, x, o.ys)
    decreases body, 4, 0
  {
    if max == INF then Star(body, greedy, back, s, x)
    else UpTo(body, greedy, back, s, if max >= min then max - min else 0, x)
  }

  ghost function RestAll(body: Node, min: nat, max: nat, greedy: bool, back: bool, s: Subject,
      x: nat, o: Found): (r: Found)
    requires x <= |s.units| && AllToward(back, s, x, o.ys)
    ensures AllToward(back, s, x, r.ys)
    decreases body, 4, 1, |o.ys|
  {
    if |o.ys| == 0 then o
      else Join(Rest(body, min, max, greedy, back, s, o.ys[0]), RestAll(body, min, max, greedy, back, s, x, o.Tail()))
  }
}
