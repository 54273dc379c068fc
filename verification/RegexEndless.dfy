/** Lazy unbounded quantifiers, whose loop has no zero-advance check
    (cpp/src/quickjs/libregexp.c, re_parse_term): exactly when the loop returns. */
module RegexEndless {
  import opened RegexBytecode
  import opened RegexSyntax
  import opened RegexCode
  import opened RegexVM
  import opened RegexRep
  import opened RegexCorrect
  import opened RegexLoops
  import opened RegexQuant
  import opened RegexTheorem
  import opened RegexStandard

  // ---- positions the loop can stay at ----

  /** An iteration of the body from y can end at y, or does not end. */
  ghost predicate Sticks(body: Node, back: bool, s: Subject, y: nat)
  {
    y <= |s.units| && (y in Results(body, back, s, y).ys || Results(body, back, s, y).hang)
  }

  /** k iterations of the body lead from x to y. */
  ghost predicate Leads(body: Node, back: bool, s: Subject, x: nat, y: nat, k: nat)
    decreases k
  {
    if k == 0 then x == y
    else x <= |s.units| && exists z :: z in Results(body, back, s, x).ys && Leads(body, back, s, z, y, k - 1)
  }

  /** Some position that iterations from x lead to. */
  ghost predicate CanStick(body: Node, back: bool, s: Subject, x: nat)
  {
    exists y, k :: Leads(body, back, s, x, y, k) && Sticks(body, back, s, y)
  }

  /** A sequence goes on forever when its first part or one of its continuations does. */
  lemma {:induction false} ApplyAllHangs(t: Cont, back: bool, s: Subject, x: nat, o: Found)
    requires x <= |s.units| && AllToward(back, s, x, o.ys) && (t.ThenStar? ==> t.from == x)
    ensures ApplyAll(t, back, s, x, o).hang <==>
      o.hang || exists y :: y in o.ys && y <= |s.units| && Apply(t, back, s, y).hang
    decreases |o.ys|
  {
    hide *;
    ApplyAllIs(t, back, s, x, o);
    if |o.ys| > 0 {
      o.HeadTail();
      ApplyAllHangs(t, back, s, x, o.Tail());
      JoinHangs(Apply(t, back, s, o.ys[0]), ApplyAll(t, back, s, x, o.Tail()));
      assert forall y :: y in o.ys <==> y == o.ys[0] || y in o.ys[1..];
    }
  }

  /** One turn of the lazy loop. */
  lemma StarHangs(body: Node, back: bool, s: Subject, x: nat)
    requires x <= |s.units|
    ensures var o := Results(body, back, s, x);
            Star(body, false, back, s, x).hang <==>
              o.hang || x in o.ys || exists y ::
                y in o.ys && y != x && y <= |s.units| && Star(body, false, back, s, y).hang
  {
    hide *;
    var o, t := Results(body, back, s, x), ThenStar(body, false, x);
    ResultsAllToward(body, back, s, x);
    StarIs(body, false, back, s, x);
    JustIs([x]);
    JoinHangs(Just([x]), StarAll(body, false, back, s, x, o));
    ApplyAllStar(body, false, back, s, x, o);
    ApplyAllHangs(t, back, s, x, o);
    EmptyIterationIs(false, x);
    forall y | y in o.ys
      ensures y <= |s.units|
      ensures Apply(t, back, s, y) == if y == x then EmptyIteration(false, y) else Star(body, false, back, s, y)
    {
      var i :| 0 <= i < |o.ys| && o.ys[i] == y;
      TowardOf(back, s, x, o.ys, i);
      ApplyStar(body, false, back, s, x, y);
    }
  }

  lemma {:induction false} StickingHangs(body: Node, back: bool, s: Subject, x: nat, y: nat, k: nat)
    requires x <= |s.units| && Leads(body, back, s, x, y, k) && Sticks(body, back, s, y)
    ensures Star(body, false, back, s, x).hang
    decreases k
  {
    hide Results, Star;
    StarHangs(body, back, s, x);
    if k > 0 {
      var z :| z in Results(body, back, s, x).ys && Leads(body, back, s, z, y, k - 1);
      var ys := Results(body, back, s, x).ys;
      var i :| 0 <= i < |ys| && ys[i] == z;
      ResultsAllToward(body, back, s, x);
      TowardOf(back, s, x, ys, i);
      StickingHangs(body, back, s, z, y, k - 1);
    }
  }

  lemma {:induction false} HangingSticks(body: Node, back: bool, s: Subject, x: nat) returns (y: nat, k: nat)
    requires x <= |s.units| && Star(body, false, back, s, x).hang
    ensures Leads(body, back, s, x, y, k) && Sticks(body, back, s, y)
    decreases Room(back, s, x)
  {
    hide Results, Star;
    StarHangs(body, back, s, x);
    var o := Results(body, back, s, x);
    if o.hang || x in o.ys {
      y, k := x, 0;
    } else {
      var z :| z in o.ys && z != x && z <= |s.units| && Star(body, false, back, s, z).hang;
      var i :| 0 <= i < |o.ys| && o.ys[i] == z;
      ResultsAllToward(body, back, s, x);
      TowardOf(back, s, x, o.ys, i);
      y, k := HangingSticks(body, back, s, z);
      k := k + 1;
    }
  }

  /** The loop goes on forever exactly when iterations lead to a position it can stay at. */
  lemma StarHangsExactly(body: Node, back: bool, s: Subject, x: nat)
    requires x <= |s.units|
    ensures Star(body, false, back, s, x).hang <==> CanStick(body, back, s, x)
  {
    hide Star, Leads, Sticks;
    if Star(body, false, back, s, x).hang {
      var y, k := HangingSticks(body, back, s, x);
    }
    if CanStick(body, back, s, x) {
      var y, k :| Leads(body, back, s, x, y, k) && Sticks(body, back, s, y);
      StickingHangs(body, back, s, x, y, k);
    }
  }

  // ---- with a continuation that fails ----

  /** Whatever the position and the saved states, the continuation backtracks. */
  ghost predicate AlwaysFails(m: Machine, ex: Exit)
  {
    forall y: nat :: y <= |m.subj.units| ==> OffersFrom(m, ex, y, Just([]), ex)
  }

  ghost function Nothing(): (F: nat -> Found) { (y: nat) => Just([]) }

  lemma {:induction false} BindNothing(o: Found)
    ensures Bind(o, Nothing()) == Found([], o.hang)
    decreases |o.ys|
  {
    if |o.ys| > 0 {
      BindNothing(o.Tail());
    }
  }

  lemma FailingOffers(m: Machine, c: Conf, o: Found, x: nat, back: bool, ex: Exit)
    requires Offers(m, c, o, ex) && AlwaysFails(m, ex) && AllToward(back, m.subj, x, o.ys)
    ensures Offers(m, c, Found([], o.hang), ex)
  {
    hide Offers, Bind, OffersFrom;
    forall k | 0 <= k < |o.ys|
      ensures OffersFrom(m, ex, o.ys[k], Nothing()(o.ys[k]), ex)
    {
      TowardOf(back, m.subj, x, o.ys, k);
    }
    OffersBind(m, c, o, Nothing(), ex, ex);
    BindNothing(o);
  }

  lemma LazyOk(body: Node)
    ensures NodeOk(body) ==> NodeOk(Quant(body, 0, INF, false))
  {}

  /** Exactly: with a continuation that always fails, the code of body*? from x backtracks if and
      only if iterations of the body from x lead to no position they can stay at; otherwise the
      machine never stops. */
  lemma LazyLoopReturns(m: Machine, body: Node, back: bool, pc: nat, x: nat, ex: Exit)
    requires var n := Quant(body, 0, INF, false);
             NodeOk(body) && CodeAt(m.prog, pc, Code(n, back)) && ex.pc == pc + CodeSize(Code(n, back))
    requires ValidSubject(m.subj) && x <= |m.subj.units| && Aligned(m.subj, x) && AlwaysFails(m, ex)
    ensures !CanStick(body, back, m.subj, x) ==> Reaches(m, Start(pc, x, ex), Backtrack(m, ex, []))
    ensures CanStick(body, back, m.subj, x) ==> Diverges(m, Start(pc, x, ex))
    ensures ex.entries == [] ==>
      (Reaches(m, Start(pc, x, ex), Backtrack(m, ex, [])) <==> !CanStick(body, back, m.subj, x))
  {
    hide *;
    InfPositive();
    LazyOk(body);
    var n, s, c := Quant(body, 0, INF, false), m.subj, Start(pc, x, ex);
    CodeOffers(m, n, back);
    CompilesHere(m, n, back, pc);
    CompilesAt(m, n, back, pc, x, ex);
    QuantOptional(body, INF, false, back, s, x);
    StarHangsExactly(body, back, s, x);
    var o := Results(n, back, s, x);
    ResultsAllToward(n, back, s, x);
    FailingOffers(m, c, o, x, back, ex);
    if o.hang {
      OffersSilence(m, c, Found([], true), ex, ex);
      if ex.entries == [] {
        NoReturn(m, c, ex);
      }
    } else {
      var t := OffersFirst(m, c, Found([], false), ex);
      assert ex.entries + [] == ex.entries;
      BacktrackNone(m, ex);
    }
  }

  lemma BacktrackNone(m: Machine, ex: Exit)
    ensures Backtrack(m, ex, []) == Unwind(m, ex.entries, false, ex.caps)
    ensures ex.entries == [] ==> Backtrack(m, ex, []).Done?
  {
    assert ex.entries + [] == ex.entries;
  }

  lemma NoReturn(m: Machine, c: Conf, ex: Exit)
    requires Diverges(m, c) && ex.entries == []
    ensures !Reaches(m, c, Backtrack(m, ex, []))
  {
    hide Backtrack, Steps;
    BacktrackNone(m, ex);
  }
}
