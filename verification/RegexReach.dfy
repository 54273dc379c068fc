/** Single quantifiers against the standard: greedy unbounded ones by what their body offers,
    bounded ones by the standard's own order (cpp/src/quickjs/libregexp.c, re_parse_term). */
module RegexReach {
  import opened RegexBytecode
  import opened RegexSyntax
  import opened RegexCorrect
  import opened RegexLoops
  import opened RegexQuant
  import opened RegexStandard
  import opened RegexAgreement
  import opened RegexEndless

  // ---- continuing a list ----

  /** No result makes the continuation go on forever. */
  ghost predicate Continues(t: Cont, back: bool, s: Subject, ys: seq<nat>)
  {
    forall y :: y in ys ==> y <= |s.units| && !Apply(t, back, s, y).hang
  }

  lemma ContinuesParts(t: Cont, back: bool, s: Subject, a: seq<nat>, b: seq<nat>)
    requires Continues(t, back, s, a + b)
    ensures Continues(t, back, s, a) && Continues(t, back, s, b)
  {
    hide Apply;
    assert forall y :: y in a || y in b ==> y in a + b;
  }

  lemma ContinuesAt(t: Cont, back: bool, s: Subject, ys: seq<nat>, y: nat)
    requires Continues(t, back, s, ys) && y in ys
    ensures y <= |s.units| && !Apply(t, back, s, y).hang
  {
    hide Apply;
  }

  /** What is found by continuing a list: what is found by continuing one of its members. */
  lemma {:induction false} ApplyAllMembers(t: Cont, back: bool, s: Subject, x: nat, ys: seq<nat>, z: nat)
    requires x <= |s.units| && AllToward(back, s, x, ys) && (t.ThenStar? ==> t.from == x)
    requires Continues(t, back, s, ys)
    ensures !ApplyAll(t, back, s, x, Just(ys)).hang
    ensures z in ApplyAll(t, back, s, x, Just(ys)).ys <==>
      exists y :: y in ys && y <= |s.units| && z in Apply(t, back, s, y).ys
    decreases |ys|
  {
    hide *;
    var o := Just(ys);
    JustIs(ys);
    ApplyAllIs(t, back, s, x, o);
    if |ys| > 0 {
      o.HeadTail();
      JustTail(ys);
      var rest := ys[1..];
      assert ys == [ys[0]] + rest;
      ContinuesParts(t, back, s, [ys[0]], rest);
      ContinuesAt(t, back, s, ys, ys[0]);
      ApplyAllMembers(t, back, s, x, rest, z);
      JoinBoth(Apply(t, back, s, ys[0]), ApplyAll(t, back, s, x, Just(rest)));
      assert forall y :: y in ys <==> y == ys[0] || y in rest;
    }
  }

  lemma JustTail(ys: seq<nat>)
    requires |ys| > 0
    ensures Just(ys).Tail() == Just(ys[1..])
  {}

  lemma {:induction false} ApplyAllAppend(t: Cont, back: bool, s: Subject, x: nat, a: seq<nat>, b: seq<nat>)
    requires x <= |s.units| && AllToward(back, s, x, a) && AllToward(back, s, x, b) && (t.ThenStar? ==> t.from == x)
    requires Continues(t, back, s, a) && AllToward(back, s, x, a + b)
    ensures ApplyAll(t, back, s, x, Just(a + b)).ys
      == ApplyAll(t, back, s, x, Just(a)).ys + ApplyAll(t, back, s, x, Just(b)).ys
    decreases |a|
  {
    hide *;
    JustIs(a);
    JustIs(a + b);
    ApplyAllIs(t, back, s, x, Just(a));
    if |a| == 0 {
      assert a + b == b;
    } else {
      ApplyAllIs(t, back, s, x, Just(a + b));
      JustTail(a);
      JustTail(a + b);
      var rest := a[1..];
      assert (a + b)[1..] == rest + b && (a + b)[0] == a[0] && a == [a[0]] + rest;
      JustIs(rest);
      JustIs(rest + b);
      ContinuesParts(t, back, s, [a[0]], rest);
      ContinuesAt(t, back, s, a, a[0]);
      ApplyAllAppend(t, back, s, x, rest, b);
      JoinBoth(Apply(t, back, s, a[0]), ApplyAll(t, back, s, x, Just(rest)));
      JoinBoth(Apply(t, back, s, a[0]), ApplyAll(t, back, s, x, Just(rest + b)));
    }
  }

  // ---- what the greedy loop finds ----

  /** One turn: the empty iteration ends the loop, another one starts it over. */
  lemma TurnIs(body: Node, back: bool, s: Subject, x: nat, y: nat)
    requires Searches(body, back, s) && y <= |s.units|
    ensures var r := Apply(ThenStar(body, true, x), back, s, y);
            !r.hang && r.ys == if y == x then [x] else Star(body, true, back, s, y).ys
  {
    hide *;
    ApplyStar(body, true, back, s, x, y);
    EmptyIterationIs(true, x);
    JustIs([x]);
    StarFinds(body, true, back, s, y, Identity());
  }

  /** The turns of the loop. */
  lemma TurnsContinue(body: Node, back: bool, s: Subject, x: nat, ys: seq<nat>)
    requires Searches(body, back, s) && x <= |s.units| && AllToward(back, s, x, ys)
    ensures Continues(ThenStar(body, true, x), back, s, ys)
  {
    hide Apply, Searches, Star;
    forall y | y in ys
      ensures y <= |s.units| && !Apply(ThenStar(body, true, x), back, s, y).hang
    {
      var i :| 0 <= i < |ys| && ys[i] == y;
      TowardOf(back, s, x, ys, i);
      TurnIs(body, back, s, x, y);
    }
  }

  /** The loop offers what its turns offer, and then the start. */
  lemma StarTurns(body: Node, back: bool, s: Subject, x: nat)
    requires Searches(body, back, s) && x <= |s.units|
    ensures var ys := Results(body, back, s, x).ys;
            && AllToward(back, s, x, ys) && Continues(ThenStar(body, true, x), back, s, ys)
            && Star(body, true, back, s, x).ys == ApplyAll(ThenStar(body, true, x), back, s, x, Just(ys)).ys + [x]
  {
    hide *;
    var o := Results(body, back, s, x);
    ResultsAllToward(body, back, s, x);
    TurnsContinue(body, back, s, x, o.ys);
    SearchesAt(body, back, s, x, Identity());
    JustIs(o.ys);
    assert o == Just(o.ys);
    StarFinds(body, true, back, s, x, Identity());
    ApplyAllStar(body, true, back, s, x, o);
  }

  lemma LeadsHere(body: Node, back: bool, s: Subject, x: nat)
    ensures Leads(body, back, s, x, x, 0)
  {}

  lemma LeadsThrough(body: Node, back: bool, s: Subject, x: nat, y: nat, z: nat, k: nat)
    requires x <= |s.units| && y in Results(body, back, s, x).ys && Leads(body, back, s, y, z, k)
    ensures Leads(body, back, s, x, z, k + 1)
  {
    hide Results;
  }

  lemma LeadsFirst(body: Node, back: bool, s: Subject, x: nat, z: nat, k: nat) returns (y: nat)
    requires Leads(body, back, s, x, z, k) && k > 0
    ensures x <= |s.units| && y in Results(body, back, s, x).ys && Leads(body, back, s, y, z, k - 1)
  {
    hide Results;
    y :| y in Results(body, back, s, x).ys && Leads(body, back, s, y, z, k - 1);
  }

  lemma {:induction false} LeadsOn(body: Node, back: bool, s: Subject, x: nat, y: nat, z: nat, k: nat, l: nat)
    requires Leads(body, back, s, x, y, k) && Leads(body, back, s, y, z, l)
    ensures Leads(body, back, s, x, z, k + l)
    decreases k
  {
    hide Results;
    if k > 0 {
      var w := LeadsFirst(body, back, s, x, y, k);
      LeadsOn(body, back, s, w, y, z, k - 1, l);
      LeadsThrough(body, back, s, x, w, z, k - 1 + l);
    }
  }

  /** Every position iterations lead to is found. */
  lemma {:induction false} LedIsFound(body: Node, back: bool, s: Subject, x: nat, z: nat, k: nat)
    requires Searches(body, back, s) && x <= |s.units| && Leads(body, back, s, x, z, k)
    ensures z in Star(body, true, back, s, x).ys
    decreases k
  {
    StarTurns(body, back, s, x);
    if k > 0 {
      var y := LeadsFirst(body, back, s, x, z, k);
      hide *;
      var ys := Results(body, back, s, x).ys;
      var i :| 0 <= i < |ys| && ys[i] == y;
      TowardOf(back, s, x, ys, i);
      LedIsFound(body, back, s, y, z, k - 1);
      TurnIs(body, back, s, x, y);
      ApplyAllMembers(ThenStar(body, true, x), back, s, x, ys, z);
    }
  }

  /** Only such positions are. */
  lemma {:induction false} FoundIsLed(body: Node, back: bool, s: Subject, x: nat, z: nat) returns (k: nat)
    requires Searches(body, back, s) && x <= |s.units| && z in Star(body, true, back, s, x).ys
    ensures Leads(body, back, s, x, z, k)
    decreases Room(back, s, x)
  {
    hide *;
    StarTurns(body, back, s, x);
    k := 0;
    LeadsHere(body, back, s, x);
    if z != x {
      var ys := Results(body, back, s, x).ys;
      ApplyAllMembers(ThenStar(body, true, x), back, s, x, ys, z);
      var y :| y in ys && y <= |s.units| && z in Apply(ThenStar(body, true, x), back, s, y).ys;
      TurnIs(body, back, s, x, y);
      var i :| 0 <= i < |ys| && ys[i] == y;
      TowardOf(back, s, x, ys, i);
      k := FoundIsLed(body, back, s, y, z);
      LeadsThrough(body, back, s, x, y, z, k);
      k := k + 1;
    }
  }

  // ---- the empty match of the body ----

  /** Iterations from one of the starts lead to y. */
  ghost predicate LedTo(body: Node, back: bool, s: Subject, starts: seq<nat>, y: nat)
  {
    exists w, k :: w in starts && Leads(body, back, s, w, y, k)
  }

  /** Whatever the body offers at x besides the empty match, iterations from something it offers
      before the empty match lead to. */
  ghost predicate EmptyLeavesNothing(body: Node, back: bool, s: Subject, x: nat)
    requires x <= |s.units|
  {
    var ys := Results(body, back, s, x).ys;
    x in ys ==> forall y :: y in ys && y != x ==> LedTo(body, back, s, ys[..IndexOf(ys, x)], y)
  }

  /** Something new after the empty match, when that comes first in the second half. */
  lemma NewInSecond(u: seq<nat>, v: seq<nat>, x: nat)
    requires x !in u && |v| > 0 && v[0] == x
    ensures EmptyBeforeNew(u + v, x) <==> exists z :: z in v && z != x && z !in u
  {
    var w := u + v;
    if EmptyBeforeNew(w, x) {
      var j :| 0 <= j < |w| && x in w[..j] && w[j] !in w[..j];
      NewLies(u, v, x, j);
    }
    if z :| z in v && z != x && z !in u {
      var i := IndexOf(v, z);
      var j := |u| + i;
      assert w[..j] == u + v[..i] && w[j] == z && v[..i][0] == x;
    }
  }

  lemma NewLies(u: seq<nat>, v: seq<nat>, x: nat, j: nat)
    requires x !in u && j < |u + v| && x in (u + v)[..j] && (u + v)[j] !in (u + v)[..j]
    ensures (u + v)[j] in v && (u + v)[j] != x && (u + v)[j] !in u
  {
    var w := u + v;
    var i :| 0 <= i < j && w[i] == x && w[..j][i] == x;
    assert i >= |u| && w[j] == v[j - |u|];
    forall k | 0 <= k < |u|
      ensures u[k] != w[j]
    {
      assert w[..j][k] == u[k];
    }
  }

  lemma NotOffered(ys: seq<nat>, x: nat)
    requires x !in ys
    ensures !EmptyBeforeNew(ys, x)
  {
    assert forall j :: 0 <= j < |ys| ==> x !in ys[..j];
  }

  /** Turns that start beyond x do not come back to it. */
  lemma TurnBeyond(body: Node, back: bool, s: Subject, x: nat, y: nat)
    requires Searches(body, back, s) && Toward(back, s, x, y) && y != x
    ensures x !in Apply(ThenStar(body, true, x), back, s, y).ys
  {
    hide Apply, Searches, Star;
    TurnIs(body, back, s, x, y);
    var zs := Star(body, true, back, s, y).ys;
    StarToward(body, back, s, y);
    assert forall k :: 0 <= k < |zs| ==> Toward(back, s, y, zs[k]);
  }

  lemma StarToward(body: Node, back: bool, s: Subject, x: nat)
    requires x <= |s.units|
    ensures AllToward(back, s, x, Star(body, true, back, s, x).ys)
  {
    hide Star;
  }

  /** What the turns offer besides x: the positions led to from their starts besides x. */
  lemma TurnsOffer(body: Node, back: bool, s: Subject, x: nat, ys: seq<nat>, z: nat)
    requires Searches(body, back, s) && x <= |s.units| && AllToward(back, s, x, ys)
    ensures x in ApplyAll(ThenStar(body, true, x), back, s, x, Just(ys)).ys <==> x in ys
    ensures z != x ==> (z in ApplyAll(ThenStar(body, true, x), back, s, x, Just(ys)).ys <==>
                          exists y, k :: y in ys && y != x && Leads(body, back, s, y, z, k))
  {
    hide *;
    var t := ThenStar(body, true, x);
    TurnsContinue(body, back, s, x, ys);
    ApplyAllMembers(t, back, s, x, ys, x);
    ApplyAllMembers(t, back, s, x, ys, z);
    forall y | y in ys
      ensures y <= |s.units| && (x in Apply(t, back, s, y).ys <==> y == x)
      ensures z != x && z in Apply(t, back, s, y).ys ==> y != x && exists k :: Leads(body, back, s, y, z, k)
    {
      var i :| 0 <= i < |ys| && ys[i] == y;
      TowardOf(back, s, x, ys, i);
      TurnIs(body, back, s, x, y);
      if y != x {
        TurnBeyond(body, back, s, x, y);
        if z in Apply(t, back, s, y).ys {
          var k := FoundIsLed(body, back, s, y, z);
        }
      }
    }
    if y, k :| y in ys && y != x && Leads(body, back, s, y, z, k) {
      LedIsFound(body, back, s, y, z, k);
      TurnIs(body, back, s, x, y);
      assert z in Apply(t, back, s, y).ys;
    }
  }

  /** The loop offers nothing new after its start exactly when the body leaves nothing to the
      empty match. */
  lemma StarEndsExactly(body: Node, back: bool, s: Subject, x: nat)
    requires Searches(body, back, s) && x <= |s.units|
    ensures StarEndsHere(body, back, s, x) <==> EmptyLeavesNothing(body, back, s, x)
  {
    var ys, t := Results(body, back, s, x).ys, ThenStar(body, true, x);
    EndsHereIs(body, back, s, x);
    LeavesIs(body, back, s, x);
    hide *;
    StarTurns(body, back, s, x);
    TurnsOffer(body, back, s, x, ys, x);
    var W := ApplyAll(t, back, s, x, Just(ys)).ys;
    EmptyLastAppend(W, x);
    if x !in ys {
      NotOffered(W, x);
    } else {
      var a, b := ys[..IndexOf(ys, x)], ys[IndexOf(ys, x)..];
      assert ys == a + b && b[0] == x && x !in a;
      PartsToward(back, s, x, ys, IndexOf(ys, x));
      SplitAtEmpty(body, back, s, x, a, b);
      forall y
        ensures y in ys && y != x <==> (y in a || (y in b && y != x))
      {
      }
      AheadIsLed(body, back, s, a);
    }
  }

  lemma EndsHereIs(body: Node, back: bool, s: Subject, x: nat)
    requires x <= |s.units|
    ensures StarEndsHere(body, back, s, x) <==> !EmptyBeforeNew(Star(body, true, back, s, x).ys, x)
  {
    hide EmptyBeforeNew, Star;
  }

  lemma LeavesIs(body: Node, back: bool, s: Subject, x: nat)
    requires x <= |s.units|
    ensures var ys := Results(body, back, s, x).ys;
            EmptyLeavesNothing(body, back, s, x) <==>
              (x in ys ==> forall y :: y in ys && y != x ==> LedTo(body, back, s, ys[..IndexOf(ys, x)], y))
  {
    hide Results, LedTo;
  }

  lemma PartsToward(back: bool, s: Subject, x: nat, ys: seq<nat>, i: nat)
    requires AllToward(back, s, x, ys) && i <= |ys|
    ensures AllToward(back, s, x, ys[..i]) && AllToward(back, s, x, ys[i..])
  {
    hide Toward;
  }

  lemma AheadIsLed(body: Node, back: bool, s: Subject, a: seq<nat>)
    ensures forall y :: y in a ==> LedTo(body, back, s, a, y)
  {
    hide Leads;
    forall y | y in a
      ensures LedTo(body, back, s, a, y)
    {
      LeadsHere(body, back, s, y);
    }
  }

  lemma SplitAtEmpty(body: Node, back: bool, s: Subject, x: nat, a: seq<nat>, b: seq<nat>)
    requires Searches(body, back, s) && x <= |s.units| && AllToward(back, s, x, a) && AllToward(back, s, x, b)
    requires AllToward(back, s, x, a + b) && x !in a && |b| > 0 && b[0] == x
    ensures EmptyBeforeNew(ApplyAll(ThenStar(body, true, x), back, s, x, Just(a + b)).ys, x) <==>
      exists y :: y in b && y != x && !LedTo(body, back, s, a, y)
  {
    hide *;
    var t := ThenStar(body, true, x);
    JustIs(a);
    JustIs(b);
    var u, v := ApplyAll(t, back, s, x, Just(a)).ys, ApplyAll(t, back, s, x, Just(b)).ys;
    TurnsContinue(body, back, s, x, a);
    ApplyAllAppend(t, back, s, x, a, b);
    TurnsOffer(body, back, s, x, a, x);
    FirstTurn(body, back, s, x, b);
    NewInSecond(u, v, x);
    if z :| z in v && z != x && z !in u {
      TurnsOffer(body, back, s, x, b, z);
      TurnsOffer(body, back, s, x, a, z);
      var y, k :| y in b && y != x && Leads(body, back, s, y, z, k);
      if LedTo(body, back, s, a, y) {
        var w, l := LedFrom(body, back, s, a, y);
        LeadsOn(body, back, s, w, y, z, l, k);
        assert false;
      }
    }
    if y :| y in b && y != x && !LedTo(body, back, s, a, y) {
      TurnsOffer(body, back, s, x, b, y);
      TurnsOffer(body, back, s, x, a, y);
      LeadsHere(body, back, s, y);
      assert y in b && y != x && Leads(body, back, s, y, y, 0);
      assert exists w, k :: w in b && w != x && Leads(body, back, s, w, y, k);
      assert y in v;
      NotLed(body, back, s, a, y);
      assert y !in u;
    }
  }

  lemma LedFrom(body: Node, back: bool, s: Subject, a: seq<nat>, y: nat) returns (w: nat, k: nat)
    requires LedTo(body, back, s, a, y)
    ensures w in a && Leads(body, back, s, w, y, k)
  {
    hide Leads;
    w, k :| w in a && Leads(body, back, s, w, y, k);
  }

  lemma NotLed(body: Node, back: bool, s: Subject, a: seq<nat>, y: nat)
    requires !LedTo(body, back, s, a, y)
    ensures forall w, k :: w in a ==> !Leads(body, back, s, w, y, k)
  {
    hide Leads;
  }

  lemma FirstTurn(body: Node, back: bool, s: Subject, x: nat, b: seq<nat>)
    requires Searches(body, back, s) && x <= |s.units| && AllToward(back, s, x, b) && |b| > 0 && b[0] == x
    ensures var v := ApplyAll(ThenStar(body, true, x), back, s, x, Just(b)).ys; |v| > 0 && v[0] == x
  {
    hide *;
    JustIs(b);
    ApplyAllIs(ThenStar(body, true, x), back, s, x, Just(b));
    TurnIs(body, back, s, x, x);
    JoinBoth(Apply(ThenStar(body, true, x), back, s, x), ApplyAll(ThenStar(body, true, x), back, s, x, Just(b).Tail()));
  }

  /** Exactly, by the body: body* agrees with the standard everywhere if and only if, wherever the
      body matches the empty string, iterations from what it offers before that lead to
      everything else it offers. */
  lemma GreedyStarAgrees(body: Node, back: bool, s: Subject)
    requires Searches(body, back, s)
    ensures Searches(Quant(body, 0, INF, true), back, s) <==>
      forall x: nat :: x <= |s.units| ==> EmptyLeavesNothing(body, back, s, x)
  {
    hide *;
    StarAgreesEverywhere(body, back, s);
    forall x: nat | x <= |s.units|
      ensures StarEndsHere(body, back, s, x) <==> EmptyLeavesNothing(body, back, s, x)
    {
      StarEndsExactly(body, back, s, x);
    }
  }

  // ---- one bounded quantifier ----

  /** The standard's order for up to k iterations: an iteration that does not move is left out. */
  ghost function StandardUpTo(body: Node, greedy: bool, back: bool, s: Subject, k: nat, x: nat): (r: seq<nat>)
    requires x <= |s.units|
    decreases k, 0
  {
    if k == 0 then [x] else
    ResultsAllToward(body, back, s, x);
    var more := StandardTurns(body, greedy, back, s, k - 1, x, Results(body, back, s, x).ys);
    if greedy then more + [x] else [x] + more
  }

  ghost function StandardTurns(body: Node, greedy: bool, back: bool, s: Subject, k: nat, x: nat,
      ys: seq<nat>): (r: seq<nat>)
    requires x <= |s.units| && AllToward(back, s, x, ys)
    decreases k, 1, |ys|
  {
    if |ys| == 0 then [] else
    TowardOf(back, s, x, ys, 0);
    PartsToward(back, s, x, ys, 1);
    (if ys[0] == x then [] else StandardUpTo(body, greedy, back, s, k, ys[0]))
      + StandardTurns(body, greedy, back, s, k, x, ys[1..])
  }

  ghost function StandardSearch(body: Node, greedy: bool, back: bool, s: Subject, k: nat,
      c: nat -> Option<nat>): (e: nat -> Option<nat>)
  {
    (y: nat) => if y <= |s.units| then FirstOf(StandardUpTo(body, greedy, back, s, k, y), c) else None
  }

  lemma StandardSearchIs(body: Node, greedy: bool, back: bool, s: Subject, k: nat, c: nat -> Option<nat>, y: nat)
    requires y <= |s.units|
    ensures StandardSearch(body, greedy, back, s, k, c)(y) == FirstOf(StandardUpTo(body, greedy, back, s, k, y), c)
  {
    hide StandardUpTo, FirstOf;
  }

  lemma {:induction false} StandardTurnsFind(body: Node, greedy: bool, back: bool, s: Subject, k: nat, x: nat,
      ys: seq<nat>, c: nat -> Option<nat>)
    requires x <= |s.units| && AllToward(back, s, x, ys)
    ensures FirstOf(StandardTurns(body, greedy, back, s, k, x, ys), c)
      == FirstOf(ys, Without(StandardSearch(body, greedy, back, s, k, c), x))
    decreases |ys|
  {
    hide StandardUpTo, StandardSearch, Without, Toward;
    if |ys| > 0 {
      var e := StandardSearch(body, greedy, back, s, k, c);
      TowardOf(back, s, x, ys, 0);
      PartsToward(back, s, x, ys, 1);
      var u := if ys[0] == x then [] else StandardUpTo(body, greedy, back, s, k, ys[0]);
      FirstOfAppend(u, StandardTurns(body, greedy, back, s, k, x, ys[1..]), c);
      StandardTurnsFind(body, greedy, back, s, k, x, ys[1..], c);
      StandardSearchIs(body, greedy, back, s, k, c, ys[0]);
      WithoutIs(e, x, ys[0]);
    }
  }

  /** That is its order: every search with the standard's matcher finds the first in it. */
  lemma {:induction false} StandardOrder(body: Node, greedy: bool, back: bool, s: Subject, k: nat, x: nat,
      c: nat -> Option<nat>)
    requires Searches(body, back, s) && x <= |s.units| && k < INF
    ensures Repeat(body, 0, k, greedy, back, s, x, c) == FirstOf(StandardUpTo(body, greedy, back, s, k, x), c)
    decreases k
  {
    hide *;
    StandardUpToIs(body, greedy, back, s, k, x);
    RepeatIs(body, 0, k, greedy, back, s, x, c);
    FirstOfOne(x, c);
    if k > 0 {
      var e, ys := StandardSearch(body, greedy, back, s, k - 1, c), Results(body, back, s, x).ys;
      forall y | y in ys && y != x && y <= |s.units|
        ensures e(y) == Repeat(body, 0, k - 1, greedy, back, s, y, c)
      {
        StandardSearchIs(body, greedy, back, s, k - 1, c, y);
        StandardOrder(body, greedy, back, s, k - 1, y, c);
      }
      RepeatSearches(body, k, greedy, back, s, x, e, c);
      StandardTurnsFind(body, greedy, back, s, k - 1, x, ys, c);
      BesideList(greedy, StandardTurns(body, greedy, back, s, k - 1, x, ys), x, c);
      BesideIs(greedy, FirstOf(ys, Without(e, x)), c(x));
    }
  }

  lemma StandardUpToIs(body: Node, greedy: bool, back: bool, s: Subject, k: nat, x: nat)
    requires x <= |s.units|
    ensures k == 0 ==> StandardUpTo(body, greedy, back, s, k, x) == [x]
    ensures k > 0 ==>
            var ys := Results(body, back, s, x).ys;
            && AllToward(back, s, x, ys)
            && var more := StandardTurns(body, greedy, back, s, k - 1, x, ys);
               StandardUpTo(body, greedy, back, s, k, x) == if greedy then more + [x] else [x] + more
  {
    hide StandardTurns, Results;
    ResultsAllToward(body, back, s, x);
  }

  /** Exactly, for one quantifier at one position: body{0,k} agrees with the standard if and only if
      the loop and the standard, which leaves out iterations that do not move, come to the same
      positions for the first time in the same order. */
  lemma OneBoundedAgrees(body: Node, greedy: bool, back: bool, s: Subject, k: nat, x: nat)
    requires Searches(body, back, s) && x <= |s.units| && k < INF
    ensures AgreesAt(Quant(body, 0, k, greedy), back, s, x) <==>
      Firsts(UpTo(body, greedy, back, s, k, x).ys) == Firsts(StandardUpTo(body, greedy, back, s, k, x))
  {
    hide *;
    InfPositive();
    var n, us, zs := Quant(body, 0, k, greedy), UpTo(body, greedy, back, s, k, x).ys,
        StandardUpTo(body, greedy, back, s, k, x);
    QuantOptional(body, k, greedy, back, s, x);
    UpToFinds(body, greedy, back, s, k, x, Identity());
    AgreesIs(n, back, s, x);
    FirstsDecide(us, zs);
    forall c: nat -> Option<nat>
      ensures Matcher(n, back, s, x, c) == FirstOf(zs, c)
    {
      MatcherIs(n, back, s, x, c);
      StandardOrder(body, greedy, back, s, k, x, c);
    }
    AlikeFinds(n, back, s, x, us, zs);
  }

  lemma AlikeFinds(n: Node, back: bool, s: Subject, x: nat, us: seq<nat>, zs: seq<nat>)
    requires x <= |s.units| && forall c: nat -> Option<nat> :: Matcher(n, back, s, x, c) == FirstOf(zs, c)
    ensures FindsFirst(n, back, s, x, us) <==> Alike(us, zs)
  {
    hide Matcher, FirstOf;
    if FindsFirst(n, back, s, x, us) {
      forall c: nat -> Option<nat>
        ensures FirstOf(us, c) == FirstOf(zs, c)
      {
        assert Matcher(n, back, s, x, c) == FirstOf(us, c);
      }
    }
    if Alike(us, zs) {
      forall c: nat -> Option<nat>
        ensures Matcher(n, back, s, x, c) == FirstOf(us, c)
      {
        assert FirstOf(us, c) == FirstOf(zs, c);
      }
    }
  }
}
