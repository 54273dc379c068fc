/** What it means that a running machine offers an ordered list of results, and
    how such offers compose. */
module RegexRep {
  import opened RegexBytecode
  import opened RegexSyntax
  import opened RegexVM

  /** Where a fragment ends: next pc, and the stack, captures and saved states it leaves
      to its continuation. */
  datatype Exit = Exit(pc: nat, stack: seq<nat>, caps: seq<Option<nat>>, entries: seq<Entry>)

  ghost predicate NoLook(es: seq<Entry>)
  {
    forall k :: 0 <= k < |es| ==> es[k].kind == AtSplit || es[k].kind == AtGreedy
  }

  /** Leaving at y with the choice points x still open. */
  ghost function Leave(ex: Exit, y: nat, x: seq<Entry>): (c: Conf)
  {
    Running(State(ex.pc, y, ex.stack, ex.caps, ex.entries + x))
  }

  ghost function Backtrack(m: Machine, ex: Exit, x: seq<Entry>): (c: Conf)
  {
    Unwind(m, ex.entries + x, false, ex.caps)
  }

  // ---- running on without an end ----

  /** From c the machine comes to c', leaving through ex k times on the way, at positions in S,
      and backtracking each time. */
  ghost predicate Passes(m: Machine, c: Conf, c': Conf, k: nat, S: set<nat>, ex: Exit)
    decreases k
  {
    if k == 0 then Reaches(m, c, c')
    else exists y, x ::
         y in S && NoLook(x) && Reaches(m, c, Leave(ex, y, x)) && Passes(m, Backtrack(m, ex, x), c', k - 1, S, ex)
  }

  /** The machine takes at least n more steps, leaving through ex only at positions in S. */
  ghost predicate Busy(m: Machine, c: Conf, n: nat, S: set<nat>, ex: Exit)
    decreases n
  {
    n == 0 || exists c', k: nat :: Passes(m, c, c', k, S, ex) && c'.Running? && Busy(m, Step(m, c'), n - 1, S, ex)
  }

  lemma BusyNone(m: Machine, c: Conf, S: set<nat>, ex: Exit)
    ensures Busy(m, c, 0, S, ex)
  {}

  lemma BusyStep(m: Machine, c: Conf, n: nat, S: set<nat>, ex: Exit)
    requires n > 0 && c.Running? && Busy(m, Step(m, c), n - 1, S, ex)
    ensures Busy(m, c, n, S, ex)
  {
    hide Reaches, Step;
    ReachesRefl(m, c);
    assert Passes(m, c, c, 0, S, ex);
  }

  lemma BusyParts(m: Machine, c: Conf, n: nat, S: set<nat>, ex: Exit) returns (c': Conf, k: nat)
    requires n > 0 && Busy(m, c, n, S, ex)
    ensures Passes(m, c, c', k, S, ex) && c'.Running? && Busy(m, Step(m, c'), n - 1, S, ex)
  {
    hide Passes, Step;
    c', k :| Passes(m, c, c', k, S, ex) && c'.Running? && Busy(m, Step(m, c'), n - 1, S, ex);
  }

  lemma BusyIntro(m: Machine, c: Conf, c': Conf, k: nat, n: nat, S: set<nat>, ex: Exit)
    requires n > 0 && Passes(m, c, c', k, S, ex) && c'.Running? && Busy(m, Step(m, c'), n - 1, S, ex)
    ensures Busy(m, c, n, S, ex)
  {
    hide Passes, Step;
  }

  lemma PassesParts(m: Machine, c: Conf, c': Conf, k: nat, S: set<nat>, ex: Exit) returns (y: nat, x: seq<Entry>)
    requires k > 0 && Passes(m, c, c', k, S, ex)
    ensures y in S && NoLook(x) && Reaches(m, c, Leave(ex, y, x)) && Passes(m, Backtrack(m, ex, x), c', k - 1, S, ex)
  {
    hide Reaches, Unwind;
    y, x :| y in S && NoLook(x) && Reaches(m, c, Leave(ex, y, x)) && Passes(m, Backtrack(m, ex, x), c', k - 1, S, ex);
  }

  lemma PassesIntro(m: Machine, c: Conf, c': Conf, y: nat, x: seq<Entry>, k: nat, S: set<nat>, ex: Exit)
    requires y in S && NoLook(x) && Reaches(m, c, Leave(ex, y, x)) && Passes(m, Backtrack(m, ex, x), c', k, S, ex)
    ensures Passes(m, c, c', k + 1, S, ex)
  {
    hide Reaches, Unwind;
  }

  lemma PassesNone(m: Machine, c: Conf, c': Conf, S: set<nat>, ex: Exit)
    ensures Passes(m, c, c', 0, S, ex) <==> Reaches(m, c, c')
  {
    hide Reaches;
  }

  /** What happens later happens from now on. */
  lemma BusyAfter(m: Machine, c: Conf, c': Conf, n: nat, S: set<nat>, ex: Exit)
    requires Reaches(m, c, c') && Busy(m, c', n, S, ex)
    ensures Busy(m, c, n, S, ex)
  {
    hide *;
    if n == 0 {
      BusyNone(m, c, S, ex);
    } else {
      var c'', k := BusyParts(m, c', n, S, ex);
      if k == 0 {
        PassesNone(m, c', c'', S, ex);
        ReachesTrans(m, c, c', c'');
        PassesNone(m, c, c'', S, ex);
      } else {
        var y, x := PassesParts(m, c', c'', k, S, ex);
        ReachesTrans(m, c, c', Leave(ex, y, x));
        PassesIntro(m, c, c'', y, x, k - 1, S, ex);
      }
      BusyIntro(m, c, c'', k, n, S, ex);
    }
  }

  /** Leaving once more before. */
  lemma BusyOffer(m: Machine, c: Conf, y: nat, x: seq<Entry>, n: nat, S: set<nat>, ex: Exit)
    requires y in S && NoLook(x) && Reaches(m, c, Leave(ex, y, x)) && Busy(m, Backtrack(m, ex, x), n, S, ex)
    ensures Busy(m, c, n, S, ex)
  {
    hide *;
    if n == 0 {
      BusyNone(m, c, S, ex);
    } else {
      var c', k := BusyParts(m, Backtrack(m, ex, x), n, S, ex);
      PassesIntro(m, c, c', y, x, k, S, ex);
      BusyIntro(m, c, c', k + 1, n, S, ex);
    }
  }

  lemma ReachesOne(m: Machine, c: Conf)
    ensures Reaches(m, c, Step(m, c))
  {
    ReachesRefl(m, Step(m, c));
    ReachesStep(m, c, Step(m, c));
  }

  lemma {:induction false} PassesWider(m: Machine, c: Conf, c': Conf, k: nat, S: set<nat>,
      S': set<nat>, ex: Exit, e: seq<Entry>)
    requires Passes(m, c, c', k, S, ex.(entries := ex.entries + e)) && S <= S' && NoLook(e)
    ensures Passes(m, c, c', k, S', ex)
    decreases k
  {
    hide *;
    var inner := ex.(entries := ex.entries + e);
    if k == 0 {
      PassesNone(m, c, c', S, inner);
      PassesNone(m, c, c', S', ex);
    } else {
      var y, x := PassesParts(m, c, c', k, S, inner);
      InnerBacktrack(m, ex, e, x);
      InnerLeave(ex, e, x, y);
      NoLookAppend(e, x);
      PassesWider(m, Backtrack(m, inner, x), c', k - 1, S, S', ex, e);
      PassesIntro(m, c, c', y, e + x, k - 1, S', ex);
    }
  }

  /** More positions to leave at, and choice points below. */
  lemma {:induction false} BusyWider(m: Machine, c: Conf, n: nat, S: set<nat>, S': set<nat>, ex: Exit, e: seq<Entry>)
    requires Busy(m, c, n, S, ex.(entries := ex.entries + e)) && S <= S' && NoLook(e)
    ensures Busy(m, c, n, S', ex)
    decreases n
  {
    hide *;
    if n == 0 {
      BusyNone(m, c, S', ex);
    } else {
      var c', k := BusyParts(m, c, n, S, ex.(entries := ex.entries + e));
      PassesWider(m, c, c', k, S, S', ex, e);
      BusyWider(m, Step(m, c'), n - 1, S, S', ex, e);
      BusyIntro(m, c, c', k, n, S', ex);
    }
  }

  lemma InnerBacktrack(m: Machine, ex: Exit, x: seq<Entry>, x': seq<Entry>)
    ensures Backtrack(m, ex.(entries := ex.entries + x), x') == Backtrack(m, ex, x + x')
  {
    assert (ex.entries + x) + x' == ex.entries + (x + x');
  }

  lemma InnerLeave(ex: Exit, x: seq<Entry>, x': seq<Entry>, y: nat)
    ensures Leave(ex.(entries := ex.entries + x), y, x') == Leave(ex, y, x + x')
  {
    assert (ex.entries + x) + x' == ex.entries + (x + x');
  }

  lemma NoLookNil()
    ensures NoLook([])
  {}

  lemma NoLookAppend(x: seq<Entry>, y: seq<Entry>)
    requires NoLook(x) && NoLook(y)
    ensures NoLook(x + y)
  {}

  /** Without anything to leave at only steps are left, wherever the exit is. */
  lemma {:induction false} BusySilent(m: Machine, c: Conf, n: nat, ex: Exit, ex': Exit)
    requires Busy(m, c, n, {}, ex)
    ensures Busy(m, c, n, {}, ex') && (n > 0 ==> Steps(m, c, n - 1).Running?)
    decreases n
  {
    hide *;
    if n == 0 {
      BusyNone(m, c, {}, ex');
    } else {
      var c', k := BusyParts(m, c, n, {}, ex);
      if k > 0 {
        var y, x := PassesParts(m, c, c', k, {}, ex);
      }
      PassesNone(m, c, c', {}, ex);
      PassesNone(m, c, c', {}, ex');
      BusySilent(m, Step(m, c'), n - 1, ex, ex');
      BusyIntro(m, c, c', 0, n, {}, ex');
      SilentSteps(m, c, c', n);
    }
  }

  lemma SilentSteps(m: Machine, c: Conf, c': Conf, n: nat)
    requires n > 0 && Reaches(m, c, c') && c'.Running? && (n > 1 ==> Steps(m, Step(m, c'), n - 2).Running?)
    ensures Steps(m, c, n - 1).Running?
  {
    hide Step;
    var j: nat :| Steps(m, c, j) == c';
    assert n > 1 ==> Steps(m, c', n - 1) == Steps(m, Step(m, c'), n - 2);
    StepsAdd(m, c, j, n - 1);
    StillRunning(m, c, j + n - 1, n - 1);
  }

  lemma StillRunning(m: Machine, c: Conf, k: nat, n: nat)
    requires Steps(m, c, k).Running? && n <= k
    ensures Steps(m, c, n).Running?
  {
    hide Step;
    StepsAdd(m, c, n, k - n);
    if !Steps(m, c, n).Running? {
      StepsStay(m, Steps(m, c, n), k - n);
    }
  }

  lemma {:induction false} StepsStay(m: Machine, c: Conf, n: nat)
    requires !c.Running?
    ensures Steps(m, c, n) == c
    decreases n
  {
    if n > 0 {
      StepsStay(m, Step(m, c), n - 1);
    }
  }

  /** The machine never stops. */
  ghost predicate Diverges(m: Machine, c: Conf)
  {
    forall k: nat :: Steps(m, c, k).Running?
  }

  lemma SilentDiverges(m: Machine, c: Conf, ex: Exit)
    requires forall n: nat :: Busy(m, c, n, {}, ex)
    ensures Diverges(m, c)
  {
    hide Busy, Steps;
    forall k: nat
      ensures Steps(m, c, k).Running?
    {
      assert Busy(m, c, k + 1, {}, ex);
      BusySilent(m, c, k + 1, ex, ex);
    }
  }

  // ---- offers ----

  ghost function Elems(ys: seq<nat>): (S: set<nat>) { set y | y in ys }

  ghost predicate Covers(S: set<nat>, o: Found)
  {
    forall y :: y in o.ys ==> y in S
  }

  /** From c the machine leaves through ex at ys[0]; if the continuation fails, it leaves
      at ys[1], and so on. After the last it fails into the saved states of ex or, if it
      hangs, stays busy for at least n. Choice points it opens meanwhile are never
      lookahead marks. */
  ghost predicate OffersAt(m: Machine, c: Conf, o: Found, S: set<nat>, n: nat, ex: Exit)
    decreases |o.ys|
  {
    if |o.ys| == 0 then (if o.hang then Busy(m, c, n, S, ex) else Reaches(m, c, Backtrack(m, ex, [])))
    else exists x ::
         NoLook(x) && Reaches(m, c, Leave(ex, o.ys[0], x)) && OffersAt(m, Backtrack(m, ex, x), o.Tail(), S, n, ex)
  }

  /** The machine offers o, for any length of time. */
  ghost predicate Offers(m: Machine, c: Conf, o: Found, ex: Exit)
  {
    forall n: nat :: OffersAt(m, c, o, Elems(o.ys), n, ex)
  }

  lemma OffersCons(m: Machine, c: Conf, y: nat, x: seq<Entry>, o: Found, S: set<nat>, n: nat, ex: Exit)
    requires NoLook(x) && Reaches(m, c, Leave(ex, y, x)) && OffersAt(m, Backtrack(m, ex, x), o, S, n, ex)
    ensures OffersAt(m, c, Found([y] + o.ys, o.hang), S, n, ex)
  {
    hide Reaches, Unwind, Busy;
    var r := Found([y] + o.ys, o.hang);
    assert r.ys[1..] == o.ys;
    assert r.Tail() == o;
  }

  lemma OffersNil(m: Machine, c: Conf, o: Found, S: set<nat>, n: nat, ex: Exit)
    requires o.ys == []
    ensures OffersAt(m, c, o, S, n, ex) <==> if o.hang then Busy(m, c, n, S, ex)
      else Reaches(m, c, Backtrack(m, ex, []))
  {
    hide Reaches, Unwind, Busy;
  }

  lemma OffersHead(m: Machine, c: Conf, o: Found, S: set<nat>, n: nat, ex: Exit) returns (x: seq<Entry>)
    requires |o.ys| > 0 && OffersAt(m, c, o, S, n, ex)
    ensures NoLook(x) && Reaches(m, c, Leave(ex, o.ys[0], x)) && OffersAt(m, Backtrack(m, ex, x), o.Tail(), S, n, ex)
  {
    hide Reaches, Unwind, Busy;
    x :| NoLook(x) && Reaches(m, c, Leave(ex, o.ys[0], x)) && OffersAt(m, Backtrack(m, ex, x), o.Tail(), S, n, ex);
  }

  lemma {:induction false} OffersWider(m: Machine, c: Conf, o: Found, S: set<nat>, S': set<nat>, n: nat, ex: Exit)
    requires OffersAt(m, c, o, S, n, ex) && S <= S'
    ensures OffersAt(m, c, o, S', n, ex)
    decreases |o.ys|
  {
    hide *;
    if |o.ys| == 0 {
      OffersNil(m, c, o, S, n, ex);
      OffersNil(m, c, o, S', n, ex);
      if o.hang {
        assert ex.(entries := ex.entries + []) == ex;
        NoLookNil();
        BusyWider(m, c, n, S, S', ex, []);
      }
    } else {
      var x := OffersHead(m, c, o, S, n, ex);
      o.HeadTail();
      OffersWider(m, Backtrack(m, ex, x), o.Tail(), S, S', n, ex);
      OffersCons(m, c, o.ys[0], x, o.Tail(), S', n, ex);
    }
  }

  lemma OffersTo(m: Machine, c: Conf, o: Found, S: set<nat>, n: nat, ex: Exit)
    requires Offers(m, c, o, ex) && Covers(S, o)
    ensures OffersAt(m, c, o, S, n, ex)
  {
    hide OffersAt;
    OffersWider(m, c, o, Elems(o.ys), S, n, ex);
  }

  lemma OffersIntro(m: Machine, c: Conf, o: Found, ex: Exit)
    requires forall n: nat :: OffersAt(m, c, o, Elems(o.ys), n, ex)
    ensures Offers(m, c, o, ex)
  {
    hide OffersAt;
  }

  lemma OffersAfterAt(m: Machine, c: Conf, c': Conf, o: Found, S: set<nat>, n: nat, ex: Exit)
    requires Reaches(m, c, c') && OffersAt(m, c', o, S, n, ex)
    ensures OffersAt(m, c, o, S, n, ex)
  {
    hide *;
    if |o.ys| == 0 {
      OffersNil(m, c, o, S, n, ex);
      OffersNil(m, c', o, S, n, ex);
      if o.hang {
        BusyAfter(m, c, c', n, S, ex);
      } else {
        ReachesTrans(m, c, c', Backtrack(m, ex, []));
      }
    } else {
      var x := OffersHead(m, c', o, S, n, ex);
      ReachesTrans(m, c, c', Leave(ex, o.ys[0], x));
      OffersCons(m, c, o.ys[0], x, o.Tail(), S, n, ex);
      o.HeadTail();
    }
  }

  lemma OffersAfter(m: Machine, c: Conf, c': Conf, o: Found, ex: Exit)
    requires Reaches(m, c, c') && Offers(m, c', o, ex)
    ensures Offers(m, c, o, ex)
  {
    hide OffersAt, Reaches;
    forall n: nat
      ensures OffersAt(m, c, o, Elems(o.ys), n, ex)
    {
      OffersAfterAt(m, c, c', o, Elems(o.ys), n, ex);
    }
  }

  lemma OffersStep(m: Machine, c: Conf, o: Found, ex: Exit)
    requires Offers(m, Step(m, c), o, ex)
    ensures Offers(m, c, o, ex)
  {
    hide *;
    ReachesOne(m, c);
    OffersAfter(m, c, Step(m, c), o, ex);
  }

  lemma OffersOne(m: Machine, y: nat, ex: Exit)
    ensures Offers(m, Running(State(ex.pc, y, ex.stack, ex.caps, ex.entries)), Just([y]), ex)
  {
    hide OffersAt, Reaches, Unwind;
    var c := Running(State(ex.pc, y, ex.stack, ex.caps, ex.entries));
    assert ex.entries + [] == ex.entries;
    ReachesRefl(m, c);
    ReachesRefl(m, Backtrack(m, ex, []));
    forall n: nat
      ensures OffersAt(m, c, Just([y]), Elems([y]), n, ex)
    {
      OffersNil(m, Backtrack(m, ex, []), Just([]), Elems([y]), n, ex);
      OffersCons(m, c, y, [], Just([]), Elems([y]), n, ex);
      assert [y] + [] == [y];
    }
  }

  lemma OffersNone(m: Machine, ex: Exit)
    ensures Offers(m, Unwind(m, ex.entries, false, ex.caps), Just([]), ex)
  {
    hide OffersAt, Reaches, Unwind;
    assert ex.entries + [] == ex.entries;
    ReachesRefl(m, Backtrack(m, ex, []));
    forall n: nat
      ensures OffersAt(m, Unwind(m, ex.entries, false, ex.caps), Just([]), Elems([]), n, ex)
    {
      OffersNil(m, Unwind(m, ex.entries, false, ex.caps), Just([]), Elems([]), n, ex);
    }
  }

  /** First the results offered above the choice points x, then those offered by
      backtracking into x. */
  lemma {:induction false} OffersAppendAt(m: Machine, c: Conf, a: Found, b: Found, S: set<nat>,
      n: nat, ex: Exit, x: seq<Entry>)
    requires NoLook(x) && OffersAt(m, c, a, S, n, ex.(entries := ex.entries + x))
    requires !a.hang ==> OffersAt(m, Backtrack(m, ex, x), b, S, n, ex)
    ensures OffersAt(m, c, Join(a, b), S, n, ex)
    decreases |a.ys|
  {
    hide *;
    var inner := ex.(entries := ex.entries + x);
    JoinIs(a, b);
    if |a.ys| == 0 {
      OffersNil(m, c, a, S, n, inner);
      if a.hang {
        BusyWider(m, c, n, S, S, ex, x);
        OffersNil(m, c, a, S, n, ex);
      } else {
        InnerBacktrack(m, ex, x, []);
        assert x + [] == x;
        OffersAfterAt(m, c, Backtrack(m, ex, x), b, S, n, ex);
      }
    } else {
      var x' := OffersHead(m, c, a, S, n, inner);
      InnerBacktrack(m, ex, x, x');
      InnerLeave(ex, x, x', a.ys[0]);
      NoLookAppend(x, x');
      a.HeadTail();
      OffersAppendAt(m, Backtrack(m, inner, x'), a.Tail(), b, S, n, ex, x);
      OffersCons(m, c, a.ys[0], x + x', Join(a.Tail(), b), S, n, ex);
      JoinCons(a, b);
    }
  }

  lemma OffersAppend(m: Machine, c: Conf, a: Found, b: Found, ex: Exit, x: seq<Entry>)
    requires NoLook(x) && Offers(m, c, a, ex.(entries := ex.entries + x))
    requires !a.hang ==> Offers(m, Backtrack(m, ex, x), b, ex)
    ensures Offers(m, c, Join(a, b), ex)
  {
    hide OffersAt, Unwind;
    forall n: nat
      ensures OffersAt(m, c, Join(a, b), Elems(Join(a, b).ys), n, ex)
    {
      var S := Elems(Join(a, b).ys);
      OffersTo(m, c, a, S, n, ex.(entries := ex.entries + x));
      if !a.hang {
        OffersTo(m, Backtrack(m, ex, x), b, S, n, ex);
      }
      OffersAppendAt(m, c, a, b, S, n, ex, x);
    }
  }

  // ---- sequencing ----

  /** Each result continued by F. */
  ghost function Bind(o: Found, F: nat -> Found): (r: Found)
    decreases |o.ys|
  {
    if |o.ys| == 0 then o else Join(F(o.ys[0]), Bind(o.Tail(), F))
  }

  /** Entering at `at` on position y with any saved states offers f. */
  ghost predicate OffersFrom(m: Machine, at: Exit, y: nat, f: Found, ex: Exit)
  {
    forall es: seq<Entry> :: Offers(m, Running(State(at.pc, y, at.stack, at.caps, es)), f, ex.(entries := es))
  }

  ghost predicate OffersFromAt(m: Machine, at: Exit, y: nat, f: Found, S: set<nat>, n: nat, ex: Exit)
  {
    forall es: seq<Entry> :: OffersAt(m, Running(State(at.pc, y, at.stack, at.caps, es)), f, S, n, ex.(entries := es))
  }

  /** Being offered f and then busy is being busy. */
  lemma {:induction false} OffersThenBusy(m: Machine, c: Conf, f: Found, S: set<nat>, n: nat, ex: Exit, x: seq<Entry>)
    requires NoLook(x) && OffersAt(m, c, f, S, n, ex.(entries := ex.entries + x)) && Covers(S, f)
    requires !f.hang ==> Busy(m, Backtrack(m, ex, x), n, S, ex)
    ensures Busy(m, c, n, S, ex)
    decreases |f.ys|
  {
    hide *;
    var inner := ex.(entries := ex.entries + x);
    if |f.ys| == 0 {
      OffersNil(m, c, f, S, n, inner);
      if f.hang {
        BusyWider(m, c, n, S, S, ex, x);
      } else {
        InnerBacktrack(m, ex, x, []);
        assert x + [] == x;
        BusyAfter(m, c, Backtrack(m, ex, x), n, S, ex);
      }
    } else {
      var x' := OffersHead(m, c, f, S, n, inner);
      InnerBacktrack(m, ex, x, x');
      InnerLeave(ex, x, x', f.ys[0]);
      NoLookAppend(x, x');
      CoversParts(S, f);
      TailBusy(m, c, f, S, n, ex, x, x');
      BusyOffer(m, c, f.ys[0], x + x', n, S, ex);
    }
  }

  lemma TailBusy(m: Machine, c: Conf, f: Found, S: set<nat>, n: nat, ex: Exit, x: seq<Entry>, x': seq<Entry>)
    requires NoLook(x) && |f.ys| > 0 && Covers(S, f) && (!f.hang ==> Busy(m, Backtrack(m, ex, x), n, S, ex))
    requires OffersAt(m, Backtrack(m, ex, x + x'), f.Tail(), S, n, ex.(entries := ex.entries + x))
    ensures Busy(m, Backtrack(m, ex, x + x'), n, S, ex)
    decreases |f.ys|, 0
  {
    hide *;
    CoversParts(S, f);
    f.HeadTail();
    OffersThenBusy(m, Backtrack(m, ex, x + x'), f.Tail(), S, n, ex, x);
  }

  lemma CoversParts(S: set<nat>, o: Found)
    requires |o.ys| > 0 && Covers(S, o)
    ensures o.ys[0] in S && Covers(S, o.Tail())
  {}

  /** For n steps, F continues every position in T through ex, inside S. */
  ghost predicate Continues(m: Machine, mid: Exit, T: set<nat>, F: nat -> Found, S: set<nat>, n: nat, ex: Exit)
  {
    && mid.entries == ex.entries && mid.caps == ex.caps
    && forall y :: y in T ==> OffersFromAt(m, mid, y, F(y), S, n, ex) && Covers(S, F(y))
  }

  lemma ContinuesAt(m: Machine, mid: Exit, T: set<nat>, F: nat -> Found, S: set<nat>, n: nat,
      ex: Exit, y: nat, es: seq<Entry>)
    requires Continues(m, mid, T, F, S, n, ex) && y in T
    ensures mid.entries == ex.entries && mid.caps == ex.caps && Covers(S, F(y))
    ensures OffersAt(m, Running(State(mid.pc, y, mid.stack, mid.caps, es)), F(y), S, n, ex.(entries := es))
  {
    hide OffersAt, Covers;
    assert OffersFromAt(m, mid, y, F(y), S, n, ex);
  }

  lemma SameBacktrack(m: Machine, mid: Exit, ex: Exit, x: seq<Entry>)
    requires mid.entries == ex.entries && mid.caps == ex.caps
    ensures Backtrack(m, mid, x) == Backtrack(m, ex, x)
  {}

  lemma LeaveIsStart(mid: Exit, ex: Exit, y: nat, x: seq<Entry>)
    requires mid.entries == ex.entries && mid.caps == ex.caps
    ensures Leave(mid, y, x) == Running(State(mid.pc, y, mid.stack, mid.caps, ex.entries + x))
  {}

  lemma {:induction false} PassesBind(m: Machine, c: Conf, c': Conf, k: nat, T: set<nat>, F: nat -> Found, S: set<nat>,
      n: nat, mid: Exit, ex: Exit)
    requires Passes(m, c, c', k, T, mid) && Continues(m, mid, T, F, S, n, ex) && Busy(m, c', n, S, ex)
    ensures Busy(m, c, n, S, ex)
    decreases k
  {
    hide *;
    if k == 0 {
      PassesNone(m, c, c', T, mid);
      BusyAfter(m, c, c', n, S, ex);
    } else {
      var y, x := PassesParts(m, c, c', k, T, mid);
      ContinuesAt(m, mid, T, F, S, n, ex, y, ex.entries + x);
      SameBacktrack(m, mid, ex, x);
      LeaveIsStart(mid, ex, y, x);
      PassesBind(m, Backtrack(m, ex, x), c', k - 1, T, F, S, n, mid, ex);
      OffersThenBusy(m, Leave(mid, y, x), F(y), S, n, ex, x);
      BusyAfter(m, c, Leave(mid, y, x), n, S, ex);
    }
  }

  /** A fragment that stays busy, whose results are continued. */
  lemma {:induction false} BusyBind(m: Machine, c: Conf, n: nat, T: set<nat>, F: nat -> Found,
      S: set<nat>, mid: Exit, ex: Exit)
    requires Busy(m, c, n, T, mid) && forall j: nat :: j <= n ==> Continues(m, mid, T, F, S, j, ex)
    ensures Busy(m, c, n, S, ex)
    decreases n
  {
    hide *;
    if n == 0 {
      BusyNone(m, c, S, ex);
    } else {
      var c', k := BusyParts(m, c, n, T, mid);
      BusyBind(m, Step(m, c'), n - 1, T, F, S, mid, ex);
      BusyStep(m, c', n, S, ex);
      PassesBind(m, c, c', k, T, F, S, n, mid, ex);
    }
  }

  lemma BindIs(o: Found, F: nat -> Found)
    ensures |o.ys| == 0 ==> Bind(o, F) == o
    ensures |o.ys| > 0 ==> Bind(o, F) == Join(F(o.ys[0]), Bind(o.Tail(), F))
  {}

  /** No result before the end makes the continuation hang. */
  ghost predicate NoneHangs(ys: seq<nat>, F: nat -> Found)
  {
    forall y :: y in ys ==> !F(y).hang
  }

  /** The results before the first whose continuation hangs, and that one. */
  ghost predicate Live(ys: seq<nat>, F: nat -> Found, k: nat)
  {
    k < |ys| && NoneHangs(ys[..k], F)
  }

  lemma LiveCons(ys: seq<nat>, F: nat -> Found)
    requires |ys| > 0
    ensures Live(ys, F, 0)
    ensures !F(ys[0]).hang ==> forall k: nat ::
      k < |ys[1..]| && Live(ys[1..], F, k) ==> Live(ys, F, k + 1) && ys[1..][k] == ys[k + 1]
  {
    if !F(ys[0]).hang {
      forall k: nat | Live(ys[1..], F, k)
        ensures Live(ys, F, k + 1)
      {
        assert ys[..k + 1] == [ys[0]] + ys[1..][..k];
      }
    }
  }

  /** Sequencing. When everything returns but the first fragment itself, T is where it may leave
      while it stays busy. */
  lemma {:induction false} OffersBindAt(m: Machine, c: Conf, o: Found, F: nat -> Found, T: set<nat>, S: set<nat>,
      n: nat, mid: Exit, ex: Exit)
    requires OffersAt(m, c, o, T, n, mid) && mid.entries == ex.entries && mid.caps == ex.caps
    requires forall k: nat :: k < |o.ys| && Live(o.ys, F, k) ==> OffersFromAt(m, mid, o.ys[k], F(o.ys[k]), S, n, ex)
    requires o.hang && NoneHangs(o.ys, F) ==> forall j: nat :: j <= n ==> Continues(m, mid, T, F, S, j, ex)
    ensures OffersAt(m, c, Bind(o, F), S, n, ex)
    decreases |o.ys|
  {
    hide *;
    BindIs(o, F);
    if |o.ys| == 0 {
      NoneHangsNil(o.ys, F);
      OffersNil(m, c, o, T, n, mid);
      OffersNil(m, c, o, S, n, ex);
      if o.hang {
        BusyBind(m, c, n, T, F, S, mid, ex);
      } else {
        SameBacktrack(m, mid, ex, []);
      }
    } else {
      var y := o.ys[0];
      var x := OffersHead(m, c, o, T, n, mid);
      o.HeadTail();
      LeaveIsStart(mid, ex, y, x);
      SameBacktrack(m, mid, ex, x);
      LiveCons(o.ys, F);
      FromAt(m, mid, y, F(y), S, n, ex, ex.entries + x);
      NoneHangsCons(o.ys, F);
      if !F(y).hang {
        OffersBindAt(m, Backtrack(m, ex, x), o.Tail(), F, T, S, n, mid, ex);
      }
      OffersAppendAt(m, Leave(mid, y, x), F(y), Bind(o.Tail(), F), S, n, ex, x);
      OffersAfterAt(m, c, Leave(mid, y, x), Bind(o, F), S, n, ex);
    }
  }

  lemma NoneHangsNil(ys: seq<nat>, F: nat -> Found)
    requires ys == []
    ensures NoneHangs(ys, F)
  {}

  lemma NoneHangsCons(ys: seq<nat>, F: nat -> Found)
    requires |ys| > 0
    ensures ys[0] in ys && (forall y :: y in ys[1..] ==> y in ys)
    ensures NoneHangs(ys, F) <==> !F(ys[0]).hang && NoneHangs(ys[1..], F)
  {
    assert ys == [ys[0]] + ys[1..];
  }

  lemma FromAt(m: Machine, at: Exit, y: nat, f: Found, S: set<nat>, n: nat, ex: Exit, es: seq<Entry>)
    requires OffersFromAt(m, at, y, f, S, n, ex)
    ensures OffersAt(m, Running(State(at.pc, y, at.stack, at.caps, es)), f, S, n, ex.(entries := es))
  {
    hide OffersAt;
  }

  lemma FromOffers(m: Machine, at: Exit, y: nat, f: Found, S: set<nat>, n: nat, ex: Exit)
    requires OffersFrom(m, at, y, f, ex) && Covers(S, f)
    ensures OffersFromAt(m, at, y, f, S, n, ex)
  {
    hide OffersAt, Offers, Covers;
    forall es: seq<Entry>
      ensures OffersAt(m, Running(State(at.pc, y, at.stack, at.caps, es)), f, S, n, ex.(entries := es))
    {
      OffersTo(m, Running(State(at.pc, y, at.stack, at.caps, es)), f, S, n, ex.(entries := es));
    }
  }

  /** The whole sequence covers what the live results contribute. */
  lemma {:induction false} BindCovers(o: Found, F: nat -> Found, S: set<nat>, k: nat)
    requires Covers(S, Bind(o, F)) && Live(o.ys, F, k)
    ensures Covers(S, F(o.ys[k]))
    decreases |o.ys|
  {
    hide Bind;
    BindIs(o, F);
    LiveIs(o.ys, F, k);
    o.HeadTail();
    var a, b := F(o.ys[0]), Bind(o.Tail(), F);
    assert k > 0 ==> o.ys[..k][0] == o.ys[0];
    if !a.hang && k > 0 {
      assert o.ys[1..][..k - 1] == o.ys[..k][1..];
      NoneHangsCons(o.ys[..k], F);
      BindCovers(o.Tail(), F, S, k - 1);
    }
  }

  lemma AllLive(ys: seq<nat>, F: nat -> Found, k: nat)
    requires NoneHangs(ys, F) && k < |ys|
    ensures Live(ys, F, k)
  {}

  lemma OffersBind(m: Machine, c: Conf, o: Found, F: nat -> Found, mid: Exit, ex: Exit)
    requires Offers(m, c, o, mid) && mid.entries == ex.entries && mid.caps == ex.caps
    requires forall k :: 0 <= k < |o.ys| ==> OffersFrom(m, mid, o.ys[k], F(o.ys[k]), ex)
    ensures Offers(m, c, Bind(o, F), ex)
  {
    hide *;
    var S, T := Elems(Bind(o, F).ys), Elems(o.ys);
    ElemsCover(Bind(o, F));
    ElemsCover(o);
    forall n: nat
      ensures OffersAt(m, c, Bind(o, F), S, n, ex)
    {
      forall k: nat | k < |o.ys| && Live(o.ys, F, k)
        ensures OffersFromAt(m, mid, o.ys[k], F(o.ys[k]), S, n, ex)
      {
        BindCovers(o, F, S, k);
        FromOffers(m, mid, o.ys[k], F(o.ys[k]), S, n, ex);
      }
      if NoneHangs(o.ys, F) {
        forall j: nat | j <= n
          ensures Continues(m, mid, T, F, S, j, ex)
        {
          forall k | 0 <= k < |o.ys|
            ensures Covers(S, F(o.ys[k])) && OffersFromAt(m, mid, o.ys[k], F(o.ys[k]), S, j, ex)
          {
            AllLive(o.ys, F, k);
            BindCovers(o, F, S, k);
            FromOffers(m, mid, o.ys[k], F(o.ys[k]), S, j, ex);
          }
          ContinuesIntro(m, mid, o.ys, F, S, j, ex);
        }
      }
      OffersTo(m, c, o, T, n, mid);
      OffersBindAt(m, c, o, F, T, S, n, mid, ex);
    }
    OffersIntro(m, c, Bind(o, F), ex);
  }

  lemma LiveIs(ys: seq<nat>, F: nat -> Found, k: nat)
    requires Live(ys, F, k)
    ensures k < |ys|
  {}

  lemma ElemsCover(o: Found)
    ensures Covers(Elems(o.ys), o)
  {}

  lemma ContinuesIntro(m: Machine, mid: Exit, ys: seq<nat>, F: nat -> Found, S: set<nat>, n: nat, ex: Exit)
    requires mid.entries == ex.entries && mid.caps == ex.caps
    requires forall k :: 0 <= k < |ys| ==> Covers(S, F(ys[k])) && OffersFromAt(m, mid, ys[k], F(ys[k]), S, n, ex)
    ensures Continues(m, mid, Elems(ys), F, S, n, ex)
  {
    hide OffersFromAt, Covers;
  }

  // ---- looking at offers ----

  /** The first result is where the machine leaves first. */
  lemma OffersFirst(m: Machine, c: Conf, o: Found, ex: Exit) returns (x: seq<Entry>)
    requires Offers(m, c, o, ex)
    ensures |o.ys| > 0 ==> NoLook(x) && Reaches(m, c, Leave(ex, o.ys[0], x))
    ensures |o.ys| == 0 && !o.hang ==> Reaches(m, c, Unwind(m, ex.entries, false, ex.caps))
  {
    hide OffersAt, Reaches, Unwind;
    assert OffersAt(m, c, o, Elems(o.ys), 0, ex);
    if |o.ys| > 0 {
      x := OffersHead(m, c, o, Elems(o.ys), 0, ex);
    } else {
      x := [];
      OffersNil(m, c, o, Elems(o.ys), 0, ex);
      assert ex.entries + [] == ex.entries;
    }
  }

  /** Nothing found, and no end: wherever the exit is. */
  lemma OffersSilence(m: Machine, c: Conf, o: Found, ex: Exit, ex': Exit)
    requires Offers(m, c, o, ex) && o.ys == [] && o.hang
    ensures Offers(m, c, o, ex') && Diverges(m, c)
  {
    hide *;
    ElemsNil();
    forall n: nat
      ensures OffersAt(m, c, o, {}, n, ex') && Busy(m, c, n, {}, ex')
    {
      CoversNil(o);
      OffersTo(m, c, o, {}, n, ex);
      OffersNil(m, c, o, {}, n, ex);
      BusySilent(m, c, n, ex, ex');
      OffersNil(m, c, o, {}, n, ex');
    }
    OffersIntro(m, c, o, ex');
    SilentDiverges(m, c, ex');
  }

  lemma CoversNil(o: Found)
    requires o.ys == []
    ensures Covers({}, o)
  {}

  lemma ElemsNil()
    ensures Elems([]) == {}
  {}

  /** A result and a choice point, then whatever backtracking into it offers. */
  lemma OffersNext(m: Machine, c: Conf, y: nat, x: seq<Entry>, o: Found, ex: Exit)
    requires NoLook(x) && Reaches(m, c, Leave(ex, y, x)) && Offers(m, Backtrack(m, ex, x), o, ex)
    ensures Offers(m, c, Found([y] + o.ys, o.hang), ex)
  {
    hide *;
    var r := Found([y] + o.ys, o.hang);
    NextCovers(y, o);
    forall n: nat
      ensures OffersAt(m, c, r, Elems(r.ys), n, ex)
    {
      OffersTo(m, Backtrack(m, ex, x), o, Elems(r.ys), n, ex);
      OffersCons(m, c, y, x, o, Elems(r.ys), n, ex);
    }
    OffersIntro(m, c, r, ex);
  }

  lemma NextCovers(y: nat, o: Found)
    ensures Covers(Elems([y] + o.ys), o)
  {}

  /** A match discards choice points down to the nearest lookahead mark. */
  lemma {:induction false} MatchSkips(m: Machine, es: seq<Entry>, x: seq<Entry>, caps: seq<Option<nat>>)
    requires NoLook(x)
    ensures Unwind(m, es + x, true, caps) == Unwind(m, es, true, caps)
    decreases |x|
  {
    if |x| == 0 {
      assert es + x == es;
    } else {
      var n := |x| - 1;
      assert (es + x)[..|es + x| - 1] == es + x[..n];
      assert (es + x)[|es + x| - 1] == x[n];
      MatchSkips(m, es, x[..n], caps);
    }
  }
}
