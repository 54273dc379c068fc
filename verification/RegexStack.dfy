/** The static stack analysis is sound (cpp/src/quickjs/libregexp.c,
    compute_stack_size): jumps land on instructions, the height at an instruction is
    the height counted along the code, on every run. */
module RegexStack {
  import opened RegexBytecode
  import opened RegexSyntax
  import opened RegexCode
  import opened RegexAnalysis
  import opened RegexCorrect
  import opened RegexLoops
  import opened RegexQuant

  /** Where instruction k begins. */
  function Addr(f: seq<Instr>, k: nat): (a: nat)
    requires k <= |f|
  {
    CodeSize(f[..k])
  }

  /** What the whole fragment adds to the height. */
  function Net(f: seq<Instr>): (h: int)
  {
    Height(f, |f|)
  }

  lemma {:induction false} HeightPrefix(a: seq<Instr>, c: seq<Instr>, k: nat)
    requires k <= |a|
    ensures Height(a + c, k) == Height(a, k)
  {
    if k > 0 {
      HeightPrefix(a, c, k - 1);
    }
  }

  lemma {:induction false} HeightSuffix(a: seq<Instr>, c: seq<Instr>, k: nat)
    requires k <= |c|
    ensures Height(a + c, |a| + k) == Net(a) + Height(c, k)
  {
    if k == 0 {
      HeightPrefix(a, c, |a|);
    } else {
      HeightSuffix(a, c, k - 1);
      assert (a + c)[|a| + k - 1] == c[k - 1];
    }
  }

  lemma NetConcat(a: seq<Instr>, c: seq<Instr>)
    ensures Net(a + c) == Net(a) + Net(c)
  {
    HeightSuffix(a, c, |c|);
  }

  lemma NetOne(i: Instr)
    ensures Net([i]) == Delta(i)
  {
    assert Height([i], 0) == 0;
  }

  lemma AddrPrefix(a: seq<Instr>, c: seq<Instr>, k: nat)
    requires k <= |a|
    ensures Addr(a + c, k) == Addr(a, k)
  {
    assert (a + c)[..k] == a[..k];
  }

  lemma AddrSuffix(a: seq<Instr>, c: seq<Instr>, k: nat)
    requires k <= |c|
    ensures Addr(a + c, |a| + k) == CodeSize(a) + Addr(c, k)
  {
    hide CodeSize;
    assert (a + c)[..|a| + k] == a + c[..k];
    SizeSplit(a, c[..k]);
  }

  /** From instruction k an offset leads to an instruction up to n, at height h. */
  ghost predicate Lands(f: seq<Instr>, n: nat, k: nat, off: int, h: int)
    requires n <= |f| && k < |f|
  {
    exists j :: 0 <= j <= n && Addr(f, j) == Addr(f, k + 1) + off && Height(f, j) == h
  }

  /** A simple body of count characters and its match stand after instruction k. */
  ghost predicate SimpleAfter(f: seq<Instr>, k: nat, count: nat)
    requires k < |f|
  {
    count > 0 && exists e :: k + 1 <= e < |f| && BodyEnds(f, k, e, count)
  }

  ghost predicate BodyEnds(f: seq<Instr>, k: nat, e: nat, count: nat)
    requires k + 1 <= e < |f|
  {
    f[e] == Match && SimpleCount(f[k + 1..e]) == count
  }

  ghost predicate JumpOk(f: seq<Instr>, n: nat, k: nat)
    requires n <= |f| && k < |f|
  {
    var h := Height(f, k);
    && (Delta(f[k]) < 0 || f[k].Loop? ==> h >= 1)
    && match f[k]
       case Goto(off) => Lands(f, n, k, off, h)
       case Split(_, off) => Lands(f, n, k, off, h)
       case Loop(off) => Lands(f, n, k, off, h)
       case Lookahead(_, off) => Lands(f, n, k, off, h)
       case BneCharPos(off) => Lands(f, n, k, off, h - 1)
       case SimpleGreedy(off, _, _, count) => Lands(f, n, k, off, h) && SimpleAfter(f, k, count)
       case _ => true
  }

  /** Every jump of the fragment stays in it. */
  ghost predicate Jumps(f: seq<Instr>)
  {
    forall k :: 0 <= k < |f| ==> JumpOk(f, |f|, k)
  }

  /** Jumps stay inside and the height at the end is the height at the start. */
  ghost predicate Steady(f: seq<Instr>)
  {
    Jumps(f) && Net(f) == 0
  }

  lemma LandsLeft(a: seq<Instr>, c: seq<Instr>, k: nat, off: int, h: int)
    requires k < |a| && Lands(a, |a|, k, off, h)
    ensures Lands(a + c, |a|, k, off, h)
  {
    hide CodeSize, Height, Addr;
    var j :| 0 <= j <= |a| && Addr(a, j) == Addr(a, k + 1) + off && Height(a, j) == h;
    AddrPrefix(a, c, j);
    AddrPrefix(a, c, k + 1);
    HeightPrefix(a, c, j);
  }

  lemma LandsRight(a: seq<Instr>, c: seq<Instr>, k: nat, off: int, h: int)
    requires k < |c| && Lands(c, |c|, k, off, h)
    ensures Lands(a + c, |a + c|, |a| + k, off, Net(a) + h)
  {
    hide CodeSize, Height, Addr, Net;
    var j :| 0 <= j <= |c| && Addr(c, j) == Addr(c, k + 1) + off && Height(c, j) == h;
    AddrSuffix(a, c, j);
    AddrSuffix(a, c, k + 1);
    HeightSuffix(a, c, j);
    assert 0 <= |a| + j <= |a + c|;
    assert |a| + k + 1 == |a| + (k + 1);
  }

  lemma SimpleLeft(a: seq<Instr>, c: seq<Instr>, k: nat, count: nat)
    requires k < |a| && SimpleAfter(a, k, count)
    ensures SimpleAfter(a + c, k, count)
  {
    hide SimpleCount;
    var e :| k + 1 <= e < |a| && BodyEnds(a, k, e, count);
    assert (a + c)[k + 1..e] == a[k + 1..e];
    assert BodyEnds(a + c, k, e, count);
  }

  lemma SimpleRight(a: seq<Instr>, c: seq<Instr>, k: nat, count: nat)
    requires k < |c| && SimpleAfter(c, k, count)
    ensures SimpleAfter(a + c, |a| + k, count)
  {
    hide SimpleCount;
    var e :| k + 1 <= e < |c| && BodyEnds(c, k, e, count);
    assert (a + c)[|a| + k + 1..|a| + e] == c[k + 1..e];
    assert BodyEnds(a + c, |a| + k, |a| + e, count);
  }

  lemma JumpLeft(a: seq<Instr>, c: seq<Instr>, k: nat)
    requires k < |a| && JumpOk(a, |a|, k)
    ensures JumpOk(a + c, |a|, k)
  {
    hide Lands, SimpleAfter, Height, Addr;
    HeightPrefix(a, c, k);
    var h, i := Height(a, k), a[k];
    assert (a + c)[k] == i;
    if i.Goto? || i.Split? || i.Loop? || i.Lookahead? || i.SimpleGreedy? {
      LandsLeft(a, c, k, i.off, h);
    }
    if i.BneCharPos? {
      LandsLeft(a, c, k, i.off, h - 1);
    }
    if i.SimpleGreedy? {
      SimpleLeft(a, c, k, i.count);
    }
  }

  lemma LandsFurther(f: seq<Instr>, n: nat, n': nat, k: nat)
    requires n <= n' <= |f| && k < |f| && JumpOk(f, n, k)
    ensures JumpOk(f, n', k)
  {
    hide Height, Addr, SimpleAfter;
  }

  lemma JumpRight(a: seq<Instr>, c: seq<Instr>, k: nat)
    requires k < |c| && JumpOk(c, |c|, k) && Net(a) >= 0
    ensures JumpOk(a + c, |a + c|, |a| + k)
  {
    hide Lands, SimpleAfter, Height, Addr, Net;
    HeightSuffix(a, c, k);
    var h, i := Height(c, k), c[k];
    assert (a + c)[|a| + k] == i;
    if i.Goto? || i.Split? || i.Loop? || i.Lookahead? || i.SimpleGreedy? {
      LandsRight(a, c, k, i.off, h);
    }
    if i.BneCharPos? {
      LandsRight(a, c, k, i.off, h - 1);
    }
    if i.SimpleGreedy? {
      SimpleRight(a, c, k, i.count);
    }
  }

  /** A fragment with jumps of its own inside a larger one. */
  lemma JumpsInside(a: seq<Instr>, c: seq<Instr>, d: seq<Instr>, k: nat)
    requires Jumps(c) && Net(a) >= 0 && |a| <= k < |a| + |c|
    ensures JumpOk(a + c + d, |a + c + d|, k)
  {
    hide JumpOk, Net;
    JumpRight(a, c, k - |a|);
    JumpLeft(a + c, d, k);
    LandsFurther(a + c + d, |a + c|, |a + c + d|, k);
  }

  lemma SteadyConcat(a: seq<Instr>, c: seq<Instr>)
    requires Steady(a) && Steady(c)
    ensures Steady(a + c)
  {
    hide JumpOk, Net;
    NetConcat(a, c);
    forall k | 0 <= k < |a + c|
      ensures JumpOk(a + c, |a + c|, k)
    {
      if k < |a| {
        JumpLeft(a, c, k);
        LandsFurther(a + c, |a|, |a + c|, k);
      } else {
        JumpRight(a, c, k - |a|);
      }
    }
  }

  /** A jump placed between p and s, whose target is the end of q. */
  lemma PlaceJump(p: seq<Instr>, i: Instr, s: seq<Instr>, q: seq<Instr>, r: seq<Instr>, off: int)
    requires p + [i] + s == q + r && CodeSize(q) == CodeSize(p) + InstrSize(i) + off
    ensures Height(p + [i] + s, |p|) == Net(p)
    ensures Lands(p + [i] + s, |p + [i] + s|, |p|, off, Net(q))
  {
    hide CodeSize, Height;
    var f := p + [i] + s;
    assert f == p + ([i] + s);
    HeightPrefix(p, [i] + s, |p|);
    HeightPrefix(q, r, |q|);
    assert f[..|p| + 1] == p + [i];
    SizeSplit(p, [i]);
    BytesOne(i);
    assert f[..|q|] == q;
    assert Addr(f, |q|) == Addr(f, |p| + 1) + off && Height(f, |q|) == Net(q);
  }

  /** A height is never negative where pops find something to pop. */
  lemma {:induction false} HeightNonnegative(f: seq<Instr>, k: nat)
    requires Jumps(f) && k <= |f|
    ensures Height(f, k) >= 0
  {
    if k > 0 {
      HeightNonnegative(f, k - 1);
      assert JumpOk(f, |f|, k - 1);
    }
  }

  // ---- the code of every pattern is steady ----

  /** Straight instructions. */
  predicate Plain(i: Instr)
  {
    Delta(i) == 0 && (IsChar(i) || IsTest(i) || i.Prev? || i.Match?)
  }

  lemma PlainSteady(i: Instr)
    requires Plain(i)
    ensures Steady([i]) && Net([i]) == 0
  {
    NetOne(i);
  }

  lemma NilSteady()
    ensures Steady([]) && Net([]) == 0
  {}

  lemma DeltaZero(i: Instr)
    requires i.Split? || i.Goto? || i.Loop? || i.Lookahead? || i.SimpleGreedy? || i.Match?
    ensures Delta(i) == 0
  {}

  /** Head and tail instruction around a steady fragment, with the head's jump behind the
      tail. */
  lemma SteadyAround(a: Instr, c: seq<Instr>, z: Instr)
    requires Steady(c) && z == Match && (a.Lookahead? || (a.SimpleGreedy? && SimpleCount(c) == a.count && a.count > 0))
      && a.off == CodeSize(c) + 1
    ensures Steady([a] + c + [z])
  {
    hide Height, CodeSize, SimpleCount, Lands, Net, Addr;
    var f := [a] + c + [z];
    NetOne(a);
    NetOne(z);
    DeltaZero(a);
    DeltaZero(z);
    NetConcat([a], c);
    NetConcat([a] + c, [z]);
    SizeSplit([a] + c, [z]);
    SizeSplit([a], c);
    BytesOne(a);
    BytesOne(z);
    NilNet();
    assert [] + [a] + (c + [z]) == f && f == f + [];
    PlaceJump([], a, c + [z], f, [], a.off);
    if a.SimpleGreedy? {
      assert f[1..1 + |c|] == c;
      assert BodyEnds(f, 0, 1 + |c|, a.count);
    }
    assert JumpOk(f, |f|, 0);
    forall k | 0 <= k < |f|
      ensures JumpOk(f, |f|, k)
    {
      hide JumpOk;
      if 1 <= k < 1 + |c| {
        JumpsInside([a], c, [z], k);
      } else if k == 1 + |c| {
        PlainJump(f, k);
      }
    }
  }

  lemma NilNet()
    ensures Net([]) == 0 && CodeSize([]) == 0
  {}

  lemma PlainJump(f: seq<Instr>, k: nat)
    requires k < |f| && (Plain(f[k]) || f[k].PushI32? || f[k].PushCharPos? || (f[k].Drop? && Height(f, k) >= 1))
    ensures JumpOk(f, |f|, k)
  {}

  lemma SteadyAlt(cl: seq<Instr>, cr: seq<Instr>)
    requires Steady(cl) && Steady(cr)
    ensures Steady([Split(true, CodeSize(cl) + 5)] + cl + [Goto(CodeSize(cr))] + cr)
  {
    hide Height, CodeSize, Lands, Net, Addr;
    var a, g := Split(true, CodeSize(cl) + 5), Goto(CodeSize(cr));
    var f := [a] + cl + [g] + cr;
    NetOne(a);
    NetOne(g);
    NetConcat([a], cl);
    NetConcat([a] + cl, [g]);
    NetConcat([a] + cl + [g], cr);
    SizeSplit([a], cl);
    SizeSplit([a] + cl, [g]);
    SizeSplit([a] + cl + [g], cr);
    BytesOne(a);
    BytesOne(g);
    NilNet();
    assert f == [] + [a] + (cl + [g] + cr);
    PlaceJump([], a, cl + [g] + cr, [a] + cl + [g], cr, a.off);
    assert f == f + [] && f == [a] + cl + [g] + cr && |[a] + cl| == 1 + |cl|;
    PlaceJump([a] + cl, g, cr, f, [], g.off);
    assert JumpOk(f, |f|, 0) && f[1 + |cl|] == g && JumpOk(f, |f|, 1 + |cl|);
    forall k | 0 <= k < |f|
      ensures JumpOk(f, |f|, k)
    {
      hide JumpOk;
      if 1 <= k < 1 + |cl| {
        JumpsInside([a], cl, [g] + cr, k);
        assert [a] + cl + ([g] + cr) == f;
      } else if k > 1 + |cl| {
        JumpsInside([a] + cl + [g], cr, [], k);
        assert f + [] == f;
      }
    }
  }

  lemma SteadyMaybe(c: seq<Instr>, greedy: bool)
    requires Steady(c)
    ensures Steady([Split(greedy, CodeSize(c))] + c)
  {
    hide Height, CodeSize, Lands, Net, Addr;
    var a := Split(greedy, CodeSize(c));
    var f := [a] + c;
    NetOne(a);
    NetConcat([a], c);
    SizeSplit([a], c);
    BytesOne(a);
    NilNet();
    assert f == [] + [a] + c && f == f + [];
    PlaceJump([], a, c, f, [], a.off);
    assert JumpOk(f, |f|, 0);
    forall k | 0 <= k < |f|
      ensures JumpOk(f, |f|, k)
    {
      hide JumpOk;
      if 1 <= k {
        JumpsInside([a], c, [], k);
      }
    }
  }

  lemma SteadyPlus(c: seq<Instr>, b: bool, off: int)
    requires Steady(c) && off + CodeSize(c) + 5 == 0
    ensures Steady(c + [Split(b, off)])
  {
    hide Height, CodeSize, Lands, Net, Addr;
    var z := Split(b, off);
    var f := c + [z];
    NetOne(z);
    NetConcat(c, [z]);
    BytesOne(z);
    NilNet();
    assert f == c + [z] + [] && f == [] + f;
    PlaceJump(c, z, [], [], f, off);
    assert JumpOk(f, |f|, |c|);
    forall k | 0 <= k < |f|
      ensures JumpOk(f, |f|, k)
    {
      hide JumpOk;
      if k < |c| {
        JumpsInside([], c, [z], k);
        assert [] + c + [z] == f;
      }
    }
  }

  lemma StarIsFlat(c: seq<Instr>, greedy: bool)
    ensures var len: int := CodeSize(c);
            && StarCode(c, greedy, false) == [Split(greedy, len + 5)] + c + [Goto(-(5 + len + 5))]
            && StarCode(c, greedy, true) == [Split(greedy, len + 6), PushCharPos] + c + [BneCharPos(-(6 + len + 5))]
  {
    hide CodeSize;
    StarCodeIs(c, greedy, false);
    StarCodeIs(c, greedy, true);
  }

  lemma SteadyStar(c: seq<Instr>, greedy: bool)
    requires Steady(c)
    ensures Steady(StarCode(c, greedy, false))
  {
    var len: int := CodeSize(c);
    var a, z := Split(greedy, len + 5), Goto(-(5 + len + 5));
    var f := [a] + c + [z];
    NetOne(a);
    NetOne(z);
    hide Height, CodeSize, Lands, Net, Addr;
    StarIsFlat(c, greedy);
    hide StarCode;
    NetConcat([a], c);
    NetConcat([a] + c, [z]);
    SizeSplit([a], c);
    SizeSplit([a] + c, [z]);
    BytesOne(a);
    BytesOne(z);
    NilNet();
    assert f == [] + [a] + (c + [z]) && f == f + [] && f == ([a] + c) + [z] + [] && f == [] + f;
    PlaceJump([], a, c + [z], f, [], a.off);
    PlaceJump([a] + c, z, [], [], f, z.off);
    assert JumpOk(f, |f|, 0) && f[1 + |c|] == z && JumpOk(f, |f|, 1 + |c|);
    forall k | 0 <= k < |f|
      ensures JumpOk(f, |f|, k)
    {
      hide JumpOk;
      if 1 <= k < 1 + |c| {
        JumpsInside([a], c, [z], k);
      }
    }
  }

  lemma SteadyCheckedStar(c: seq<Instr>, greedy: bool)
    requires Steady(c)
    ensures Steady(StarCode(c, greedy, true))
  {
    hide *;
    StarIsFlat(c, greedy);
    SteadyChecked(c, Split(greedy, CodeSize(c) + 6), BneCharPos(-(6 + (CodeSize(c) as int) + 5)),
      [Split(greedy, CodeSize(c) + 6), PushCharPos]);
  }

  lemma SteadyChecked(c: seq<Instr>, a: Instr, z: Instr, p: seq<Instr>)
    requires Steady(c) && a.Split? && a.off == CodeSize(c) + 6 && z.BneCharPos?
      && z.off == -(6 + (CodeSize(c) as int) + 5)
    requires p == [a, PushCharPos]
    ensures Steady(p + c + [z])
  {
    hide *;
    var f := p + c + [z];
    CheckedSums(c, a, z, p);
    CheckedHead(c, a, z, f);
    CheckedTail(p + c, z, f);
    SteadyBody(p, c, [z], f);
  }

  lemma CheckedSums(c: seq<Instr>, a: Instr, z: Instr, p: seq<Instr>)
    requires Steady(c) && a.Split? && z.BneCharPos? && p == [a, PushCharPos]
    ensures Net(p) == 1 && Net(p + c) == 1 && Net(p + c + [z]) == 0
    ensures CodeSize(p) == 6 && CodeSize(p + c) == 6 + CodeSize(c) && CodeSize(p + c + [z]) == 11 + CodeSize(c)
  {
    hide Height, CodeSize, Net, Jumps;
    NetOne(a);
    NetOne(z);
    NetOne(PushCharPos);
    assert p == [a] + [PushCharPos];
    NetConcat([a], [PushCharPos]);
    NetConcat(p, c);
    NetConcat(p + c, [z]);
    SizeSplit([a], [PushCharPos]);
    SizeSplit(p, c);
    SizeSplit(p + c, [z]);
    BytesOne(a);
    BytesOne(z);
    BytesOne(PushCharPos);
  }

  lemma CheckedHead(c: seq<Instr>, a: Instr, z: Instr, f: seq<Instr>)
    requires a.Split? && f == [a, PushCharPos] + c + [z] && Net(f) == 0 && CodeSize(f) == 5 + a.off
    ensures JumpOk(f, |f|, 0) && JumpOk(f, |f|, 1)
  {
    hide Height, CodeSize, Lands, Net, Addr;
    NilNet();
    BytesOne(a);
    assert f == [] + [a] + ([PushCharPos] + c + [z]) && f == f + [];
    PlaceJump([], a, [PushCharPos] + c + [z], f, [], a.off);
    PlainJump(f, 1);
  }

  lemma CheckedTail(g: seq<Instr>, z: Instr, f: seq<Instr>)
    requires z.BneCharPos? && f == g + [z] && CodeSize(g) + 5 + z.off == 0 && Net(g) == 1
    ensures JumpOk(f, |f|, |g|)
  {
    hide Height, CodeSize, Lands, Net, Addr, JumpOk;
    NilNet();
    BytesOne(z);
    assert f == g + [z] + [] && f == [] + f;
    PlaceJump(g, z, [], [], f, z.off);
    JumpBack(f, |g|);
  }

  lemma JumpBack(f: seq<Instr>, k: nat)
    requires k < |f| && f[k].BneCharPos? && Height(f, k) == 1 && Lands(f, |f|, k, f[k].off, 0)
    ensures JumpOk(f, |f|, k)
  {
    hide Height, Lands;
  }

  /** Steady code inside a frame whose own jumps are good. */
  lemma SteadyBody(p: seq<Instr>, c: seq<Instr>, d: seq<Instr>, f: seq<Instr>)
    requires Steady(c) && f == p + c + d && Net(p) >= 0 && Net(f) == 0
    requires forall k :: 0 <= k < |f| && !(|p| <= k < |p| + |c|) ==> JumpOk(f, |f|, k)
    ensures Steady(f)
  {
    hide JumpOk, Net;
    forall k | 0 <= k < |f|
      ensures JumpOk(f, |f|, k)
    {
      if |p| <= k < |p| + |c| {
        JumpsInside(p, c, d, k);
      }
    }
  }

  lemma SteadyTimes(c: seq<Instr>, k: nat)
    requires Steady(c)
    ensures Steady(TimesCode(c, k))
  {
    hide Height, CodeSize, Lands, Net, Addr;
    var len: int := CodeSize(c);
    var p, z := PushI32(k), Loop(-(len + 5));
    var f := [p] + c + [z] + [Drop];
    NetOne(p);
    NetOne(z);
    NetOne(Drop);
    assert TimesCode(c, k) == f;
    NetConcat([p], c);
    NetConcat([p] + c, [z]);
    NetConcat([p] + c + [z], [Drop]);
    SizeSplit([p], c);
    BytesOne(p);
    BytesOne(z);
    assert f == ([p] + c) + [z] + [Drop] && f == [p] + (c + [z] + [Drop]);
    PlaceJump([p] + c, z, [Drop], [p], c + [z] + [Drop], z.off);
    assert f[1 + |c|] == z && JumpOk(f, |f|, 1 + |c|);
    HeightPrefix([p] + c + [z], [Drop], |[p] + c + [z]|);
    NetIs([p] + c + [z]);
    PlainJump(f, 0);
    PlainJump(f, 2 + |c|);
    forall k | 0 <= k < |f|
      ensures JumpOk(f, |f|, k)
    {
      hide JumpOk;
      if 1 <= k < 1 + |c| {
        JumpsInside([p], c, [z] + [Drop], k);
        assert [p] + c + ([z] + [Drop]) == f;
      }
    }
  }

  lemma NetIs(f: seq<Instr>)
    ensures Net(f) == Height(f, |f|)
  {}

  lemma SteadyUpTo(c: seq<Instr>, greedy: bool, k: nat)
    requires Steady(c)
    ensures Steady(UpToCode(c, greedy, k))
  {
    hide *;
    var len: int := CodeSize(c);
    var p, a, z := PushI32(k), Split(greedy, len + 5), Loop(-(5 + len + 5));
    var h := [p] + [a];
    var f := h + c + [z] + [Drop];
    UpToIs(c, greedy, k);
    UpToSums(c, p, a, z, h, f);
    UpToHeadJump(c, p, a, z, h, f);
    UpToLoopJump(c, p, a, z, h, f);
    UpToDrop(h + c + [z], f);
    PlainJump(f, 0);
    assert f == h + c + ([z] + [Drop]);
    SteadyBody(h, c, [z] + [Drop], f);
  }

  lemma UpToIs(c: seq<Instr>, greedy: bool, k: nat)
    ensures var len: int := CodeSize(c);
            UpToCode(c, greedy, k) ==
            [PushI32(k)] + [Split(greedy, len + 5)] + c + [Loop(-(5 + len + 5))] + [Drop]
  {
    hide CodeSize;
  }

  lemma UpToSums(c: seq<Instr>, p: Instr, a: Instr, z: Instr, h: seq<Instr>, f: seq<Instr>)
    requires Steady(c) && p.PushI32? && a.Split? && z.Loop? && h == [p] + [a] && f == h + c + [z] + [Drop]
    ensures Net([p]) == 1 && Net(h) == 1 && Net(h + c) == 1 && Net(h + c + [z]) == 1 && Net(f) == 0
    ensures CodeSize([p]) == 5 && CodeSize(h) == 10 && CodeSize(h + c) == 10 + CodeSize(c)
      && CodeSize(h + c + [z]) == 15 + CodeSize(c)
  {
    hide Height, CodeSize, Net, Jumps;
    NetOne(p);
    NetOne(a);
    NetOne(z);
    NetOne(Drop);
    NetConcat([p], [a]);
    NetConcat(h, c);
    NetConcat(h + c, [z]);
    NetConcat(h + c + [z], [Drop]);
    SizeSplit([p], [a]);
    SizeSplit(h, c);
    SizeSplit(h + c, [z]);
    BytesOne(p);
    BytesOne(a);
    BytesOne(z);
  }

  lemma UpToHeadJump(c: seq<Instr>, p: Instr, a: Instr, z: Instr, h: seq<Instr>, f: seq<Instr>)
    requires a.Split? && h == [p] + [a] && f == h + c + [z] + [Drop] && Net([p]) == Net(h + c + [z])
    requires CodeSize(h + c + [z]) == CodeSize([p]) + 5 + a.off
    ensures JumpOk(f, |f|, 1)
  {
    hide Height, CodeSize, Lands, Net, Addr;
    assert f == [p] + [a] + (c + [z] + [Drop]) && f == (h + c + [z]) + [Drop];
    PlaceJump([p], a, c + [z] + [Drop], h + c + [z], [Drop], a.off);
  }

  lemma UpToLoopJump(c: seq<Instr>, p: Instr, a: Instr, z: Instr, h: seq<Instr>, f: seq<Instr>)
    requires z.Loop? && h == [p] + [a] && f == h + c + [z] + [Drop] && Net(h + c) == Net([p]) == 1
    requires CodeSize([p]) == CodeSize(h + c) + 5 + z.off
    ensures JumpOk(f, |f|, |h| + |c|)
  {
    hide Height, CodeSize, Lands, Net, Addr;
    assert f == (h + c) + [z] + [Drop] && f == [p] + ([a] + c + [z] + [Drop]);
    PlaceJump(h + c, z, [Drop], [p], [a] + c + [z] + [Drop], z.off);
  }

  lemma UpToDrop(g: seq<Instr>, f: seq<Instr>)
    requires f == g + [Drop] && Net(g) == 1
    ensures JumpOk(f, |f|, |g|)
  {
    hide Height, CodeSize, Lands, Addr, Net, JumpOk;
    HeightPrefix(g, [Drop], |g|);
    NetIs(g);
    PlainJump(f, |g|);
  }

  lemma SteadyOptional(c: seq<Instr>, min: nat, max: nat, greedy: bool)
    requires Steady(c)
    ensures Steady(OptionalCode(c, min, max, greedy))
  {
    hide *;
    OptionalCodeIs(c, min, max, greedy);
    if max == INF {
      if NeedsCheck(c, greedy) {
        SteadyCheckedStar(c, greedy);
      } else {
        SteadyStar(c, greedy);
      }
    } else if max > min {
      SteadyUpTo(c, greedy, max - min);
    } else {
      NilSteady();
    }
  }

  lemma SteadyMandatory(c: seq<Instr>, min: nat)
    requires Steady(c)
    ensures Steady(MandatoryCode(c, min))
  {
    hide Steady, TimesCode;
    if min != 1 {
      SteadyTimes(c, min);
    }
  }

  lemma SteadyQuant(c: seq<Instr>, min: nat, max: nat, greedy: bool)
    requires Steady(c)
    ensures Steady(QuantCode(c, min, max, greedy))
  {
    var len: int := CodeSize(c);
    if greedy && max > 0 && SimpleCount(c) > 0 {
      var a := SimpleGreedy(len + 1, min, max, SimpleCount(c));
      assert QuantCode(c, min, max, greedy)
        == [a] + c + [Match] by { hide Steady, SimpleCount, CodeSize, OptionalCode, MandatoryCode; }
      hide *;
      SteadyAround(a, c, Match);
    } else {
      hide *;
      QuantCodeIs(c, min, max, greedy);
      if min == 0 {
        if max == 0 {
          NilSteady();
        } else if max == 1 {
          SteadyMaybe(c, greedy);
        } else {
          SteadyOptional(c, 0, max, greedy);
        }
      } else if min == 1 && max == INF && !NeedsCheck(c, greedy) {
        SteadyPlus(c, !greedy, -(len + 5));
      } else {
        SteadyMandatory(c, min);
        SteadyOptional(c, min, max, greedy);
        SteadyConcat(MandatoryCode(c, min), OptionalCode(c, min, max, greedy));
      }
    }
  }

  lemma SteadyAtom(a: Atom, back: bool)
    ensures Steady(Code(Single(a), back))
  {
    var i := AtomInstr(a);
    assert Plain(i) && Plain(Prev) by { hide ClassPairs; }
    assert Code(Single(a), back) == if back then [Prev] + ([i] + [Prev]) else [i];
    hide *;
    PlainSteady(i);
    PlainSteady(Prev);
    SteadyConcat([i], [Prev]);
    SteadyConcat([Prev], [i] + [Prev]);
  }

  lemma SteadyTest(t: Assertion)
    ensures Steady([AssertionInstr(t)])
  {
    PlainSteady(AssertionInstr(t));
  }

  /** For every pattern: its jumps land on its own instructions, at the right height. */
  lemma {:induction false} SteadyCode(n: Node, back: bool)
    ensures Steady(Code(n, back))
    decreases n
  {
    hide Steady, CodeSize, QuantCode, AtomInstr, AssertionInstr;
    match n
    case Empty => NilSteady();
    case Single(a) => SteadyAtom(a, back);
    case Assert(t) => SteadyTest(t);
    case Cat(l, r) =>
      SteadyCode(l, back);
      SteadyCode(r, back);
      SteadyConcat(Code(l, back), Code(r, back));
      SteadyConcat(Code(r, back), Code(l, back));
    case Alt(l, r) =>
      SteadyCode(l, back);
      SteadyCode(r, back);
      SteadyAlt(Code(l, back), Code(r, back));
    case Look(neg, behind, body) =>
      SteadyCode(body, behind);
      SteadyAround(Lookahead(neg, CodeSize(Code(body, behind)) + 1), Code(body, behind), Match);
    case Quant(body, min, max, greedy) =>
      SteadyCode(body, back);
      SteadyQuant(Code(body, back), min, max, greedy);
  }
}
