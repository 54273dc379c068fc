/** How the run-length tables of cpp/src/quickjs/libunicode.c are written: run lengths into
    records, blocks of records into a table and its index. What the tables say, in terms of
    the runs alone. */
module UnicodeEncoding {
  import Powers
  import opened CharRanges
  import opened UnicodeTable

  // ---- records ----

  /** Two short runs in one byte, or one run in one, two or three bytes. */
  datatype Record = Pair(n0: nat, n1: nat) | OneByte(n: nat) | TwoBytes(n: nat) | ThreeBytes(n: nat)

  predicate Fits(r: Record)
  {
    match r
    case Pair(n0, n1) => 1 <= n0 <= 8 && 1 <= n1 <= 8
    case OneByte(n) => 1 <= n <= 0x80
    case TwoBytes(n) => 1 <= n <= 0x2000
    case ThreeBytes(n) => 1 <= n <= 0x20_0000
  }

  function RecordBytes(r: Record): (bytes: seq<Byte>)
    requires Fits(r)
    ensures 1 <= |bytes| <= 3
  {
    match r
    case Pair(n0, n1) => [8 * (n0 - 1) + (n1 - 1)]
    case OneByte(n) => [0x80 + (n - 1)]
    case TwoBytes(n) => [0x40 + (n - 1) / 0x100, (n - 1) % 0x100]
    case ThreeBytes(n) => [0x60 + (n - 1) / 0x1_0000, (n - 1) / 0x100 % 0x100, (n - 1) % 0x100]
  }

  function RecordRuns(r: Record): (runs: seq<nat>)
  {
    if r.Pair? then [r.n0, r.n1] else [r.n]
  }

  predicate AllFit(rs: seq<Record>)
  {
    forall r :: r in rs ==> Fits(r)
  }

  function Encode(rs: seq<Record>): (table: seq<Byte>)
    requires AllFit(rs)
  {
    if rs == [] then [] else RecordBytes(rs[0]) + Encode(rs[1..])
  }

  function Runs(rs: seq<Record>): (runs: seq<nat>)
  {
    if rs == [] then [] else RecordRuns(rs[0]) + Runs(rs[1..])
  }

  // ---- what runs say ----

  function Total(runs: seq<nat>): (n: nat)
  {
    if runs == [] then 0 else runs[0] + Total(runs[1..])
  }

  /** c lies in run k, counted from 0. */
  predicate InRun(runs: seq<nat>, c: nat, k: nat)
  {
    k < |runs| && Total(runs[..k]) <= c < Total(runs[..k + 1])
  }

  /** The runs alternate between characters without the property and characters with it. */
  ghost predicate Marked(runs: seq<nat>, c: nat)
  {
    exists k: nat :: k % 2 == 1 && InRun(runs, c, k)
  }

  /** c lies in a run with the property, where the first run has it or not. */
  ghost predicate MarkedFrom(runs: seq<nat>, first: bool, c: nat)
  {
    exists k: nat :: (k % 2 == 1) != first && InRun(runs, c, k)
  }

  lemma TotalCons(runs: seq<nat>, k: nat)
    requires k < |runs|
    ensures Total(runs[..0]) == 0 && Total(runs[..k + 1]) == runs[0] + Total(runs[1..][..k])
  {
    assert runs[..k + 1][1..] == runs[1..][..k];
  }

  lemma InRunCons(runs: seq<nat>, c: nat, k: nat)
    requires runs != []
    ensures InRun(runs, c, 0) <==> c < runs[0]
    ensures InRun(runs, c, k + 1) <==> c >= runs[0] && InRun(runs[1..], c - runs[0], k)
  {
    TotalCons(runs, 0);
    if k + 1 < |runs| {
      TotalCons(runs, k);
      TotalCons(runs, k + 1);
    }
  }

  lemma MarkedCons(runs: seq<nat>, first: bool, c: nat)
    requires runs != []
    ensures MarkedFrom(runs, first, c) <==>
      if c < runs[0] then first else MarkedFrom(runs[1..], !first, c - runs[0])
  {
    hide InRun;
    InRunCons(runs, c, 0);
    if MarkedFrom(runs, first, c) {
      var k: nat :| (k % 2 == 1) != first && InRun(runs, c, k);
      if k > 0 {
        InRunCons(runs, c, k - 1);
      }
    }
    if c < runs[0] {
      if first {
        assert (0 % 2 == 1) != first && InRun(runs, c, 0);
      }
    } else if MarkedFrom(runs[1..], !first, c - runs[0]) {
      var k: nat :| (k % 2 == 1) != !first && InRun(runs[1..], c - runs[0], k);
      InRunCons(runs, c, k);
      assert ((k + 1) % 2 == 1) != first;
    }
  }

  // ---- decoding what was encoded ----

  lemma DigitsOf(high: nat, b1: Byte, b2: Byte)
    ensures var v := high * 0x1_0000 + b1 * 0x100 + b2;
            v / 0x1_0000 == high && v / 0x100 % 0x100 == b1 && v % 0x100 == b2
  {
    var v: int, w: int := high * 0x1_0000 + b1 * 0x100 + b2, high * 0x100 + b1;
    Powers.DivModIs(v, 0x1_0000, high, b1 * 0x100 + b2);
    Powers.DivModIs(v, 0x100, w, b2);
    Powers.DivModIs(w, 0x100, high, b1);
  }

  /** A number by its two low bytes and the rest. */
  lemma DigitsSum(v: nat)
    ensures v == v / 0x1_0000 * 0x1_0000 + v / 0x100 % 0x100 * 0x100 + v % 0x100
  {
    var w := v / 0x100;
    assert v == w * 0x100 + v % 0x100 && w == w / 0x100 * 0x100 + w % 0x100;
    Powers.DivModIs(v, 0x1_0000, w / 0x100, w % 0x100 * 0x100 + v % 0x100);
  }

  lemma BytesIn(table: seq<Byte>, pos: nat, bytes: seq<Byte>)
    requires pos + |bytes| <= |table| && table[pos..pos + |bytes|] == bytes
    ensures forall i :: 0 <= i < |bytes| ==> table[pos + i] == bytes[i]
  {
    forall i | 0 <= i < |bytes|
      ensures table[pos + i] == bytes[i]
    {
      assert table[pos + i] == table[pos..pos + |bytes|][i];
    }
  }

  lemma AtRecord(table: seq<Byte>, pos: nat, r: Record)
    requires Fits(r) && pos + |RecordBytes(r)| <= |table| && table[pos..pos + |RecordBytes(r)|] == RecordBytes(r)
    ensures Whole(table, pos) && RunLength(table, pos) == RecordRuns(r)[0]
    ensures RecordSize(table[pos]) == |RecordBytes(r)|
    ensures table[pos] < 64 <==> r.Pair?
    ensures r.Pair? ==> SecondRun(table[pos]) == r.n1
  {
    BytesIn(table, pos, RecordBytes(r));
    if r.ThreeBytes? {
      DigitsSum(r.n - 1);
    }
  }

  lemma RunsCons(rs: seq<Record>)
    requires rs != []
    ensures Runs(rs) == RecordRuns(rs[0]) + Runs(rs[1..])
  {}

  lemma RecordTotal(r: Record)
    ensures RecordRuns(r) != [] && Total(RecordRuns(r)) == if r.Pair? then r.n0 + r.n1 else r.n
    ensures RecordRuns(r)[0] == if r.Pair? then r.n0 else r.n
  {
    assert r.Pair? ==> RecordRuns(r)[1..] == [r.n1] && [r.n1][1..] == [];
    assert !r.Pair? ==> RecordRuns(r)[1..] == [];
  }

  /** Decoding one record steps over its bytes and its runs. */
  lemma StepsOver(table: seq<Byte>, s: Cursor, r: Record)
    requires Fits(r) && s.pos + |RecordBytes(r)| <= |table|
    requires table[s.pos..s.pos + |RecordBytes(r)|] == RecordBytes(r)
    ensures Whole(table, s.pos)
    ensures Next(table, s) ==
      Cursor(s.pos + |RecordBytes(r)|, s.code + Total(RecordRuns(r)), if r.Pair? then s.bit else !s.bit)
  {
    hide RecordBytes, Whole, Total, RunLength;
    AtRecord(table, s.pos, r);
    RecordTotal(r);
  }

  lemma {:induction false} TotalAppend(a: seq<nat>, b: seq<nat>)
    ensures Total(a + b) == Total(a) + Total(b)
  {
    if a == [] {
      assert a + b == b;
    } else {
      assert (a + b)[1..] == a[1..] + b;
      TotalAppend(a[1..], b);
    }
  }

  /** What a record says of c before the runs that follow. */
  lemma MarkedRecord(r: Record, runs: seq<nat>, bit: bool, c: nat)
    requires Fits(r)
    ensures MarkedFrom(RecordRuns(r) + runs, bit, c) <==>
      if c < RecordRuns(r)[0] then bit
      else if c < Total(RecordRuns(r)) then !bit
      else MarkedFrom(runs, if r.Pair? then bit else !bit, c - Total(RecordRuns(r)))
  {
    hide MarkedFrom, Total;
    var all := RecordRuns(r) + runs;
    RecordTotal(r);
    MarkedCons(all, bit, c);
    if r.Pair? {
      assert all[1..] == [r.n1] + runs && ([r.n1] + runs)[1..] == runs;
      if c >= r.n0 {
        MarkedCons([r.n1] + runs, !bit, c - r.n0);
      }
    } else {
      assert all[1..] == runs;
    }
  }

  lemma EncodeCons(table: seq<Byte>, pos: nat, rs: seq<Record>)
    requires AllFit(rs) && rs != [] && pos <= |table| && table[pos..] == Encode(rs)
    ensures Fits(rs[0]) && AllFit(rs[1..]) && pos + |RecordBytes(rs[0])| <= |table|
    ensures table[pos..pos + |RecordBytes(rs[0])|] == RecordBytes(rs[0])
    ensures table[pos + |RecordBytes(rs[0])|..] == Encode(rs[1..])
  {
    hide RecordBytes;
    assert Encode(rs) == RecordBytes(rs[0]) + Encode(rs[1..]);
  }

  /** Wherever encoded records stand at the end of a table, decoding gives back their runs. */
  lemma {:induction false} DecodesBack(table: seq<Byte>, s: Cursor, rs: seq<Record>, c: nat)
    requires AllFit(rs) && s.pos <= |table| && table[s.pos..] == Encode(rs) && c >= s.code
    ensures Decodes(table, s) && EndCode(table, s) == s.code + Total(Runs(rs))
    ensures Holds(table, s, c) <==> MarkedFrom(Runs(rs), s.bit, c - s.code)
    decreases |rs|
  {
    hide *;
    if rs == [] {
      DecodesNone(table, s, c);
    } else {
      EncodeCons(table, s.pos, rs);
      StepsOver(table, s, rs[0]);
      AtRecord(table, s.pos, rs[0]);
      var t := Next(table, s);
      DecodesBack(table, t, rs[1..], if c < t.code then t.code else c);
      DecodesCons(table, s);
      HoldsNext(table, s, c);
      RunsCons(rs);
      TotalAppend(RecordRuns(rs[0]), Runs(rs[1..]));
      MarkedRecord(rs[0], Runs(rs[1..]), s.bit, c - s.code);
      RecordTotal(rs[0]);
    }
  }

  lemma DecodesNone(table: seq<Byte>, s: Cursor, c: nat)
    requires s.pos <= |table| && table[s.pos..] == Encode([])
    ensures Decodes(table, s) && EndCode(table, s) == s.code && !Holds(table, s, c)
    ensures AllFit([]) && Total(Runs([])) == 0 && forall first: bool, d: nat :: !MarkedFrom(Runs([]), first, d)
  {}

  lemma DecodesCons(table: seq<Byte>, s: Cursor)
    requires Whole(table, s.pos) && Decodes(table, Next(table, s))
    ensures Decodes(table, s) && s.pos < |table|
  {}

  /** A table holds the characters of its runs with odd numbers. */
  lemma EncodedHolds(rs: seq<Record>, c: nat)
    requires AllFit(rs)
    ensures Decodes(Encode(rs), Start) && EndCode(Encode(rs), Start) == Total(Runs(rs))
    ensures Holds(Encode(rs), Start, c) <==> Marked(Runs(rs), c)
  {
    var table := Encode(rs);
    assert table[0..] == table;
    DecodesBack(table, Start, rs, c);
    MarkedIs(Runs(rs), c);
    hide Encode, Decodes, Holds, EndCode, MarkedFrom, Marked;
  }

  lemma MarkedIs(runs: seq<nat>, c: nat)
    ensures Marked(runs, c) <==> MarkedFrom(runs, false, c)
  {
    if k: nat :| k % 2 == 1 && InRun(runs, c, k) {
      assert (k % 2 == 1) != false;
    }
  }

  // ---- every table is one ----

  /** The record at pos. */
  function RecordAt(table: seq<Byte>, pos: nat): (r: Record)
    requires Whole(table, pos)
  {
    var b: int := table[pos];
    if b < 64 then Pair(b / 8 + 1, b % 8 + 1)
    else if b >= 0x80 then OneByte(b - 0x80 + 1)
    else
      var b1: int := table[pos + 1];
      if b < 0x60 then TwoBytes((b - 0x40) * 0x100 + b1 + 1)
      else
        var b2: int := table[pos + 2];
        ThreeBytes((b - 0x60) * 0x1_0000 + b1 * 0x100 + b2 + 1)
  }

  lemma RecordAtIs(table: seq<Byte>, pos: nat)
    requires Whole(table, pos)
    ensures Fits(RecordAt(table, pos)) && |RecordBytes(RecordAt(table, pos))| == RecordSize(table[pos])
    ensures table[pos..pos + RecordSize(table[pos])] == RecordBytes(RecordAt(table, pos))
  {
    var b: int, s := table[pos], table[pos..pos + RecordSize(table[pos])];
    if b < 64 || b >= 0x80 {
      assert s == [table[pos]];
    } else if b < 0x60 {
      assert s == [table[pos], table[pos + 1]];
    } else {
      DigitsOf(b - 0x60, table[pos + 1], table[pos + 2]);
      assert s == [table[pos], table[pos + 1], table[pos + 2]];
    }
  }

  /** Whatever decodes to its end was encoded from some records. */
  lemma {:induction false} EveryTable(table: seq<Byte>, s: Cursor) returns (rs: seq<Record>)
    requires Decodes(table, s)
    ensures AllFit(rs) && s.pos <= |table| && table[s.pos..] == Encode(rs)
    decreases |table| - s.pos
  {
    if s.pos == |table| {
      rs := [];
    } else {
      DecodesParts(table, s);
      var r, t := RecordAt(table, s.pos), Next(table, s);
      RecordAtIs(table, s.pos);
      var rest := EveryTable(table, t);
      rs := [r] + rest;
      EncodeSnoc(table, s.pos, t.pos, r, rest);
    }
  }

  lemma EncodeSnoc(table: seq<Byte>, p: nat, q: nat, r: Record, rest: seq<Record>)
    requires p <= q <= |table| && Fits(r) && AllFit(rest) && table[p..q] == RecordBytes(r) && table[q..] == Encode(rest)
    ensures AllFit([r] + rest) && table[p..] == Encode([r] + rest)
  {
    hide RecordBytes;
    assert ([r] + rest)[1..] == rest;
    assert table[p..] == table[p..q] + table[q..];
  }

  // ---- the index ----

  /** Where record k starts: a table position and a character. */
  function PosOf(rs: seq<Record>, k: nat): (pos: nat)
    requires AllFit(rs) && k <= |rs|
  {
    |Encode(rs[..k])|
  }

  function CodeOf(rs: seq<Record>, k: nat): (code: nat)
    requires k <= |rs|
  {
    Total(Runs(rs[..k]))
  }

  /** Block i, from 1 on, starts with record cuts[i - 1], less than 8 bytes after 32 i, where the
      next run has not the property. Characters have 21 bits. */
  predicate Layout(rs: seq<Record>, cuts: seq<nat>)
  {
    && AllFit(rs) && Total(Runs(rs)) < 0x20_0000
    && forall i :: 0 <= i < |cuts| ==> CutFits(rs, cuts[i], i)
  }

  predicate CutFits(rs: seq<Record>, k: nat, i: nat)
    requires AllFit(rs)
  {
    && k <= |rs| && |Runs(rs[..k])| % 2 == 0 && CodeOf(rs, k) < 0x20_0000
    && 32 * (i + 1) <= PosOf(rs, k) < 32 * (i + 1) + 8
  }

  /** 21 bits of character and 3 bits of offset, least significant byte first. */
  function Entry(code: nat, offset: nat): (bytes: seq<Byte>)
    requires code < 0x20_0000 && offset < 8
    ensures |bytes| == 3
  {
    [code % 0x100, code / 0x100 % 0x100, code / 0x1_0000 + 0x20 * offset]
  }

  function IndexOf(rs: seq<Record>, cuts: seq<nat>): (index: seq<Byte>)
    requires Layout(rs, cuts)
    ensures |index| == 3 * |cuts| + 3
  {
    Entries(rs, cuts, |cuts|) + Entry(Total(Runs(rs)), 0)
  }

  function Entries(rs: seq<Record>, cuts: seq<nat>, n: nat): (index: seq<Byte>)
    requires Layout(rs, cuts) && n <= |cuts|
    ensures |index| == 3 * n
  {
    if n == 0 then [] else Entries(rs, cuts, n - 1) + EntryOf(rs, cuts, n - 1)
  }

  function EntryOf(rs: seq<Record>, cuts: seq<nat>, i: nat): (bytes: seq<Byte>)
    requires Layout(rs, cuts) && i < |cuts|
    ensures |bytes| == 3
  {
    Entry(CodeOf(rs, cuts[i]), PosOf(rs, cuts[i]) - 32 * (i + 1))
  }

  lemma EntryReads(index: seq<Byte>, i: nat, code: nat, offset: nat)
    requires code < 0x20_0000 && offset < 8 && 3 * i + 2 < |index| && index[3 * i..3 * i + 3] == Entry(code, offset)
    ensures Le24(index, i) == code + 0x20_0000 * offset
    ensures EntryCode(index, i) == code && EntryPos(index, i) == 32 * (i + 1) + offset
  {
    EntryValue(index, i, code, offset);
    hide Le24, Entry;
    Powers.DivModIs(Le24(index, i), 0x20_0000, offset, code);
  }

  lemma EntryValue(index: seq<Byte>, i: nat, code: nat, offset: nat)
    requires code < 0x20_0000 && offset < 8 && 3 * i + 2 < |index| && index[3 * i..3 * i + 3] == Entry(code, offset)
    ensures Le24(index, i) == code + 0x20_0000 * offset
  {
    BytesIn(index, 3 * i, Entry(code, offset));
    assert index[3 * i + 0] == Entry(code, offset)[0];
    DigitsSum(code);
  }

  lemma {:induction false} EntryIn(rs: seq<Record>, cuts: seq<nat>, n: nat, i: nat)
    requires Layout(rs, cuts) && i < n <= |cuts|
    ensures Entries(rs, cuts, n)[3 * i..3 * i + 3] == EntryOf(rs, cuts, i)
    decreases n
  {
    hide Layout, EntryOf;
    if i < n - 1 {
      EntryIn(rs, cuts, n - 1, i);
    }
  }

  /** Decoding passes every place where a record starts. */
  lemma {:induction false} PassesRecord(table: seq<Byte>, s: Cursor, rs: seq<Record>, k: nat)
    requires AllFit(rs) && k <= |rs| && s.pos <= |table| && table[s.pos..] == Encode(rs)
    ensures Passes(table, s, Cursor(s.pos + PosOf(rs, k), s.code + CodeOf(rs, k), (|Runs(rs[..k])| % 2 == 1) != s.bit))
    decreases k
  {
    hide *;
    if k == 0 {
      PassesNone(table, s, rs);
    } else {
      EncodeCons(table, s.pos, rs);
      StepsOver(table, s, rs[0]);
      PassesRecord(table, Next(table, s), rs[1..], k - 1);
      PlaceCons(rs, k);
      PassesCons(table, s,
        Cursor(s.pos + PosOf(rs, k), s.code + CodeOf(rs, k), (|Runs(rs[..k])| % 2 == 1) != s.bit));
    }
  }

  lemma PassesNone(table: seq<Byte>, s: Cursor, rs: seq<Record>)
    requires AllFit(rs)
    ensures Passes(table, s, Cursor(s.pos + PosOf(rs, 0), s.code + CodeOf(rs, 0), (|Runs(rs[..0])| % 2 == 1) != s.bit))
  {
    assert rs[..0] == [];
  }

  lemma PassesCons(table: seq<Byte>, s: Cursor, t: Cursor)
    requires Whole(table, s.pos) && Passes(table, Next(table, s), t)
    ensures Passes(table, s, t)
  {}

  lemma PlaceCons(rs: seq<Record>, k: nat)
    requires AllFit(rs) && 0 < k <= |rs|
    ensures PosOf(rs, k) == |RecordBytes(rs[0])| + PosOf(rs[1..], k - 1)
    ensures CodeOf(rs, k) == Total(RecordRuns(rs[0])) + CodeOf(rs[1..], k - 1)
    ensures |Runs(rs[..k])| == (if rs[0].Pair? then 2 else 1) + |Runs(rs[1..][..k - 1])|
  {
    hide Total, RecordBytes;
    assert rs[..k][1..] == rs[1..][..k - 1];
    TotalAppend(RecordRuns(rs[0]), Runs(rs[1..][..k - 1]));
  }

  /** The index so built is consistent with the table. */
  lemma IndexConsistent(rs: seq<Record>, cuts: seq<nat>)
    requires Layout(rs, cuts)
    ensures Consistent(Encode(rs), IndexOf(rs, cuts), |cuts| + 1)
  {
    hide *;
    LayoutParts(rs, cuts);
    var table, index, n := Encode(rs), IndexOf(rs, cuts), |cuts| + 1;
    EncodedHolds(rs, 0);
    LastEntry(rs, cuts);
    EntryReads(index, n - 1, Total(Runs(rs)), 0);
    forall i: nat | i < n - 1
      ensures Passes(table, Start, EntryCursor(index, i))
    {
      EntryPasses(rs, cuts, i);
    }
    ConsistentIntro(table, index, n);
  }

  lemma LayoutParts(rs: seq<Record>, cuts: seq<nat>)
    requires Layout(rs, cuts)
    ensures AllFit(rs) && Total(Runs(rs)) < 0x20_0000 && |IndexOf(rs, cuts)| == 3 * (|cuts| + 1)
    ensures forall i :: 0 <= i < |cuts| ==> CutFits(rs, cuts[i], i)
  {
    hide CutFits;
  }

  lemma LastEntry(rs: seq<Record>, cuts: seq<nat>)
    requires Layout(rs, cuts)
    ensures IndexOf(rs, cuts)[3 * |cuts|..3 * |cuts| + 3] == Entry(Total(Runs(rs)), 0)
  {
    hide CutFits, Entry;
  }

  lemma EntryPasses(rs: seq<Record>, cuts: seq<nat>, i: nat)
    requires Layout(rs, cuts) && i < |cuts|
    ensures Passes(Encode(rs), Start, EntryCursor(IndexOf(rs, cuts), i))
  {
    hide *;
    LayoutParts(rs, cuts);
    var table, k := Encode(rs), cuts[i];
    CutParts(rs, k, i);
    EntryInIndex(rs, cuts, i);
    EntryReads(IndexOf(rs, cuts), i, CodeOf(rs, k), PosOf(rs, k) - 32 * (i + 1));
    CursorIs(IndexOf(rs, cuts), i);
    assert table[0..] == table;
    PassesRecord(table, Cursor(0, 0, false), rs, k);
    StartIs();
  }

  lemma StartIs()
    ensures Start == Cursor(0, 0, false)
  {}

  lemma CursorIs(index: seq<Byte>, i: nat)
    requires 3 * i + 2 < |index|
    ensures EntryCursor(index, i) == Cursor(EntryPos(index, i), EntryCode(index, i), false)
  {}

  lemma CutParts(rs: seq<Record>, k: nat, i: nat)
    requires AllFit(rs) && CutFits(rs, k, i)
    ensures k <= |rs| && |Runs(rs[..k])| % 2 == 0 && CodeOf(rs, k) < 0x20_0000
    ensures 32 * (i + 1) <= PosOf(rs, k) < 32 * (i + 1) + 8
  {}

  lemma EntryInIndex(rs: seq<Record>, cuts: seq<nat>, i: nat)
    requires Layout(rs, cuts) && i < |cuts| && cuts[i] <= |rs|
    ensures CodeOf(rs, cuts[i]) < 0x20_0000 && 0 <= PosOf(rs, cuts[i]) - 32 * (i + 1) < 8
    ensures IndexOf(rs, cuts)[3 * i..3 * i + 3] == Entry(CodeOf(rs, cuts[i]), PosOf(rs, cuts[i]) - 32 * (i + 1))
  {
    hide Encode, Entry, Total, Runs, PosOf, CodeOf;
    EntryIn(rs, cuts, |cuts|, i);
    assert CutFits(rs, cuts[i], i);
    var entries, last := Entries(rs, cuts, |cuts|), Entry(Total(Runs(rs)), 0);
    assert (entries + last)[3 * i..3 * i + 3] == entries[3 * i..3 * i + 3];
  }

  lemma ConsistentIntro(table: seq<Byte>, index: seq<Byte>, n: nat)
    requires n >= 1 && |index| == 3 * n && Decodes(table, Start)
    requires forall i: nat :: i < n - 1 ==> Passes(table, Start, EntryCursor(index, i))
    requires Le24(index, n - 1) == EndCode(table, Start) < 0x20_0000
    ensures Consistent(table, index, n)
  {
    hide Passes, Decodes, EndCode, Le24, EntryCursor;
  }

  // ---- unicode_prop1 and lre_is_in_table on encoded runs ----

  /** The intervals collected are the runs with odd numbers. */
  method EncodedRanges(rs: seq<Record>, cr: CharRange)
    requires AllFit(rs) && cr.points == []
    modifies cr
    ensures |cr.points| % 2 == 0
    ensures forall c: nat :: Contains(cr.points, c) <==> Marked(Runs(rs), c)
  {
    hide *;
    EncodedHolds(rs, 0);
    PropertyRanges(Encode(rs), cr);
    forall c: nat
      ensures Contains(cr.points, c) <==> Marked(Runs(rs), c)
    {
      EncodedHolds(rs, c);
    }
  }

  /** The lookup through the index answers whether c lies in a run with an odd number. */
  method EncodedLookup(rs: seq<Record>, cuts: seq<nat>, c: nat) returns (r: bool)
    requires Layout(rs, cuts)
    ensures r <==> Marked(Runs(rs), c)
  {
    hide *;
    LayoutParts(rs, cuts);
    IndexConsistent(rs, cuts);
    EncodedHolds(rs, c);
    r := IsInTable(c, Encode(rs), IndexOf(rs, cuts), |cuts| + 1);
  }
}
