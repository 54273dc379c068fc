/** Run-length tables of character properties (cpp/src/quickjs/libunicode.c,
    get_index_pos, lre_is_in_table, unicode_prop1): the indexed lookup agrees with the
    intervals that the plain decoding of the table produces. */
module UnicodeTable {
  import opened CharRanges

  type Byte = x: int | 0 <= x < 256

  // ---- plain decoding ----

  /** Where decoding stands: the next byte, the character reached, and the value of the run
      that comes next. */
  datatype Cursor = Cursor(pos: nat, code: nat, bit: bool)

  /** The length of a record and, where two runs share a byte, that of the first. */
  function RecordSize(b: Byte): (n: nat)
  {
    if b < 64 || b >= 0x80 then 1 else if b < 0x60 then 2 else 3
  }

  /** All bytes of the record are there. */
  predicate Whole(table: seq<Byte>, pos: nat)
  {
    pos < |table| && pos + RecordSize(table[pos]) <= |table|
  }

  /** Characters in the first run of the record; a second run follows for bytes below 64. */
  function RunLength(table: seq<Byte>, pos: nat): (n: nat)
    requires Whole(table, pos)
    ensures n >= 1
  {
    var b: int := table[pos];
    if b < 64 then b / 8 + 1
    else if b >= 0x80 then b - 0x80 + 1
    else
      var b1: int := table[pos + 1];
      if b < 0x60 then (b - 0x40) * 256 + b1 + 1
      else
        var b2: int := table[pos + 2];
        (b - 0x60) * 65536 + b1 * 256 + b2 + 1
  }

  function SecondRun(b: Byte): (n: nat) { b % 8 + 1 }

  /** One record further. */
  function Next(table: seq<Byte>, s: Cursor): (t: Cursor)
    requires Whole(table, s.pos)
    ensures t.code > s.code && s.pos < t.pos <= |table|
  {
    var b, e := table[s.pos], s.code + RunLength(table, s.pos);
    if b < 64 then Cursor(s.pos + 1, e + SecondRun(b), s.bit) else Cursor(s.pos + RecordSize(b), e, !s.bit)
  }

  /** The table decodes to its end without a cut record. */
  ghost predicate Decodes(table: seq<Byte>, s: Cursor)
    decreases |table| - s.pos
  {
    s.pos == |table| || (Whole(table, s.pos) && Decodes(table, Next(table, s)))
  }

  /** The character after the last one the table speaks of. */
  ghost function EndCode(table: seq<Byte>, s: Cursor): (c: nat)
    requires Decodes(table, s)
    ensures c >= s.code
    decreases |table| - s.pos
  {
    if s.pos == |table| then s.code else EndCode(table, Next(table, s))
  }

  /** What the table says of c, reading on from s. */
  ghost predicate Holds(table: seq<Byte>, s: Cursor, c: nat)
    requires Decodes(table, s)
    decreases |table| - s.pos
  {
    if s.pos == |table| then false
    else
      var e := s.code + RunLength(table, s.pos);
      if c < e then s.bit
      else if table[s.pos] < 64 && c < e + SecondRun(table[s.pos]) then !s.bit
      else Holds(table, Next(table, s), c)
  }

  const Start: Cursor := Cursor(0, 0, false)

  // ---- decoding from the middle ----

  /** Decoding from s passes through t. */
  ghost predicate Passes(table: seq<Byte>, s: Cursor, t: Cursor)
    decreases |table| - s.pos
  {
    s == t || (Whole(table, s.pos) && Passes(table, Next(table, s), t))
  }

  lemma {:induction false} PassesAgrees(table: seq<Byte>, s: Cursor, t: Cursor, c: nat)
    requires Decodes(table, s) && Passes(table, s, t) && c >= t.code
    ensures Decodes(table, t) && EndCode(table, t) == EndCode(table, s) && (Holds(table, s, c) <==> Holds(table, t, c))
    ensures t.code >= s.code
    decreases |table| - s.pos
  {
    if s != t {
      PassesAgrees(table, Next(table, s), t, c);
    }
  }

  // ---- unicode_prop1 ----

  /** The characters from a on, below e, that the table holds. */
  lemma {:induction false} HoldsBeyond(table: seq<Byte>, s: Cursor, c: nat)
    requires Decodes(table, s) && c >= EndCode(table, s)
    ensures !Holds(table, s, c)
    decreases |table| - s.pos
  {
    if s.pos != |table| {
      HoldsBeyond(table, Next(table, s), c);
      EndAtLeast(table, Next(table, s));
    }
  }

  lemma EndAtLeast(table: seq<Byte>, s: Cursor)
    requires Decodes(table, s)
    ensures EndCode(table, s) >= s.code
  {}

  /** What is collected before s, and what is left to decode from there on. */
  ghost predicate Collected(table: seq<Byte>, points: seq<nat>, s: Cursor)
    requires Decodes(table, s) && Decodes(table, Start)
  {
    && |points| % 2 == 0 && UpTo(points, s.code)
    && (forall c: nat :: c < s.code ==> (Holds(table, Start, c) <==> Contains(points, c)))
    && (forall c: nat :: c >= s.code ==> (Holds(table, Start, c) <==> Holds(table, s, c)))
  }

  lemma AddedInterval(points: seq<nat>, a: nat, e: nat, c: nat)
    requires |points| % 2 == 0
    ensures Contains(points + [a, e], c) <==> Contains(points, c) || a <= c < e
  {
    assert points + [a, e] == points + [a] + [e];
    InsideSnoc(points, a, e, c);
  }

  lemma NothingAbove(points: seq<nat>, v: nat, c: nat)
    requires UpTo(points, v) && c >= v
    ensures !Contains(points, c)
  {
    forall i: nat
      ensures !Inside(points, c, i)
    {
    }
  }

  /** The first run of a record, added if its value is one. */
  function WithRun(points: seq<nat>, bit: bool, a: nat, e: nat): (r: seq<nat>)
  {
    if bit then points + [a, e] else points
  }

  lemma WithRunContains(points: seq<nat>, bit: bool, a: nat, e: nat, c: nat)
    requires |points| % 2 == 0 && UpTo(points, a) && a <= e
    ensures |WithRun(points, bit, a, e)| % 2 == 0 && UpTo(WithRun(points, bit, a, e), e)
    ensures Contains(WithRun(points, bit, a, e), c) <==> Contains(points, c) || (bit && a <= c < e)
  {
    if bit {
      AddedInterval(points, a, e, c);
    }
  }

  /** All runs of the record at s. */
  function WithRecord(table: seq<Byte>, points: seq<nat>, s: Cursor): (r: seq<nat>)
    requires Whole(table, s.pos)
  {
    var b, e := table[s.pos], s.code + RunLength(table, s.pos);
    var r := WithRun(points, s.bit, s.code, e);
    if b < 64 then WithRun(r, !s.bit, e, e + SecondRun(b)) else r
  }

  lemma RecordContains(table: seq<Byte>, points: seq<nat>, s: Cursor, c: nat)
    requires Decodes(table, s) && s.pos != |table| && |points| % 2 == 0 && UpTo(points, s.code)
    ensures var r, t := WithRecord(table, points, s), Next(table, s);
            && |r| % 2 == 0 && UpTo(r, t.code)
            && (c < t.code ==> (Contains(r, c) <==> if c < s.code then Contains(points, c) else Holds(table, s, c)))
            && (c >= t.code ==> (Holds(table, s, c) <==> Holds(table, t, c)))
  {
    hide Contains, UpTo, RunLength;
    var b, e := table[s.pos], s.code + RunLength(table, s.pos);
    var r := WithRun(points, s.bit, s.code, e);
    WithRunContains(points, s.bit, s.code, e, c);
    if c >= s.code {
      NothingAbove(points, s.code, c);
    }
    if b < 64 {
      WithRunContains(r, !s.bit, e, e + SecondRun(b), c);
    }
  }

  lemma CollectedNext(table: seq<Byte>, points: seq<nat>, s: Cursor)
    requires Decodes(table, s) && Decodes(table, Start) && Collected(table, points, s) && s.pos != |table|
    ensures Decodes(table, Next(table, s)) && Collected(table, WithRecord(table, points, s), Next(table, s))
  {
    var r, t := WithRecord(table, points, s), Next(table, s);
    RecordContains(table, points, s, 0);
    forall c: nat
      ensures c < t.code ==> (Holds(table, Start, c) <==> Contains(r, c))
      ensures c >= t.code ==> (Holds(table, Start, c) <==> Holds(table, t, c))
    {
      RecordContains(table, points, s, c);
      hide Contains, Holds, UpTo, WithRecord;
    }
  }

  /** unicode_prop1: the intervals of the characters that the table holds. */
  method PropertyRanges(table: seq<Byte>, cr: CharRange)
    requires Decodes(table, Start) && cr.points == []
    modifies cr
    ensures |cr.points| % 2 == 0
    ensures forall c: nat :: Contains(cr.points, c) <==> Holds(table, Start, c)
  {
    hide Contains, Holds, Decodes, UpTo, Collected, RunLength;
    var p: nat, c: nat, bit := 0, 0, false;
    CollectedStart(table);
    while p < |table|
      invariant p <= |table| && Decodes(table, Cursor(p, c, bit)) && Collected(table, cr.points, Cursor(p, c, bit))
    {
      ghost var s := Cursor(p, c, bit);
      ghost var points := cr.points;
      DecodesParts(table, s);
      CollectedNext(table, points, s);
      var c0 := c;
      var b := table[p];
      c := c + RunLength(table, p);
      if b < 64 {
        if bit {
          cr.AddInterval(c0, c);
        }
        bit := !bit;
        c0 := c;
        c := c + SecondRun(b);
      }
      if bit {
        cr.AddInterval(c0, c);
      }
      bit := !bit;
      p := p + RecordSize(b);
    }
    CollectedAll(table, cr.points, Cursor(p, c, bit));
  }

  lemma DecodesParts(table: seq<Byte>, s: Cursor)
    requires Decodes(table, s)
    ensures s.pos <= |table|
    ensures s.pos < |table| ==> Whole(table, s.pos) && Decodes(table, Next(table, s))
  {}

  lemma CollectedStart(table: seq<Byte>)
    requires Decodes(table, Start)
    ensures Collected(table, [], Start)
  {}

  lemma CollectedAll(table: seq<Byte>, points: seq<nat>, s: Cursor)
    requires Decodes(table, s) && Decodes(table, Start) && Collected(table, points, s) && s.pos == |table|
    ensures |points| % 2 == 0 && forall c: nat :: Contains(points, c) <==> Holds(table, Start, c)
  {
    forall c: nat
      ensures Contains(points, c) <==> Holds(table, Start, c)
    {
      if c >= s.code {
        NothingAbove(points, s.code, c);
        HoldsBeyond(table, s, c);
      }
    }
  }

  // ---- the index ----

  const BLOCK_LEN: nat := 32

  /** get_le24. */
  function Le24(index: seq<Byte>, i: nat): (v: nat)
    requires 3 * i + 2 < |index|
  {
    var b0: int, b1: int, b2: int := index[3 * i], index[3 * i + 1], index[3 * i + 2];
    b0 + b1 * 256 + b2 * 65536
  }

  function EntryCode(index: seq<Byte>, i: nat): (c: nat)
    requires 3 * i + 2 < |index|
  {
    Le24(index, i) % 0x20_0000
  }

  function EntryPos(index: seq<Byte>, i: nat): (p: nat)
    requires 3 * i + 2 < |index|
  {
    (i + 1) * BLOCK_LEN + Le24(index, i) / 0x20_0000
  }

  /** Every entry but the last is a place that decoding passes with value zero; the last is the
      end of the table. */
  ghost predicate Consistent(table: seq<Byte>, index: seq<Byte>, n: nat)
  {
    && n >= 1 && |index| == 3 * n && Decodes(table, Start)
    && (forall i: nat :: i < n - 1 ==> Passes(table, Start, EntryCursor(index, i)))
    && Le24(index, n - 1) == EndCode(table, Start) < 0x20_0000
  }

  function EntryCursor(index: seq<Byte>, i: nat): (s: Cursor)
    requires 3 * i + 2 < |index|
  {
    Cursor(EntryPos(index, i), EntryCode(index, i), false)
  }

  /** get_index_pos: a place at or before c from which decoding can start; not found beyond the end. */
  method IndexPos(c: nat, ghost table: seq<Byte>, index: seq<Byte>, n: nat) returns (found: bool, pos: nat, code: nat)
    requires Consistent(table, index, n)
    ensures found <==> c < EndCode(table, Start)
    ensures found ==> Passes(table, Start, Cursor(pos, code, false)) && code <= c
  {
    hide Passes, Decodes, EndCode, Le24;
    var lo: nat := 0;
    if c < EntryCode(index, 0) {
      FirstBlock(table, index, n);
      return true, 0, 0;
    }
    var hi := n - 1;
    if c >= Le24(index, hi) {
      return false, 0, 0;
    }
    EntrySmall(index, n - 1);
    while hi - lo > 1
      invariant 0 <= lo < hi < n && EntryCode(index, lo) <= c
    {
      var mid := (hi + lo) / 2;
      if c < EntryCode(index, mid) {
        hi := mid;
      } else {
        lo := mid;
      }
    }
    assert Passes(table, Start, EntryCursor(index, lo));
    return true, EntryPos(index, lo), EntryCode(index, lo);
  }

  lemma EntrySmall(index: seq<Byte>, i: nat)
    requires 3 * i + 2 < |index|
    ensures Le24(index, i) < 0x20_0000 ==> EntryCode(index, i) == Le24(index, i)
  {}

  /** Before the first entry decoding starts at the beginning. */
  lemma FirstBlock(table: seq<Byte>, index: seq<Byte>, n: nat)
    requires Consistent(table, index, n)
    ensures EntryCode(index, 0) <= EndCode(table, Start) && Passes(table, Start, Start)
  {
    EntrySmall(index, n - 1);
    if n > 1 {
      hide Passes, Decodes, EndCode, Le24;
      var t := EntryCursor(index, 0);
      PassesAgrees(table, Start, t, t.code);
      EndAtLeast(table, t);
    }
  }

  // ---- lre_is_in_table ----

  /** Decoding on from s while c is not reached stays inside the table. */
  lemma NotAtEnd(table: seq<Byte>, s: Cursor, c: nat)
    requires Decodes(table, s) && s.code <= c < EndCode(table, s)
    ensures s.pos < |table| && Whole(table, s.pos)
  {}

  lemma HoldsNext(table: seq<Byte>, s: Cursor, c: nat)
    requires Decodes(table, s) && s.pos < |table|
    ensures Whole(table, s.pos) && Decodes(table, Next(table, s)) && EndCode(table, s) == EndCode(table, Next(table, s))
    ensures var e := s.code + RunLength(table, s.pos);
            Holds(table, s, c) <==>
              if c < e then s.bit
              else if table[s.pos] < 64 && c < e + SecondRun(table[s.pos]) then !s.bit
              else Holds(table, Next(table, s), c)
  {}

  /** lre_is_in_table: starting from the index and never reading outside the table, the answer
      of the plain decoding. */
  method IsInTable(c: nat, table: seq<Byte>, index: seq<Byte>, n: nat) returns (r: bool)
    requires Consistent(table, index, n)
    ensures Decodes(table, Start) && (r <==> Holds(table, Start, c))
  {
    hide Holds, Passes, Decodes, EndCode, RunLength;
    var found: bool, p: nat, code: nat := IndexPos(c, table, index, n);
    if !found {
      HoldsBeyond(table, Start, c);
      return false;
    }
    PassesAgrees(table, Start, Cursor(p, code, false), c);
    var bit := false;
    while true
      invariant Decodes(table, Cursor(p, code, bit)) && code <= c < EndCode(table, Cursor(p, code, bit))
      invariant Holds(table, Start, c) <==> Holds(table, Cursor(p, code, bit), c)
      decreases |table| - p
    {
      ghost var s := Cursor(p, code, bit);
      NotAtEnd(table, s, c);
      HoldsNext(table, s, c);
      var b := table[p];
      code := code + RunLength(table, p);
      if b < 64 {
        if c < code {
          return bit;
        }
        bit := !bit;
        code := code + SecondRun(b);
      }
      if c < code {
        return bit;
      }
      bit := !bit;
      p := p + RecordSize(b);
    }
  }

  /** The indexed lookup and the intervals of the plain decoding agree. */
  method LookupAgrees(table: seq<Byte>, index: seq<Byte>, n: nat, c: nat) returns (inTable: bool, ranges: CharRange)
    requires Consistent(table, index, n)
    ensures inTable <==> Contains(ranges.points, c)
    ensures |ranges.points| % 2 == 0
  {
    ranges := new CharRange();
    PropertyRanges(table, ranges);
    inTable := IsInTable(c, table, index, n);
  }
}
