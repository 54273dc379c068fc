/** The characters of a subject as ECMA-262 reads them from its code units (sections 10.1.1 to
    10.1.4 of the 2020 edition), where each of them stands, and that the machine's reading of
    code units forward and backward is a walk over them. */
module RegexCharacters {
  import opened RegexSyntax
  import opened RegexCorrect

  // ---- reading ----

  /** CodePointAt: the character at i and how many code units it takes. */
  function CodePointAt(s: Subject, i: nat): (r: (nat, nat))
    requires i < |s.units|
    ensures 1 <= r.1 <= |s.units| - i
  {
    var first := s.units[i];
    if !s.utf16 || first < 0xd800 || first > 0xdfff then (first, 1)
    else if first >= 0xdc00 || i + 1 == |s.units| then (first, 1)
    else
      var second := s.units[i + 1];
      if second < 0xdc00 || second > 0xdfff then (first, 1)
      else ((first - 0xd800) * 0x400 + (second - 0xdc00) + 0x1_0000, 2)
  }

  /** The characters from i on. */
  function Characters(s: Subject, i: nat): (chars: seq<nat>)
    requires i <= |s.units|
    decreases |s.units| - i
  {
    if i == |s.units| then [] else [CodePointAt(s, i).0] + Characters(s, i + CodePointAt(s, i).1)
  }

  /** Where character k stands, counted from i. */
  function Offset(s: Subject, i: nat, k: nat): (x: nat)
    requires i <= |s.units| && k <= |Characters(s, i)|
    ensures i <= x <= |s.units|
    decreases k
  {
    if k == 0 then i else Offset(s, i + CodePointAt(s, i).1, k - 1)
  }

  /** The index of the character that the code unit at x belongs to, counted from i. */
  function CharIndex(s: Subject, i: nat, x: nat): (k: nat)
    requires i <= x <= |s.units|
    ensures k <= |Characters(s, i)|
    decreases |s.units| - i
  {
    if i == |s.units| || x < i + CodePointAt(s, i).1 then 0 else 1 + CharIndex(s, i + CodePointAt(s, i).1, x)
  }

  // ---- the machine's reading ----

  lemma NextIs(s: Subject, i: nat)
    requires i < |s.units|
    ensures NextChar(s, i) == (CodePointAt(s, i).0, i + CodePointAt(s, i).1)
  {}

  /** Character k is read at its offset, and the next one follows it. */
  lemma {:induction false} OffsetReads(s: Subject, i: nat, k: nat)
    requires i <= |s.units| && k < |Characters(s, i)|
    ensures Offset(s, i, k) < |s.units| && NextChar(s, Offset(s, i, k)) == (Characters(s, i)[k], Offset(s, i, k + 1))
    decreases k
  {
    hide NextChar, CodePointAt;
    NextIs(s, i);
    if k > 0 {
      OffsetReads(s, i + CodePointAt(s, i).1, k - 1);
    }
  }

  lemma {:induction false} OffsetEnd(s: Subject, i: nat, k: nat)
    requires i <= |s.units| && k <= |Characters(s, i)|
    ensures Offset(s, i, k) == |s.units| <==> k == |Characters(s, i)|
    decreases k
  {
    if k > 0 {
      OffsetEnd(s, i + CodePointAt(s, i).1, k - 1);
    }
  }

  lemma {:induction false} OffsetAligned(s: Subject, i: nat, k: nat)
    requires i <= |s.units| && k <= |Characters(s, i)| && Aligned(s, i)
    ensures Aligned(s, Offset(s, i, k))
    decreases k
  {
    if k > 0 {
      NextIs(s, i);
      NextAligned(s, i);
      OffsetAligned(s, i + CodePointAt(s, i).1, k - 1);
    }
  }

  lemma {:induction false} OffsetOrder(s: Subject, i: nat, j: nat, k: nat)
    requires i <= |s.units| && j < k <= |Characters(s, i)|
    ensures Offset(s, i, j) < Offset(s, i, k)
    decreases k
  {
    if j > 0 {
      OffsetOrder(s, i + CodePointAt(s, i).1, j - 1, k - 1);
    }
  }

  /** One step back from a character is the character before it. */
  lemma OffsetBack(s: Subject, k: nat)
    requires 0 < k <= |Characters(s, 0)|
    ensures Offset(s, 0, k) > 0 && PrevPos(s, Offset(s, 0, k)) == Offset(s, 0, k - 1)
    ensures PeekPrev(s, Offset(s, 0, k)) == Characters(s, 0)[k - 1]
  {
    hide NextChar, CodePointAt, PrevPos, PeekPrev, Characters, Offset, Aligned;
    var x := Offset(s, 0, k - 1);
    AlignedZero(s);
    OffsetReads(s, 0, k - 1);
    OffsetAligned(s, 0, k - 1);
    OffsetAligned(s, 0, k);
    OffsetOrder(s, 0, k - 1, k);
    StepBackInverts(s, x);
    PrevAligned(s, Offset(s, 0, k));
  }

  lemma AlignedZero(s: Subject)
    ensures Aligned(s, 0)
  {}

  /** The positions outside surrogate pairs are where characters stand; from inside one, its
      start is. */
  lemma {:induction false} IndexOffset(s: Subject, i: nat, x: nat)
    requires i <= x <= |s.units| && Aligned(s, i)
    ensures Offset(s, i, CharIndex(s, i, x)) == if Aligned(s, x) then x else x - 1
    decreases |s.units| - i
  {
    if i < |s.units| {
      var j := i + CodePointAt(s, i).1;
      NextIs(s, i);
      NextAligned(s, i);
      if x >= j {
        IndexOffset(s, j, x);
      }
    }
  }

  // ---- UTF-16 ----

  /** UTF16Encoding of one character. */
  function Utf16Unit(c: nat): (units: seq<nat>)
    requires c <= 0x10_ffff
    ensures |units| == if c <= 0xffff then 1 else 2
  {
    if c <= 0xffff then [c] else [(c - 0x1_0000) / 0x400 + 0xd800, (c - 0x1_0000) % 0x400 + 0xdc00]
  }

  predicate CodePoints(cs: seq<nat>)
  {
    forall k :: 0 <= k < |cs| ==> cs[k] <= 0x10_ffff
  }

  function Utf16(cs: seq<nat>): (units: seq<nat>)
    requires CodePoints(cs)
  {
    if cs == [] then [] else Utf16Unit(cs[0]) + Utf16(cs[1..])
  }

  /** No two lone surrogates that would read as one character. */
  predicate Separate(cs: seq<nat>)
  {
    forall k :: 0 <= k < |cs| - 1 ==> !(0xd800 <= cs[k] < 0xdc00 && 0xdc00 <= cs[k + 1] < 0xe000)
  }

  lemma ReadsOne(s: Subject, i: nat, c: nat, rest: seq<nat>)
    requires s.utf16 && i <= |s.units| && c <= 0x10_ffff && s.units[i..] == Utf16Unit(c) + rest
    ensures i < |s.units|
    ensures c <= 0xffff && !(0xd800 <= c < 0xdc00 && rest != [] && 0xdc00 <= rest[0] < 0xe000) ==>
      CodePointAt(s, i) == (c, 1)
    ensures c <= 0xffff && 0xd800 <= c < 0xdc00 && rest != [] && 0xdc00 <= rest[0] < 0xe000 ==>
      CodePointAt(s, i).0 != c
    ensures c > 0xffff ==> CodePointAt(s, i) == (c, 2)
    ensures s.units[i + |Utf16Unit(c)|..] == rest
  {
    var t, n := s.units[i..], |Utf16Unit(c)|;
    assert s.units[i] == t[0];
    if |t| > 1 {
      assert s.units[i + 1] == t[1];
    }
    if c <= 0xffff && rest != [] {
      assert t[1] == rest[0];
    }
    assert (Utf16Unit(c) + rest)[n..] == rest && s.units[i..][n..] == s.units[i + n..];
  }

  lemma FirstUnit(cs: seq<nat>)
    requires CodePoints(cs) && cs != []
    ensures Utf16(cs) != [] && (0xdc00 <= Utf16(cs)[0] < 0xe000 <==> 0xdc00 <= cs[0] < 0xe000)
  {}

  /** Reading what was encoded gives the characters back exactly when no two of them join. */
  lemma {:induction false} EncodedReads(s: Subject, i: nat, cs: seq<nat>)
    requires s.utf16 && i <= |s.units| && CodePoints(cs) && s.units[i..] == Utf16(cs)
    ensures Characters(s, i) == cs <==> Separate(cs)
    decreases |cs|
  {
    hide CodePointAt, Utf16Unit;
    if cs != [] {
      var c, rest := cs[0], cs[1..];
      ReadsOne(s, i, c, Utf16(rest));
      if rest != [] {
        FirstUnit(rest);
        assert rest[0] == cs[1];
      }
      SeparateCons(cs);
      var j := i + CodePointAt(s, i).1;
      if CodePointAt(s, i).0 == c {
        EncodedReads(s, j, rest);
        assert Characters(s, i)[1..] == Characters(s, j);
        assert cs == [c] + rest;
      }
    }
  }

  lemma SeparateCons(cs: seq<nat>)
    requires cs != []
    ensures Separate(cs) <==>
      Separate(cs[1..]) && !(|cs| > 1 && 0xd800 <= cs[0] < 0xdc00 && 0xdc00 <= cs[1] < 0xe000)
  {
    var rest := cs[1..];
    if Separate(rest) && !(|cs| > 1 && 0xd800 <= cs[0] < 0xdc00 && 0xdc00 <= cs[1] < 0xe000) {
      forall k | 0 <= k < |cs| - 1
        ensures !(0xd800 <= cs[k] < 0xdc00 && 0xdc00 <= cs[k + 1] < 0xe000)
      {
        if k > 0 {
          assert cs[k] == rest[k - 1] && cs[k + 1] == rest[k];
        }
      }
    }
    if Separate(cs) {
      forall k | 0 <= k < |rest| - 1
        ensures !(0xd800 <= rest[k] < 0xdc00 && 0xdc00 <= rest[k + 1] < 0xe000)
      {
        assert rest[k] == cs[k + 1] && rest[k + 1] == cs[k + 2];
      }
    }
  }

  /** Encoding what was read gives the code units back. */
  lemma {:induction false} ReadEncodes(s: Subject, i: nat)
    requires s.utf16 && ValidSubject(s) && i <= |s.units|
    ensures CodePoints(Characters(s, i)) && Utf16(Characters(s, i)) == s.units[i..]
    decreases |s.units| - i
  {
    hide CodePointAt, Utf16Unit, ValidSubject;
    if i < |s.units| {
      var (c, n) := CodePointAt(s, i);
      ReadEncodes(s, i + n);
      ReadUnit(s, i);
      assert Characters(s, i)[1..] == Characters(s, i + n);
      assert s.units[i..] == s.units[i..i + n] + s.units[i + n..];
    }
  }

  lemma ReadUnit(s: Subject, i: nat)
    requires s.utf16 && ValidSubject(s) && i < |s.units|
    ensures CodePointAt(s, i).0 <= 0x10_ffff
    ensures Utf16Unit(CodePointAt(s, i).0) == s.units[i..i + CodePointAt(s, i).1]
  {
    assert s.units[i] < 0x1_0000;
    if i + 1 < |s.units| {
      assert s.units[i + 1] < 0x1_0000;
    }
  }
}
