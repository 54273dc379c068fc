/** The three linear scans over emitted bytes (cpp/src/quickjs/libregexp.c,
    re_check_advance, re_is_simple_quantifier, compute_stack_size) compute their
    specifications on the instructions those bytes encode. */
module RegexAnalysis {
  import opened RegexBytecode
  import opened RegexCode

  /** The size column of the opcode table. */
  function OpSize(op: byte): (n: nat)
    ensures n >= 1
  {
    if op in {1, 13, 21, 22} then 3
    else if op in {2, 7, 8, 9, 14, 15, 23, 24, 26} then 5
    else if op in {11, 12, 19, 20} then 2
    else if op == 28 then 17
    else 1
  }

  /** libregexp-opcode.h: the opcodes in order, with their sizes. */
  const OPCODES: seq<(string, nat)> := [
    ("invalid", 1), ("char", 3), ("char32", 5), ("dot", 1), ("any", 1), ("line_start", 1), ("line_end", 1),
    ("goto", 5), ("split_goto_first", 5), ("split_next_first", 5), ("match", 1), ("save_start", 2), ("save_end", 2),
    ("save_reset", 3), ("loop", 5), ("push_i32", 5), ("drop", 1), ("word_boundary", 1), ("not_word_boundary", 1),
    ("back_reference", 2), ("backward_back_reference", 2), ("range", 3), ("range32", 3), ("lookahead", 5),
    ("negative_lookahead", 5), ("push_char_pos", 1), ("bne_char_pos", 5), ("prev", 1), ("simple_greedy_quant", 17)
  ]

  function OpName(i: Instr): (name: string)
  {
    match i
    case Char(_) => "char"
    case Char32(_) => "char32"
    case Dot => "dot"
    case AnyChar => "any"
    case LineStart => "line_start"
    case LineEnd => "line_end"
    case Goto(_) => "goto"
    case Split(nextFirst, _) => if nextFirst then "split_next_first" else "split_goto_first"
    case Match => "match"
    case SaveStart(_) => "save_start"
    case SaveEnd(_) => "save_end"
    case SaveReset(_, _) => "save_reset"
    case Loop(_) => "loop"
    case PushI32(_) => "push_i32"
    case Drop => "drop"
    case WordBoundary => "word_boundary"
    case NotWordBoundary => "not_word_boundary"
    case BackRef(back, _) => if back then "backward_back_reference" else "back_reference"
    case Range(_) => "range"
    case Range32(_) => "range32"
    case Lookahead(neg, _) => if neg then "negative_lookahead" else "lookahead"
    case PushCharPos => "push_char_pos"
    case BneCharPos(_) => "bne_char_pos"
    case Prev => "prev"
    case SimpleGreedy(_, _, _, _) => "simple_greedy_quant"
  }

  /** Instructions carry the numbers and the sizes of that list; only classes are longer. */
  lemma OpcodeListed(i: Instr)
    ensures OpCode(i) as nat < |OPCODES| && OPCODES[OpCode(i)] == (OpName(i), OpSize(OpCode(i)))
    ensures InstrSize(i) == OPCODES[OpCode(i)].1
      + if i.Range? then 4 * |i.pairs| else if i.Range32? then 8 * |i.pairs| else 0
  {}

  /** Range counts are in the range of their field. */
  predicate RangeFits(i: Instr)
  {
    (i.Range? || i.Range32?) ==> |i.pairs| < U16
  }

  predicate RangesFit(code: seq<Instr>)
  {
    forall k :: 0 <= k < |code| ==> RangeFits(code[k])
  }

  /** The first k instructions of code end at pos. */
  ghost predicate ScanAtInstr(b: seq<byte>, code: seq<Instr>, k: nat, pos: nat)
  {
    k <= |code| && pos == CodeSize(code[..k]) && pos <= |b| && b[pos..] == Bytes(code[k..])
  }

  lemma ScanStarts(code: seq<Instr>)
    ensures ScanAtInstr(Bytes(code), code, 0, 0)
  {
    assert code[..0] == [] && code[0..] == code;
    assert CodeSize([]) == 0;
  }

  lemma BytesNonempty(code: seq<Instr>)
    ensures |Bytes(code)| > 0 <==> |code| > 0
  {
    hide Encode;
  }

  /** What a scan reads at an instruction boundary. */
  lemma ScanReads(b: seq<byte>, code: seq<Instr>, k: nat, pos: nat)
    requires ScanAtInstr(b, code, k, pos) && pos < |b| && RangesFit(code)
    ensures k < |code| && b[pos] == OpCode(code[k])
    ensures b[pos] in {21, 22} ==> pos + 3 <= |b| && GetU16(b, pos + 1) == |code[k].pairs|
    ensures InstrSize(code[k])
      == OpSize(b[pos]) + (if b[pos] == 21 then 4 * |code[k].pairs| else if b[pos] == 22 then 8 * |code[k].pairs|
      else 0)
    ensures ScanAtInstr(b, code, k + 1, pos + InstrSize(code[k]))
  {
    hide Encode, OpCode, OpSize, CodeSize, GetU16, PutU16;
    BytesNonempty(code[k..]);
    assert |b[pos..]| > 0;
    var i, rest := code[k], code[k..][1..];
    assert Bytes(code[k..]) == Encode(i) + Bytes(rest);
    assert rest == code[k + 1..];
    assert b[pos] == b[pos..][0] == Encode(i)[0];
    OpFacts(i);
    assert RangeFits(i);
    if i.Range? || i.Range32? {
      RangeCount(b, pos, i, Bytes(rest));
    }
    assert code[..k + 1] == code[..k] + [i];
    BytesConcat(code[..k], [i]);
    BytesOne(i);
    assert b[pos + InstrSize(i)..] == b[pos..][InstrSize(i)..] == Bytes(rest);
  }

  lemma OpFacts(i: Instr)
    ensures OpCode(i) == 21 <==> i.Range?
    ensures OpCode(i) == 22 <==> i.Range32?
    ensures InstrSize(i)
      == OpSize(OpCode(i)) + (if i.Range? then 4 * |i.pairs| else if i.Range32? then 8 * |i.pairs| else 0)
  {}

  lemma RangeCount(b: seq<byte>, pos: nat, i: Instr, rest: seq<byte>)
    requires (i.Range? || i.Range32?) && |i.pairs| < U16 && pos <= |b| && b[pos..] == Encode(i) + rest
    ensures pos + 3 <= |b| && GetU16(b, pos + 1) == |i.pairs|
  {
    hide PairBytes16, PairBytes32;
    var e := Encode(i);
    var n := |i.pairs|;
    assert e[1] == n % 256 && e[2] == (n / 256) % 256;
    assert b[pos + 1] == b[pos..][1] && b[pos + 2] == b[pos..][2];
  }

  lemma OpKinds(i: Instr)
    ensures OpCode(i) in {1, 2, 3, 4, 21, 22} <==> IsChar(i)
    ensures OpCode(i) in {5, 6, 17, 18} <==> IsTest(i)
    ensures OpCode(i) in {15, 25, 16, 27} <==> i.PushI32? || i.PushCharPos? || i.Drop? || i.Prev?
    ensures OpCode(i) in {11, 12} <==> i.SaveStart? || i.SaveEnd?
    ensures OpCode(i) == 13 <==> i.SaveReset?
    ensures OpCode(i) in {19, 20} <==> i.BackRef?
    ensures OpCode(i) in {15, 25} <==> i.PushI32? || i.PushCharPos?
    ensures OpCode(i) in {16, 26} <==> i.Drop? || i.BneCharPos?
  {}

  /** The length of the instruction at pos, as the scans compute it. */
  method InstrLength(b: seq<byte>, pos: nat, ghost code: seq<Instr>, ghost k: nat) returns (len: nat)
    requires ScanAtInstr(b, code, k, pos) && pos < |b| && RangesFit(code)
    ensures k < |code| && len == InstrSize(code[k]) && b[pos] == OpCode(code[k])
    ensures ScanAtInstr(b, code, k + 1, pos + len)
  {
    ScanReads(b, code, k, pos);
    len := OpSize(b[pos]);
    if b[pos] == 21 {
      len := len + GetU16(b, pos + 1) * 4;
    } else if b[pos] == 22 {
      len := len + GetU16(b, pos + 1) * 8;
    }
  }

  /** re_is_simple_quantifier. */
  method SimpleQuantifier(b: seq<byte>, ghost code: seq<Instr>) returns (count: int)
    requires b == Bytes(code) && RangesFit(code)
    ensures count == SimpleCount(code)
  {
    hide Bytes, CodeSize, OpCode, ScanAtInstr, RangesFit;
    ScanStarts(code);
    ghost var k := 0;
    var pos := 0;
    count := 0;
    assert code[0..] == code;
    while pos < |b|
      invariant ScanAtInstr(b, code, k, pos) && pos <= |b| && k <= |code|
      invariant count >= 0
      invariant SimpleCount(code) == if SimpleCount(code[k..]) < 0 then -1 else count + SimpleCount(code[k..])
      decreases |b| - pos
    {
      var len := InstrLength(b, pos, code, k);
      OpKinds(code[k]);
      assert code[k..][0] == code[k] && code[k..][1..] == code[k + 1..];
      if b[pos] in {1, 2, 3, 4, 21, 22} {
        count := count + 1;
      } else if b[pos] !in {5, 6, 17, 18} {
        return -1;
      }
      InstrFits(b, code, k + 1, pos + len);
      pos := pos + len;
      k := k + 1;
    }
    ScanEnd(b, code, k, pos);
  }

  lemma InstrFits(b: seq<byte>, code: seq<Instr>, k: nat, pos: nat)
    requires ScanAtInstr(b, code, k, pos)
    ensures pos <= |b| && k <= |code|
  {}

  lemma ScanEnd(b: seq<byte>, code: seq<Instr>, k: nat, pos: nat)
    requires ScanAtInstr(b, code, k, pos) && pos >= |b|
    ensures k == |code| && code[k..] == []
  {
    BytesNonempty(code[k..]);
  }

  // ---- re_check_advance ----

  /** The numbers of captures are in the range of the bitmap. */
  predicate CaptureFits(i: Instr)
  {
    && ((i.SaveStart? || i.SaveEnd? || i.BackRef?) ==> i.k < CAPTURE_COUNT_MAX)
    && (i.SaveReset? ==> i.low < CAPTURE_COUNT_MAX && i.high <= CAPTURE_COUNT_MAX)
  }

  predicate CapturesFit(code: seq<Instr>)
  {
    forall k :: 0 <= k < |code| ==> CaptureFits(code[k])
  }

  const CAPTURE_COUNT_MAX: nat := 255

  /** Some of the first k instructions sets capture c. */
  ghost predicate SetBefore(code: seq<Instr>, k: nat, c: nat)
    requires k <= |code|
  {
    exists j :: 0 <= j < k && Sets(code[j], c)
  }

  /** Some of the first k instructions refers to capture c. */
  ghost predicate RefersBefore(code: seq<Instr>, k: nat, c: nat)
    requires k <= |code|
  {
    exists j :: 0 <= j < k && RefersTo(code[j], c)
  }

  predicate RefersTo(i: Instr, c: nat) { i.BackRef? && i.k == c }

  /** The two bits of capture_bitmap after k instructions. */
  ghost predicate BitmapIs(code: seq<Instr>, k: nat, set_: seq<bool>, refers: seq<bool>)
    requires k <= |code|
  {
    && |set_| == |refers| == CAPTURE_COUNT_MAX
    && forall c: nat :: c < CAPTURE_COUNT_MAX ==>
         (set_[c] <==> SetBefore(code, k, c)) && (refers[c] <==> RefersBefore(code, k, c))
  }

  lemma BitmapStarts(code: seq<Instr>, z: seq<bool>)
    requires |z| == CAPTURE_COUNT_MAX && forall c :: 0 <= c < |z| ==> !z[c]
    ensures BitmapIs(code, 0, z, z)
  {}

  lemma BeforeNext(code: seq<Instr>, k: nat, c: nat)
    requires k < |code|
    ensures SetBefore(code, k + 1, c) <==> SetBefore(code, k, c) || Sets(code[k], c)
    ensures RefersBefore(code, k + 1, c) <==> RefersBefore(code, k, c) || RefersTo(code[k], c)
  {
    hide Sets, RefersTo;
  }

  lemma BitmapNext(code: seq<Instr>, k: nat, s: seq<bool>, r: seq<bool>, s': seq<bool>, r': seq<bool>)
    requires k < |code| && BitmapIs(code, k, s, r) && |s'| == |r'| == CAPTURE_COUNT_MAX
    requires forall c: nat :: c < CAPTURE_COUNT_MAX ==>
      (s'[c] <==> s[c] || Sets(code[k], c)) && (r'[c] <==> r[c] || RefersTo(code[k], c))
    ensures BitmapIs(code, k + 1, s', r')
  {
    hide SetBefore, RefersBefore, Sets, RefersTo;
    forall c: nat | c < CAPTURE_COUNT_MAX
      ensures (s'[c] <==> SetBefore(code, k + 1, c)) && (r'[c] <==> RefersBefore(code, k + 1, c))
    {
      BeforeNext(code, k, c);
    }
  }

  lemma BitmapDone(code: seq<Instr>, s: seq<bool>, r: seq<bool>)
    requires BitmapIs(code, |code|, s, r) && CapturesFit(code)
    ensures OwnReference(code) <==> exists c :: 0 <= c < CAPTURE_COUNT_MAX && s[c] && r[c]
  {
    if OwnReference(code) {
      var k, l :| 0 <= k < |code| && 0 <= l < |code| && code[l].BackRef? && Sets(code[k], code[l].k);
      var c := code[l].k;
      assert CaptureFits(code[l]);
      assert RefersTo(code[l], c);
      assert SetBefore(code, |code|, c) && RefersBefore(code, |code|, c);
    }
    if c :| 0 <= c < CAPTURE_COUNT_MAX && s[c] && r[c] {
      var k :| 0 <= k < |code| && Sets(code[k], c);
      var l :| 0 <= l < |code| && RefersTo(code[l], c);
    }
  }

  /** The operand bytes of the instructions of captures. */
  lemma CaptureBytes(i: Instr)
    requires OfCapture(i) && CaptureFits(i)
    ensures |Encode(i)| == if i.SaveReset? then 3 else 2
    ensures !i.SaveReset? ==> Encode(i)[1] == i.k
    ensures i.SaveReset? ==> Encode(i)[1] == i.low && Encode(i)[2] == i.high
  {
    hide OpCode;
  }

  lemma CaptureOperands(b: seq<byte>, code: seq<Instr>, k: nat, pos: nat)
    requires ScanAtInstr(b, code, k, pos) && k < |code| && CaptureFits(code[k]) && OfCapture(code[k])
    ensures pos + 1 < |b|
    ensures !code[k].SaveReset? ==> b[pos + 1] == code[k].k
    ensures code[k].SaveReset? ==> pos + 2 < |b| && b[pos + 1] == code[k].low && b[pos + 2] == code[k].high
  {
    hide Encode, CaptureFits, OfCapture, CodeSize;
    var i, rest := code[k], code[k..][1..];
    CaptureBytes(i);
    assert code[k..][0] == i;
    var e, t := Encode(i), Bytes(rest);
    assert b[pos..] == e + t;
    hide Bytes, ScanAtInstr;
    PlacedBytes(b, pos, e, t, 1);
    if i.SaveReset? {
      PlacedBytes(b, pos, e, t, 2);
    }
  }

  lemma PlacedBytes(b: seq<byte>, pos: nat, e: seq<byte>, t: seq<byte>, j: nat)
    requires pos <= |b| && b[pos..] == e + t && j < |e|
    ensures pos + j < |b| && b[pos + j] == e[j]
  {
    assert b[pos..][j] == b[pos + j];
  }

  /** One instruction of captures, on the bitmap. */
  method MarkCapture(b: seq<byte>, ghost code: seq<Instr>, ghost k: nat, pos: nat, set_: seq<bool>, refers: seq<bool>)
      returns (set': seq<bool>, refers': seq<bool>)
    requires ScanAtInstr(b, code, k, pos) && k < |code| && CaptureFits(code[k]) && OfCapture(code[k])
    requires pos < |b| && b[pos] == OpCode(code[k]) && BitmapIs(code, k, set_, refers)
    ensures BitmapIs(code, k + 1, set', refers')
  {
    hide ScanAtInstr, OpCode, BitmapIs;
    BitmapSizes(code, k, set_, refers);
    CaptureOperands(b, code, k, pos);
    OpKinds(code[k]);
    set', refers' := set_, refers;
    var val := b[pos + 1];
    if b[pos] in {11, 12} {
      set' := set'[val := true];
    } else if b[pos] == 13 {
      var low, last := val, b[pos + 2];
      while val < last
        invariant low <= val && (val <= last || val == low) && |set'| == CAPTURE_COUNT_MAX
        invariant forall c: nat :: c < CAPTURE_COUNT_MAX ==> (set'[c] <==> set_[c] || low <= c < val)
        decreases last - val
      {
        set' := set'[val := true];
        val := val + 1;
      }
    } else {
      refers' := refers'[val := true];
    }
    BitmapNext(code, k, set_, refers, set', refers');
  }

  lemma BitmapSizes(code: seq<Instr>, k: nat, s: seq<bool>, r: seq<bool>)
    requires k <= |code| && BitmapIs(code, k, s, r)
    ensures |s| == |r| == CAPTURE_COUNT_MAX
  {}

  lemma BitmapKept(code: seq<Instr>, k: nat, s: seq<bool>, r: seq<bool>)
    requires k < |code| && BitmapIs(code, k, s, r) && !OfCapture(code[k])
    ensures BitmapIs(code, k + 1, s, r)
  {
    hide BitmapIs;
    BitmapSizes(code, k, s, r);
    BitmapNext(code, k, s, r, s, r);
  }

  /** re_check_advance. */
  method CheckAdvance(b: seq<byte>, ghost code: seq<Instr>) returns (r: int)
    requires b == Bytes(code) && RangesFit(code) && CapturesFit(code)
    ensures r == AdvanceCheck(code)
  {
    hide Bytes, CodeSize, OpCode, ScanAtInstr, RangesFit, BitmapIs, OwnReference, CaptureFits;
    ScanStarts(code);
    ghost var k := 0;
    var pos := 0;
    r := -2;
    var set_, refers := seq(CAPTURE_COUNT_MAX, i => false), seq(CAPTURE_COUNT_MAX, i => false);
    assert set_ == refers;
    BitmapStarts(code, set_);
    assert code[0..] == code;
    while pos < |b|
      invariant ScanAtInstr(b, code, k, pos) && pos <= |b| && k <= |code| && BitmapIs(code, k, set_, refers)
      invariant r in {-2, 0, 1}
      invariant SurelyAdvances(code) <==> if r == -2 then SurelyAdvances(code[k..]) else r == 1
      decreases |b| - pos
    {
      var len := InstrLength(b, pos, code, k);
      OpKinds(code[k]);
      assert code[k..][0] == code[k] && code[k..][1..] == code[k + 1..];
      if b[pos] in {11, 12, 13, 19, 20} {
        set_, refers := MarkCapture(b, code, k, pos, set_, refers);
      } else {
        BitmapKept(code, k, set_, refers);
        if b[pos] in {1, 2, 3, 4, 21, 22} {
          if r == -2 {
            r := 1;
          }
        } else if b[pos] !in {5, 6, 15, 25, 16, 17, 18, 27} {
          if r == -2 {
            r := 0;
          }
        }
      }
      InstrFits(b, code, k + 1, pos + len);
      pos := pos + len;
      k := k + 1;
    }
    ScanEnd(b, code, k, pos);
    BitmapDone(code, set_, refers);
    BitmapSizes(code, k, set_, refers);
    var c := 0;
    while c < CAPTURE_COUNT_MAX
      invariant 0 <= c <= CAPTURE_COUNT_MAX && forall d :: 0 <= d < c ==> !(set_[d] && refers[d])
    {
      if set_[c] && refers[c] {
        return -1;
      }
      c := c + 1;
    }
    if r == -2 {
      r := 0;
    }
  }

  function Delta(i: Instr): (d: int)
  {
    if i.PushI32? || i.PushCharPos? then 1 else if i.Drop? || i.BneCharPos? then -1 else 0
  }

  /** Stack height before instruction k, counted along the code. */
  function Height(code: seq<Instr>, k: nat): (h: int)
    requires k <= |code|
  {
    if k == 0 then 0 else Height(code, k - 1) + Delta(code[k - 1])
  }

  /** The largest height along the code. */
  ghost function Peak(code: seq<Instr>, k: nat): (h: nat)
    requires k <= |code|
    ensures forall j :: 0 <= j <= k ==> Height(code, j) <= h
    ensures exists j :: 0 <= j <= k && h == Height(code, j)
  {
    if k == 0 then
      assert Height(code, 0) == 0;
      0
    else
      var p := Peak(code, k - 1);
      if Height(code, k) > p then Height(code, k)
      else
        p
  }

  const STACK_SIZE_MAX: nat := 255

  /** compute_stack_size: the largest height, or -1 when it does not fit a byte. */
  method ComputeStackSize(b: seq<byte>, ghost code: seq<Instr>) returns (r: int)
    requires b == Bytes(code) && RangesFit(code)
    requires forall j :: 0 <= j <= |code| ==> Height(code, j) >= 0
    ensures r == if Peak(code, |code|) > 255 then -1 else Peak(code, |code|)
  {
    hide Bytes, CodeSize, OpCode, ScanAtInstr, RangesFit;
    ScanStarts(code);
    ghost var k := 0;
    var pos, size, max := 0, 0, 0;
    while pos < |b|
      invariant ScanAtInstr(b, code, k, pos) && pos <= |b| && k <= |code|
      invariant size == Height(code, k) && max == Peak(code, k) && max <= STACK_SIZE_MAX
      decreases |b| - pos
    {
      var len := InstrLength(b, pos, code, k);
      OpKinds(code[k]);
      assert Height(code, k + 1) == Height(code, k) + Delta(code[k]);
      if b[pos] in {15, 25} {
        size := size + 1;
        if size > max {
          if size > STACK_SIZE_MAX {
            PeakGrows(code, k + 1, |code|);
            return -1;
          }
          max := size;
        }
      } else if b[pos] in {16, 26} {
        assert size > 0;
        size := size - 1;
      }
      InstrFits(b, code, k + 1, pos + len);
      pos := pos + len;
      k := k + 1;
    }
    ScanEnd(b, code, k, pos);
    r := max;
  }

  lemma {:induction false} PeakGrows(code: seq<Instr>, j: nat, k: nat)
    requires j <= k <= |code|
    ensures Peak(code, j) <= Peak(code, k)
    decreases k
  {
    if j < k {
      PeakGrows(code, j, k - 1);
    }
  }
}
