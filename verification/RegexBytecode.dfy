/** The bytecode of cpp/src/quickjs/libregexp.c: instructions, their byte
    encoding (cpp/src/quickjs/libregexp-opcode.h) and its decoding by the VM. */
module RegexBytecode {

  type byte = x: nat | x < 256

  const U16: nat := 0x1_0000
  const U32: nat := 0x1_0000_0000
  const I32: nat := 0x8000_0000

  /** Instructions of the fragment; jump offsets are relative to the next instruction. */
  datatype Instr =
    | Char(c: nat)
    | Char32(c: nat)
    | Dot
    | AnyChar
    | LineStart
    | LineEnd
    | Goto(off: int)
    | Split(nextFirst: bool, off: int)
    | Match
    | SaveStart(k: nat)
    | SaveEnd(k: nat)
    | SaveReset(low: nat, high: nat)
    | Loop(off: int)
    | PushI32(n: nat)
    | Drop
    | WordBoundary
    | NotWordBoundary
    | BackRef(back: bool, k: nat)
    | Range(pairs: seq<(nat, nat)>)
    | Range32(pairs: seq<(nat, nat)>)
    | Lookahead(neg: bool, off: int)
    | PushCharPos
    | BneCharPos(off: int)
    | Prev
    | SimpleGreedy(off: int, min: nat, max: nat, count: nat)

  /** Instructions that read one character. */
  predicate IsChar(i: Instr)
  {
    i.Char? || i.Char32? || i.Dot? || i.AnyChar? || i.Range? || i.Range32?
  }

  /** Instructions that only look at the position. */
  predicate IsTest(i: Instr)
  {
    i.LineStart? || i.LineEnd? || i.WordBoundary? || i.NotWordBoundary?
  }

  /** Numbers of the opcodes, in declaration order. */
  function OpCode(i: Instr): (op: byte)
  {
    match i
    case Char(_) => 1
    case Char32(_) => 2
    case Dot => 3
    case AnyChar => 4
    case LineStart => 5
    case LineEnd => 6
    case Goto(_) => 7
    case Split(nextFirst, _) => if nextFirst then 9 else 8
    case Match => 10
    case SaveStart(_) => 11
    case SaveEnd(_) => 12
    case SaveReset(_, _) => 13
    case Loop(_) => 14
    case PushI32(_) => 15
    case Drop => 16
    case WordBoundary => 17
    case NotWordBoundary => 18
    case BackRef(back, _) => if back then 20 else 19
    case Range(_) => 21
    case Range32(_) => 22
    case Lookahead(neg, _) => if neg then 24 else 23
    case PushCharPos => 25
    case BneCharPos(_) => 26
    case Prev => 27
    case SimpleGreedy(_, _, _, _) => 28
  }

  function InstrSize(i: Instr): (n: nat)
    ensures n >= 1
  {
    match i
    case Char(_) => 3
    case Char32(_) => 5
    case Goto(_) => 5
    case Split(_, _) => 5
    case SaveStart(_) => 2
    case SaveEnd(_) => 2
    case SaveReset(_, _) => 3
    case BackRef(_, _) => 2
    case Loop(_) => 5
    case PushI32(_) => 5
    case Range(pairs) => 3 + 4 * |pairs|
    case Range32(pairs) => 3 + 8 * |pairs|
    case Lookahead(_, _) => 5
    case BneCharPos(_) => 5
    case SimpleGreedy(_, _, _, _) => 17
    case _ => 1
  }

  /** A 16-bit and a 32-bit field, least significant byte first; 32-bit values wrap. */
  function PutU16(v: nat): (r: seq<byte>)
    ensures |r| == 2
  {
    [v % 256, (v / 256) % 256]
  }

  function PutU32(v: int): (r: seq<byte>)
    ensures |r| == 4
  {
    var u := v % U32;
    [u % 256, (u / 256) % 256, (u / 0x1_0000) % 256, (u / 0x100_0000) % 256]
  }

  function GetU16(b: seq<byte>, p: nat): (r: nat)
    requires p + 2 <= |b|
    ensures r < U16
  {
    (b[p] as int) + 256 * (b[p + 1] as int)
  }

  function GetU32(b: seq<byte>, p: nat): (r: nat)
    requires p + 4 <= |b|
    ensures r < U32
  {
    (b[p] as int) + 256 * (b[p + 1] as int) + 0x1_0000 * (b[p + 2] as int) + 0x100_0000 * (b[p + 3] as int)
  }

  /** The (int) cast of a 32-bit field. */
  function GetI32(b: seq<byte>, p: nat): (r: int)
    requires p + 4 <= |b|
  {
    var u := GetU32(b, p);
    if u < I32 then u else u - U32
  }

  function PairBytes16(pairs: seq<(nat, nat)>): (r: seq<byte>)
    ensures |r| == 4 * |pairs|
  {
    if |pairs| == 0 then [] else PutU16(pairs[0].0) + PutU16(pairs[0].1) + PairBytes16(pairs[1..])
  }

  function PairBytes32(pairs: seq<(nat, nat)>): (r: seq<byte>)
    ensures |r| == 8 * |pairs|
  {
    if |pairs| == 0 then [] else PutU32(pairs[0].0) + PutU32(pairs[0].1) + PairBytes32(pairs[1..])
  }

  function Encode(i: Instr): (r: seq<byte>)
    ensures |r| == InstrSize(i) && r[0] == OpCode(i)
  {
    var op := OpCode(i);
    match i
    case Char(c) => [op] + PutU16(c)
    case Char32(c) => [op] + PutU32(c)
    case Goto(off) => [op] + PutU32(off)
    case Split(_, off) => [op] + PutU32(off)
    case SaveStart(k) => [op, k % 256]
    case SaveEnd(k) => [op, k % 256]
    case SaveReset(low, high) => [op, low % 256, high % 256]
    case BackRef(_, k) => [op, k % 256]
    case Loop(off) => [op] + PutU32(off)
    case PushI32(n) => [op] + PutU32(n)
    case Range(_) => EncodeWide(i)
    case Range32(_) => EncodeWide(i)
    case Lookahead(_, off) => [op] + PutU32(off)
    case BneCharPos(off) => [op] + PutU32(off)
    case SimpleGreedy(_, _, _, _) => EncodeWide(i)
    case _ => [op]
  }

  function EncodeWide(i: Instr): (r: seq<byte>)
    requires i.Range? || i.Range32? || i.SimpleGreedy?
    ensures |r| == InstrSize(i) && r[0] == OpCode(i)
  {
    var op := OpCode(i);
    match i
    case Range(pairs) => [op] + PutU16(|pairs|) + PairBytes16(pairs)
    case Range32(pairs) => [op] + PutU16(|pairs|) + PairBytes32(pairs)
    case SimpleGreedy(off, min, max, count) => [op] + PutU32(off) + PutU32(min) + PutU32(max) + PutU32(count)
  }

  lemma EncodeWideIs(i: Instr)
    requires i.Range? || i.Range32? || i.SimpleGreedy?
    ensures Encode(i) == EncodeWide(i)
  {
    hide EncodeWide, OpCode, PutU16, PutU32;
  }

  function GetPairs16(b: seq<byte>, p: nat, n: nat): (r: seq<(nat, nat)>)
    requires p + 4 * n <= |b|
    ensures |r| == n
    decreases n
  {
    if n == 0 then [] else [(GetU16(b, p), GetU16(b, p + 2))] + GetPairs16(b, p + 4, n - 1)
  }

  function GetPairs32(b: seq<byte>, p: nat, n: nat): (r: seq<(nat, nat)>)
    requires p + 8 * n <= |b|
    ensures |r| == n
    decreases n
  {
    if n == 0 then [] else [(GetU32(b, p), GetU32(b, p + 4))] + GetPairs32(b, p + 8, n - 1)
  }

  datatype Option<+T> = None | Some(value: T)

  /** What the VM sees at pc. */
  function Decode(b: seq<byte>, pc: nat): (r: Option<Instr>)
  {
    if pc >= |b| then None else
    var op := b[pc];
    if op == 3 then Some(Dot)
    else if op == 4 then Some(AnyChar)
    else if op == 5 then Some(LineStart)
    else if op == 6 then Some(LineEnd)
    else if op == 10 then Some(Match)
    else if op == 16 then Some(Drop)
    else if op == 17 then Some(WordBoundary)
    else if op == 18 then Some(NotWordBoundary)
    else if op == 25 then Some(PushCharPos)
    else if op == 27 then Some(Prev)
    else if op == 11 || op == 12 then
      if pc + 2 > |b| then None else if op == 11 then Some(SaveStart(b[pc + 1])) else Some(SaveEnd(b[pc + 1]))
    else if op == 13 then
      if pc + 3 > |b| then None else Some(SaveReset(b[pc + 1], b[pc + 2]))
    else if op == 19 || op == 20 then
      if pc + 2 > |b| then None else Some(BackRef(op == 20, b[pc + 1]))
    else if op == 1 then
      if pc + 3 > |b| then None else Some(Char(GetU16(b, pc + 1)))
    else if op == 21 || op == 22 then DecodeRange(b, pc)
    else if op == 28 then
      if pc + 17 > |b| then None
      else Some(SimpleGreedy(GetI32(b, pc + 1), GetU32(b, pc + 5), GetU32(b, pc + 9), GetU32(b, pc + 13)))
    else if pc + 5 > |b| then None
    else if op == 2 then Some(Char32(GetU32(b, pc + 1)))
    else if op == 7 then Some(Goto(GetI32(b, pc + 1)))
    else if op == 8 then Some(Split(false, GetI32(b, pc + 1)))
    else if op == 9 then Some(Split(true, GetI32(b, pc + 1)))
    else if op == 14 then Some(Loop(GetI32(b, pc + 1)))
    else if op == 15 then Some(PushI32(GetU32(b, pc + 1)))
    else if op == 23 then Some(Lookahead(false, GetI32(b, pc + 1)))
    else if op == 24 then Some(Lookahead(true, GetI32(b, pc + 1)))
    else if op == 26 then Some(BneCharPos(GetI32(b, pc + 1)))
    else None
  }

  function DecodeRange(b: seq<byte>, pc: nat): (r: Option<Instr>)
    requires pc < |b|
  {
    if pc + 3 > |b| then None else
    var n := GetU16(b, pc + 1);
    if b[pc] == 21 then
      if pc + 3 + 4 * n > |b| then None else Some(Range(GetPairs16(b, pc + 3, n)))
    else
      if pc + 3 + 8 * n > |b| then None else Some(Range32(GetPairs32(b, pc + 3, n)))
  }

  predicate FitsI32(v: int) { v + I32 >= 0 && v < I32 }

  /** Every field is in the range of its encoding. */
  predicate Encodable(i: Instr)
  {
    match i
    case Char(c) => c < U16
    case Char32(c) => c < U32
    case Goto(off) => FitsI32(off)
    case Split(_, off) => FitsI32(off)
    case SaveStart(k) => k < 256
    case SaveEnd(k) => k < 256
    case SaveReset(low, high) => low < 256 && high < 256
    case BackRef(_, k) => k < 256
    case Loop(off) => FitsI32(off)
    case PushI32(n) => n < U32
    case Range(pairs) => |pairs| < U16 && forall k :: 0 <= k < |pairs| ==> pairs[k].0 < U16 && pairs[k].1 < U16
    case Range32(pairs) => |pairs| < U16 && forall k :: 0 <= k < |pairs| ==> pairs[k].0 < U32 && pairs[k].1 < U32
    case Lookahead(_, off) => FitsI32(off)
    case BneCharPos(off) => FitsI32(off)
    case SimpleGreedy(off, min, max, count) => FitsI32(off) && min < U32 && max < U32 && count < U32
    case _ => true
  }

  /** Bytes f stand at position p of b. */
  predicate BytesAt(b: seq<byte>, p: nat, f: seq<byte>)
  {
    p + |f| <= |b| && b[p..p + |f|] == f
  }

  lemma BytesAtSplit(b: seq<byte>, p: nat, f: seq<byte>, g: seq<byte>)
    ensures BytesAt(b, p, f + g) <==> BytesAt(b, p, f) && BytesAt(b, p + |f|, g)
  {
    var h := f + g;
    if BytesAt(b, p, h) {
      assert forall k :: 0 <= k < |h| ==> h[k] == b[p + k];
      assert forall k :: 0 <= k < |f| ==> f[k] == h[k];
      assert forall k :: 0 <= k < |g| ==> g[k] == h[|f| + k];
    }
    if BytesAt(b, p, f) && BytesAt(b, p + |f|, g) {
      assert forall k :: 0 <= k < |f| ==> f[k] == b[p + k];
      assert forall k :: 0 <= k < |g| ==> g[k] == b[p + |f| + k];
    }
  }

  lemma BytesAtIndex(b: seq<byte>, p: nat, f: seq<byte>, k: nat)
    requires BytesAt(b, p, f) && k < |f|
    ensures p + k < |b| && b[p + k] == f[k]
  {
    assert f[k] == b[p..p + |f|][k];
  }

  lemma GetPutU16(b: seq<byte>, p: nat, v: nat)
    requires BytesAt(b, p, PutU16(v)) && v < U16
    ensures p + 2 <= |b| && GetU16(b, p) == v
  {
    BytesAtIndex(b, p, PutU16(v), 0);
    BytesAtIndex(b, p, PutU16(v), 1);
  }

  lemma U32Digits(u: nat)
    requires u < U32
    ensures u % 256 + 256 * ((u / 256) % 256) + 0x1_0000 * ((u / 0x1_0000) % 256)
      + 0x100_0000 * ((u / 0x100_0000) % 256) == u
  {
    var u1 := u / 256;
    var u2 := u1 / 256;
    var u3 := u2 / 256;
    assert u / 0x1_0000 == u2;
    assert u / 0x100_0000 == u3;
    assert u3 < 256;
  }

  lemma GetPutU32(b: seq<byte>, p: nat, v: int)
    requires BytesAt(b, p, PutU32(v))
    ensures p + 4 <= |b| && GetU32(b, p) == v % U32
    ensures FitsI32(v) ==> GetI32(b, p) == v
  {
    U32Digits(v % U32);
    BytesAtIndex(b, p, PutU32(v), 0);
    BytesAtIndex(b, p, PutU32(v), 1);
    BytesAtIndex(b, p, PutU32(v), 2);
    BytesAtIndex(b, p, PutU32(v), 3);
  }

  lemma {:induction false} GetPutPairs16(b: seq<byte>, p: nat, pairs: seq<(nat, nat)>)
    requires BytesAt(b, p, PairBytes16(pairs))
    requires forall k :: 0 <= k < |pairs| ==> pairs[k].0 < U16 && pairs[k].1 < U16
    ensures GetPairs16(b, p, |pairs|) == pairs
    decreases |pairs|
  {
    if |pairs| > 0 {
      var x, y, rest := PutU16(pairs[0].0), PutU16(pairs[0].1), PairBytes16(pairs[1..]);
      BytesAtSplit(b, p, x + y, rest);
      BytesAtSplit(b, p, x, y);
      GetPutU16(b, p, pairs[0].0);
      GetPutU16(b, p + 2, pairs[0].1);
      GetPutPairs16(b, p + 4, pairs[1..]);
      assert pairs == [pairs[0]] + pairs[1..];
    }
  }

  lemma PairBytes32Is(pairs: seq<(nat, nat)>)
    requires |pairs| > 0
    ensures PairBytes32(pairs) == PutU32(pairs[0].0) + PutU32(pairs[0].1) + PairBytes32(pairs[1..])
  {
    hide PutU32;
  }

  lemma GetPairs32Is(b: seq<byte>, p: nat, n: nat)
    requires 0 < n && p + 8 * n <= |b|
    ensures GetPairs32(b, p, n) == [(GetU32(b, p), GetU32(b, p + 4))] + GetPairs32(b, p + 8, n - 1)
  {
    hide GetU32;
  }

  lemma GetPutPair32(b: seq<byte>, p: nat, x: nat, y: nat, rest: seq<byte>)
    requires x < U32 && y < U32 && BytesAt(b, p, PutU32(x) + PutU32(y) + rest)
    ensures p + 8 <= |b| && GetU32(b, p) == x && GetU32(b, p + 4) == y && BytesAt(b, p + 8, rest)
  {
    hide PutU32, GetU32, BytesAt;
    var f, g := PutU32(x), PutU32(y);
    BytesAtSplit(b, p, f + g, rest);
    BytesAtSplit(b, p, f, g);
    GetPutU32(b, p, x);
    GetPutU32(b, p + 4, y);
  }

  lemma {:induction false} GetPutPairs32(b: seq<byte>, p: nat, pairs: seq<(nat, nat)>)
    requires BytesAt(b, p, PairBytes32(pairs))
    requires forall k :: 0 <= k < |pairs| ==> pairs[k].0 < U32 && pairs[k].1 < U32
    ensures GetPairs32(b, p, |pairs|) == pairs
    decreases |pairs|
  {
    if |pairs| > 0 {
      GetPairs32Is(b, p, |pairs|);
      hide *;
      PairBytes32Is(pairs);
      GetPutPair32(b, p, pairs[0].0, pairs[0].1, PairBytes32(pairs[1..]));
      GetPutPairs32(b, p + 8, pairs[1..]);
      assert pairs == [pairs[0]] + pairs[1..];
    }
  }

  /** Decoding inverts encoding wherever the bytes are placed. */
  lemma DecodeEncode(b: seq<byte>, pc: nat, i: Instr)
    requires BytesAt(b, pc, Encode(i)) && Encodable(i)
    ensures Decode(b, pc) == Some(i)
  {
    hide *;
    if i.Goto? || i.Split? || i.Loop? || i.Lookahead? || i.BneCharPos? {
      DecodeJump(b, pc, i);
    } else if i.Range? || i.Range32? || i.SimpleGreedy? {
      DecodeWide(b, pc, i);
    } else {
      DecodeShort(b, pc, i);
    }
  }

  lemma DecodeJump(b: seq<byte>, pc: nat, i: Instr)
    requires i.Goto? || i.Split? || i.Loop? || i.Lookahead? || i.BneCharPos?
    requires BytesAt(b, pc, Encode(i)) && Encodable(i)
    ensures Decode(b, pc) == Some(i)
  {
    hide PutU32, GetU16, GetU32, GetI32, DecodeRange, BytesAt, FitsI32;
    BytesAtIndex(b, pc, Encode(i), 0);
    DecodeField(b, pc, OpCode(i), i.off);
  }

  lemma DecodeWide(b: seq<byte>, pc: nat, i: Instr)
    requires i.Range? || i.Range32? || i.SimpleGreedy?
    requires BytesAt(b, pc, Encode(i)) && Encodable(i)
    ensures Decode(b, pc) == Some(i)
  {
    hide PutU16, PutU32, GetU16, GetU32, GetI32, PairBytes16, PairBytes32, GetPairs16, GetPairs32, BytesAt, FitsI32;
    var op := OpCode(i);
    BytesAtIndex(b, pc, Encode(i), 0);
    if i.Range? {
      DecodeRange16(b, pc, op, i.pairs);
    } else if i.Range32? {
      DecodeRange32(b, pc, op, i.pairs);
    } else {
      DecodeFour(b, pc, op, i.off, i.min, i.max, i.count);
    }
  }

  lemma DecodeShort(b: seq<byte>, pc: nat, i: Instr)
    requires !i.Goto? && !i.Split? && !i.Loop? && !i.Lookahead? && !i.BneCharPos?
    requires !i.Range? && !i.Range32? && !i.SimpleGreedy?
    requires BytesAt(b, pc, Encode(i)) && Encodable(i)
    ensures Decode(b, pc) == Some(i)
  {
    hide PutU16, PutU32, GetU16, GetU32, GetI32, DecodeRange, BytesAt;
    var op := OpCode(i);
    BytesAtIndex(b, pc, Encode(i), 0);
    match i
    case Char(c) =>
      BytesAtSplit(b, pc, [op], PutU16(c));
      GetPutU16(b, pc + 1, c);
    case Char32(c) => DecodeField(b, pc, op, c);
    case SaveStart(k) => BytesAtIndex(b, pc, Encode(i), 1);
    case SaveEnd(k) => BytesAtIndex(b, pc, Encode(i), 1);
    case SaveReset(low, high) =>
      BytesAtIndex(b, pc, Encode(i), 1);
      BytesAtIndex(b, pc, Encode(i), 2);
    case BackRef(_, k) => BytesAtIndex(b, pc, Encode(i), 1);
    case PushI32(n) => DecodeField(b, pc, op, n);
    case _ =>
  }

  lemma DecodeRange16(b: seq<byte>, pc: nat, op: byte, pairs: seq<(nat, nat)>)
    requires BytesAt(b, pc, [op] + PutU16(|pairs|) + PairBytes16(pairs)) && |pairs| < U16
    requires forall k :: 0 <= k < |pairs| ==> pairs[k].0 < U16 && pairs[k].1 < U16
    ensures pc + 3 + 4 * |pairs| <= |b| && GetU16(b, pc + 1) == |pairs| && GetPairs16(b, pc + 3, |pairs|) == pairs
  {
    hide PutU16, GetU16, PairBytes16, GetPairs16;
    BytesAtSplit(b, pc, [op] + PutU16(|pairs|), PairBytes16(pairs));
    BytesAtSplit(b, pc, [op], PutU16(|pairs|));
    GetPutU16(b, pc + 1, |pairs|);
    GetPutPairs16(b, pc + 3, pairs);
  }

  lemma DecodeRange32(b: seq<byte>, pc: nat, op: byte, pairs: seq<(nat, nat)>)
    requires BytesAt(b, pc, [op] + PutU16(|pairs|) + PairBytes32(pairs)) && |pairs| < U16
    requires forall k :: 0 <= k < |pairs| ==> pairs[k].0 < U32 && pairs[k].1 < U32
    ensures pc + 3 + 8 * |pairs| <= |b| && GetU16(b, pc + 1) == |pairs| && GetPairs32(b, pc + 3, |pairs|) == pairs
  {
    hide PutU16, GetU16, PairBytes32, GetPairs32;
    BytesAtSplit(b, pc, [op] + PutU16(|pairs|), PairBytes32(pairs));
    BytesAtSplit(b, pc, [op], PutU16(|pairs|));
    GetPutU16(b, pc + 1, |pairs|);
    GetPutPairs32(b, pc + 3, pairs);
  }

  lemma DecodeField(b: seq<byte>, pc: nat, op: byte, v: int)
    requires BytesAt(b, pc, [op] + PutU32(v))
    ensures pc + 5 <= |b| && GetU32(b, pc + 1) == v % U32 && (FitsI32(v) ==> GetI32(b, pc + 1) == v)
  {
    BytesAtSplit(b, pc, [op], PutU32(v));
    GetPutU32(b, pc + 1, v);
  }

  lemma DecodeFour(b: seq<byte>, pc: nat, op: byte, v: int, x: nat, y: nat, z: nat)
    requires BytesAt(b, pc, [op] + PutU32(v) + PutU32(x) + PutU32(y) + PutU32(z))
    requires FitsI32(v) && x < U32 && y < U32 && z < U32
    ensures pc + 17 <= |b| && GetI32(b, pc + 1) == v && GetU32(b, pc + 5) == x && GetU32(b, pc + 9) == y
      && GetU32(b, pc + 13) == z
  {
    hide PutU32, GetU32, GetI32;
    BytesAtSplit(b, pc, [op] + PutU32(v) + PutU32(x) + PutU32(y), PutU32(z));
    BytesAtSplit(b, pc, [op] + PutU32(v) + PutU32(x), PutU32(y));
    BytesAtSplit(b, pc, [op] + PutU32(v), PutU32(x));
    DecodeField(b, pc, op, v);
    GetPutU32(b, pc + 5, x);
    GetPutU32(b, pc + 9, y);
    GetPutU32(b, pc + 13, z);
  }

  /** A code fragment as bytes. */
  function Bytes(code: seq<Instr>): (r: seq<byte>)
    ensures |r| == CodeSize(code)
  {
    if |code| == 0 then [] else Encode(code[0]) + Bytes(code[1..])
  }

  function CodeSize(code: seq<Instr>): nat
  {
    if |code| == 0 then 0 else InstrSize(code[0]) + CodeSize(code[1..])
  }

  lemma {:induction false} BytesConcat(a: seq<Instr>, c: seq<Instr>)
    ensures Bytes(a + c) == Bytes(a) + Bytes(c)
    ensures CodeSize(a + c) == CodeSize(a) + CodeSize(c)
  {
    if |a| == 0 {
      assert a + c == c;
    } else {
      assert (a + c)[1..] == a[1..] + c;
      BytesConcat(a[1..], c);
    }
  }

  lemma BytesOne(i: Instr)
    ensures Bytes([i]) == Encode(i) && CodeSize([i]) == InstrSize(i)
  {
    assert [i][1..] == [];
    assert Bytes([]) == [];
  }

  predicate EncodableCode(code: seq<Instr>)
  {
    forall k :: 0 <= k < |code| ==> Encodable(code[k])
  }

  /** Fragment `code` stands at pc. */
  ghost predicate CodeAt(b: seq<byte>, pc: nat, code: seq<Instr>)
  {
    BytesAt(b, pc, Bytes(code)) && EncodableCode(code)
  }

  lemma CodeAtSplit(b: seq<byte>, pc: nat, a: seq<Instr>, c: seq<Instr>)
    requires CodeAt(b, pc, a + c)
    ensures CodeAt(b, pc, a) && CodeAt(b, pc + CodeSize(a), c)
  {
    hide Bytes, CodeSize, Encodable, BytesAt;
    BytesConcat(a, c);
    BytesAtSplit(b, pc, Bytes(a), Bytes(c));
    EncodableSplit(a, c);
  }

  lemma EncodableSplit(a: seq<Instr>, c: seq<Instr>)
    ensures EncodableCode(a + c) <==> EncodableCode(a) && EncodableCode(c)
  {
    hide Encodable;
    var h := a + c;
    assert forall k :: 0 <= k < |a| ==> a[k] == h[k];
    assert forall k :: 0 <= k < |c| ==> c[k] == h[|a| + k];
    assert forall k :: 0 <= k < |h| ==> h[k] == if k < |a| then a[k] else c[k - |a|];
  }

  lemma CodeAtHead(b: seq<byte>, pc: nat, i: Instr, rest: seq<Instr>)
    requires CodeAt(b, pc, [i] + rest)
    ensures Decode(b, pc) == Some(i) && CodeAt(b, pc + InstrSize(i), rest)
  {
    hide Bytes, CodeSize, Encodable, BytesAt, Decode, Encode, InstrSize;
    CodeAtSplit(b, pc, [i], rest);
    BytesOne(i);
    assert Encodable([i][0]);
    DecodeEncode(b, pc, i);
  }
}
