/** The entry point of the compiler (cpp/src/quickjs/libregexp.c, lre_compile),
    after parsing; the header that precedes the code is not part of this model. */
module RegexCompile {
  import opened RegexBytecode
  import opened RegexSyntax
  import opened RegexCode
  import opened RegexAnalysis
  import opened RegexCompiler
  import opened RegexStack
  import opened RegexSafety

  lemma LastJumps()
    ensures Jumps([SaveEnd(0), Match])
  {}

  lemma ProgramHeights(n: Node, sticky: bool)
    ensures var p := Program(n, sticky); forall j :: 0 <= j <= |p| ==> Height(p, j) >= 0
  {
    hide *;
    var p, pre, last := Program(n, sticky), if sticky then [] else ScanPrefix(), [SaveEnd(0), Match];
    var f := pre + [SaveStart(0)] + Code(n, false);
    LastJumps();
    ProgramIsFlat(n, sticky);
    NilSteady();
    ScanSteady();
    SaveSteady();
    SteadyCode(n, false);
    SteadyConcat(pre, [SaveStart(0)]);
    SteadyConcat(pre + [SaveStart(0)], Code(n, false));
    forall j | 0 <= j <= |p|
      ensures Height(p, j) >= 0
    {
      SteadyIs(f);
      if j <= |f| {
        HeightPrefix(f, last, j);
        HeightNonnegative(f, j);
      } else {
        HeightSuffix(f, last, j - |f|);
        HeightNonnegative(last, j - |f|);
      }
    }
  }

  lemma SteadyIs(f: seq<Instr>)
    requires Steady(f)
    ensures Jumps(f) && Net(f) == 0
  {
    hide Jumps, Net;
  }

  lemma ProgramScannable(n: Node, sticky: bool)
    requires ClassesFit(n)
    ensures RangesFit(Program(n, sticky))
  {
    hide Code, Program;
    ScannableCode(n, false);
    ProgramIsFlat(n, sticky);
  }

  /** The bytes of the program, piece by piece. */
  lemma ProgramBytes(n: Node, sticky: bool)
    ensures Bytes(Program(n, sticky)) ==
            (if sticky then [] else ([8] + PutU32(6)) + [4] + ([7] + PutU32(-11))) + [11, 0] + Bytes(Code(n, false))
              + [12, 0] + [10]
  {
    hide *;
    EncodePieces();
    var pre := if sticky then [] else ScanPrefix();
    ProgramIsFlat(n, sticky);
    EncodeJump(6, false);
    EncodeJump(-11, false);
    EncodePlain(0);
    BytesNil();
    LastBytes();
    PreBytes();
    BytesConcat(pre + [SaveStart(0)] + Code(n, false), [SaveEnd(0), Match]);
    BytesConcat(pre + [SaveStart(0)], Code(n, false));
    BytesSnoc(pre, SaveStart(0));
  }

  lemma EncodePieces()
    ensures Encode(SaveStart(0)) == [11, 0] && Encode(SaveEnd(0)) == [12, 0] && Encode(AnyChar) == [4]
  {}

  lemma LastBytes()
    ensures Bytes([SaveEnd(0), Match]) == [12, 0] + [10]
  {
    hide Encode;
    EncodePieces();
    EncodePlain(0);
    assert [SaveEnd(0), Match] == [SaveEnd(0)] + [Match];
    BytesSnoc([SaveEnd(0)], Match);
    BytesOne(SaveEnd(0));
  }

  lemma PreBytes()
    ensures Bytes(ScanPrefix()) == ([8] + PutU32(6)) + [4] + ([7] + PutU32(-11))
  {
    var a, g := Split(false, 6), Goto(-11);
    EncodePieces();
    EncodeJump(6, false);
    EncodeJump(-11, false);
    assert ScanPrefix() == [a] + [AnyChar] + [g];
    hide *;
    BytesSnoc([a] + [AnyChar], g);
    BytesSnoc([a], AnyChar);
    BytesOne(a);
  }

  /** lre_compile: the code and its stack size. It fails exactly when a class has too many
      ranges or the stack size does not fit a byte. */
  method LreCompile(n: Node, sticky: bool) returns (r: Option<(seq<byte>, nat)>)
    requires Parsed(n)
    ensures var p := Program(n, sticky);
            && (r.Some? <==> ClassesFit(n) && Peak(p, |p|) <= 255)
            && (r.Some? ==> r.value == (Bytes(p), Peak(p, |p|)))
  {
    hide *;
    ProgramBytes(n, sticky);
    var e := new Emitter();
    if !sticky {
      var _ := e.EmitOpU32(8, 6);
      e.EmitOp(4);
      var _ := e.EmitOpU32(7, -11);
    }
    e.EmitOpU8(11, 0);
    var ok := e.Disjunction(n, false);
    if !ok {
      return None;
    }
    e.EmitOpU8(12, 0);
    e.EmitOp(10);
    ProgramScannable(n, sticky);
    ProgramHeights(n, sticky);
    assert e.code == Bytes(Program(n, sticky));
    var size := ComputeStackSize(e.code, Program(n, sticky));
    if size < 0 {
      return None;
    }
    r := Some((e.code, size));
  }
}
