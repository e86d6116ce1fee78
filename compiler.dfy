/** What `Interpreter::with_str` computes, stated without its loop: the source
    is cut into instructions front to back, the first failure ending the
    scan. */
module Compiler {
  import opened Base
  import opened Instructions
  import opened InstructionFacts
  import opened Jumps

  /** The instruction the scan would read at offset `i` does not overflow its
      count. */
  predicate FitsAt(bf: seq<u8>, i: nat)
    requires i <= |bf|
  {
    FoldFits(bf[i..])
  }

  /** Scanning `bf` on from offset `index` overflows no count: every
      instruction the scan reads, up to the first parse error, fits. */
  predicate CountsFitFrom(bf: seq<u8>, index: nat)
    requires index <= |bf|
    decreases |bf| - index
  {
    || index == |bf|
    || (&& FitsAt(bf, index)
        && (Lex(bf[index..]).Ok? ==> CountsFitFrom(bf, index + Lex(bf[index..]).value.0)))
  }

  /** Compiling `bf` overflows no count. */
  predicate CountsFit(bf: seq<u8>) {
    CountsFitFrom(bf, 0)
  }

  /** The instruction the scan reads at offset `index`. */
  function LexAt(bf: seq<u8>, index: nat): Result<(nat, Instruction), Error>
    requires index < |bf| && FitsAt(bf, index)
  {
    Lex(bf[index..])
  }

  /** The scan of `bf` from offset `index`, with the instructions `done`
      already read: the instructions of the whole source, or the first parse
      error together with the offset in `bf` of the instruction it occurred
      at. */
  function Scanned(bf: seq<u8>, index: nat, done: seq<Instruction>): Result<seq<Instruction>, (Error, nat)>
    requires index <= |bf| && CountsFitFrom(bf, index)
    decreases |bf| - index
  {
    if index == |bf| then Ok(done)
    else
      match LexAt(bf, index)
      case Err(e) => Err((e, index))
      case Ok((count, inst)) => Scanned(bf, index + count, done + [inst])
  }

  /** The instructions of `bf`, or its first parse error with its offset. */
  function Tokens(bf: seq<u8>): Result<seq<Instruction>, (Error, nat)>
    requires CountsFit(bf)
  {
    Scanned(bf, 0, [])
  }

  /** The loop of `with_str` that cuts `bf` into instructions: it parses one
      instruction at `index`, appends it and moves `index` past its bytes,
      returning the first parse error with the offset it occurred at. */
  method Scan(bf: seq<u8>) returns (r: Result<seq<Instruction>, (Error, nat)>)
    requires CountsFit(bf)
    ensures r == Tokens(bf)
  {
    var instructions: seq<Instruction> := [];
    var index := 0;
    while index < |bf|
      invariant index <= |bf| && CountsFitFrom(bf, index)
      invariant Scanned(bf, index, instructions) == Tokens(bf)
      decreases |bf| - index
    {
      assert FitsAt(bf, index);
      var parsed := Parse(bf[index..]);
      assert parsed == LexAt(bf, index);
      if parsed.Err? {
        return Err((parsed.error, index));
      }
      var (count, instruction) := parsed.value;
      instructions := instructions + [instruction];
      index := index + count;
    }
    return Ok(instructions);
  }

  /** The outcome of compiling `bf`: a parse error at its offset, a bracket
      error at offset 0, or success. */
  ghost function Compiled(bf: seq<u8>): Result<(), (Error, nat)>
    requires CountsFit(bf)
  {
    match Tokens(bf)
    case Err(e) => Err(e)
    case Ok(code) =>
      match Expected(code)
      case Err(e) => Err((e, 0))
      case Ok(_) => Ok(())
  }

  /** The bytes of `bf[lo..hi]` are all instruction characters. */
  predicate AllCommands(bf: seq<u8>, lo: nat, hi: nat)
    requires lo <= hi <= |bf|
  {
    forall j | lo <= j < hi :: IsCommand(bf[j])
  }

  /** Every byte of an instruction `Lex` reads is an instruction character. */
  lemma LexReadsCommands(s: seq<u8>)
    requires FoldFits(s) && Lex(s).Ok?
    ensures forall j | 0 <= j < Lex(s).value.0 :: IsCommand(s[j])
  {
    var (count, inst) := Lex(s).value;
    LexIsMaximal(s);
    forall j | 0 <= j < count
      ensures IsCommand(s[j])
    {
      if j > 0 {
        assert Folds(inst, s[j]);
      }
    }
  }

  /** Consecutive ranges of instruction characters join up, and a range of
      them splits into its parts. */
  lemma AllCommandsJoin(bf: seq<u8>, lo: nat, mid: nat, hi: nat)
    requires lo <= mid <= hi <= |bf|
    ensures AllCommands(bf, lo, hi) <==> AllCommands(bf, lo, mid) && AllCommands(bf, mid, hi)
  {
  }

  /** The instruction the scan reads at `index` consists of instruction
      characters. */
  lemma TokenReadsCommands(bf: seq<u8>, index: nat)
    requires index < |bf| && FitsAt(bf, index) && LexAt(bf, index).Ok?
    ensures index + LexAt(bf, index).value.0 <= |bf|
    ensures AllCommands(bf, index, index + LexAt(bf, index).value.0)
  {
    var s := bf[index..];
    assert FitsAt(bf, index);
    LexReadsCommands(s);
    forall j | index <= j < index + Lex(s).value.0
      ensures IsCommand(bf[j])
    {
      assert bf[j] == s[j - index];
    }
  }

  /** The scan fails exactly when the source holds a byte that is not an
      instruction character, and then it reports `UnexpectedChar` at the
      offset of the first such byte. */
  lemma {:induction false} ScannedReportsFirstUnknown(bf: seq<u8>, index: nat, done: seq<Instruction>)
    requires index <= |bf| && CountsFitFrom(bf, index)
    ensures Scanned(bf, index, done).Ok? <==> AllCommands(bf, index, |bf|)
    ensures Scanned(bf, index, done).Err? ==>
      var (e, j) := Scanned(bf, index, done).error;
      e == UnexpectedChar && index <= j < |bf| && !IsCommand(bf[j]) && AllCommands(bf, index, j)
    decreases |bf| - index
  {
    if index < |bf| {
      var s := bf[index..];
      assert FitsAt(bf, index) && s[0] == bf[index];
      match LexAt(bf, index)
      case Err(e) =>
        assert Scanned(bf, index, done) == Err((e, index));
      case Ok((count, inst)) =>
        var next := index + count;
        assert Scanned(bf, index, done) == Scanned(bf, next, done + [inst]);
        TokenReadsCommands(bf, index);
        ScannedReportsFirstUnknown(bf, next, done + [inst]);
        AllCommandsJoin(bf, index, next, |bf|);
        if Scanned(bf, next, done + [inst]).Err? {
          AllCommandsJoin(bf, index, next, Scanned(bf, next, done + [inst]).error.1);
        }
    }
  }

  /** Compiling fails with a parse error exactly when the source holds a byte
      that is not an instruction character, and the error is `UnexpectedChar`
      at the offset of the first such byte. */
  lemma TokensReportFirstUnknown(bf: seq<u8>)
    requires CountsFit(bf)
    ensures Tokens(bf).Ok? <==> AllCommands(bf, 0, |bf|)
    ensures Tokens(bf).Err? ==>
      var (e, j) := Tokens(bf).error;
      e == UnexpectedChar && j < |bf| && !IsCommand(bf[j]) && AllCommands(bf, 0, j)
  {
    ScannedReportsFirstUnknown(bf, 0, []);
  }

  /** The scan adds at most one instruction per source byte to those already
      read, and at least one when bytes remain. */
  lemma {:induction false} ScannedIsFewer(bf: seq<u8>, index: nat, done: seq<Instruction>)
    requires index <= |bf| && CountsFitFrom(bf, index)
    ensures Scanned(bf, index, done).Ok? ==>
      |done| <= |Scanned(bf, index, done).value| <= |done| + |bf| - index
    ensures Scanned(bf, index, done).Ok? && index < |bf| ==>
      |Scanned(bf, index, done).value| > |done|
    decreases |bf| - index
  {
    if index < |bf| && LexAt(bf, index).Ok? {
      var (count, inst) := LexAt(bf, index).value;
      ScannedIsFewer(bf, index + count, done + [inst]);
    }
  }

  /** A compiled program has no more instructions than its source has bytes,
      and at least one when the source is not empty. */
  lemma TokensAreFewer(bf: seq<u8>)
    requires CountsFit(bf)
    ensures Tokens(bf).Ok? ==> |Tokens(bf).value| <= |bf|
    ensures Tokens(bf).Ok? && bf != [] ==> |Tokens(bf).value| >= 1
  {
    ScannedIsFewer(bf, 0, []);
  }
}
