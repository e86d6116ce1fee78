/** The bracket checks of the compiler read on the source bytes: the folded
    instructions have the nesting of the characters they were read from, so
    compiling succeeds exactly on sources made of instruction characters
    whose brackets are balanced. */
module Nesting {
  import opened Base
  import opened Instructions
  import opened InstructionFacts
  import opened Jumps
  import opened Compiler

  /** No prefix of `bf` up to offset `n` closes more brackets than it opens. */
  ghost predicate NoEarlyCloseBefore(bf: seq<u8>, n: nat)
    requires n <= |bf|
  {
    forall k | 0 <= k <= n :: ByteDepth(bf, k) >= 0
  }

  /** Appending an instruction leaves the depths of the earlier prefixes
      alone. */
  lemma {:induction false} DepthOfAppend(code: seq<Instruction>, x: Instruction, k: nat)
    requires k <= |code|
    ensures Depth(code + [x], k) == Depth(code, k)
  {
    if k > 0 {
      assert (code + [x])[k - 1] == code[k - 1];
      DepthOfAppend(code, x, k - 1);
    }
  }

  /** Appending an instruction keeps the depth non-negative exactly when it
      was so before and the new total is non-negative. */
  lemma NeverNegativeAppend(code: seq<Instruction>, x: Instruction)
    ensures Depth(code + [x], |code| + 1) == Depth(code, |code|) + Delta(x)
    ensures NeverNegative(code + [x]) <==> NeverNegative(code) && Depth(code + [x], |code| + 1) >= 0
  {
    var c := code + [x];
    assert c[|code|] == x;
    forall k | 0 <= k <= |code|
      ensures Depth(c, k) == Depth(code, k)
    {
      DepthOfAppend(code, x, k);
    }
  }

  /** Over bytes that are not brackets the depth stays where it was. */
  lemma {:induction false} FlatSpan(bf: seq<u8>, lo: nat, hi: nat)
    requires lo <= hi <= |bf|
    requires forall j | lo <= j < hi :: BracketDelta(bf[j]) == 0
    ensures forall k | lo <= k <= hi :: ByteDepth(bf, k) == ByteDepth(bf, lo)
  {
    if hi > lo {
      FlatSpan(bf, lo, hi - 1);
    }
  }

  /** A bracket is read on its own, any other instruction from bytes that
      are not brackets; either way the instruction changes the depth as its
      bytes do, and its bytes pass no bracket before the last. */
  lemma LexDepth(bf: seq<u8>, index: nat)
    requires index < |bf| && FitsAt(bf, index) && LexAt(bf, index).Ok?
    ensures index + LexAt(bf, index).value.0 <= |bf|
    ensures
      var (count, inst) := LexAt(bf, index).value;
      && ByteDepth(bf, index + count) == ByteDepth(bf, index) + Delta(inst)
      && forall k | index <= k < index + count :: ByteDepth(bf, k) == ByteDepth(bf, index)
  {
    var s := bf[index..];
    assert FitsAt(bf, index);
    TokenReadsCommands(bf, index);
    LexIsMaximal(s);
    var (count, inst) := LexAt(bf, index).value;
    assert s[0] == bf[index] && Symbol(inst) == bf[index];
    if KindOf(inst) == NoRun {
      assert count == 1;
      assert ByteDepth(bf, index + 1) == ByteDepth(bf, index) + BracketDelta(bf[index]);
    } else {
      forall j | index <= j < index + count
        ensures BracketDelta(bf[j]) == 0
      {
        assert bf[j] == s[j - index];
        if j > index {
          assert Folds(inst, s[j - index]);
        }
      }
      FlatSpan(bf, index, index + count);
    }
  }

  /** Scanning on from `index` with the instructions `done`, whose nesting
      agrees with that of `bf[..index]`, yields instructions whose nesting
      agrees with that of the whole source. */
  lemma {:induction false} ScannedNesting(bf: seq<u8>, index: nat, done: seq<Instruction>)
    requires index <= |bf| && CountsFitFrom(bf, index) && Scanned(bf, index, done).Ok?
    requires Depth(done, |done|) == ByteDepth(bf, index)
    requires NeverNegative(done) <==> NoEarlyCloseBefore(bf, index)
    ensures
      var code := Scanned(bf, index, done).value;
      && Depth(code, |code|) == ByteDepth(bf, |bf|)
      && (NeverNegative(code) <==> NoEarlyClose(bf))
    decreases |bf| - index
  {
    if index == |bf| {
      assert Scanned(bf, index, done) == Ok(done);
    } else {
      var (count, inst) := LexAt(bf, index).value;
      var next := index + count;
      assert Scanned(bf, index, done) == Scanned(bf, next, done + [inst]);
      LexDepth(bf, index);
      NeverNegativeAppend(done, inst);
      assert NoEarlyCloseBefore(bf, next) <==>
        NoEarlyCloseBefore(bf, index) && ByteDepth(bf, next) >= 0;
      ScannedNesting(bf, next, done + [inst]);
    }
  }

  /** The bracket check on the compiled instructions is the bracket check on
      the source: `UnmatchedClose` when some prefix closes more brackets than
      it opens, else `UnmatchedOpen` when brackets are left open. */
  lemma TokensNesting(bf: seq<u8>)
    requires CountsFit(bf) && Tokens(bf).Ok?
    ensures Expected(Tokens(bf).value) ==
      if !NoEarlyClose(bf) then Err(UnmatchedClose)
      else if ByteDepth(bf, |bf|) != 0 then Err(UnmatchedOpen)
      else Ok(())
  {
    assert NoEarlyCloseBefore(bf, 0) by { assert ByteDepth(bf, 0) == 0; }
    ScannedNesting(bf, 0, []);
  }

  /** Compiling succeeds exactly on sources made of instruction characters
      with balanced brackets; otherwise it reports the first unknown byte
      at its offset or, when there is none, the bracket error at offset 0. */
  lemma CompiledOnBytes(bf: seq<u8>)
    requires CountsFit(bf)
    ensures Compiled(bf).Ok? <==> AllCommands(bf, 0, |bf|) && Balanced(bf)
    ensures AllCommands(bf, 0, |bf|) && !NoEarlyClose(bf) ==> Compiled(bf) == Err((UnmatchedClose, 0))
    ensures AllCommands(bf, 0, |bf|) && NoEarlyClose(bf) && ByteDepth(bf, |bf|) != 0 ==>
      Compiled(bf) == Err((UnmatchedOpen, 0))
    ensures !AllCommands(bf, 0, |bf|) ==>
      var (e, j) := Compiled(bf).error;
      e == UnexpectedChar && j < |bf| && !IsCommand(bf[j]) && AllCommands(bf, 0, j)
  {
    TokensReportFirstUnknown(bf);
    if Tokens(bf).Ok? {
      TokensNesting(bf);
    }
  }
}
