/** Properties of the execution semantics: what folding does and does not
    preserve, halting, suspension for input and resumption, and how a loop is
    entered and left. */
module SemanticsFacts {
  import opened Base
  import opened Instructions
  import opened InstructionFacts
  import opened Jumps
  import opened JumpFacts
  import opened Semantics

  /** The bytes of `w` are all of kind `k`, a kind that folds, and when they
      work on the cell the cell is on the tape. */
  predicate RunnableRun(k: RunKind, w: seq<u8>, m: Machine) {
    && k != NoRun
    && (forall j | 0 <= j < |w| :: ByteKind(w[j]) == k)
    && (k == CellRun ==> m.position < |m.memory|)
  }

  /** Executing the bytes of `w` one character at a time, unfolded. */
  function ExecEach(k: RunKind, w: seq<u8>, m: Machine): Machine
    requires RunnableRun(k, w, m)
  {
    if w == [] then m
    else
      var first := FromByte(w[0]).value;
      ExecEach(k, w[1..], Exec(first, m).0)
  }

  /** Executing a count of n is executing a count of 1 and then n - 1. */
  lemma ExecCountedSplit(b: u8, n: u8, m: Machine)
    requires ByteKind(b) != NoRun && n >= 1
    requires ByteKind(b) == CellRun ==> m.position < |m.memory|
    ensures Exec(Counted(b, n), m).0 == Exec(Counted(b, n - 1), Exec(Counted(b, 1), m).0).0
  {
  }

  /** A counted instruction with count n does what n single characters do. */
  lemma {:induction false} CountedIsRepeated(b: u8, n: u8, m: Machine)
    requires ByteKind(b) != NoRun
    requires ByteKind(b) == CellRun ==> m.position < |m.memory|
    ensures RunnableRun(ByteKind(b), Repeat(b, n), m)
    ensures Exec(Counted(b, n), m).0 == ExecEach(ByteKind(b), Repeat(b, n), m)
  {
    if n == 0 {
      if ByteKind(b) == CellRun {
        assert m.memory[m.position := m.memory[m.position]] == m.memory;
      }
    } else {
      ExecCountedSplit(b, n, m);
      assert Repeat(b, n)[1..] == Repeat(b, n - 1);
      CountedIsRepeated(b, n - 1, Exec(Counted(b, 1), m).0);
    }
  }

  /** Folding is transparent for a run of one character: the instruction a
      run of k identical counted characters compiles to changes the machine
      exactly as executing the k characters one by one. */
  lemma FoldedUniformRunIsTransparent(b: u8, k: nat, rest: seq<u8>, m: Machine)
    requires ByteKind(b) != NoRun && 1 <= k <= 255
    requires rest == [] || ByteKind(rest[0]) != ByteKind(b)
    requires ByteKind(b) == CellRun ==> m.position < |m.memory|
    ensures FoldFits(Repeat(b, k) + rest) && Lex(Repeat(b, k) + rest) == Ok((k, Counted(b, k)))
    ensures RunnableRun(ByteKind(b), Repeat(b, k), m)
    ensures Exec(Lex(Repeat(b, k) + rest).value.1, m).0 == ExecEach(ByteKind(b), Repeat(b, k), m)
  {
    LexUniformRun(b, k, rest);
    CountedIsRepeated(b, k, m);
  }

  /** A run that changes direction folds its count towards zero: `+--` and
      `+-` both compile to `Add(0)`. */
  lemma MixedRunsFoldToZero()
    ensures Lex([PLUS, MINUS, MINUS]) == Ok((3, Add(0)))
    ensures Lex([PLUS, MINUS]) == Ok((2, Add(0)))
  {
    var s := [PLUS, MINUS, MINUS];
    assert FoldFitsFrom(Add(0), s, 3) && FoldFitsFrom(Add(0), s, 2) && FoldFitsFrom(Add(1), s, 1);
    assert Grow(Add(0), s, 2) == Grow(Add(0), s, 3) == (3, Add(0));
    assert Grow(Add(1), s, 1) == Grow(Add(0), s, 2);
    var t := [PLUS, MINUS];
    assert FoldFitsFrom(Add(0), t, 2) && FoldFitsFrom(Add(1), t, 1);
    assert Grow(Add(0), t, 2) == (2, Add(0));
    assert Grow(Add(1), t, 1) == Grow(Add(0), t, 2);
  }

  /** Folding is not transparent for a run that changes direction: `+--`
      compiles to `Add(0)`, which leaves a cell holding 1 to 254 as it is,
      while the three characters one by one lower it by one. */
  lemma MixedRunIsNotTransparent(m: Machine)
    requires m.position < |m.memory| && 1 <= m.memory[m.position] <= 254
    ensures Lex([PLUS, MINUS, MINUS]) == Ok((3, Add(0)))
    ensures Exec(Add(0), m).0 == m
    ensures ExecEach(CellRun, [PLUS, MINUS, MINUS], m).memory ==
      m.memory[m.position := m.memory[m.position] - 1]
  {
    MixedRunsFoldToZero();
    var s := [PLUS, MINUS, MINUS];
    var (p, c) := (m.position, m.memory[m.position]);
    assert SatAdd(c, 1) == c + 1 && SatSub(c + 1, 1) == c && SatSub(c, 1) == c - 1;
    assert m.memory[p := c] == m.memory;
    var up := m.(memory := m.memory[p := c + 1]);
    assert Exec(Add(1), m).0 == up;
    assert Exec(Sub(1), up).0 == m;
    var down := m.(memory := m.memory[p := c - 1]);
    assert Exec(Sub(1), m).0 == down;
    assert s[1..][1..][1..] == [];
    assert ExecEach(CellRun, s, m) == ExecEach(CellRun, s[1..], up);
    assert ExecEach(CellRun, s[1..], up) == ExecEach(CellRun, s[1..][1..], m);
    assert ExecEach(CellRun, s[1..][1..], m) == down;
  }

  /** Even a run whose count nets to zero without saturating is not
      transparent, because the cell arithmetic saturates: `+-` compiles to
      `Add(0)`, which leaves a cell holding 255 as it is, while the two
      characters one by one leave 254. */
  lemma CancellingRunIsNotTransparent(m: Machine)
    requires m.position < |m.memory| && m.memory[m.position] == 255
    ensures Lex([PLUS, MINUS]) == Ok((2, Add(0)))
    ensures Exec(Add(0), m).0 == m
    ensures ExecEach(CellRun, [PLUS, MINUS], m).memory == m.memory[m.position := 254]
  {
    MixedRunsFoldToZero();
    var t := [PLUS, MINUS];
    assert m.memory[m.position := 255] == m.memory;
    assert Exec(Add(1), m).0 == m;
    var down := m.(memory := m.memory[m.position := 254]);
    assert Exec(Sub(1), m).0 == down;
    assert t[1..][1..] == [];
    assert ExecEach(CellRun, t, m) == ExecEach(CellRun, t[1..], m);
    assert ExecEach(CellRun, t[1..], m) == down;
  }

  /** One step of a poll that yields nothing: the poll goes on from the state
      the instruction leaves, with one step less. */
  lemma RunStep(prog: seq<Instruction>, m: Machine, fuel: nat)
    requires m.pc < |prog| && fuel > 0
    requires CanExecute(prog[m.pc], m.(pc := m.pc + 1))
    requires Exec(prog[m.pc], m.(pc := m.pc + 1)).1.None?
    ensures Run(prog, m, fuel) == Run(prog, Exec(prog[m.pc], m.(pc := m.pc + 1)).0, fuel - 1)
  {
  }

  /** A poll that returns `End` has run `pc` off the program. */
  lemma {:induction false} EndMeansHalted(prog: seq<Instruction>, m: Machine, fuel: nat)
    ensures Run(prog, m, fuel).1 == Yielded(End) ==> Run(prog, m, fuel).0.pc >= |prog|
    decreases fuel
  {
    if m.pc < |prog| && fuel > 0 {
      var inst := prog[m.pc];
      var next := m.(pc := m.pc + 1);
      if !(TouchesCell(inst, next.input) && next.position >= |next.memory|) {
        var (after, out) := Exec(inst, next);
        if out.None? {
          EndMeansHalted(prog, after, fuel - 1);
        }
      }
    }
  }

  /** `End` is final: a poll with `pc` past the program returns `End` and
      changes nothing, and every poll after an `End` does the same. */
  lemma EndIsIdempotent(prog: seq<Instruction>, m: Machine, fuel: nat, later: nat)
    ensures m.pc >= |prog| ==> Run(prog, m, fuel) == (m, Yielded(End))
    ensures Run(prog, m, fuel).1 == Yielded(End) ==>
      var halted := Run(prog, m, fuel).0;
      Run(prog, halted, later) == (halted, Yielded(End))
  {
    EndMeansHalted(prog, m, fuel);
  }

  /** With every jump target inside the program, polling keeps `pc` at most
      the program length. */
  lemma {:induction false} PcStaysInRange(prog: seq<Instruction>, m: Machine, fuel: nat)
    requires TargetsInRange(prog) && m.pc <= |prog|
    ensures Run(prog, m, fuel).0.pc <= |prog|
    decreases fuel
  {
    if m.pc < |prog| && fuel > 0 {
      var inst := prog[m.pc];
      var next := m.(pc := m.pc + 1);
      if !(TouchesCell(inst, next.input) && next.position >= |next.memory|) {
        var (after, out) := Exec(inst, next);
        if out.None? {
          PcStaysInRange(prog, after, fuel - 1);
        }
      }
    }
  }

  /** A poll that asks for input stops with `pc` on the `Input` instruction
      that found the queue empty, so the next poll executes it again. */
  lemma {:induction false} AwaitInputStopsAtInput(prog: seq<Instruction>, m: Machine, fuel: nat)
    requires m.pc <= |prog|
    ensures Run(prog, m, fuel).1 == Yielded(AwaitInput) ==>
      var w := Run(prog, m, fuel).0;
      w.pc < |prog| && prog[w.pc] == Input && w.input == []
    decreases fuel
  {
    if m.pc < |prog| && fuel > 0 {
      var inst := prog[m.pc];
      var next := m.(pc := m.pc + 1);
      if !(TouchesCell(inst, next.input) && next.position >= |next.memory|) {
        var (after, out) := Exec(inst, next);
        if out.None? {
          if after.pc <= |prog| {
            AwaitInputStopsAtInput(prog, after, fuel - 1);
          } else {
            EndIsIdempotent(prog, after, fuel - 1, 0);
          }
        }
      }
    }
  }

  /** Resuming at a waiting `Input` after `bytes` were queued executes that
      instruction once: it stores the LAST queued byte, keeps the others, and
      moves on to the next instruction. */
  lemma FedInputResumes(prog: seq<Instruction>, w: Machine, bytes: seq<u8>, fuel: nat)
    requires w.pc < |prog| && prog[w.pc] == Input && w.input == []
    requires bytes != [] && w.position < |w.memory| && fuel >= 1
    ensures Run(prog, w.(input := w.input + bytes), fuel) ==
      Run(prog, Machine(w.memory[w.position := bytes[|bytes| - 1]], w.position, w.pc + 1,
                        bytes[..|bytes| - 1]), fuel - 1)
  {
    var fed := w.(input := w.input + bytes);
    assert fed.input == bytes;
    RunStep(prog, fed, fuel);
  }

  /** A loop entered with a zero cell is skipped: two steps later execution
      continues just after the matching `]`. */
  lemma SkipLoopWhenZero(prog: seq<Instruction>, m: Machine, fuel: nat)
    requires Symmetric(prog) && m.pc < |prog| && prog[m.pc].Jump?
    requires m.position < |m.memory| && m.memory[m.position] == 0 && fuel >= 2
    ensures Run(prog, m, fuel) == Run(prog, m.(pc := prog[m.pc].target + 1), fuel - 2)
  {
    var t := prog[m.pc].target;
    assert Run(prog, m, fuel) == Run(prog, m.(pc := t), fuel - 1);
  }

  /** A `]` reached with a non-zero cell goes round again: two steps later
      execution continues at the first instruction of the loop body. */
  lemma RepeatLoopWhenNonZero(prog: seq<Instruction>, m: Machine, fuel: nat)
    requires Symmetric(prog) && m.pc < |prog| && prog[m.pc].JumpBack?
    requires m.position < |m.memory| && m.memory[m.position] != 0 && fuel >= 2
    ensures Run(prog, m, fuel) == Run(prog, m.(pc := prog[m.pc].target + 1), fuel - 2)
  {
    var s := prog[m.pc].target;
    assert Run(prog, m, fuel) == Run(prog, m.(pc := s), fuel - 1);
  }
}
