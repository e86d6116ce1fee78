/** The interpreter object: its tape, cell pointer, program counter, compiled
    program and input queue, updated in place by compiling, executing, polling
    and queueing input. */
module Interpreter {
  import opened Base
  import opened Instructions
  import opened Jumps
  import opened Semantics
  import opened Compiler

  class Interpreter {
    var memory: array<u8>
    var position: usize
    var pc: nat
    var instructions: seq<Instruction>
    var input: seq<u8>

    /** The state the execution functions work on. */
    ghost function View(): Machine
      reads this, memory
    {
      Machine(memory[..], position, pc, input)
    }

    /** `Interpreter::new`: a zeroed tape of 30 000 cells, pointer and program
        counter at 0, no program and no input. */
    constructor ()
      ensures fresh(memory)
      ensures View() == Machine(seq(TAPE_LEN, _ => 0), 0, 0, [])
      ensures instructions == []
    {
      memory := new u8[TAPE_LEN](_ => 0);
      position := 0;
      pc := 0;
      instructions := [];
      input := [];
    }

    /** `Interpreter::with_str`: compiles `bf` and installs the program. A
        byte that starts no instruction is reported with its offset, a
        bracket error with offset 0; on success the program is the scanned
        instructions with their brackets paired. */
    method WithStr(bf: seq<u8>) returns (r: Result<(), (Error, nat)>)
      requires CountsFit(bf)
      modifies this
      ensures memory == old(memory) && View() == old(View())
      ensures r == Compiled(bf)
      ensures r.Err? ==> instructions == old(instructions)
      ensures r.Ok? ==>
        && Tokens(bf).Ok?
        && KindsKept(Tokens(bf).value, instructions)
        && (|instructions| <= U32_COUNT ==> Resolved(Tokens(bf).value, instructions))
    {
      var scanned := Scan(bf);
      if scanned.Err? {
        return Err(scanned.error);
      }
      var instrs := scanned.value;
      var code := new Instruction[|instrs|](j requires 0 <= j < |instrs| => instrs[j]);
      assert code[..] == instrs;
      var res := UpdateJumps(code);
      if res.Err? {
        return Err((res.error, 0));
      }
      instructions := code[..];
      return Ok(());
    }

    /** `Interpreter::poll`, allowed at most `fuel` instruction executions:
        runs the program from `pc` until an instruction yields an event or
        `pc` runs off the end. */
    method Poll(fuel: nat) returns (r: Outcome)
      modifies this, memory
      ensures memory == old(memory) && instructions == old(instructions)
      ensures (View(), r) == Run(instructions, old(View()), fuel)
    {
      if pc >= |instructions| {
        return Yielded(End);
      }
      var remaining := fuel;
      while pc < |instructions|
        invariant memory == old(memory) && instructions == old(instructions)
        invariant Run(instructions, old(View()), fuel) == Run(instructions, View(), remaining)
        decreases remaining
      {
        if remaining == 0 {
          return OutOfFuel;
        }
        var stop := Step(remaining);
        if stop.Some? {
          return stop.value;
        }
        remaining := remaining - 1;
      }
      return Yielded(End);
    }

    /** One pass of the loop of `poll`: advances `pc` past the instruction
        it points at and executes it. The outcome, if the pass ends the
        poll, is what `Run` with any budget `fuel` ends with; otherwise `Run`
        goes on from the new state with one step less. */
    method Step(ghost fuel: nat) returns (stop: Option<Outcome>)
      requires pc < |instructions| && fuel > 0
      modifies this, memory
      ensures memory == old(memory) && instructions == old(instructions)
      ensures Run(instructions, old(View()), fuel) ==
        if stop.Some? then (View(), stop.value) else Run(instructions, View(), fuel - 1)
    {
      var instruction := instructions[pc];
      pc := pc + 1;
      if TouchesCell(instruction, input) && position >= memory.Length {
        return Some(IndexPanic);
      }
      var out := Execute(instruction, this);
      if out.Some? {
        return Some(Yielded(out.value));
      }
      return None;
    }

    /** `Interpreter::input`: queues `bytes` behind the pending input. */
    method Input(bytes: seq<u8>)
      modifies this
      ensures memory == old(memory) && instructions == old(instructions)
      ensures View() == old(View()).(input := old(input) + bytes)
    {
      input := input + bytes;
    }
  }

  /** `Instruction::execute`: executes `instruction` on `inter`, whose `pc`
      already points past it, and returns the event it yields, if any. */
  method Execute(instruction: Instruction, inter: Interpreter) returns (out: Option<Output>)
    requires CanExecute(instruction, inter.View())
    modifies inter, inter.memory
    ensures inter.memory == old(inter.memory) && inter.instructions == old(inter.instructions)
    ensures (inter.View(), out) == Exec(instruction, old(inter.View()))
  {
    match instruction {
      case Add(n) =>
        inter.memory[inter.position] := SatAdd(inter.memory[inter.position], n);
      case Sub(n) =>
        inter.memory[inter.position] := SatSub(inter.memory[inter.position], n);
      case MoveRight(n) =>
        inter.position := SatAddUsize(inter.position, n);
      case MoveLeft(n) =>
        inter.position := SatSubUsize(inter.position, n);
      case Output =>
        return Some(Emit(inter.memory[inter.position]));
      case Input =>
        if inter.input != [] {
          var last := inter.input[|inter.input| - 1];
          inter.input := inter.input[..|inter.input| - 1];
          inter.memory[inter.position] := last;
        } else {
          inter.pc := inter.pc - 1;
          return Some(AwaitInput);
        }
      case Jump(target) =>
        if inter.memory[inter.position] == 0 {
          inter.pc := target;
        }
      case JumpBack(target) =>
        if inter.memory[inter.position] != 0 {
          inter.pc := target;
        }
    }
    return None;
  }
}
