/** What executing instructions does to the machine, as functions on a value
    of the machine's state: one instruction (`Instruction::execute`) and a
    poll that runs until an event (`Interpreter::poll`). */
module Semantics {
  import opened Base
  import opened Instructions

  /** The tape length `Interpreter::new` allocates; the tape never grows. */
  const TAPE_LEN: nat := 30_000

  /** The events a poll returns: `Output::Output(byte)`, `Output::Input`
      (input is wanted) and `Output::End`. */
  datatype Output = Emit(byte: u8) | AwaitInput | End

  /** The interpreter's mutable state: tape, cell pointer, program counter and
      the pending input bytes (consumed from the back). */
  datatype Machine = Machine(memory: seq<u8>, position: usize, pc: nat, input: seq<u8>)

  /** Executing `i` indexes the tape at the cell pointer. `Input` with an
      empty queue returns before it touches the tape. */
  predicate TouchesCell(i: Instruction, input: seq<u8>) {
    match i
    case MoveRight(_) => false
    case MoveLeft(_) => false
    case Input => input != []
    case _ => true
  }

  /** Executing `i` in `m` does not panic: the tape index is in range, and the
      rewind of `pc` for missing input does not underflow. */
  predicate CanExecute(i: Instruction, m: Machine) {
    && (TouchesCell(i, m.input) ==> m.position < |m.memory|)
    && (i.Input? && m.input == [] ==> m.pc >= 1)
  }

  /** `u8::saturating_add`: the sum when it fits, else 255. */
  function SatAdd(c: u8, n: u8): (d: u8)
    ensures c + n <= 255 ==> d == c + n
    ensures c + n > 255 ==> d == 255
  {
    if c + n > 255 then 255 else c + n
  }

  /** `u8::saturating_sub`: the difference when it is not negative, else 0. */
  function SatSub(c: u8, n: u8): (d: u8)
    ensures n <= c ==> d == c - n
    ensures n > c ==> d == 0
  {
    if c < n then 0 else c - n
  }

  /** `usize::saturating_add` of a `u8` amount: the sum when it fits, else
      `usize::MAX`. */
  function SatAddUsize(p: usize, n: u8): (q: usize)
    ensures p + n <= USIZE_MAX ==> q == p + n
    ensures p + n > USIZE_MAX ==> q == USIZE_MAX
  {
    if p + n > USIZE_MAX then USIZE_MAX else p + n
  }

  /** `usize::saturating_sub` of a `u8` amount: the difference when it is not
      negative, else 0. */
  function SatSubUsize(p: usize, n: u8): (q: usize)
    ensures n <= p ==> q == p - n
    ensures n > p ==> q == 0
  {
    if p < n then 0 else p - n
  }

  /** `Instruction::execute`: the new state and the event, if any. `pc` has
      already been advanced past the instruction by the caller. */
  function Exec(i: Instruction, m: Machine): (r: (Machine, Option<Output>))
    requires CanExecute(i, m)
    ensures |r.0.memory| == |m.memory|
    ensures r.1.Some? ==> i.Output? || i.Input?
    ensures i.Output? ==> r == (m, Some(Emit(m.memory[m.position])))
    ensures !i.MoveRight? && !i.MoveLeft? ==> r.0.position == m.position
    ensures !i.Jump? && !i.JumpBack? && !i.Input? ==> r.0.pc == m.pc && r.0.input == m.input
    ensures i.MoveRight? || i.MoveLeft? || i.Jump? || i.JumpBack? ==> r.0.memory == m.memory
    ensures i.Add? ==> r.0.memory == m.memory[m.position := SatAdd(m.memory[m.position], i.n)]
    ensures i.Sub? ==> r.0.memory == m.memory[m.position := SatSub(m.memory[m.position], i.n)]
    ensures i.MoveRight? ==> r.0.position == SatAddUsize(m.position, i.n)
    ensures i.MoveLeft? ==> r.0.position == SatSubUsize(m.position, i.n)
    ensures i.Input? && m.input != [] ==>
      && r == (r.0, None) && r.0.pc == m.pc
      && r.0.input + [r.0.memory[m.position]] == m.input
      && r.0.memory == m.memory[m.position := r.0.memory[m.position]]
    ensures i.Input? && m.input == [] ==> r == (m.(pc := m.pc - 1), Some(AwaitInput))
    ensures i.Jump? || i.JumpBack? ==> r == (m.(pc := r.0.pc), None)
    ensures i.Jump? ==> r.0.pc == if m.memory[m.position] == 0 then i.target else m.pc
    ensures i.JumpBack? ==> r.0.pc == if m.memory[m.position] != 0 then i.target else m.pc
  {
    match i
    case Add(n) =>
      (m.(memory := m.memory[m.position := SatAdd(m.memory[m.position], n)]), None)
    case Sub(n) =>
      (m.(memory := m.memory[m.position := SatSub(m.memory[m.position], n)]), None)
    case MoveRight(n) =>
      (m.(position := SatAddUsize(m.position, n)), None)
    case MoveLeft(n) =>
      (m.(position := SatSubUsize(m.position, n)), None)
    case Output =>
      (m, Some(Emit(m.memory[m.position])))
    case Input =>
      if m.input != [] then
        var last := m.input[|m.input| - 1];
        (m.(memory := m.memory[m.position := last], input := m.input[..|m.input| - 1]), None)
      else
        (m.(pc := m.pc - 1), Some(AwaitInput))
    case Jump(target) =>
      (if m.memory[m.position] == 0 then m.(pc := target) else m, None)
    case JumpBack(target) =>
      (if m.memory[m.position] != 0 then m.(pc := target) else m, None)
  }

  /** How a poll ends: with an event, with the panic of indexing the tape
      out of range, or (in the model only) with its step budget spent. */
  datatype Outcome = Yielded(out: Output) | IndexPanic | OutOfFuel

  /** `Interpreter::poll`, running at most `fuel` instructions: it executes
      instructions until one yields an event or `pc` runs off the program. */
  function Run(prog: seq<Instruction>, m: Machine, fuel: nat): (r: (Machine, Outcome))
    ensures |r.0.memory| == |m.memory|
    decreases fuel
  {
    if m.pc >= |prog| then (m, Yielded(End))
    else if fuel == 0 then (m, OutOfFuel)
    else
      var inst := prog[m.pc];
      var next := m.(pc := m.pc + 1);
      if TouchesCell(inst, next.input) && next.position >= |next.memory| then (next, IndexPanic)
      else
        var (after, out) := Exec(inst, next);
        if out.Some? then (after, Yielded(out.value)) else Run(prog, after, fuel - 1)
  }
}
