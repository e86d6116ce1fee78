# bf: a verified model of the Brainfuck compiler, virtual machine and program builder

This project models the core of `bf`, a Rust Brainfuck toolkit, in its default (non-`debug`) build. It has three parts.

- **Compiler.** `Instruction::from_byte`, `update_with`, `parse` and `update_jumps`, driven by `Interpreter::with_str`. The eight characters `+ - > < . , [ ]` become `Instruction`s. A run of `+`/`-` or `>`/`<` is folded into one counted instruction. A stack pass then pairs every `Jump` with its `JumpBack` by index.
- **Virtual machine.** `Instruction::execute`, `Interpreter::new`, `poll` and `input`. It is a state machine over a tape, a cell pointer, a program counter and an input queue. `poll` runs until an output byte, a request for input, or the end of the program.
- **Program builder.** `construct` and the `Context` methods. They append instruction characters to a byte buffer.

The model follows the code, which behaves differently from a textbook Brainfuck machine:

- Cell arithmetic saturates at 0 and 255. It does not wrap.
- `<` stops at cell 0, and `>` saturates at `usize::MAX`. The tape is a fixed 30 000 cells and never grows. Indexing past it panics.
- Input is taken from the back of the queue (`Vec::pop`), so queued bytes are read last-in, first-out.
- Folding applies the opposite character as a decrement that saturates at 0:
  - `+--` folds to `Add(0)` and leaves the cell as it is. Run one character at a time, it lowers a cell holding 1 to 254 by one.
  - `+-` on a cell holding 255 folds to `Add(0)` and leaves 255, while running it one character at a time gives 254.
  - The model therefore proves that folding preserves behaviour only for runs of one repeated character. It proves the two mixed cases above as concrete counterexamples.
- Compile errors: a byte that starts no instruction is reported at its offset in the source. A bracket error is always reported at offset 0.
- There is no undo history, no lazily cached bracket search and no comment syntax.

Structure:

| file | module | contents |
|---|---|---|
| `base.dfy` | `Base` | machine integers, the instruction bytes, byte-level bracket depth, `Option`/`Result` |
| `instructions.dfy` | `Instructions`, `InstructionFacts` | the instruction set, `from_byte`, `update_with`, `parse`, and facts about folding |
| `jumps.dfy` | `Jumps`, `JumpFacts` | `update_jumps` on an array, proved against a nesting specification |
| `compiler.dfy` | `Compiler` | the scan loop of `with_str` and the outcome of compiling |
| `nesting.dfy` | `Nesting` | the compiler's bracket checks restated on the source bytes |
| `semantics.dfy` | `Semantics` | `execute` and `poll` as functions on the machine state |
| `semantics_facts.dfy` | `SemanticsFacts` | facts about running programs |
| `interpreter.dfy` | `Interpreter` | the `Interpreter` class with its in-place methods |
| `backend.dfy` | `Backend` | the builder `Context` class and `construct` |
| `backend_facts.dfy` | `BackendFacts` | what the builder's output satisfies |

The imperative parts keep their shape:

- `parse` and the scan loop of `with_str` are `while` loops.
- `update_jumps` pairs brackets in place on an `array` with a stack.
- The interpreter is a class whose `memory` is an array written in place.
- The builder methods append to the `Context`'s buffer, with `for` loops where the source has them.

Each method is proved equal to a specification function, and the properties are proved about those functions.

## Model

| member | source | states |
|---|---|---|
| Instructions.FromByte | src/interpreter/mod.rs:60-74 | Returns an instruction exactly for the eight instruction characters, tagged with that character, with count 1 or target 0; every other byte gives `None` |
| Instructions.UpdateWith | src/interpreter/mod.rs:76-112 | Accepts a byte exactly when it belongs to the instruction's fold class (`+`/`-` for cell, `>`/`<` for pointer instructions, nothing for the rest). A byte in the instruction's own direction raises the count by one, the opposite byte lowers it saturating at 0, a refused byte leaves the instruction unchanged |
| Instructions.Lex | src/interpreter/mod.rs:114-124 | Parsing fails with "expected byte" exactly on empty input and with "unexpected char" exactly when the first byte is not an instruction character; otherwise it consumes between 1 and all of the bytes |
| Instructions.Parse | src/interpreter/mod.rs:114-124 | The folding loop returns what `Lex` specifies, with 1 <= count <= length on success |
| InstructionFacts.GrowIsMaximal | src/interpreter/mod.rs:117-123 | The folding loop keeps the instruction's variant, folds every byte it passes and stops at the first byte that does not fold, or at the end of the input |
| InstructionFacts.LexIsMaximal | src/interpreter/mod.rs:114-124 | A parsed instruction has the variant of its first byte, every consumed byte after the first folds into it, and the byte after them does not |
| InstructionFacts.LexUpDown | src/interpreter/mod.rs:76-124 | k <= 255 copies of a counted character followed by any number m of the opposite character parse, without overflow, to k + m bytes and one instruction with count k - m, or 0 when m >= k |
| InstructionFacts.GrowRun | src/interpreter/mod.rs:76-112 | Folding the first `up` <= 255 copies of a counted character raises the count one by one to `up` without overflow, whatever follows |
| InstructionFacts.GrowOpposite | src/interpreter/mod.rs:76-112 | Each opposite character folded after a run lowers the count by one, stopping at 0, and never overflows it |
| InstructionFacts.LexUniformRun | src/interpreter/mod.rs:114-124 | A run of k <= 255 copies of one counted character, followed by a byte of another class or nothing, parses to k bytes and the instruction with count k |
| Jumps.ToU32 | src/interpreter/mod.rs:134-135 | `as u32` keeps every index below 2^32 unchanged |
| Jumps.UpdateJumps | src/interpreter/mod.rs:127-147 | Fails with "unmatched ']'" exactly when some prefix closes more brackets than it opens, else with "unmatched '['" exactly when brackets remain open, else succeeds. It keeps every variant in place. On success, for up to 2^32 instructions, non-bracket entries are unchanged and each bracket holds the index of its matching partner |
| JumpFacts.ResolvedIsSymmetric | src/interpreter/mod.rs:133-135 | After pairing, a `Jump` at s holds t > s with `JumpBack(s)` at t, a `JumpBack` at t holds s < t with a `Jump` pointing back at t, and all targets are in range |
| Compiler.Scan | src/interpreter/mod.rs:231-246 | The scan loop returns the instructions of the source front to back, or the first parse error with the offset where it occurred |
| Compiler.TokensReportFirstUnknown | src/interpreter/mod.rs:233-237 | Scanning fails exactly when the source holds a byte that is not an instruction character, and reports "unexpected char" at the offset of the first such byte |
| Compiler.TokensAreFewer | src/interpreter/mod.rs:233-246 | A scanned program has no more instructions than the source has bytes, and at least one when the source is non-empty |
| Nesting.TokensNesting | src/interpreter/mod.rs:127-147 | The bracket checks on the folded instructions give the same verdict as the same checks on the source bytes |
| Nesting.CompiledOnBytes | src/interpreter/mod.rs:229-255 | Compiling succeeds exactly on sources made only of instruction characters whose brackets are balanced. Otherwise it reports the first unknown byte at its offset, or, when there is none, the bracket error at offset 0 |
| Semantics.Exec | src/interpreter/mod.rs:174-215 | `Add`/`Sub` change only the current cell, to its saturating sum or difference (`SatAdd`/`SatSub`). `MoveRight`/`MoveLeft` change only the pointer, by `SatAddUsize`/`SatSubUsize`. `Output` yields the current cell and changes nothing. `Input` with queued bytes stores and removes the last one; with none it steps `pc` back and yields the input event. `Jump` sets `pc` to its target exactly when the cell is 0, `JumpBack` exactly when it is not, and neither changes anything else. The tape length never changes |
| Semantics.SatAdd | src/interpreter/mod.rs:177 | `u8::saturating_add`: the exact sum when it is at most 255, else 255 |
| Semantics.SatSub | src/interpreter/mod.rs:180 | `u8::saturating_sub`: the exact difference when it is not negative, else 0 |
| Semantics.SatAddUsize | src/interpreter/mod.rs:183 | `usize::saturating_add`: the exact sum when it fits in `usize`, else `usize::MAX` |
| Semantics.SatSubUsize | src/interpreter/mod.rs:186 | `usize::saturating_sub`: the exact difference when it is not negative, else 0 |
| Semantics.Run | src/interpreter/mod.rs:257-275 | Polling never changes the tape length |
| Interpreter.Execute | src/interpreter/mod.rs:174-215 | Executing an instruction updates the interpreter in place exactly as `Exec` specifies and returns its event |
| Interpreter.Interpreter.constructor | src/interpreter/mod.rs:219-227 | A new interpreter has 30 000 zeroed cells, pointer, program counter and input queue empty, and no program |
| Interpreter.Interpreter.WithStr | src/interpreter/mod.rs:229-255 | Compiling returns the outcome `Compiled` specifies and leaves the machine state alone. On success it installs the scanned instructions with their kinds kept and, for up to 2^32 instructions, their brackets paired |
| Interpreter.Interpreter.Poll | src/interpreter/mod.rs:257-275 | Polling updates the interpreter in place and returns exactly what `Run` specifies |
| Interpreter.Interpreter.Step | src/interpreter/mod.rs:261-272 | One pass of the polling loop advances `pc` past the instruction, executes it and either ends the poll with the outcome `Run` ends with or leaves `Run` one step shorter |
| Interpreter.Interpreter.Input | src/interpreter/mod.rs:277-279 | Queues the bytes behind the pending input and changes nothing else |
| SemanticsFacts.CountedIsRepeated | src/interpreter/mod.rs:176-187 | Executing a counted instruction with count n equals executing its character n times one by one |
| SemanticsFacts.FoldedUniformRunIsTransparent | src/interpreter/mod.rs:114-124 | Parsing a run of one repeated counted character and executing the folded instruction gives the same state as executing the run character by character |
| SemanticsFacts.MixedRunsFoldToZero | src/interpreter/mod.rs:82-85 | `+--` and `+-` both parse to `Add(0)`, because the decrement saturates at 0 |
| SemanticsFacts.MixedRunIsNotTransparent | src/interpreter/mod.rs:82-85 | On any cell holding 1 to 254, the folded `+--` leaves the cell as it is, while character-by-character execution lowers it by one |
| SemanticsFacts.CancellingRunIsNotTransparent | src/interpreter/mod.rs:82-85 | On any cell holding 255, the folded `+-` leaves 255, while character-by-character execution gives 254 |
| SemanticsFacts.RunStep | src/interpreter/mod.rs:261-267 | One step of polling executes the instruction at `pc` with `pc` advanced past it and continues when no event occurs |
| SemanticsFacts.EndMeansHalted | src/interpreter/mod.rs:258-274 | Polling reports the end only with `pc` at or past the end of the program |
| SemanticsFacts.EndIsIdempotent | src/interpreter/mod.rs:258-260 | With `pc` past the end, polling returns the end without changing anything, and polling again after an end does the same |
| SemanticsFacts.PcStaysInRange | src/interpreter/mod.rs:257-275 | With resolved jump targets, `pc` never exceeds the program length |
| SemanticsFacts.AwaitInputStopsAtInput | src/interpreter/mod.rs:191-197 | When polling asks for input, `pc` points at an `Input` instruction and the queue is empty |
| SemanticsFacts.FedInputResumes | src/interpreter/mod.rs:192-193 | After input is queued, the next poll re-executes that `Input`, storing the last queued byte and removing it from the queue |
| SemanticsFacts.SkipLoopWhenZero | src/interpreter/mod.rs:199-203 | On a zero cell, a `Jump` continues just past its partner `JumpBack` |
| SemanticsFacts.RepeatLoopWhenNonZero | src/interpreter/mod.rs:204-208 | On a non-zero cell, a `JumpBack` continues just past its partner `Jump` |
| Backend.Context.constructor | src/backend/mod.rs:22-25 | A context writes to the given buffer |
| Backend.Context.Increase | src/backend/mod.rs:27-31 | Appends exactly `amount` copies of `+` and keeps the existing bytes |
| Backend.Context.Decrease | src/backend/mod.rs:33-37 | Appends exactly `amount` copies of `-` and keeps the existing bytes |
| Backend.Context.MoveRight | src/backend/mod.rs:39-43 | Appends exactly `amount` copies of `>` and keeps the existing bytes |
| Backend.Context.MoveLeft | src/backend/mod.rs:45-49 | Appends exactly `amount` copies of `<` and keeps the existing bytes |
| Backend.Context.Output | src/backend/mod.rs:51-53 | Appends exactly one `.` |
| Backend.Context.Input | src/backend/mod.rs:55-57 | Appends exactly one `,` |
| Backend.Context.BeginLoop | src/backend/mod.rs:59-64 | Appends `[`, then what the loop body writes, then `]` |
| Backend.Context.Perform | src/backend/mod.rs:18 | Running a builder callback appends what its calls write, in order |
| Backend.Context.PerformCall | src/backend/mod.rs:18 | Each call of the callback appends what that call writes |
| Backend.Construct | src/backend/mod.rs:14-20 | The built program is one `+` followed by exactly what the callback appends |
| BackendFacts.EmitIsCommands | src/backend/mod.rs:27-64 | Every byte a builder script writes is an instruction character, which `from_byte` accepts |
| BackendFacts.EmitCallIsCommands | src/backend/mod.rs:27-64 | Every byte a single builder call writes is an instruction character |
| BackendFacts.EmitIsBalanced | src/backend/mod.rs:59-64 | Every builder script writes balanced brackets |
| BackendFacts.EmitCallIsBalanced | src/backend/mod.rs:59-64 | Every builder call writes balanced brackets |
| BackendFacts.BeginLoopKeepsBalance | src/backend/mod.rs:59-64 | `begin_loop` keeps a balanced buffer balanced |
| BackendFacts.ConstructedCompiles | src/backend/mod.rs:14-20 | A built program consists of instruction characters with balanced brackets, and `with_str` accepts it whenever compiling it raises no count past 255 |

## Left out

- The terminal debugger (`Interpreter::debug`, `debug_loop`), the `Debug` instruction and every `debug`-feature path are not modelled. They are terminal UI with raw mode, timers and key events, outside the compiled semantics.
- `src/main.rs` is not part of this model. It is a demo that prints to standard output, and its sample program only parses in the `debug` build.
- The builder's `Stack` placeholder field and the cell-layout comment are not modelled. They describe nothing the code implements.
- `BRAINFUCK_TO_INSTRUCTION_RATIO` is not modelled. It only sizes a vector's initial capacity.
- The builder callbacks (`FnOnce` closures) are modelled as scripts of `Call`s, one per `Context` method they invoke. `Context.bf` is a public field, so a real callback could also push arbitrary bytes to the buffer or truncate it directly. The model cannot express that, so BackendFacts.EmitIsCommands, BackendFacts.EmitIsBalanced and BackendFacts.ConstructedCompiles hold only for callbacks that write through the `Context` methods.
- Backend.Context.BeginLoop: the value the loop body returns, which `begin_loop` passes back, is not modelled. A callback's effect on the buffer is its only effect here.
- Instructions.UpdateWith: it is a function returning the flag and the updated instruction instead of a method changing the instruction through `&mut self`. It requires that a count of 255 is not raised: the source's `*n += 1` would panic in a debug build or wrap in a release build, and neither is modelled.
- Instructions.Lex: it requires `FoldFits`, which says the fold never meets a byte in the instruction's own direction while the count is 255. That is exactly the case where the source's `*n += 1` overflows. Instructions.Parse carries the same requirement.
- Compiler.Scan: it requires `CountsFit`, the same condition at every offset where the scan starts an instruction, up to the first parse error. Interpreter.Interpreter.WithStr, Nesting.CompiledOnBytes and the lemmas about `Tokens` carry it too. The overflowing sources it excludes are not modelled.
- Interpreter.Execute: it requires `CanExecute`. The tape index must be in range, where the source panics when `memory[position]` is out of range. `pc` must be at least 1 when `Input` meets an empty queue, where the source's `inter.pc -= 1` underflows if the public `execute` is called directly with `pc` 0. `poll` always advances `pc` before executing, so this case never arises through it.
- Interpreter.Interpreter.Poll: it takes a step budget `fuel` and returns `OutOfFuel` when the budget runs out, because the source's `poll` need not terminate. It returns `IndexPanic` where the source panics on an out-of-range tape index.
- Interpreter.Interpreter.WithStr: the source takes the interpreter by value and returns it on success. The model updates it in place and leaves it unchanged on error.
- Jumps.UpdateJumps: pairing is proved only for slices of at most 2^32 instructions. Beyond that, `as u32` truncates the targets (modelled by `ToU32`), and nothing is claimed about them.
- Error strings are modelled as the `Error` datatype, one variant per message the source returns.
- `usize` is taken to be 64 bits wide, which matters only for the saturation of `MoveRight`.
