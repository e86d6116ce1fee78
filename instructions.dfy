/** The instruction set and the first compiler stage: recognising one
    instruction character and folding the run of compatible characters that
    follows it into a single counted instruction. */
module Instructions {
  import opened Base

  /** One compiled instruction. The counted variants carry the folded run
      length, the jump variants the index of their partner bracket. */
  datatype Instruction =
    | Add(n: u8)
    | Sub(n: u8)
    | MoveRight(n: u8)
    | MoveLeft(n: u8)
    | Output
    | Input
    | Jump(target: u32)
    | JumpBack(target: u32)

  /** The errors the compiler reports, one per message string of the
      program: "expected byte found EOF", "unexpected char",
      "unmatched ']' found" and "unmatched '[' found". */
  datatype Error = ExpectedByte | UnexpectedChar | UnmatchedClose | UnmatchedOpen

  /** The byte each variant is tagged with (the enum is `#[repr(u8)]`). */
  function Symbol(i: Instruction): u8 {
    match i
    case Add(_) => PLUS
    case Sub(_) => MINUS
    case MoveRight(_) => GREATER
    case MoveLeft(_) => LESS
    case Output => DOT
    case Input => COMMA
    case Jump(_) => OPEN
    case JumpBack(_) => CLOSE
  }

  /** The folded run length of a counted instruction, 0 for the others. */
  function Count(i: Instruction): u8 {
    match i
    case Add(n) => n
    case Sub(n) => n
    case MoveRight(n) => n
    case MoveLeft(n) => n
    case _ => 0
  }

  /** An instruction as a single character yields it: count 1, target 0. */
  predicate IsUnit(i: Instruction) {
    match i
    case Jump(t) => t == 0
    case JumpBack(t) => t == 0
    case Output => true
    case Input => true
    case _ => Count(i) == 1
  }

  /** Which characters may be folded into an instruction: `+`/`-` into the
      cell instructions, `>`/`<` into the pointer instructions, nothing into
      the others. */
  datatype RunKind = CellRun | PointerRun | NoRun

  function KindOf(i: Instruction): RunKind {
    match i
    case Add(_) => CellRun
    case Sub(_) => CellRun
    case MoveRight(_) => PointerRun
    case MoveLeft(_) => PointerRun
    case _ => NoRun
  }

  function ByteKind(b: u8): RunKind {
    if b == PLUS || b == MINUS then CellRun
    else if b == GREATER || b == LESS then PointerRun
    else NoRun
  }

  /** The byte `b` is folded into `i`. */
  predicate Folds(i: Instruction, b: u8) {
    KindOf(i) != NoRun && ByteKind(b) == KindOf(i)
  }

  /** The counted instruction written with the character `b`, with count `n`. */
  function Counted(b: u8, n: u8): (r: Instruction)
    requires ByteKind(b) != NoRun
    ensures Symbol(r) == b && Count(r) == n && KindOf(r) == ByteKind(b)
  {
    if b == PLUS then Add(n)
    else if b == MINUS then Sub(n)
    else if b == GREATER then MoveRight(n)
    else MoveLeft(n)
  }

  /** `Instruction::from_byte`: the eight instruction characters and nothing
      else are recognised, each as its single-character instruction. */
  function FromByte(b: u8): (r: Option<Instruction>)
    ensures r.Some? <==> IsCommand(b)
    ensures r.Some? ==> Symbol(r.value) == b && IsUnit(r.value)
    ensures r.Some? ==> KindOf(r.value) == ByteKind(b)
  {
    if b == PLUS then Some(Add(1))
    else if b == MINUS then Some(Sub(1))
    else if b == GREATER then Some(MoveRight(1))
    else if b == LESS then Some(MoveLeft(1))
    else if b == DOT then Some(Output)
    else if b == COMMA then Some(Input)
    else if b == OPEN then Some(Jump(0))
    else if b == CLOSE then Some(JumpBack(0))
    else None
  }

  /** `Instruction::update_with`, on the instruction as a value: the flag it
      returns and the instruction as it leaves it. A character of the
      instruction's own direction raises the count, the opposite character
      lowers it, stopping at 0; any other pairing is refused and leaves the
      instruction as it was. The count is a `u8` whose `+= 1` must not
      overflow, so raising a count of 255 is excluded. */
  function UpdateWith(i: Instruction, b: u8): (res: (bool, Instruction))
    requires Folds(i, b) && b == Symbol(i) ==> Count(i) < 255
    ensures res.0 <==> Folds(i, b)
    ensures !res.0 ==> res.1 == i
    ensures res.0 ==> Symbol(res.1) == Symbol(i) && KindOf(res.1) == KindOf(i)
    ensures res.0 && b == Symbol(i) ==> Count(res.1) == Count(i) + 1
    ensures res.0 && b != Symbol(i) ==> Count(res.1) == if Count(i) == 0 then 0 else Count(i) - 1
  {
    match (i, b)
    case (Add(n), _) =>
      if b == PLUS then (true, Add(n + 1))
      else if b == MINUS then (true, Add(if n == 0 then 0 else n - 1))
      else (false, i)
    case (Sub(n), _) =>
      if b == MINUS then (true, Sub(n + 1))
      else if b == PLUS then (true, Sub(if n == 0 then 0 else n - 1))
      else (false, i)
    case (MoveRight(n), _) =>
      if b == GREATER then (true, MoveRight(n + 1))
      else if b == LESS then (true, MoveRight(if n == 0 then 0 else n - 1))
      else (false, i)
    case (MoveLeft(n), _) =>
      if b == LESS then (true, MoveLeft(n + 1))
      else if b == GREATER then (true, MoveLeft(if n == 0 then 0 else n - 1))
      else (false, i)
    case _ => (false, i)
  }

  /** Folding the bytes of `s` from offset `count` on into `i`, as the loop
      of `Instruction::parse` does, never meets a byte in the instruction's
      own direction while its count is 255, the one case where the `u8`
      increment of `update_with` overflows. */
  predicate FoldFitsFrom(i: Instruction, s: seq<u8>, count: nat)
    decreases |s| - count
  {
    || count >= |s|
    || !Folds(i, s[count])
    || (&& !(s[count] == Symbol(i) && Count(i) == 255)
        && FoldFitsFrom(UpdateWith(i, s[count]).1, s, count + 1))
  }

  /** Parsing the front of `s` never overflows a count. */
  predicate FoldFits(s: seq<u8>) {
    s != [] && IsCommand(s[0]) ==> FoldFitsFrom(FromByte(s[0]).value, s, 1)
  }

  /** The loop of `Instruction::parse` from the state (`i`, `count`): the
      bytes from `count` on are folded into `i` for as long as they fold, and
      the result is the number of bytes consumed and the instruction. */
  function Grow(i: Instruction, s: seq<u8>, count: nat): (r: (nat, Instruction))
    requires 1 <= count <= |s| && FoldFitsFrom(i, s, count)
    ensures count <= r.0 <= |s|
    decreases |s| - count
  {
    if count < |s| && Folds(i, s[count]) then
      Grow(UpdateWith(i, s[count]).1, s, count + 1)
    else (count, i)
  }

  /** What `Instruction::parse` computes: an error for an empty input or an
      unrecognised first byte, otherwise the number of bytes consumed and the
      folded instruction. */
  function Lex(s: seq<u8>): (r: Result<(nat, Instruction), Error>)
    requires FoldFits(s)
    ensures s == [] <==> r == Err(ExpectedByte)
    ensures s != [] ==> (r == Err(UnexpectedChar) <==> !IsCommand(s[0]))
    ensures r.Ok? ==> 1 <= r.value.0 <= |s|
  {
    if s == [] then Err(ExpectedByte)
    else match FromByte(s[0])
      case None => Err(UnexpectedChar)
      case Some(first) => Ok(Grow(first, s, 1))
  }

  /** `Instruction::parse`: reads one instruction from the front of `s`,
      folding as many following bytes into it as `UpdateWith` accepts. */
  method Parse(s: seq<u8>) returns (r: Result<(nat, Instruction), Error>)
    requires FoldFits(s)
    ensures r == Lex(s)
    ensures r.Ok? ==> 1 <= r.value.0 <= |s|
  {
    if |s| == 0 {
      return Err(ExpectedByte);
    }
    var first := FromByte(s[0]);
    if first.None? {
      return Err(UnexpectedChar);
    }
    var instruction := first.value;
    var count := 1;
    while count < |s|
      invariant 1 <= count <= |s| && FoldFitsFrom(instruction, s, count)
      invariant Grow(instruction, s, count) == Grow(first.value, s, 1)
    {
      var (folded, next) := UpdateWith(instruction, s[count]);
      if !folded {
        break;
      }
      instruction, count := next, count + 1;
    }
    return Ok((count, instruction));
  }
}

module InstructionFacts {
  import opened Base
  import opened Instructions

  /** The instruction `Grow` returns has taken in every byte from `count` on
      that it consumed, and the byte after them, if any, does not fold into
      it. */
  lemma {:induction false} GrowIsMaximal(i: Instruction, s: seq<u8>, count: nat)
    requires 1 <= count <= |s| && FoldFitsFrom(i, s, count)
    ensures Symbol(Grow(i, s, count).1) == Symbol(i) && KindOf(Grow(i, s, count).1) == KindOf(i)
    ensures forall j | count <= j < Grow(i, s, count).0 :: Folds(i, s[j])
    ensures Grow(i, s, count).0 < |s| ==> !Folds(i, s[Grow(i, s, count).0])
    decreases |s| - count
  {
    if count < |s| && Folds(i, s[count]) {
      GrowIsMaximal(UpdateWith(i, s[count]).1, s, count + 1);
    }
  }

  /** The instruction `Lex` reads is the one its first byte names; it takes
      in every byte it consumes after the first, and the byte after them, if
      any, would not fold into it: the instruction is as long as it can be. */
  lemma LexIsMaximal(s: seq<u8>)
    requires FoldFits(s) && Lex(s).Ok?
    ensures Symbol(Lex(s).value.1) == s[0]
    ensures forall j | 1 <= j < Lex(s).value.0 :: Folds(Lex(s).value.1, s[j])
    ensures Lex(s).value.0 < |s| ==> !Folds(Lex(s).value.1, s[Lex(s).value.0])
  {
    GrowIsMaximal(FromByte(s[0]).value, s, 1);
  }

  /** Folding the rest of a run of `k` copies of a counted character into the
      instruction holding the first `count` of them never overflows and
      counts them all. */
  lemma {:induction false} GrowUniform(b: u8, k: nat, rest: seq<u8>, count: nat)
    requires ByteKind(b) != NoRun && 1 <= count <= k <= 255
    requires rest == [] || ByteKind(rest[0]) != ByteKind(b)
    ensures FoldFitsFrom(Counted(b, count), Repeat(b, k) + rest, count)
    ensures Grow(Counted(b, count), Repeat(b, k) + rest, count) == (k, Counted(b, k))
    decreases k - count
  {
    var s := Repeat(b, k) + rest;
    if count < k {
      assert s[count] == b;
      assert UpdateWith(Counted(b, count), b).1 == Counted(b, count + 1);
      GrowUniform(b, k, rest, count + 1);
    } else if k < |s| {
      assert s[k] == rest[0];
    }
  }

  /** A run of `k` identical counted characters (k <= 255), ended by the end of
      the input or by a byte of another kind, parses to one instruction with
      count k that consumes exactly the run; `+`^k gives `(k, Add(k))`. */
  lemma LexUniformRun(b: u8, k: nat, rest: seq<u8>)
    requires ByteKind(b) != NoRun && 1 <= k <= 255
    requires rest == [] || ByteKind(rest[0]) != ByteKind(b)
    ensures FoldFits(Repeat(b, k) + rest)
    ensures Lex(Repeat(b, k) + rest) == Ok((k, Counted(b, k)))
  {
    var s := Repeat(b, k) + rest;
    assert s[0] == b;
    GrowUniform(b, k, rest, 1);
  }

  /** Folding the first `up` copies of a counted character never overflows
      and lands at count `up`, whatever follows them. */
  lemma {:induction false} GrowRun(b: u8, up: nat, tail: seq<u8>, count: nat)
    requires ByteKind(b) != NoRun && 1 <= count <= up <= 255
    ensures
      var s := Repeat(b, up) + tail;
      && (FoldFitsFrom(Counted(b, count), s, count) <==> FoldFitsFrom(Counted(b, up), s, up))
      && (FoldFitsFrom(Counted(b, up), s, up) ==>
            Grow(Counted(b, count), s, count) == Grow(Counted(b, up), s, up))
    decreases up - count
  {
    var s := Repeat(b, up) + tail;
    if count < up {
      assert s[count] == b;
      assert UpdateWith(Counted(b, count), b).1 == Counted(b, count + 1);
      GrowRun(b, up, tail, count + 1);
    }
  }

  /** After `up` copies of a counted character, each of `down` copies of the
      opposite character lowers the count by one, stopping at 0, and none of
      them can overflow it. */
  lemma {:induction false} GrowOpposite(b: u8, o: u8, up: nat, down: nat, count: nat)
    requires ByteKind(b) != NoRun && ByteKind(o) == ByteKind(b) && o != b
    requires 1 <= up <= 255 && up <= count <= up + down
    ensures
      var s := Repeat(b, up) + Repeat(o, down);
      var n: u8 := if count - up >= up then 0 else up - (count - up);
      && FoldFitsFrom(Counted(b, n), s, count)
      && Grow(Counted(b, n), s, count) == (up + down, Counted(b, if down >= up then 0 else up - down))
    decreases up + down - count
  {
    var s := Repeat(b, up) + Repeat(o, down);
    var n: u8 := if count - up >= up then 0 else up - (count - up);
    if count < up + down {
      assert s[count] == o;
      var next: u8 := if count + 1 - up >= up then 0 else up - (count + 1 - up);
      assert UpdateWith(Counted(b, n), o).1 == Counted(b, next);
      GrowOpposite(b, o, up, down, count + 1);
    }
  }

  /** `k` copies of a counted character followed by `m` copies of the
      opposite one parse, without overflow however large `m` is, to one
      instruction of count k - m, or 0 when m >= k: `+`^200 `-`^100 gives
      `(300, Add(100))`. */
  lemma LexUpDown(b: u8, o: u8, k: nat, m: nat)
    requires ByteKind(b) != NoRun && ByteKind(o) == ByteKind(b) && o != b
    requires 1 <= k <= 255
    ensures FoldFits(Repeat(b, k) + Repeat(o, m))
    ensures Lex(Repeat(b, k) + Repeat(o, m)) == Ok((k + m, Counted(b, if m >= k then 0 else k - m)))
  {
    var s := Repeat(b, k) + Repeat(o, m);
    assert s[0] == b;
    GrowRun(b, k, Repeat(o, m), 1);
    GrowOpposite(b, o, k, m, k);
  }
}
