/** The program builder: a context that appends instruction characters to a
    byte buffer, and `construct`, which runs a builder script on a fresh
    buffer that starts with one `+`. */
module Backend {
  import opened Base

  /** One call a builder script makes on its context. The callback passed to
      `begin_loop` is represented by the calls it makes. */
  datatype Call =
    | Increase(amount: u8)
    | Decrease(amount: u8)
    | MoveRight(amount: u8)
    | MoveLeft(amount: u8)
    | Output
    | Input
    | BeginLoop(body: seq<Call>)

  /** The bytes a script appends, call after call. */
  function Emit(script: seq<Call>): seq<u8>
    decreases script
  {
    if script == [] then [] else EmitCall(script[0]) + Emit(script[1..])
  }

  /** The bytes one call appends. */
  function EmitCall(call: Call): seq<u8>
    decreases call
  {
    match call
    case Increase(n) => Repeat(PLUS, n)
    case Decrease(n) => Repeat(MINUS, n)
    case MoveRight(n) => Repeat(GREATER, n)
    case MoveLeft(n) => Repeat(LESS, n)
    case Output => [DOT]
    case Input => [COMMA]
    case BeginLoop(body) => [OPEN] + Emit(body) + [CLOSE]
  }

  /** `Context`: the buffer the builder appends to. */
  class Context {
    var bf: seq<u8>

    /** `Context::new`: a context over the buffer `bf`. */
    constructor (bf: seq<u8>)
      ensures this.bf == bf
    {
      this.bf := bf;
    }

    /** `Context::increase`: appends `amount` copies of `+`. */
    method Increase(amount: u8)
      modifies this
      ensures bf == old(bf) + Repeat(PLUS, amount)
    {
      for k := 0 to amount
        invariant bf == old(bf) + Repeat(PLUS, k)
      {
        bf := bf + [PLUS];
      }
    }

    /** `Context::decrease`: appends `amount` copies of `-`. */
    method Decrease(amount: u8)
      modifies this
      ensures bf == old(bf) + Repeat(MINUS, amount)
    {
      for k := 0 to amount
        invariant bf == old(bf) + Repeat(MINUS, k)
      {
        bf := bf + [MINUS];
      }
    }

    /** `Context::move_right`: appends `amount` copies of `>`. */
    method MoveRight(amount: u8)
      modifies this
      ensures bf == old(bf) + Repeat(GREATER, amount)
    {
      for k := 0 to amount
        invariant bf == old(bf) + Repeat(GREATER, k)
      {
        bf := bf + [GREATER];
      }
    }

    /** `Context::move_left`: appends `amount` copies of `<`. */
    method MoveLeft(amount: u8)
      modifies this
      ensures bf == old(bf) + Repeat(LESS, amount)
    {
      for k := 0 to amount
        invariant bf == old(bf) + Repeat(LESS, k)
      {
        bf := bf + [LESS];
      }
    }

    /** `Context::output`: appends one `.`. */
    method Output()
      modifies this
      ensures bf == old(bf) + [DOT]
    {
      bf := bf + [DOT];
    }

    /** `Context::input`: appends one `,`. */
    method Input()
      modifies this
      ensures bf == old(bf) + [COMMA]
    {
      bf := bf + [COMMA];
    }

    /** `Context::begin_loop`: appends `[`, runs the loop body on this
        context, and appends `]`. */
    method BeginLoop(body: seq<Call>)
      modifies this
      ensures bf == old(bf) + [OPEN] + Emit(body) + [CLOSE]
      decreases body, 1
    {
      bf := bf + [OPEN];
      Perform(body);
      bf := bf + [CLOSE];
    }

    /** Runs a script on this context: each call in turn. */
    method Perform(script: seq<Call>)
      modifies this
      ensures bf == old(bf) + Emit(script)
      decreases script, 0
    {
      if script != [] {
        PerformCall(script[0]);
        Perform(script[1..]);
      }
    }

    /** Makes one call on this context. */
    method PerformCall(call: Call)
      modifies this
      ensures bf == old(bf) + EmitCall(call)
      decreases call, 2
    {
      match call {
        case Increase(n) => Increase(n);
        case Decrease(n) => Decrease(n);
        case MoveRight(n) => MoveRight(n);
        case MoveLeft(n) => MoveLeft(n);
        case Output => Output();
        case Input => Input();
        case BeginLoop(body) => BeginLoop(body);
      }
    }
  }

  /** `construct`: a fresh buffer, one `+`, then what the script appends. */
  method Construct(script: seq<Call>) returns (bf: seq<u8>)
    ensures bf == [PLUS] + Emit(script)
  {
    var context := new Context([]);
    context.Increase(1);
    context.Perform(script);
    bf := context.bf;
  }
}
