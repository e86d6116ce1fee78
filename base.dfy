/** Machine integers, the instruction bytes and the failure wrappers shared by
    the interpreter and the program builder. */
module Base {

  /** Rust's `u8`. */
  type u8 = x: int | 0 <= x < 256

  /** Rust's `u32`, the type of a resolved jump target. */
  type u32 = x: int | 0 <= x < 0x1_0000_0000

  const U32_COUNT: nat := 0x1_0000_0000

  /** `usize::MAX` on a 64-bit target. */
  const USIZE_MAX: nat := 0xFFFF_FFFF_FFFF_FFFF

  /** Rust's `usize`. */
  type usize = x: int | 0 <= x <= USIZE_MAX

  // The eight instruction characters, as bytes.
  const PLUS: u8 := 43      // '+'
  const MINUS: u8 := 45     // '-'
  const GREATER: u8 := 62   // '>'
  const LESS: u8 := 60      // '<'
  const DOT: u8 := 46       // '.'
  const COMMA: u8 := 44     // ','
  const OPEN: u8 := 91      // '['
  const CLOSE: u8 := 93     // ']'

  /** True for exactly the eight bytes the language is written in. */
  predicate IsCommand(b: u8) {
    b == PLUS || b == MINUS || b == GREATER || b == LESS ||
    b == DOT || b == COMMA || b == OPEN || b == CLOSE
  }

  /** `n` copies of the byte `b`. */
  function Repeat(b: u8, n: nat): (r: seq<u8>)
    ensures |r| == n
    ensures forall j | 0 <= j < n :: r[j] == b
  {
    seq(n, _ => b)
  }

  /** +1 for `[`, -1 for `]`, 0 for every other byte. */
  function BracketDelta(b: u8): int {
    if b == OPEN then 1 else if b == CLOSE then -1 else 0
  }

  /** The bracket depth of `bf` before offset `k`: the `[`s minus the `]`s in
      `bf[..k]`. */
  function ByteDepth(bf: seq<u8>, k: nat): int
    requires k <= |bf|
  {
    if k == 0 then 0 else ByteDepth(bf, k - 1) + BracketDelta(bf[k - 1])
  }

  /** No prefix of `bf` closes more brackets than it opens. */
  predicate NoEarlyClose(bf: seq<u8>) {
    forall k | 0 <= k <= |bf| :: ByteDepth(bf, k) >= 0
  }

  /** The brackets of `bf` are properly nested. */
  predicate Balanced(bf: seq<u8>) {
    NoEarlyClose(bf) && ByteDepth(bf, |bf|) == 0
  }

  datatype Option<T> = None | Some(value: T)

  datatype Result<T, E> = Ok(value: T) | Err(error: E)
}
