/** The second compiler stage: pairing every `Jump` with its `JumpBack` in
    place, using a stack of the indices of the brackets still open. */
module Jumps {
  import opened Base
  import opened Instructions

  /** +1 for an opening bracket, -1 for a closing one, 0 otherwise. */
  function Delta(i: Instruction): int {
    if i.Jump? then 1 else if i.JumpBack? then -1 else 0
  }

  /** The nesting depth before index `k`: opening minus closing brackets in
      `code[..k]`. */
  function Depth(code: seq<Instruction>, k: nat): int
    requires k <= |code|
  {
    if k == 0 then 0 else Depth(code, k - 1) + Delta(code[k - 1])
  }

  /** No prefix closes more brackets than it opens. */
  ghost predicate NeverNegative(code: seq<Instruction>) {
    forall k | 0 <= k <= |code| :: Depth(code, k) >= 0
  }

  /** `code[s]` opens the loop that `code[t]` closes: after the opening
      bracket the depth stays above its level until the closing bracket brings
      it back. */
  ghost predicate Matches(code: seq<Instruction>, s: int, t: int) {
    && 0 <= s < t < |code|
    && code[s].Jump? && code[t].JumpBack?
    && Depth(code, t + 1) == Depth(code, s)
    && forall m | s < m <= t :: Depth(code, m) > Depth(code, s)
  }

  /** The two instructions have the same variant. */
  predicate SameKind(x: Instruction, y: Instruction) {
    Symbol(x) == Symbol(y)
  }

  /** `r` has the length of `code` and the same variant at every index. */
  predicate KindsKept(code: seq<Instruction>, r: seq<Instruction>) {
    |r| == |code| && forall j | 0 <= j < |r| :: SameKind(r[j], code[j])
  }

  /** `r` is `code` with every bracket pointing at its partner and everything
      else as it was. */
  ghost predicate Resolved(code: seq<Instruction>, r: seq<Instruction>) {
    && |r| == |code|
    && (forall j | 0 <= j < |code| && !code[j].Jump? && !code[j].JumpBack? :: r[j] == code[j])
    && (forall j | 0 <= j < |code| && code[j].Jump? :: r[j].Jump? && Matches(code, j, r[j].target))
    && (forall j | 0 <= j < |code| && code[j].JumpBack? :: r[j].JumpBack? && Matches(code, r[j].target, j))
  }

  /** Rust's `i as u32`: the index truncated to 32 bits. */
  function ToU32(i: nat): (r: u32)
    ensures i < U32_COUNT ==> r == i
  {
    i % U32_COUNT
  }

  /** The loop state of `UpdateJumps` after `code[..i]`: no prefix so far went
      negative, and `stack` holds, bottom to top, the opening brackets not yet
      closed, the one at height k entered at depth k. */
  ghost predicate StackInv(code: seq<Instruction>, stack: seq<nat>, i: nat) {
    && i <= |code|
    && (forall k | 0 <= k <= i :: Depth(code, k) >= 0)
    && |stack| == Depth(code, i)
    && (forall k | 0 <= k < |stack| ::
          stack[k] < i && code[stack[k]].Jump? && Depth(code, stack[k]) == k)
    && (forall k, m | 0 <= k < |stack| && stack[k] < m <= i :: Depth(code, m) > k)
  }

  /** `r` differs from `code` only in the targets of brackets before `i`. */
  ghost predicate Untouched(code: seq<Instruction>, r: seq<Instruction>, i: nat) {
    && |r| == |code|
    && KindsKept(code, r)
    && (forall j | i <= j < |r| :: r[j] == code[j])
    && (forall j | 0 <= j < |r| && !code[j].Jump? && !code[j].JumpBack? :: r[j] == code[j])
  }

  /** Every bracket before `i` that is no longer on the stack points at its
      partner. */
  ghost predicate PairedBefore(code: seq<Instruction>, r: seq<Instruction>, stack: seq<nat>, i: nat) {
    && |r| == |code|
    && (forall j | 0 <= j < i && j < |r| && code[j].Jump? && j !in stack ::
          r[j].Jump? && Matches(code, j, r[j].target))
    && (forall j | 0 <= j < i && j < |r| && code[j].JumpBack? ::
          r[j].JumpBack? && Matches(code, r[j].target, j))
  }

  lemma PushKeeps(code: seq<Instruction>, stack: seq<nat>, i: nat)
    requires StackInv(code, stack, i) && i < |code| && code[i].Jump?
    ensures StackInv(code, stack + [i], i + 1)
  {
    var st := stack + [i];
    forall k, m | 0 <= k < |st| && st[k] < m <= i + 1
      ensures Depth(code, m) > k
    {
      if k < |stack| && m <= i {
        assert st[k] == stack[k];
      }
    }
  }

  lemma OtherKeeps(code: seq<Instruction>, stack: seq<nat>, i: nat)
    requires StackInv(code, stack, i) && i < |code| && !code[i].Jump? && !code[i].JumpBack?
    ensures StackInv(code, stack, i + 1)
  {
  }

  /** A closing bracket met with an empty stack takes the depth below zero. */
  lemma UnderflowIsNegative(code: seq<Instruction>, stack: seq<nat>, i: nat)
    requires StackInv(code, stack, i) && i < |code| && code[i].JumpBack? && stack == []
    ensures !NeverNegative(code)
  {
    assert Depth(code, i + 1) < 0;
  }

  /** A closing bracket met with a non-empty stack closes the bracket on top. */
  lemma PopKeeps(code: seq<Instruction>, stack: seq<nat>, i: nat)
    requires StackInv(code, stack, i) && i < |code| && code[i].JumpBack? && stack != []
    ensures Matches(code, stack[|stack| - 1], i)
    ensures StackInv(code, stack[..|stack| - 1], i + 1)
  {
    var top := |stack| - 1;
    assert Depth(code, stack[top]) == top;
    forall m | stack[top] < m <= i
      ensures Depth(code, m) > Depth(code, stack[top])
    {
    }
  }

  /** Two intervals of one nesting never overlap partially, so a bracket has
      at most one partner in each direction. */
  lemma MatchUnique(code: seq<Instruction>, s1: int, t1: int, s2: int, t2: int)
    requires Matches(code, s1, t1) && Matches(code, s2, t2)
    ensures s1 == s2 <==> t1 == t2
  {
  }

  lemma PairedAdvance(code: seq<Instruction>, r: seq<Instruction>, stack: seq<nat>, i: nat)
    requires PairedBefore(code, r, stack, i) && i < |code| && !code[i].JumpBack?
    ensures PairedBefore(code, r, if code[i].Jump? then stack + [i] else stack, i + 1)
  {
    var st := if code[i].Jump? then stack + [i] else stack;
    forall j | 0 <= j < i + 1 && j < |r| && code[j].Jump? && j !in st
      ensures r[j].Jump? && Matches(code, j, r[j].target)
    {
      assert j !in stack;
    }
  }

  lemma PairKeeps(code: seq<Instruction>, r: seq<Instruction>, stack: seq<nat>, i: nat, fits: bool)
    requires i < |code| && code[i].JumpBack? && stack != []
    requires stack[|stack| - 1] < i && code[stack[|stack| - 1]].Jump?
    requires Untouched(code, r, i)
    requires fits ==> PairedBefore(code, r, stack, i) && Matches(code, stack[|stack| - 1], i)
    requires fits ==> |code| <= U32_COUNT
    ensures
      var start := stack[|stack| - 1];
      var r' := r[start := Jump(ToU32(i))][i := JumpBack(ToU32(start))];
      && Untouched(code, r', i + 1)
      && (fits ==> PairedBefore(code, r', stack[..|stack| - 1], i + 1))
  {
    var start := stack[|stack| - 1];
    var st := stack[..|stack| - 1];
    var r' := r[start := Jump(ToU32(i))][i := JumpBack(ToU32(start))];
    assert Untouched(code, r', i + 1);
    if fits {
      forall j | 0 <= j < i + 1 && j < |r'| && code[j].Jump? && j !in st
        ensures r'[j].Jump? && Matches(code, j, r'[j].target)
      {
        if j != start {
          assert j < i && j !in stack && r'[j] == r[j];
        }
      }
      forall j | 0 <= j < i + 1 && j < |r'| && code[j].JumpBack?
        ensures r'[j].JumpBack? && Matches(code, r'[j].target, j)
      {
        if j != i {
          assert j != start && r'[j] == r[j];
        }
      }
    }
  }

  /** The loop invariant of `UpdateJumps`, with `r` the slice so far. */
  ghost predicate Inv(code: seq<Instruction>, r: seq<Instruction>, stack: seq<nat>, i: nat, fits: bool) {
    && StackInv(code, stack, i)
    && Untouched(code, r, i)
    && (fits ==> PairedBefore(code, r, stack, i))
    && (fits <==> |code| <= U32_COUNT)
  }

  /** The slice after closing the bracket at `s` with the one at `t`. */
  function Paired(r: seq<Instruction>, s: nat, t: nat): seq<Instruction>
    requires s < |r| && t < |r|
  {
    r[s := Jump(ToU32(t))][t := JumpBack(ToU32(s))]
  }

  /** The outcome the bracket structure calls for. */
  ghost function Expected(code: seq<Instruction>): Result<(), Error> {
    if !NeverNegative(code) then Err(UnmatchedClose)
    else if Depth(code, |code|) != 0 then Err(UnmatchedOpen)
    else Ok(())
  }

  lemma OpenStep(code: seq<Instruction>, r: seq<Instruction>, stack: seq<nat>, i: nat, fits: bool)
    requires Inv(code, r, stack, i, fits) && i < |code| && code[i].Jump?
    ensures Inv(code, r, stack + [i], i + 1, fits)
  {
    PushKeeps(code, stack, i);
    if fits {
      PairedAdvance(code, r, stack, i);
    }
  }

  lemma OtherStep(code: seq<Instruction>, r: seq<Instruction>, stack: seq<nat>, i: nat, fits: bool)
    requires Inv(code, r, stack, i, fits) && i < |code| && !code[i].Jump? && !code[i].JumpBack?
    ensures Inv(code, r, stack, i + 1, fits)
  {
    OtherKeeps(code, stack, i);
    if fits {
      PairedAdvance(code, r, stack, i);
    }
  }

  lemma CloseStep(code: seq<Instruction>, r: seq<Instruction>, stack: seq<nat>, i: nat, fits: bool)
    requires Inv(code, r, stack, i, fits) && i < |code| && code[i].JumpBack? && stack != []
    ensures stack[|stack| - 1] < i
    ensures Inv(code, Paired(r, stack[|stack| - 1], i), stack[..|stack| - 1], i + 1, fits)
  {
    PopKeeps(code, stack, i);
    PairKeeps(code, r, stack, i, fits);
  }

  lemma CloseUnderflow(code: seq<Instruction>, r: seq<Instruction>, i: nat, fits: bool)
    requires Inv(code, r, [], i, fits) && i < |code| && code[i].JumpBack?
    ensures Expected(code) == Err(UnmatchedClose)
    ensures KindsKept(code, r)
  {
    UnderflowIsNegative(code, [], i);
  }

  /** A run that ends with brackets on the stack leaves them open; one that
      ends with an empty stack has paired every bracket. */
  lemma Finish(code: seq<Instruction>, r: seq<Instruction>, stack: seq<nat>, fits: bool)
    requires Inv(code, r, stack, |code|, fits)
    ensures Expected(code) == if stack == [] then Ok(()) else Err(UnmatchedOpen)
    ensures KindsKept(code, r)
    ensures stack == [] && fits ==> Resolved(code, r)
  {
  }

  /** The two writes that close the loop opened at `start` by the bracket at
      `i`: each bracket gets the other's index. */
  method Pair(a: array<Instruction>, start: nat, i: nat)
    requires start < a.Length && i < a.Length
    modifies a
    ensures a[..] == Paired(old(a[..]), start, i)
  {
    a[start] := Jump(ToU32(i));
    a[i] := JumpBack(ToU32(start));
  }

  /** `Instruction::update_jumps` (the configuration without the `debug`
      feature). The result is the one the bracket structure calls for:
      `UnmatchedClose` when some prefix closes more brackets than it opens,
      else `UnmatchedOpen` when brackets remain open at the end, else success,
      and then every bracket holds the index of its partner (for up to 2^32
      instructions, beyond which `as u32` truncates). Variants never change;
      on failure the slice may be left partly updated, as in the program. */
  method UpdateJumps(a: array<Instruction>) returns (r: Result<(), Error>)
    modifies a
    ensures r == Expected(old(a[..]))
    ensures KindsKept(old(a[..]), a[..])
    ensures r.Ok? && a.Length <= U32_COUNT ==> Resolved(old(a[..]), a[..])
  {
    ghost var code := a[..];
    ghost var fits := a.Length <= U32_COUNT;
    var stack: seq<nat> := [];
    for i := 0 to a.Length
      invariant Inv(code, a[..], stack, i, fits)
    {
      var inst := a[i];
      if inst.Jump? {
        OpenStep(code, a[..], stack, i, fits);
        stack := stack + [i];
      } else if inst.JumpBack? {
        if |stack| == 0 {
          CloseUnderflow(code, a[..], i, fits);
          return Err(UnmatchedClose);
        }
        CloseStep(code, a[..], stack, i, fits);
        var start := stack[|stack| - 1];
        stack := stack[..|stack| - 1];
        Pair(a, start, i);
      } else {
        OtherStep(code, a[..], stack, i, fits);
      }
    }
    Finish(code, a[..], stack, fits);
    if |stack| != 0 {
      return Err(UnmatchedOpen);
    }
    return Ok(());
  }
}

module JumpFacts {
  import opened Base
  import opened Instructions
  import opened Jumps

  /** Every jump target lies inside the program. */
  predicate TargetsInRange(prog: seq<Instruction>) {
    forall j | 0 <= j < |prog| && (prog[j].Jump? || prog[j].JumpBack?) :: prog[j].target < |prog|
  }

  /** Brackets point at each other: a `Jump(t)` at `s` has `s < t` and finds
      `JumpBack(s)` at `t`, and a `JumpBack(t)` at `s` has `t < s` and finds
      `Jump(s)` at `t`. */
  predicate Symmetric(prog: seq<Instruction>) {
    && (forall s | 0 <= s < |prog| && prog[s].Jump? ::
          s < prog[s].target < |prog| && prog[prog[s].target] == JumpBack(s))
    && (forall s | 0 <= s < |prog| && prog[s].JumpBack? ::
          prog[s].target < s && prog[prog[s].target].Jump? && prog[prog[s].target].target == s)
  }

  /** A resolved program is symmetric, so all its jump targets are in range. */
  lemma ResolvedIsSymmetric(code: seq<Instruction>, r: seq<Instruction>)
    requires Resolved(code, r)
    ensures Symmetric(r) && TargetsInRange(r)
  {
    forall s | 0 <= s < |r| && r[s].Jump?
      ensures s < r[s].target < |r| && r[r[s].target] == JumpBack(s)
    {
      assert code[s].Jump?;
      var t := r[s].target;
      MatchUnique(code, s, t, r[t].target, t);
    }
    forall s | 0 <= s < |r| && r[s].JumpBack?
      ensures r[s].target < s && r[r[s].target].Jump? && r[r[s].target].target == s
    {
      assert code[s].JumpBack?;
      var t := r[s].target;
      MatchUnique(code, t, s, t, r[t].target);
    }
  }
}
