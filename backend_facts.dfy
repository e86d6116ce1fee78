/** What the builder guarantees about the programs it writes: only
    instruction characters, brackets balanced, so the interpreter's compiler
    accepts them whenever no folded run is too long for its count. */
module BackendFacts {
  import opened Base
  import opened Backend
  import opened Compiler
  import opened Nesting

  /** The depths of a concatenation: those of `a`, then those of `b` raised by
      the depth `a` ends at. */
  lemma {:induction false} ByteDepthConcat(a: seq<u8>, b: seq<u8>, k: nat)
    requires k <= |a| + |b|
    ensures k <= |a| ==> ByteDepth(a + b, k) == ByteDepth(a, k)
    ensures k >= |a| ==> ByteDepth(a + b, k) == ByteDepth(a, |a|) + ByteDepth(b, k - |a|)
  {
    if k > 0 {
      ByteDepthConcat(a, b, k - 1);
      if k <= |a| {
        assert (a + b)[k - 1] == a[k - 1];
      } else {
        assert (a + b)[k - 1] == b[k - 1 - |a|];
      }
    }
  }

  /** Two balanced pieces make a balanced whole. */
  lemma BalancedConcat(a: seq<u8>, b: seq<u8>)
    requires Balanced(a) && Balanced(b)
    ensures Balanced(a + b)
  {
    forall k | 0 <= k <= |a + b|
      ensures ByteDepth(a + b, k) >= 0
    {
      ByteDepthConcat(a, b, k);
    }
    ByteDepthConcat(a, b, |a + b|);
  }

  /** A balanced piece between `[` and `]` is balanced. */
  lemma BalancedWrap(b: seq<u8>)
    requires Balanced(b)
    ensures Balanced([OPEN] + b + [CLOSE])
  {
    var w := [OPEN] + b + [CLOSE];
    assert ByteDepth([OPEN], 1) == 1;
    forall k | 0 <= k <= |w|
      ensures ByteDepth(w, k) >= 0
    {
      if k <= |w| - 1 {
        ByteDepthConcat([OPEN], b, k);
        assert ByteDepth([OPEN] + b, k) >= 0;
        ByteDepthConcat([OPEN] + b, [CLOSE], k);
      } else {
        ByteDepthConcat([OPEN], b, |b| + 1);
        ByteDepthConcat([OPEN] + b, [CLOSE], k);
      }
    }
    ByteDepthConcat([OPEN], b, |b| + 1);
    ByteDepthConcat([OPEN] + b, [CLOSE], |w|);
  }

  /** Bytes that are not brackets are balanced. */
  lemma FlatIsBalanced(b: seq<u8>)
    requires forall j | 0 <= j < |b| :: b[j] != OPEN && b[j] != CLOSE
    ensures Balanced(b)
  {
    forall k | 0 <= k <= |b|
      ensures ByteDepth(b, k) == 0
    {
      FlatPrefix(b, k);
    }
  }

  lemma {:induction false} FlatPrefix(b: seq<u8>, k: nat)
    requires k <= |b|
    requires forall j | 0 <= j < |b| :: b[j] != OPEN && b[j] != CLOSE
    ensures ByteDepth(b, k) == 0
  {
    if k > 0 {
      FlatPrefix(b, k - 1);
    }
  }

  /** Every script writes balanced brackets. */
  lemma {:induction false} EmitIsBalanced(script: seq<Call>)
    ensures Balanced(Emit(script))
    decreases script
  {
    if script != [] {
      EmitCallIsBalanced(script[0]);
      EmitIsBalanced(script[1..]);
      BalancedConcat(EmitCall(script[0]), Emit(script[1..]));
    } else {
      assert ByteDepth([], 0) == 0;
    }
  }

  /** Every call writes balanced brackets. */
  lemma {:induction false} EmitCallIsBalanced(call: Call)
    ensures Balanced(EmitCall(call))
    decreases call
  {
    match call {
      case BeginLoop(body) =>
        EmitIsBalanced(body);
        BalancedWrap(Emit(body));
      case _ =>
        FlatIsBalanced(EmitCall(call));
    }
  }

  /** Every script writes only instruction characters. */
  lemma {:induction false} EmitIsCommands(script: seq<Call>)
    ensures forall j | 0 <= j < |Emit(script)| :: IsCommand(Emit(script)[j])
    decreases script
  {
    if script != [] {
      EmitCallIsCommands(script[0]);
      EmitIsCommands(script[1..]);
      var head, tail := EmitCall(script[0]), Emit(script[1..]);
      forall j | 0 <= j < |head + tail|
        ensures IsCommand((head + tail)[j])
      {
        if j < |head| {
          assert (head + tail)[j] == head[j];
        } else {
          assert (head + tail)[j] == tail[j - |head|];
        }
      }
    }
  }

  /** Every call writes only instruction characters. */
  lemma {:induction false} EmitCallIsCommands(call: Call)
    ensures forall j | 0 <= j < |EmitCall(call)| :: IsCommand(EmitCall(call)[j])
    decreases call
  {
    match call {
      case BeginLoop(body) =>
        EmitIsCommands(body);
        var w := [OPEN] + Emit(body) + [CLOSE];
        forall j | 0 <= j < |w|
          ensures IsCommand(w[j])
        {
          if 0 < j < |w| - 1 {
            assert w[j] == Emit(body)[j - 1];
          }
        }
      case _ =>
    }
  }

  /** `begin_loop` keeps a balanced buffer balanced. */
  lemma BeginLoopKeepsBalance(bf: seq<u8>, body: seq<Call>)
    requires Balanced(bf)
    ensures Balanced(bf + [OPEN] + Emit(body) + [CLOSE])
  {
    EmitIsBalanced(body);
    BalancedWrap(Emit(body));
    BalancedConcat(bf, [OPEN] + Emit(body) + [CLOSE]);
    assert bf + [OPEN] + Emit(body) + [CLOSE] == bf + ([OPEN] + Emit(body) + [CLOSE]);
  }

  /** What `construct` returns is a program of instruction characters with
      balanced brackets, which compiles whenever its runs fit their counts. */
  lemma ConstructedCompiles(script: seq<Call>)
    ensures
      var bf := [PLUS] + Emit(script);
      && AllCommands(bf, 0, |bf|)
      && Balanced(bf)
      && (CountsFit(bf) ==> Compiled(bf) == Ok(()))
  {
    var bf := [PLUS] + Emit(script);
    EmitIsCommands(script);
    forall j | 0 <= j < |bf|
      ensures IsCommand(bf[j])
    {
      if j > 0 {
        assert bf[j] == Emit(script)[j - 1];
      }
    }
    FlatIsBalanced([PLUS]);
    EmitIsBalanced(script);
    BalancedConcat([PLUS], Emit(script));
    if CountsFit(bf) {
      CompiledOnBytes(bf);
    }
  }
}
