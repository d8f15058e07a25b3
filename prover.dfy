/**
 * The prover side: building the execution trace row by row and reading the
 * public input off its last cell.
 */
module Prover {
  import opened Field
  import opened Fibonacci
  import opened Trace
  import opened Air
  import opened Results

  /** Executable power-of-two test, for any natural number. */
  predicate IsPowerOfTwo(n: nat)
  {
    n == 1 || (n >= 2 && n % 2 == 0 && IsPowerOfTwo(n / 2))
  }

  /** 2 to the power k. */
  function Pow2(k: nat): nat
  {
    if k == 0 then 1 else 2 * Pow2(k - 1)
  }

  /** The test accepts exactly the powers of two. */
  lemma {:induction false} PowerOfTwoIff(n: nat)
    ensures IsPowerOfTwo(n) <==> exists k: nat :: Pow2(k) == n
  {
    if IsPowerOfTwo(n) {
      if n != 1 {
        PowerOfTwoIff(n / 2);
        var k: nat :| Pow2(k) == n / 2;
        assert Pow2(k + 1) == n;
      } else {
        assert Pow2(0) == n;
      }
    }
    if exists k: nat :: Pow2(k) == n {
      var k: nat :| Pow2(k) == n;
      PowIsPowerOfTwo(k);
    }
  }

  lemma {:induction false} PowIsPowerOfTwo(k: nat)
    ensures IsPowerOfTwo(Pow2(k))
  {
    if k > 0 {
      PowIsPowerOfTwo(k - 1);
      assert Pow2(k) / 2 == Pow2(k - 1);
    }
  }

  datatype BuildError = NotPowerOfTwo(sequenceLength: nat)

  /** Row `step` of a built trace holds the terms F(2 step + 1) and F(2 step + 2). */
  predicate IsFibTrace(trace: TraceTable)
    reads trace, trace.data
  {
    trace.Width() == TRACE_WIDTH &&
    forall step :: 0 <= step < trace.Length() ==>
      trace.Get(0, step) == FibF(2 * step + 1) && trace.Get(1, step) == FibF(2 * step + 2)
  }

  /** Applying the recurrence rule to row i gives row i + 1: each row advances the sequence by two terms. */
  lemma FibRowAdvances(i: nat)
    ensures NextState([FibF(2 * i + 1), FibF(2 * i + 2)]) == [FibF(2 * i + 3), FibF(2 * i + 4)]
  {
  }

  /** The `init` closure passed to fill: the sequence starts with two ones. */
  method InitState(state: array<Felt>)
    requires state.Length == TRACE_WIDTH
    modifies state
    ensures state[..] == [ONE, ONE]
  {
    state[0] := ONE;
    state[1] := ONE;
  }

  /** The `update` closure passed to fill: advances the state by the recurrence rule. */
  method UpdateState(state: array<Felt>)
    requires state.Length == TRACE_WIDTH
    modifies state
    ensures state[..] == NextState(old(state[..]))
  {
    state[0] := Add(state[0], state[1]);
    state[1] := Add(state[1], state[0]);
  }

  /**
   * build_trace: refuses a sequence length that is not a power of two;
   * otherwise allocates a table of TRACE_WIDTH registers and
   * sequenceLength / 2 steps and fills it as TraceTable::fill does: the
   * init closure sets the state, which is copied into row 0, then for each
   * later row the update closure advances the state, which is copied in.
   * A sequence length of one would give a table with no rows, which the
   * trace table of the proof library does not allow.
   */
  method BuildTrace(sequenceLength: nat) returns (r: Result<TraceTable, BuildError>)
    requires sequenceLength != 1
    ensures r.Err? <==> !IsPowerOfTwo(sequenceLength)
    ensures r.Err? ==> r.error == NotPowerOfTwo(sequenceLength)
    ensures r.Ok? ==> fresh(r.value.data)
    ensures r.Ok? ==> r.value.Length() == sequenceLength / 2 && r.value.Length() >= 1
    ensures r.Ok? ==> IsFibTrace(r.value)
  {
    if !IsPowerOfTwo(sequenceLength) {
      return Err(NotPowerOfTwo(sequenceLength));
    }
    var trace := new TraceTable(TRACE_WIDTH, sequenceLength / 2);
    var state := new Felt[TRACE_WIDTH];
    InitState(state);
    trace.UpdateRow(0, state);
    var i := 0;
    while i < trace.Length() - 1
      invariant 0 <= i < trace.Length()
      invariant state[..] == [FibF(2 * i + 1), FibF(2 * i + 2)]
      invariant forall step :: 0 <= step <= i ==>
                  trace.Get(0, step) == FibF(2 * step + 1) && trace.Get(1, step) == FibF(2 * step + 2)
    {
      UpdateState(state);
      FibRowAdvances(i);
      assert state[0] == FibF(2 * (i + 1) + 1) && state[1] == FibF(2 * (i + 1) + 2) by {
        assert state[..][0] == state[0] && state[..][1] == state[1];
      }
      label Filled:
      trace.UpdateRow(i + 1, state);
      forall step | 0 <= step <= i + 1
        ensures trace.Get(0, step) == FibF(2 * step + 1) && trace.Get(1, step) == FibF(2 * step + 2)
      {
        if step <= i {
          assert old@Filled(trace.Get(0, step)) == FibF(2 * step + 1);
          assert old@Filled(trace.Get(1, step)) == FibF(2 * step + 2);
        }
      }
      i := i + 1;
    }
    return Ok(trace);
  }

  /** get_pub_inputs: the last cell of register 1, which on a built trace is the final term. */
  function GetPubInputs(trace: TraceTable): (r: Felt)
    reads trace, trace.data
    requires 1 < trace.Width() && trace.Length() >= 1
    ensures IsFibTrace(trace) ==> r == FibF(2 * trace.Length())
  {
    var lastStep := trace.Length() - 1;
    trace.Get(1, lastStep)
  }
}
