/**
 * The driver and the correctness contract between trace construction and
 * the AIR: a built trace satisfies every transition constraint, and its
 * boundary assertions hold exactly for the true final term.
 */
module Driver {
  import opened Field
  import opened Fibonacci
  import opened Trace
  import opened Air
  import opened Prover
  import opened Results

  /** The sequence length the driver proves. */
  const SEQUENCE_LENGTH: nat := 128

  /** For a power of two n >= 2, register 1 at step n / 2 - 1 of a built trace holds F(n). */
  lemma TraceMatchesReference(trace: TraceTable, n: nat)
    requires IsPowerOfTwo(n) && n >= 2
    requires IsFibTrace(trace) && trace.Length() == n / 2
    ensures n / 2 - 1 < trace.Length() && trace.Get(1, n / 2 - 1) == FibF(n)
  {
    assert 2 * (n / 2 - 1) + 2 == n;
  }

  /**
   * A built trace satisfies both transition constraints on every adjacent
   * pair of rows, the AIR accepts its shape, and the three boundary
   * assertions of the AIR built for a claimed public input all hold if and
   * only if the claim is the value get_pub_inputs reads off the trace.
   */
  lemma {:induction false} FibTraceSatisfiesAir(trace: TraceTable, claimed: Felt)
    requires IsFibTrace(trace) && trace.Length() >= 1
    ensures TransitionsHold(trace)
    ensures New(GetInfo(trace), claimed).Ok?
    ensures var air := New(GetInfo(trace), claimed).value;
            (forall a :: a in GetAssertions(air) ==> AssertionHolds(trace, a)) <==> claimed == GetPubInputs(trace)
  {
    forall step | 0 <= step < trace.Length() - 1
      ensures Residuals(EvaluationFrame(RowAt(trace, step), RowAt(trace, step + 1))) == [ZERO, ZERO]
    {
      FibRowAdvances(step);
      assert RowAt(trace, step + 1) == [FibF(2 * step + 3), FibF(2 * step + 4)];
    }
    var air := New(GetInfo(trace), claimed).value;
    var asserts := GetAssertions(air);
    assert AssertionHolds(trace, asserts[0]) && AssertionHolds(trace, asserts[1]);
    assert AssertionHolds(trace, asserts[2]) <==> claimed == GetPubInputs(trace);
  }

  /**
   * The driver up to the hand-off to the proof engine: compute the reference
   * term, build the trace, check that its designated cell equals the
   * reference, recompute the public input, and instantiate the AIR on the
   * prover side (public input read off the trace) and on the verifier side
   * (public input computed directly). Both instances coincide and the trace
   * satisfies all their constraints, so the consistency check never fails.
   */
  method Run(n: nat) returns (result: Felt, trace: TraceTable, air: FibAir)
    requires IsPowerOfTwo(n) && n >= 2
    ensures result == FibF(n)
    ensures IsFibTrace(trace) && trace.Length() == n / 2
    ensures trace.Get(1, n / 2 - 1) == result
    ensures New(GetInfo(trace), GetPubInputs(trace)) == Ok(air)
    ensures New(GetInfo(trace), result) == Ok(air)
    ensures TransitionsHold(trace)
    ensures forall a :: a in GetAssertions(air) ==> AssertionHolds(trace, a)
  {
    result := ComputeFibTerm(n);
    var built := BuildTrace(n);
    trace := built.value;
    TraceMatchesReference(trace, n);
    assert result == trace.Get(1, n / 2 - 1);
    var pubInputs := ComputeFibTerm(n);
    var proverAir := New(GetInfo(trace), GetPubInputs(trace));
    var verifierAir := New(GetInfo(trace), pubInputs);
    FibTraceSatisfiesAir(trace, pubInputs);
    assert proverAir == verifierAir;
    air := verifierAir.value;
  }

  /** The driver's own run: the fixed sequence length meets the requirements of Run. */
  method RunFixedLength() returns (result: Felt)
    ensures result == FibF(SEQUENCE_LENGTH)
    ensures result == Fib(SEQUENCE_LENGTH) % P
  {
    SequenceLengths();
    FibFIsFibModP(SEQUENCE_LENGTH);
    var trace, air;
    result, trace, air := Run(SEQUENCE_LENGTH);
  }

  /** The driver's sequence length is a power of two; 100, for instance, is not and is refused. */
  lemma SequenceLengths()
    ensures IsPowerOfTwo(SEQUENCE_LENGTH)
    ensures !IsPowerOfTwo(100)
  {
  }

  /**
   * For n = 8 the first eight terms are 1, 1, 2, 3, 5, 8, 13, 21; a built
   * trace of 4 rows is (1, 1), (2, 3), (5, 8), (13, 21) and its public input is 21.
   */
  lemma EightTermScenario(trace: TraceTable)
    requires IsFibTrace(trace) && trace.Length() == 4
    ensures [FibF(1), FibF(2), FibF(3), FibF(4), FibF(5), FibF(6), FibF(7), FibF(8)] == [1, 1, 2, 3, 5, 8, 13, 21]
    ensures RowAt(trace, 0) == [1, 1] && RowAt(trace, 1) == [2, 3]
    ensures RowAt(trace, 2) == [5, 8] && RowAt(trace, 3) == [13, 21]
    ensures GetPubInputs(trace) == 21
  {
    assert [FibF(1), FibF(2), FibF(3), FibF(4), FibF(5), FibF(6), FibF(7), FibF(8)] == [1, 1, 2, 3, 5, 8, 13, 21];
  }

  /** On the trace for n = 8, the AIR built for public input 21 has all assertions hold; for 20, not. */
  lemma EightTermPublicInput(trace: TraceTable)
    requires IsFibTrace(trace) && trace.Length() == 4
    ensures forall a :: a in GetAssertions(New(GetInfo(trace), 21).value) ==> AssertionHolds(trace, a)
    ensures !forall a :: a in GetAssertions(New(GetInfo(trace), 20).value) ==> AssertionHolds(trace, a)
  {
    EightTermScenario(trace);
    FibTraceSatisfiesAir(trace, 21);
    FibTraceSatisfiesAir(trace, 20);
  }
}
