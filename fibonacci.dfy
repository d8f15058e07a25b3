/**
 * The Fibonacci numbers, as integers and in the field, and the direct
 * two-register computation the prover's trace is checked against.
 */
module Fibonacci {
  import opened Field

  /** The integer Fibonacci numbers: F(0) = 0, F(1) = F(2) = 1. */
  function Fib(n: nat): nat
  {
    if n < 2 then n else Fib(n - 1) + Fib(n - 2)
  }

  /** The same recurrence evaluated with field addition. */
  function FibF(n: nat): Felt
  {
    if n < 2 then n as Felt else Add(FibF(n - 1), FibF(n - 2))
  }

  /** The field recurrence yields the n-th Fibonacci number reduced modulo P. */
  lemma {:induction false} FibFIsFibModP(n: nat)
    ensures FibF(n) == Fib(n) % P
  {
    if n >= 2 {
      var a, b := Fib(n - 1), Fib(n - 2);
      FibFIsFibModP(n - 1);
      FibFIsFibModP(n - 2);
      ModAdd(a, b);
      assert FibF(n) == Add(a % P, b % P);
      assert Fib(n) == a + b;
    }
  }

  /**
   * compute_fib_term: two accumulators start at one; each of the n - 1
   * iterations replaces t1 by t0 + t1 and swaps the two. The loop keeps
   * (t0, t1) = (F(k + 2), F(k + 1)) after k iterations, so t1 ends as F(n).
   * n = 0 is excluded: the source computes n - 1 on an unsigned integer.
   */
  method ComputeFibTerm(n: nat) returns (r: Felt)
    requires n >= 1
    ensures r == FibF(n)
    ensures r == Fib(n) % P
  {
    var t0, t1 := ONE, ONE;
    for k := 0 to n - 1
      invariant t0 == FibF(k + 2) && t1 == FibF(k + 1)
    {
      t1 := Add(t0, t1);
      t0, t1 := t1, t0;
    }
    r := t1;
    FibFIsFibModP(n);
  }
}
