# Two-register Fibonacci AIR, modelled in Dafny

This project models the arithmetization of a Fibonacci computation for a
STARK proof system (winterfell): the direct two-accumulator computation of
the n-th Fibonacci term, the construction of a two-register execution trace
whose rows advance the sequence by two terms each, the two transition
constraints relating adjacent rows, the three boundary assertions, and the
public input read off the trace. Arithmetic is in the 128-bit prime field of
winterfell's `f128` (modulus 2^128 - 45 * 2^40 + 1), modelled as canonical
naturals below that modulus.

Modules, one per component of `src/main.rs`:

- `Field` (field.dfy): the modulus, field elements, addition, subtraction and multiplication.
- `Fibonacci` (fibonacci.dfy): the Fibonacci numbers as integers and in the field; `compute_fib_term` as a loop.
- `Trace` (trace.dfy): the trace table as a class over a two-dimensional array, filled row by row in place.
- `Air` (air.dfy): `TRACE_WIDTH`, `FibAir::new`, the transition constraints as polynomial expressions with their degrees, `evaluate_transition`, `get_assertions`.
- `Prover` (prover.dfy): the power-of-two test, the two `fill` closures, `build_trace`, `get_pub_inputs`.
- `Driver` (driver.dfy): the main flow up to the proof engine, and the theorem that ties the trace to the AIR.
- `Results` (results.dfy): the result type used for the two construction failures.

The bodies of `evaluate_transition` and of the two closures passed to
`trace.fill` are `unimplemented!()` in the source. The model gives them the
formulas their comments state (src/main.rs:135-137 and 169-170): row 0 is
(1, 1), and from (s0, s1) the next row is (s0 + s1, s1 + (s0 + s1)); the
residuals are `next[0] - (cur[0] + cur[1])` and `next[1] - (cur[1] + next[0])`.

The code's only check in `build_trace` is that the sequence length is a
power of two; a length of one passes it and yields a table with no rows,
which the proof library's trace table refuses. `BuildTrace` therefore
requires a sequence length other than one, and returns an error for every
length that is not a power of two (zero included).

## Model

| member | source | states |
|---|---|---|
| Field.Add | src/main.rs:217 | field addition is the sum reduced modulo P |
| Field.Sub | src/main.rs:135-137 | field subtraction is the difference modulo P, undoes Add, and is zero exactly when its operands are equal |
| Fibonacci.FibFIsFibModP | src/main.rs:210-222 | the Fibonacci recurrence evaluated in the field gives the n-th Fibonacci number reduced modulo P |
| Fibonacci.ComputeFibTerm | src/main.rs:212-222 | for n >= 1, the n - 1 add-and-swap iterations return F(n) mod P, with F(1) = F(2) = 1; the loop keeps (t0, t1) = (F(k + 2), F(k + 1)) |
| Trace.TraceTable.constructor | src/main.rs:177 | a new table has the requested width and length |
| Trace.TraceTable.UpdateRow | src/main.rs:178-187 | copying the state into one row sets exactly that row and leaves every other cell unchanged |
| Air.New | src/main.rs:103-115 | construction fails exactly when the trace width is not 2; otherwise it stores the trace shape and the public input as `result`, and declares one degree per constraint, in order, equal to that constraint's degree (1) |
| Air.ConstraintValues | src/main.rs:135-137 | on a width-2 frame both constraints are defined and evaluate to next[0] - (cur[0] + cur[1]) and next[1] - (cur[1] + next[0]) |
| Air.Residuals | src/main.rs:135-137 | both residuals are zero if and only if the next row is (s0 + s1, s1 + (s0 + s1)) for the current row (s0, s1) |
| Air.EvaluateTransition | src/main.rs:122-139 | writes the value of each constraint, in order, into the result slice; both are zero exactly when the frame follows the recurrence |
| Air.GetAssertions | src/main.rs:142-151 | exactly three assertions, all inside the trace: ones at step 0 of registers 0 and 1, and the public input at the last step of register 1 |
| Prover.PowerOfTwoIff | src/main.rs:172-175 | the power-of-two test accepts exactly the numbers 2^k |
| Prover.FibRowAdvances | src/main.rs:169-170 | the recurrence rule maps row (F(2i + 1), F(2i + 2)) to row (F(2i + 3), F(2i + 4)): each row advances the sequence by two terms |
| Prover.InitState | src/main.rs:179-182 | the init closure sets the state to (1, 1) |
| Prover.UpdateState | src/main.rs:183-186 | the update closure replaces the state by the next row of the recurrence |
| Prover.BuildTrace | src/main.rs:171-190 | fails exactly when the sequence length is not a power of two; otherwise a fresh table of width 2 and sequence_length / 2 rows whose row i is (F(2i + 1), F(2i + 2)) |
| Prover.GetPubInputs | src/main.rs:198-201 | reads register 1 at the last step, which on a built trace of L rows is F(2L) |
| Driver.TraceMatchesReference | src/main.rs:46 | for a power of two n >= 2, register 1 at step n / 2 - 1 of a built trace equals F(n), the direct computation's result |
| Driver.FibTraceSatisfiesAir | src/main.rs:135-150 | a built trace satisfies both transition constraints on every adjacent row pair, is accepted by `New`, and its three assertions hold if and only if the claimed public input is the value `get_pub_inputs` reads |
| Driver.Run | src/main.rs:18-85 | the driver's consistency check at line 46 never fails, and the AIR built on the prover side (public input from the trace) equals the one built on the verifier side (public input computed directly), with all its constraints satisfied |
| Driver.RunFixedLength | src/main.rs:19-23 | the driver's fixed length 128 meets the requirements of `Run`, and the result is F(128) mod P |
| Driver.SequenceLengths | src/main.rs:19 | the driver's length 128 is a power of two and 100 is not |
| Driver.EightTermScenario | src/main.rs:169-170 | for n = 8 the first eight terms are 1, 1, 2, 3, 5, 8, 13, 21, and a built 4-row trace has rows (1, 1), (2, 3), (5, 8), (13, 21) and public input 21 |
| Driver.EightTermPublicInput | src/main.rs:145-150 | on the 4-row trace, the assertions for public input 21 all hold and those for 20 do not |

## Left out

- Proof generation, proof verification, proof serialization and its round trip, and the security-level figure (`prove`, `verify`, `to_bytes`, `from_bytes`, `security_level`): they are calls into the proof library, whose code is not part of this model. `Driver.Run` stops where the trace and the AIR are handed to it, and proves the conditions under which an honest verifier accepts.
- Timing, printing and the floating-point proof-size figure: I/O and floating point.
- `ProofOptions` and the `options` field and accessor of the prover, and `FibProver::new`: opaque engine configuration with no behaviour in this core.
- The `context` accessor: the context is the `context` field of the `FibAir` datatype.
- The generic extension-field parameter of `evaluate_transition`: only the base field is modelled; the constraints are written against Add and Sub only.
- The unused `_periodic_values` argument and `&self` receiver of `evaluate_transition`.
- The proof library's own limits on trace length (a minimum length and power-of-two lengths in `TraceTable::new`): not visible in this file; only the zero-row case is excluded, by `BuildTrace`'s precondition.
- Fibonacci.ComputeFibTerm: the argument is an unbounded natural, not a 64-bit `usize`; n = 0, where the source's `n - 1` underflows, is excluded by the precondition.
- Air.EvaluateTransition: the `debug_assert_eq!` width checks are preconditions, since the engine always passes frames of the trace's width.
