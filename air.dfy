/**
 * The algebraic intermediate representation of the two-register Fibonacci
 * computation: the trace shape it accepts, its two transition constraints
 * with their declared degrees, and its three boundary assertions.
 */
module Air {
  import opened Field
  import opened Trace
  import opened Results

  /** Number of registers of the trace. */
  const TRACE_WIDTH: nat := 2

  /** Degrees declared for the transition constraints, in the order the constraints are evaluated. */
  const TRANSITION_DEGREES: seq<nat> := [1, 1]

  /** Shape of a trace: number of registers and number of steps. */
  datatype TraceInfo = TraceInfo(width: nat, length: nat)

  /** What the proof engine needs to know about the AIR. Proof options are not part of this model. */
  datatype AirContext = AirContext(traceInfo: TraceInfo, transitionDegrees: seq<nat>)

  /** An AIR instance: its context and the public input, the claimed final term. */
  datatype FibAir = FibAir(context: AirContext, result: Felt)

  datatype AirError = WidthMismatch(expected: nat, actual: nat)

  /** The shape of a trace table. */
  function GetInfo(trace: TraceTable): TraceInfo
    reads trace
  {
    TraceInfo(trace.Width(), trace.Length())
  }

  /**
   * FibAir::new: refuses a trace whose width is not TRACE_WIDTH; otherwise
   * records the trace shape, the two degree-1 declarations and the public input.
   */
  function New(info: TraceInfo, pubInputs: Felt): (r: Result<FibAir, AirError>)
    ensures r.Err? <==> info.width != TRACE_WIDTH
    ensures r.Err? ==> r.error == WidthMismatch(TRACE_WIDTH, info.width)
    ensures r.Ok? ==> r.value.result == pubInputs && r.value.context.traceInfo == info
    ensures r.Ok? ==> |r.value.context.transitionDegrees| == |TransitionConstraints()|
    ensures r.Ok? ==> forall i :: 0 <= i < |TransitionConstraints()| ==>
              r.value.context.transitionDegrees[i] == Degree(TransitionConstraints()[i])
  {
    var degrees := TRANSITION_DEGREES;
    if TRACE_WIDTH != info.width then Err(WidthMismatch(TRACE_WIDTH, info.width))
    else Ok(FibAir(AirContext(info, degrees), pubInputs))
  }

  /** Number of steps of the trace the AIR describes. */
  function TraceLength(air: FibAir): nat
  {
    air.context.traceInfo.length
  }

  // Transition constraints
  // ------------------------------------------------------------------------------------------

  /** Two consecutive rows of the trace. */
  datatype EvaluationFrame = EvaluationFrame(current: seq<Felt>, next: seq<Felt>)

  /** A polynomial over the cells of an evaluation frame. */
  datatype Expr =
    | Current(register: nat)
    | Next(register: nat)
    | Constant(value: Felt)
    | Sum(left: Expr, right: Expr)
    | Difference(left: Expr, right: Expr)
    | Product(left: Expr, right: Expr)

  /** Total degree of a polynomial in the trace cells. */
  function Degree(e: Expr): nat
  {
    match e
    case Current(_) => 1
    case Next(_) => 1
    case Constant(_) => 0
    case Sum(l, r) => if Degree(l) < Degree(r) then Degree(r) else Degree(l)
    case Difference(l, r) => if Degree(l) < Degree(r) then Degree(r) else Degree(l)
    case Product(l, r) => Degree(l) + Degree(r)
  }

  /** Every cell the polynomial mentions lies in the frame. */
  predicate InFrame(e: Expr, frame: EvaluationFrame)
  {
    match e
    case Current(i) => i < |frame.current|
    case Next(i) => i < |frame.next|
    case Constant(_) => true
    case Sum(l, r) => InFrame(l, frame) && InFrame(r, frame)
    case Difference(l, r) => InFrame(l, frame) && InFrame(r, frame)
    case Product(l, r) => InFrame(l, frame) && InFrame(r, frame)
  }

  /** Value of the polynomial on a frame. */
  function Eval(e: Expr, frame: EvaluationFrame): Felt
    requires InFrame(e, frame)
  {
    match e
    case Current(i) => frame.current[i]
    case Next(i) => frame.next[i]
    case Constant(c) => c
    case Sum(l, r) => Add(Eval(l, frame), Eval(r, frame))
    case Difference(l, r) => Sub(Eval(l, frame), Eval(r, frame))
    case Product(l, r) => Mul(Eval(l, frame), Eval(r, frame))
  }

  /**
   * The two transition constraints, two Fibonacci terms per step:
   *   register_0 at i + 1 = register_0 at i + register_1 at i
   *   register_1 at i + 1 = register_1 at i + register_0 at i + 1
   * each written as a residual that vanishes on a valid step.
   */
  function TransitionConstraints(): seq<Expr>
  {
    [ Difference(Next(0), Sum(Current(0), Current(1))),
      Difference(Next(1), Sum(Current(1), Next(0))) ]
  }

  /** On a frame of width TRACE_WIDTH both constraints are defined, and they compute the two residuals. */
  lemma ConstraintValues(frame: EvaluationFrame)
    requires |frame.current| == TRACE_WIDTH && |frame.next| == TRACE_WIDTH
    ensures forall i :: 0 <= i < |TransitionConstraints()| ==> InFrame(TransitionConstraints()[i], frame)
    ensures Eval(TransitionConstraints()[0], frame) == Sub(frame.next[0], Add(frame.current[0], frame.current[1]))
    ensures Eval(TransitionConstraints()[1], frame) == Sub(frame.next[1], Add(frame.current[1], frame.next[0]))
  {
    assert InFrame(Current(0), frame) && InFrame(Current(1), frame);
    assert InFrame(Next(0), frame) && InFrame(Next(1), frame);
    assert InFrame(Sum(Current(0), Current(1)), frame) && InFrame(Sum(Current(1), Next(0)), frame);
    assert Eval(Sum(Current(0), Current(1)), frame) == Add(frame.current[0], frame.current[1]);
    assert Eval(Sum(Current(1), Next(0)), frame) == Add(frame.current[1], frame.next[0]);
    assert Eval(Next(0), frame) == frame.next[0] && Eval(Next(1), frame) == frame.next[1];
  }

  /** The recurrence rule: the row that must follow `s`. */
  function NextState(s: seq<Felt>): (t: seq<Felt>)
    requires |s| == TRACE_WIDTH
    ensures |t| == TRACE_WIDTH
  {
    var s0 := Add(s[0], s[1]);
    [s0, Add(s[1], s0)]
  }

  /** Both residuals of a frame of width TRACE_WIDTH. */
  function Residuals(frame: EvaluationFrame): (r: seq<Felt>)
    requires |frame.current| == TRACE_WIDTH && |frame.next| == TRACE_WIDTH
    ensures |r| == |TransitionConstraints()|
    ensures r == [ZERO, ZERO] <==> frame.next == NextState(frame.current)
  {
    ConstraintValues(frame);
    var c := TransitionConstraints();
    [Eval(c[0], frame), Eval(c[1], frame)]
  }

  /**
   * evaluate_transition: writes the residual of each constraint, in order,
   * into `result`, computed with field operations on the frame's cells.
   */
  method EvaluateTransition(frame: EvaluationFrame, result: array<Felt>)
    requires |frame.current| == TRACE_WIDTH && |frame.next| == TRACE_WIDTH
    requires result.Length == |TransitionConstraints()|
    modifies result
    ensures forall i :: 0 <= i < result.Length ==> InFrame(TransitionConstraints()[i], frame)
    ensures forall i :: 0 <= i < result.Length ==> result[i] == Eval(TransitionConstraints()[i], frame)
    ensures result[..] == Residuals(frame)
    ensures (result[0] == ZERO && result[1] == ZERO) <==> frame.next == NextState(frame.current)
  {
    ConstraintValues(frame);
    var current, next := frame.current, frame.next;
    result[0] := Sub(next[0], Add(current[0], current[1]));
    result[1] := Sub(next[1], Add(current[1], next[0]));
    assert result[..] == [result[0], result[1]];
  }

  // Boundary assertions
  // ------------------------------------------------------------------------------------------

  /** A fixed value at one (register, step) cell. */
  datatype Assertion = Single(register: nat, step: nat, value: Felt)

  /**
   * get_assertions: the sequence starts with two ones and ends with the
   * public input at the last step.
   */
  function GetAssertions(air: FibAir): (r: seq<Assertion>)
    requires TraceLength(air) >= 1
    ensures |r| == 3
    ensures forall a :: a in r ==> a.register < TRACE_WIDTH && a.step < TraceLength(air)
    ensures r[0].step == r[1].step == 0 && r[0].value == r[1].value == ONE && r[0].register != r[1].register
    ensures r[2] == Single(1, TraceLength(air) - 1, air.result)
  {
    var lastStep := TraceLength(air) - 1;
    [ Single(0, 0, ONE),
      Single(1, 0, ONE),
      Single(1, lastStep, air.result) ]
  }

  /** The trace holds the asserted value at the asserted cell. */
  predicate AssertionHolds(trace: TraceTable, a: Assertion)
    reads trace, trace.data
  {
    a.register < trace.Width() && a.step < trace.Length() && trace.Get(a.register, a.step) == a.value
  }

  /** The row of a two-register trace at `step`. */
  function RowAt(trace: TraceTable, step: nat): (row: seq<Felt>)
    reads trace, trace.data
    requires trace.Width() == TRACE_WIDTH && step < trace.Length()
    ensures |row| == TRACE_WIDTH
  {
    [trace.Get(0, step), trace.Get(1, step)]
  }

  /** Every pair of adjacent rows has both residuals zero. */
  predicate TransitionsHold(trace: TraceTable)
    reads trace, trace.data
    requires trace.Width() == TRACE_WIDTH
  {
    forall step :: 0 <= step < trace.Length() - 1 ==>
      Residuals(EvaluationFrame(RowAt(trace, step), RowAt(trace, step + 1))) == [ZERO, ZERO]
  }
}
