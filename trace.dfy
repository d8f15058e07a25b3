/**
 * The execution trace: a matrix of field elements addressed by
 * (register, step). It is allocated with a fixed width and length and then
 * filled row by row in place.
 */
module Trace {
  import opened Field

  class TraceTable {
    /** The cells, data[register, step]. */
    const data: array2<Felt>

    /** Allocates a table of `width` registers and `length` steps. */
    constructor (width: nat, length: nat)
      ensures Width() == width && Length() == length
      ensures fresh(data)
    {
      data := new Felt[width, length];
    }

    /** Number of registers (columns). */
    function Width(): nat
      reads this
    {
      data.Length0
    }

    /** Number of steps (rows). */
    function Length(): nat
      reads this
    {
      data.Length1
    }

    /** The value of `register` at `step`. */
    function Get(register: nat, step: nat): Felt
      reads this, data
      requires register < Width() && step < Length()
    {
      data[register, step]
    }

    /** Copies `state` into row `step`; every other row is left as it was. */
    method UpdateRow(step: nat, state: array<Felt>)
      requires step < Length() && state.Length == Width()
      modifies data
      ensures forall register :: 0 <= register < Width() ==> data[register, step] == state[register]
      ensures forall register, s :: 0 <= register < Width() && 0 <= s < Length() && s != step ==>
                data[register, s] == old(data[register, s])
    {
      for register := 0 to Width()
        invariant forall r :: 0 <= r < register ==> data[r, step] == state[r]
        invariant forall r, s :: 0 <= r < Width() && 0 <= s < Length() && (s != step || register <= r) ==>
                    data[r, s] == old(data[r, s])
      {
        data[register, step] := state[register];
      }
    }
  }
}
