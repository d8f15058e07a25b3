/**
 * The base field of the proof system: integers modulo the 128-bit prime
 * 2^128 - 45 * 2^40 + 1. Every value of the computation and every constraint
 * residual lives here; all arithmetic goes through Add, Sub and Mul.
 */
module Field {

  /** The field modulus, 2^128 - 45 * 2^40 + 1. */
  const P: nat := 0x1_0000_0000_0000_0000_0000_0000_0000_0000 - 45 * 0x100_0000_0000 + 1

  /** A field element in canonical form. */
  type Felt = x: nat | x < P

  const ZERO: Felt := 0
  const ONE: Felt := 1

  /** Field addition: both operands are canonical, so one conditional subtraction reduces the sum. */
  function Add(a: Felt, b: Felt): (r: Felt)
    ensures r == (a + b) % P
  {
    if a + b < P then a + b else a + b - P
  }

  /** Field subtraction; it is the inverse of Add and is zero exactly when its operands agree. */
  function Sub(a: Felt, b: Felt): (r: Felt)
    ensures r == (a - b) % P
    ensures Add(r, b) == a
    ensures r == ZERO <==> a == b
  {
    if a >= b then a - b else a + P - b
  }

  /** Field multiplication. */
  function Mul(a: Felt, b: Felt): Felt
  {
    (a * b) % P
  }

  /** The remainder modulo P is the unique r in [0, P) with z = q * P + r. */
  lemma ModOfDecomposition(z: int, q: int, r: int)
    requires 0 <= r < P && z == q * P + r
    ensures z % P == r
  {
    var d := q - z / P;
    assert d * P == z % P - r;
  }

  /** Reducing modulo P commutes with addition. */
  lemma ModAdd(x: nat, y: nat)
    ensures (x % P + y % P) % P == (x + y) % P
  {
    var qx, rx := x / P, x % P;
    var qy, ry := y / P, y % P;
    assert x + y == (qx + qy) * P + (rx + ry);
    if rx + ry < P {
      ModOfDecomposition(rx + ry, 0, rx + ry);
      ModOfDecomposition(x + y, qx + qy, rx + ry);
    } else {
      ModOfDecomposition(rx + ry, 1, rx + ry - P);
      ModOfDecomposition(x + y, qx + qy + 1, rx + ry - P);
    }
  }
}
