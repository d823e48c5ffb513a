/** Field arithmetic of GF(2^8) as the coding loops see it.

    The product table and the log/exp tables are not part of this model:
    a Field carries the two multiplication routines as plain functions, and
    the fact that they agree on every pair of bytes is a predicate callers
    state, not something assumed. Field addition is XOR. */
module Galois {

  /** The two multiplication routines a coding loop may use:
      `table` looks the product up in the 256x256 product table,
      `exp` goes through the logarithm and exponent tables. */
  datatype Field = Field(table: (bv8, bv8) -> bv8, exp: (bv8, bv8) -> bv8)

  /** Which multiplication routine a coding loop uses. */
  datatype MulMethod = Table | Exp

  /** The two routines compute the same product for every pair of bytes. */
  ghost predicate Consistent(f: Field) {
    forall a: bv8, b: bv8 :: f.table(a, b) == f.exp(a, b)
  }

  function Multiply(f: Field, m: MulMethod, a: bv8, b: bv8): bv8 {
    match m
    case Table => f.table(a, b)
    case Exp => f.exp(a, b)
  }

  /** Addition (and subtraction) in a field of characteristic 2. */
  function Add(a: bv8, b: bv8): bv8 {
    a ^ b
  }

  /** Under a consistent field the choice of routine is invisible. */
  lemma MultiplyIgnoresMethod(f: Field, a: bv8, b: bv8)
    requires Consistent(f)
    ensures Multiply(f, Table, a, b) == Multiply(f, Exp, a, b)
  {
  }
}
