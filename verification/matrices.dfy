/**
 Transformation matrices. Only the identity is concrete here: the product of a matrix with
 a tuple, the inverse and the transpose live outside the modelled files and are passed in as
 an uninterpreted record of operations.
 */
module Matrices {
  import opened Tuples

  datatype Matrix = Matrix(rows: seq<seq<real>>)

  const Identity: Matrix := Matrix([
    [1.0, 0.0, 0.0, 0.0],
    [0.0, 1.0, 0.0, 0.0],
    [0.0, 0.0, 1.0, 0.0],
    [0.0, 0.0, 0.0, 1.0]
  ])

  /** `Matrix<4> * Tuple`, `inverse` and `transpose`, uninterpreted. */
  datatype Linear = Linear(
    mul: (Matrix, Tuple) -> Tuple,
    inverse: Matrix -> Matrix,
    transpose: Matrix -> Matrix
  )

  /** The matrix acts linearly on tuples (true of any matrix product; assumed where needed). */
  ghost predicate ActsLinearly(lin: Linear, m: Matrix)
  {
    && (forall a: Tuple, b: Tuple :: lin.mul(m, Add(a, b)) == Add(lin.mul(m, a), lin.mul(m, b)))
    && (forall a: Tuple, k: real :: lin.mul(m, Scale(a, k)) == Scale(lin.mul(m, a), k))
  }

  /** The identity is its own inverse and leaves every tuple where it is. */
  ghost predicate IdentityActs(lin: Linear)
  {
    lin.inverse(Identity) == Identity && forall a: Tuple :: lin.mul(Identity, a) == a
  }
}
