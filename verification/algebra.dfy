/** The symbolic-linear-algebra toolbox the flat-output algorithm calls into.

    Rank, orthogonal complements, pseudo-inverses, simplification, the time
    derivative and the restricted left pseudo-inverse of the outlier case are
    computed by a computer-algebra library whose internals are not part of
    this model.  They are carried here as function values whose only known
    properties are the shapes of their results and the bounds of the rank.
    The probabilistic zero and unit tests of the toolbox (random numbers
    substituted for every symbol, then a numeric comparison) are carried the
    same way; the unimodularity test's own copies of them are modelled in
    full in module Unimodular. */
module SymbolicAlgebra {
  import opened Matrices

  datatype Algebra = Algebra(
    srank: Mat<Expr> -> nat,
    rightOrthoComplement: Mat<Expr> -> Mat<Expr>,
    leftOrthoComplement: Mat<Expr> -> Mat<Expr>,
    rightPseudoInverse: Mat<Expr> -> Option<Mat<Expr>>,
    leftPseudoInverse: Mat<Expr> -> Option<Mat<Expr>>,
    customSimplify: Mat<Expr> -> Mat<Expr>,
    timeDerivative: Mat<Expr> -> Mat<Expr>,
    ziLeftPinvWithRestrictions: (Mat<Expr>, Mat<Expr>, Mat<Expr>) -> Option<Mat<Expr>>,
    isZeroMatrix: Mat<Expr> -> bool,
    isUnitMatrix: Mat<Expr> -> bool)

  /** The shape contracts of the toolbox.  A right complement of an n x p
      matrix has p rows, a left complement has n columns, a pseudo-inverse
      (when it exists) has the transposed shape, simplification and the time
      derivative keep the shape, and the rank never exceeds either dimension.
      `None` from a pseudo-inverse is the library's singular-system error. */
  ghost predicate Valid(alg: Algebra)
  {
    && (forall m: Mat<Expr> {:trigger alg.srank(m)} :: alg.srank(m) <= m.rows && alg.srank(m) <= m.cols)
    && (forall m: Mat<Expr> {:trigger alg.rightOrthoComplement(m)} :: alg.rightOrthoComplement(m).rows == m.cols)
    && (forall m: Mat<Expr> {:trigger alg.leftOrthoComplement(m)} :: alg.leftOrthoComplement(m).cols == m.rows)
    && (forall m: Mat<Expr> {:trigger alg.rightPseudoInverse(m)} :: alg.rightPseudoInverse(m).Some? ==>
          alg.rightPseudoInverse(m).value.rows == m.cols && alg.rightPseudoInverse(m).value.cols == m.rows)
    && (forall m: Mat<Expr> {:trigger alg.leftPseudoInverse(m)} :: alg.leftPseudoInverse(m).Some? ==>
          alg.leftPseudoInverse(m).value.rows == m.cols && alg.leftPseudoInverse(m).value.cols == m.rows)
    && (forall m: Mat<Expr> {:trigger alg.customSimplify(m)} :: alg.customSimplify(m).rows == m.rows && alg.customSimplify(m).cols == m.cols)
    && (forall m: Mat<Expr> {:trigger alg.timeDerivative(m)} :: alg.timeDerivative(m).rows == m.rows && alg.timeDerivative(m).cols == m.cols)
    && (forall p, t, z: Mat<Expr> {:trigger alg.ziLeftPinvWithRestrictions(p, t, z)} :: alg.ziLeftPinvWithRestrictions(p, t, z).Some? ==>
          && alg.ziLeftPinvWithRestrictions(p, t, z).value.rows == z.cols
          && alg.ziLeftPinvWithRestrictions(p, t, z).value.cols == z.rows)
  }

  /** has_full_row_rank: the rank equals the number of rows. */
  predicate HasFullRowRank(alg: Algebra, m: Mat<Expr>)
  {
    alg.srank(m) == m.rows
  }

  /** is_regular_matrix: square and of full rank. */
  predicate IsRegularMatrix(alg: Algebra, m: Mat<Expr>)
  {
    m.rows == m.cols && alg.srank(m) == m.rows
  }

  /** is_zero_matrix of the toolbox. */
  predicate IsZeroMatrix(alg: Algebra, m: Mat<Expr>)
  {
    alg.isZeroMatrix(m)
  }

  /** is_unit_matrix of the toolbox. */
  predicate IsUnitMatrix(alg: Algebra, m: Mat<Expr>)
  {
    alg.isUnitMatrix(m)
  }
}
