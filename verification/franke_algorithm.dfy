/** The driver of the flat-output algorithm as the source runs it: an
    iteration record whose fields the steps fill in, a system stack the
    records are appended to, the three steps `reduction`, `fourseven` and
    `elimination`, the construction of the tangent system and the loop of
    `main`.  The three steps and the loop are proved to compute what module
    Franke defines. */
module FrankeAlgorithm {
  import opened Matrices
  import opened SymbolicAlgebra
  import opened Franke

  /** The record of one iteration (the source's IterationStack): created
      with the pass's index and pair, then filled in by the steps. */
  class IterationStack {
    const i: nat
    const P1: Mat<Expr>
    const P0: Mat<Expr>
    var reduction: Option<ReductionMatrices>
    var outlier: Option<OutlierMatrices>
    var BLoc: Option<Mat<Expr>>
    var lastIterStep: bool

    /** The record's contents as a value. */
    function Data(): Iteration
      reads this
    {
      Iteration(i, P1, P0, reduction, outlier, BLoc, lastIterStep)
    }

    constructor (i: nat, P1: Mat<Expr>, P0: Mat<Expr>)
      ensures Data() == Iteration(i, P1, P0, None, None, None, false)
    {
      this.i, this.P1, this.P0 := i, P1, P0;
      reduction, outlier, BLoc, lastIterStep := None, None, None, false;
    }

    method StoreReductionMatrices(A: Mat<Expr>, B: Mat<Expr>, BLpinv: Option<Mat<Expr>>,
                                  P1Roc: Mat<Expr>, P1Rpinv: Mat<Expr>, P1Dot: Mat<Expr>)
      modifies this
      ensures Data() == old(Data()).(reduction := Some(ReductionMatrices(A, B, BLpinv, P1Roc, P1Rpinv, P1Dot)))
    {
      reduction := Some(ReductionMatrices(A, B, BLpinv, P1Roc, P1Rpinv, P1Dot));
    }

    method StoreOutlierMatrices(Z: Mat<Expr>, ZLpinv: Mat<Expr>, BTilde: Mat<Expr>,
                                BTildeLpinv: Mat<Expr>, P1TildeRoc: Mat<Expr>)
      modifies this
      ensures Data() == old(Data()).(outlier := Some(OutlierMatrices(Z, ZLpinv, BTilde, BTildeLpinv, P1TildeRoc)))
    {
      outlier := Some(OutlierMatrices(Z, ZLpinv, BTilde, BTildeLpinv, P1TildeRoc));
    }

    method StoreEliminationMatrices(BLoc: Mat<Expr>)
      modifies this
      ensures Data() == old(Data()).(BLoc := Some(BLoc))
    {
      this.BLoc := Some(BLoc);
    }
  }

  /** The contents of a sequence of records, in order. */
  function Contents(records: seq<IterationStack>): (t: seq<Iteration>)
    reads set r | r in records
    ensures |t| == |records|
    ensures forall k :: 0 <= k < |records| ==> t[k] == records[k].Data()
  {
    seq(|records|, k requires 0 <= k < |records| reads set r | r in records => records[k].Data())
  }

  /** The system stack: the records of a run, in the order they were added. */
  class SystemStack {
    var iterations: seq<IterationStack>

    /** The trace the stack holds. */
    function Trace(): seq<Iteration>
      reads this, set r | r in iterations
    {
      Contents(iterations)
    }

    constructor ()
      ensures iterations == []
    {
      iterations := [];
    }

    method AddIteration(it: IterationStack)
      modifies this
      ensures iterations == old(iterations) + [it]
      ensures Trace() == old(Trace()) + [it.Data()]
    {
      iterations := iterations + [it];
    }
  }

  /** reduction: reduces the record's pair and stores A, B, the left
      pseudo-inverse of B (None when it does not exist), the right complement
      and pseudo-inverse of P1 and the time derivative of P1; returns B.  A
      missing right pseudo-inverse of P1 aborts before anything is stored. */
  method Reduction(alg: Algebra, iter: IterationStack) returns (b: Result<Mat<Expr>, Fatal>)
    requires Valid(alg) && SameShape(iter.P1, iter.P0)
    modifies iter
    ensures Reduce(alg, iter.P1, iter.P0).Failure? ==>
              b == Failure(Reduce(alg, iter.P1, iter.P0).error) && iter.Data() == old(iter.Data())
    ensures Reduce(alg, iter.P1, iter.P0).Success? ==>
              var red := Reduce(alg, iter.P1, iter.P0).value;
              b == Success(red.B) && iter.Data() == old(iter.Data()).(reduction := Some(red))
  {
    var P1i := iter.P1;
    var P0i := iter.P0;
    var P1iRoc := alg.rightOrthoComplement(P1i);
    var rpinv := alg.rightPseudoInverse(P1i);
    if rpinv.None? {
      return Failure(SingularSystem);
    }
    var P1iRpinv := rpinv.value;
    var P1iDot := alg.timeDerivative(P1i);
    var Ai := alg.customSimplify(Product(Minus(P0i, P1iDot), P1iRpinv));
    var Bi := alg.customSimplify(Product(Minus(P0i, P1iDot), P1iRoc));
    var BiLpinv := alg.leftPseudoInverse(Bi);
    iter.StoreReductionMatrices(Ai, Bi, BiLpinv, P1iRoc, P1iRpinv, P1iDot);
    b := Success(Bi);
  }

  /** fourseven: the special case for a B without full column rank; stores
      Z, its restricted left pseudo-inverse, B~, the left pseudo-inverse of
      B~ and the reduced complement, and returns B~.  Every failure aborts
      before anything is stored. */
  method FourSeven(alg: Algebra, iter: IterationStack) returns (bTilde: Result<Mat<Expr>, Fatal>)
    requires Valid(alg) && iter.reduction.Some?
    requires iter.reduction.value.B.cols == iter.reduction.value.P1Roc.cols
    modifies iter
    ensures FourSevenCase(alg, old(iter.reduction.value)).Failure? ==>
              bTilde == Failure(FourSevenCase(alg, old(iter.reduction.value)).error) && iter.Data() == old(iter.Data())
    ensures FourSevenCase(alg, old(iter.reduction.value)).Success? ==>
              var o := FourSevenCase(alg, old(iter.reduction.value)).value;
              bTilde == Success(o.BTilde) && iter.Data() == old(iter.Data()).(outlier := Some(o))
  {
    var Bi := iter.reduction.value.B;
    var P1iRoc := iter.reduction.value.P1Roc;
    var P1iRpinv := iter.reduction.value.P1Rpinv;
    var K2 := alg.rightOrthoComplement(Bi);
    var K1;
    if HasFullRowRank(alg, Bi) {
      var rpinv := alg.rightPseudoInverse(Bi);
      if rpinv.None? {
        return Failure(SingularSystem);
      }
      K1 := rpinv.value;
    } else {
      K1 := alg.rightOrthoComplement(Transpose(K2));
    }
    var K := ConcatCols(K1, K2);
    if !IsRegularMatrix(alg, K) {
      return Failure(DegenerateCase);
    }
    var BiTilde := alg.customSimplify(Product(Bi, K1));
    var lpinv := alg.leftPseudoInverse(BiTilde);
    if lpinv.None? {
      return Failure(SingularSystem);
    }
    var P1iTildeRoc := alg.customSimplify(Product(P1iRoc, K1));
    var Zi := alg.customSimplify(Product(P1iRoc, K2));
    var zlpinv := alg.ziLeftPinvWithRestrictions(P1iRpinv, P1iTildeRoc, Zi);
    if zlpinv.None? {
      return Failure(SingularSystem);
    }
    if !IsUnitMatrix(alg, Product(zlpinv.value, Zi)) {
      return Failure(VerificationFailure);
    }
    iter.StoreOutlierMatrices(Zi, zlpinv.value, BiTilde, lpinv.value, P1iTildeRoc);
    bTilde := Success(BiTilde);
  }

  /** elimination: stores the left complement of the stored (original) B and
      returns the next pair (B_loc, B_loc A). */
  method Elimination(alg: Algebra, iter: IterationStack) returns (P1New: Mat<Expr>, P0New: Mat<Expr>)
    requires Valid(alg) && iter.reduction.Some?
    requires iter.reduction.value.A.rows == iter.reduction.value.B.rows
    requires iter.reduction.value.A.cols == iter.reduction.value.A.rows
    modifies iter
    ensures (P1New, P0New) == Eliminate(alg, old(iter.reduction.value))
    ensures iter.Data() == old(iter.Data()).(BLoc := Some(P1New))
  {
    var Ai := iter.reduction.value.A;
    var Bi := iter.reduction.value.B;
    var BiLoc := alg.leftOrthoComplement(Bi);
    iter.StoreEliminationMatrices(BiLoc);
    P1New := BiLoc;
    P0New := Product(BiLoc, Ai);
  }

  /** The body of the loop of `main` up to the point where the record is
      appended: a fresh record for pass i, the full-row-rank guard, the
      reduction, the zero guard, the special case when B lacks full column
      rank, the termination test and otherwise the elimination.  Stated
      against a run with passes left: a stopped pass ends the run with its
      error and no record; a finished pass ends it with its record, flagged
      last; a continued pass contributes its record, and the run goes on
      from the returned pair. */
  method RunPass(alg: Algebra, i: nat, P1i: Mat<Expr>, P0i: Mat<Expr>, ghost fuel: nat)
    returns (myIteration: IterationStack, error: Option<Fatal>, P1New: Mat<Expr>, P0New: Mat<Expr>)
    requires Valid(alg) && SameShape(P1i, P0i) && fuel > 0
    ensures fresh(myIteration)
    ensures error.Some? ==> Run(alg, i, P1i, P0i, fuel) == RunResult([], Failed(error.value))
    ensures error.None? && myIteration.lastIterStep ==>
              Run(alg, i, P1i, P0i, fuel) == RunResult([myIteration.Data()], Terminal)
    ensures error.None? && !myIteration.lastIterStep ==>
              && SameShape(P1New, P0New)
              && var rest := Run(alg, i + 1, P1New, P0New, fuel - 1);
                 Run(alg, i, P1i, P0i, fuel) == RunResult([myIteration.Data()] + rest.trace, rest.outcome)
  {
    RunStep(alg, i, P1i, P0i, fuel);
    myIteration := new IterationStack(i, P1i, P0i);
    P1New, P0New := P1i, P0i;
    if !HasFullRowRank(alg, P1i) {
      return myIteration, Some(AlgebraicConstraint), P1New, P0New;
    }
    var reduced := Reduction(alg, myIteration);
    if reduced.Failure? {
      return myIteration, Some(reduced.error), P1New, P0New;
    }
    var Bi := reduced.value;
    if IsZeroMatrix(alg, Bi) {
      return myIteration, Some(NotFlat), P1New, P0New;
    }
    ghost var red := Reduce(alg, P1i, P0i).value;
    ghost var outlier: Option<OutlierMatrices> := None;
    if Outlier(alg, Bi) {
      var tilde := FourSeven(alg, myIteration);
      if tilde.Failure? {
        return myIteration, Some(tilde.error), P1New, P0New;
      }
      Bi := tilde.value;
      outlier := Some(FourSevenCase(alg, red).value);
    }
    assert Pass(alg, i, P1i, P0i) == Conclude(alg, i, P1i, P0i, red, outlier);
    error := None;
    if EndCondition(alg, Bi) {
      myIteration.lastIterStep := true;
      return;
    }
    P1New, P0New := Elimination(alg, myIteration);
  }

  /** The loop of `main`, for at most `fuel` passes: the stack ends up holding
      exactly the records `Run` describes and the run ends as `Run` says. */
  method MainLoop(alg: Algebra, P1: Mat<Expr>, P0: Mat<Expr>, fuel: nat)
    returns (myStack: SystemStack, outcome: Outcome)
    requires Valid(alg) && SameShape(P1, P0)
    ensures fresh(myStack)
    ensures myStack.Trace() == Run(alg, 0, P1, P0, fuel).trace
    ensures outcome == Run(alg, 0, P1, P0, fuel).outcome
  {
    myStack := new SystemStack();
    ghost var run := Run(alg, 0, P1, P0, fuel);
    ghost var rest := run;
    ghost var trace: seq<Iteration> := [];
    var i: nat := 0;
    var P1i, P0i := P1, P0;
    while i < fuel
      invariant i <= fuel && SameShape(P1i, P0i)
      invariant fresh(myStack) && myStack.Trace() == trace
      invariant rest == Run(alg, i, P1i, P0i, fuel - i)
      invariant run.trace == trace + rest.trace && run.outcome == rest.outcome
    {
      var myIteration, error, P1New, P0New := RunPass(alg, i, P1i, P0i, fuel - i);
      if error.Some? {
        outcome := Failed(error.value);
        return;
      }
      ghost var record := myIteration.Data();
      myStack.AddIteration(myIteration);
      trace := trace + [record];
      if myIteration.lastIterStep {
        outcome := Terminal;
        return;
      }
      ghost var next := Run(alg, i + 1, P1New, P0New, fuel - i - 1);
      assert rest.trace == [record] + next.trace;
      assert trace + next.trace == run.trace;
      rest := next;
      P1i, P0i := P1New, P0New;
      i := i + 1;
    }
    outcome := OutOfFuel;
  }

  /** tangent_system: starting from the empty matrix, P1 and P0 grow one
      column per state component; column c of P1 is the simplified
      derivative of F by the c-th velocity, column c of P0 the simplified
      derivative of F by the c-th state.  With no state components the
      empty matrix itself is returned. */
  method TangentSystem(alg: Algebra, F: seq<Expr>, x: seq<Symbol>, xdot: seq<Symbol>)
    returns (P1: Mat<Expr>, P0: Mat<Expr>)
    requires Valid(alg) && |x| == |xdot|
    ensures |xdot| == 0 ==> P1 == Matrix(0, 0, []) && P0 == Matrix(0, 0, [])
    ensures |xdot| > 0 ==> P1.rows == |F| && P1.cols == |xdot| && SameShape(P1, P0)
    ensures forall r, c :: 0 <= r < |F| && 0 <= c < |xdot| ==>
              P1.entries[r][c] == alg.customSimplify(DiffColumn(F, xdot[c])).entries[r][0]
    ensures forall r, c :: 0 <= r < |F| && 0 <= c < |x| ==>
              P0.entries[r][c] == alg.customSimplify(DiffColumn(F, x[c])).entries[r][0]
  {
    if |xdot| == 0 {
      return Matrix(0, 0, []), Matrix(0, 0, []);
    }
    // concat_cols of the empty matrix and the first column is that column,
    // so the loop may start from |F| rows and no columns.
    P1 := Matrix(|F|, 0, seq(|F|, r => []));
    P0 := Matrix(|F|, 0, seq(|F|, r => []));
    for k := 0 to |xdot|
      invariant P1.rows == |F| && P1.cols == k && SameShape(P1, P0)
      invariant forall r, c :: 0 <= r < |F| && 0 <= c < k ==>
                  P1.entries[r][c] == alg.customSimplify(DiffColumn(F, xdot[c])).entries[r][0]
      invariant forall r, c :: 0 <= r < |F| && 0 <= c < k ==>
                  P0.entries[r][c] == alg.customSimplify(DiffColumn(F, x[c])).entries[r][0]
    {
      var vector1 := alg.customSimplify(DiffColumn(F, xdot[k]));
      P1 := ConcatCols(P1, vector1);
      var vector0 := alg.customSimplify(DiffColumn(F, x[k]));
      P0 := ConcatCols(P0, vector0);
    }
  }
}
