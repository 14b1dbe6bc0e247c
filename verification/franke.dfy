/** The reduction of Franke and Röbenack's flat-output algorithm, as values.

    One pass takes the tangent-system pair (P1, P0), reduces it to (A, B),
    handles the rank-deficient "4.7" special case, tests for termination and
    otherwise eliminates to the next pair.  `Pass` is one pass of the loop in
    `main` and `Run` the whole loop, bounded by a fuel count because the
    source loops with `while 1`.  The imperative driver in module
    FrankeAlgorithm is proved to compute exactly `Run`. */
module Franke {
  import opened Matrices
  import opened SymbolicAlgebra

  /** The errors that end a run. */
  datatype Fatal =
    | AlgebraicConstraint  // P1 lacks full row rank: the model hides algebraic equations
    | NotFlat              // B is the zero matrix
    | SingularSystem       // a pseudo-inverse the algorithm needs does not exist
    | DegenerateCase       // the combining matrix K of the special case is not regular
    | VerificationFailure  // Zi_lpinv * Zi does not test as the unit matrix

  datatype Outcome = Terminal | Failed(error: Fatal) | OutOfFuel

  /** What `reduction` stores in the iteration record. */
  datatype ReductionMatrices = ReductionMatrices(
    A: Mat<Expr>, B: Mat<Expr>, BLpinv: Option<Mat<Expr>>,
    P1Roc: Mat<Expr>, P1Rpinv: Mat<Expr>, P1Dot: Mat<Expr>)

  /** What `fourseven` stores in the iteration record. */
  datatype OutlierMatrices = OutlierMatrices(
    Z: Mat<Expr>, ZLpinv: Mat<Expr>, BTilde: Mat<Expr>, BTildeLpinv: Mat<Expr>, P1TildeRoc: Mat<Expr>)

  /** The contents of one iteration record. */
  datatype Iteration = Iteration(
    i: nat, P1: Mat<Expr>, P0: Mat<Expr>,
    reduction: Option<ReductionMatrices>,
    outlier: Option<OutlierMatrices>,
    BLoc: Option<Mat<Expr>>,
    lastIterStep: bool)

  predicate SameShape(a: Mat<Expr>, b: Mat<Expr>)
  {
    a.rows == b.rows && a.cols == b.cols
  }

  /** end_condition: the algorithm ends when B has full row rank. */
  predicate EndCondition(alg: Algebra, b: Mat<Expr>)
  {
    b.rows == alg.srank(b)
  }

  /** outlier: B lacks full column rank, the special case 4.7. */
  predicate Outlier(alg: Algebra, b: Mat<Expr>)
  {
    alg.srank(b) < b.cols
  }

  /** With ranks bounded by the shape, ending requires at least as many
      columns as rows, and a B that needs neither the special case nor
      another pass is square. */
  lemma EndConditionShape(alg: Algebra, b: Mat<Expr>)
    requires Valid(alg)
    ensures EndCondition(alg, b) ==> b.rows <= b.cols
    ensures !Outlier(alg, b) <==> alg.srank(b) == b.cols
    ensures EndCondition(alg, b) && !Outlier(alg, b) ==> b.rows == b.cols
    ensures b.rows > b.cols ==> Outlier(alg, b) || !EndCondition(alg, b)
  {
  }

  /** The shapes of the matrices `reduction` builds from an n x p pair. */
  predicate ReductionShaped(red: ReductionMatrices, n: nat, p: nat)
  {
    && red.P1Roc.rows == p
    && red.P1Rpinv.rows == p && red.P1Rpinv.cols == n
    && red.P1Dot.rows == n && red.P1Dot.cols == p
    && red.A.rows == n && red.A.cols == n
    && red.B.rows == n && red.B.cols == red.P1Roc.cols
  }

  /** reduction: A = (P0 - d/dt P1) P1_rpinv and B = (P0 - d/dt P1) P1_roc,
      both simplified.  Only a missing right pseudo-inverse of P1 aborts; a
      missing left pseudo-inverse of B is recorded as None. */
  function Reduce(alg: Algebra, P1: Mat<Expr>, P0: Mat<Expr>): (r: Result<ReductionMatrices, Fatal>)
    requires Valid(alg) && SameShape(P1, P0)
    ensures r.Failure? <==> alg.rightPseudoInverse(P1).None?
    ensures r.Failure? ==> r.error == SingularSystem
    ensures r.Success? ==> ReductionShaped(r.value, P1.rows, P1.cols)
    ensures r.Success? ==> r.value.P1Roc == alg.rightOrthoComplement(P1)
    ensures r.Success? ==> r.value.BLpinv == alg.leftPseudoInverse(r.value.B)
  {
    var roc := alg.rightOrthoComplement(P1);
    match alg.rightPseudoInverse(P1)
    case None => Failure(SingularSystem)
    case Some(rpinv) =>
      var dot := alg.timeDerivative(P1);
      var lhs := Minus(P0, dot);
      var A := alg.customSimplify(Product(lhs, rpinv));
      var B := alg.customSimplify(Product(lhs, roc));
      Success(ReductionMatrices(A, B, alg.leftPseudoInverse(B), roc, rpinv, dot))
  }

  /** K1 and K2 of the special case: K2 is the right complement of B, K1 the
      right pseudo-inverse of B when B has full row rank and otherwise the
      right complement of K2 transposed.  Both have one row per column of B. */
  function CombiningColumns(alg: Algebra, b: Mat<Expr>): (k: Result<(Mat<Expr>, Mat<Expr>), Fatal>)
    requires Valid(alg)
    ensures k.Failure? <==> HasFullRowRank(alg, b) && alg.rightPseudoInverse(b).None?
    ensures k.Success? ==> k.value.0.rows == b.cols && k.value.1.rows == b.cols
    ensures k.Success? ==> k.value.1 == alg.rightOrthoComplement(b)
    ensures k.Success? && HasFullRowRank(alg, b) ==> Some(k.value.0) == alg.rightPseudoInverse(b)
    ensures k.Success? && !HasFullRowRank(alg, b) ==>
              k.value.0 == alg.rightOrthoComplement(Transpose(k.value.1))
  {
    var K2 := alg.rightOrthoComplement(b);
    if HasFullRowRank(alg, b) then
      match alg.rightPseudoInverse(b)
      case None => Failure(SingularSystem)
      case Some(K1) => Success((K1, K2))
    else
      Success((alg.rightOrthoComplement(Transpose(K2)), K2))
  }

  /** fourseven: the special reduction for a B without full column rank.
      On success the combining matrix K = [K1 | K2] is regular, so K1 and K2
      together have exactly as many columns as B, B~ = B K1 keeps B's rows,
      and the restricted left pseudo-inverse of Z passed the unit test. */
  function FourSevenCase(alg: Algebra, red: ReductionMatrices): (r: Result<OutlierMatrices, Fatal>)
    requires Valid(alg) && red.B.cols == red.P1Roc.cols
    ensures r.Success? ==> CombiningColumns(alg, red.B).Success?
    ensures r.Success? ==>
              var (K1, K2) := CombiningColumns(alg, red.B).value;
              && IsRegularMatrix(alg, ConcatCols(K1, K2))
              && K1.cols + K2.cols == red.B.cols
              && r.value.BTilde.rows == red.B.rows && r.value.BTilde.cols == K1.cols
              && r.value.P1TildeRoc.rows == red.P1Roc.rows && r.value.P1TildeRoc.cols == K1.cols
              && r.value.Z.rows == red.P1Roc.rows && r.value.Z.cols == K2.cols
    ensures r.Success? ==> Some(r.value.BTildeLpinv) == alg.leftPseudoInverse(r.value.BTilde)
    ensures r.Success? ==> r.value.ZLpinv.cols == r.value.Z.rows &&
                           IsUnitMatrix(alg, Product(r.value.ZLpinv, r.value.Z))
    ensures CombiningColumns(alg, red.B).Failure? ==> r == Failure(CombiningColumns(alg, red.B).error)
    ensures CombiningColumns(alg, red.B).Success? ==>
              (r == Failure(DegenerateCase) <==>
                 var (K1, K2) := CombiningColumns(alg, red.B).value;
                 !IsRegularMatrix(alg, ConcatCols(K1, K2)))
    ensures CombiningColumns(alg, red.B).Success? ==>
              var (K1, K2) := CombiningColumns(alg, red.B).value;
              var BTilde := alg.customSimplify(Product(red.B, K1));
              var P1TildeRoc := alg.customSimplify(Product(red.P1Roc, K1));
              var Z := alg.customSimplify(Product(red.P1Roc, K2));
              var ZLpinv := alg.ziLeftPinvWithRestrictions(red.P1Rpinv, P1TildeRoc, Z);
              IsRegularMatrix(alg, ConcatCols(K1, K2)) ==>
                && (r == Failure(SingularSystem) <==>
                      alg.leftPseudoInverse(BTilde).None? || ZLpinv.None?)
                && (r == Failure(VerificationFailure) <==>
                      && alg.leftPseudoInverse(BTilde).Some? && ZLpinv.Some?
                      && !IsUnitMatrix(alg, Product(ZLpinv.value, Z)))
                && (r.Success? <==>
                      && alg.leftPseudoInverse(BTilde).Some? && ZLpinv.Some?
                      && IsUnitMatrix(alg, Product(ZLpinv.value, Z)))
                && (r.Success? ==>
                      r.value == OutlierMatrices(Z, ZLpinv.value, BTilde,
                                                 alg.leftPseudoInverse(BTilde).value, P1TildeRoc))
  {
    match CombiningColumns(alg, red.B)
    case Failure(e) => Failure(e)
    case Success((K1, K2)) =>
      var K := ConcatCols(K1, K2);
      if !IsRegularMatrix(alg, K) then Failure(DegenerateCase)
      else
        var BTilde := alg.customSimplify(Product(red.B, K1));
        match alg.leftPseudoInverse(BTilde)
        case None => Failure(SingularSystem)
        case Some(BTildeLpinv) =>
          var P1TildeRoc := alg.customSimplify(Product(red.P1Roc, K1));
          var Z := alg.customSimplify(Product(red.P1Roc, K2));
          match alg.ziLeftPinvWithRestrictions(red.P1Rpinv, P1TildeRoc, Z)
          case None => Failure(SingularSystem)
          case Some(ZLpinv) =>
            if !IsUnitMatrix(alg, Product(ZLpinv, Z)) then Failure(VerificationFailure)
            else Success(OutlierMatrices(Z, ZLpinv, BTilde, BTildeLpinv, P1TildeRoc))
  }

  /** elimination: the next pair is (B_loc, B_loc A) with B_loc the left
      complement of the stored B; both have B_loc's shape. */
  function Eliminate(alg: Algebra, red: ReductionMatrices): (next: (Mat<Expr>, Mat<Expr>))
    requires Valid(alg) && red.A.rows == red.B.rows && red.A.cols == red.A.rows
    ensures next.0 == alg.leftOrthoComplement(red.B)
    ensures next.0.cols == red.A.rows && next.1 == Product(next.0, red.A)
    ensures SameShape(next.0, next.1)
  {
    var BLoc := alg.leftOrthoComplement(red.B);
    (BLoc, Product(BLoc, red.A))
  }

  /** The matrix the termination test reads: B~ when the special case ran, B otherwise. */
  function TestedMatrix(red: ReductionMatrices, outlier: Option<OutlierMatrices>): Mat<Expr>
  {
    if outlier.Some? then outlier.value.BTilde else red.B
  }

  datatype PassResult =
    | Stop(error: Fatal)
    | Finished(last: Iteration)
    | Continue(done: Iteration, nextP1: Mat<Expr>, nextP0: Mat<Expr>)

  /** The end of a pass: terminal when the tested matrix has full row rank,
      otherwise eliminate with the stored B. */
  function Conclude(alg: Algebra, i: nat, P1: Mat<Expr>, P0: Mat<Expr>,
                    red: ReductionMatrices, outlier: Option<OutlierMatrices>): (r: PassResult)
    requires Valid(alg) && ReductionShaped(red, P1.rows, P1.cols)
    ensures !r.Stop?
    ensures r.Continue? ==> SameShape(r.nextP1, r.nextP0) && r.nextP1.cols == P1.rows
  {
    if EndCondition(alg, TestedMatrix(red, outlier)) then
      Finished(Iteration(i, P1, P0, Some(red), outlier, None, true))
    else
      var (nextP1, nextP0) := Eliminate(alg, red);
      Continue(Iteration(i, P1, P0, Some(red), outlier, Some(nextP1), false), nextP1, nextP0)
  }

  /** One pass of the loop in `main`: guard, reduce, guard, special case,
      termination test, elimination. */
  function Pass(alg: Algebra, i: nat, P1: Mat<Expr>, P0: Mat<Expr>): (r: PassResult)
    requires Valid(alg) && SameShape(P1, P0)
    ensures r.Continue? ==> SameShape(r.nextP1, r.nextP0) && r.nextP1.cols == P1.rows
  {
    if !HasFullRowRank(alg, P1) then Stop(AlgebraicConstraint)
    else
      match Reduce(alg, P1, P0)
      case Failure(e) => Stop(e)
      case Success(red) =>
        if IsZeroMatrix(alg, red.B) then Stop(NotFlat)
        else if Outlier(alg, red.B) then
          match FourSevenCase(alg, red)
          case Failure(e) => Stop(e)
          case Success(o) => Conclude(alg, i, P1, P0, red, Some(o))
        else Conclude(alg, i, P1, P0, red, None)
  }

  datatype RunResult = RunResult(trace: seq<Iteration>, outcome: Outcome)

  /** The loop of `main` from pass i on, for at most `fuel` passes: the
      records appended to the system stack and how the run ended. */
  function Run(alg: Algebra, i: nat, P1: Mat<Expr>, P0: Mat<Expr>, fuel: nat): RunResult
    requires Valid(alg) && SameShape(P1, P0)
    decreases fuel, 2
  {
    if fuel == 0 then RunResult([], OutOfFuel) else Proceed(alg, i, P1, P0, fuel)
  }

  /** A turn of the `while 1` loop with passes left.  It is a step of its own
      so that unfolding a run once reaches the turn but not yet the pass. */
  function Proceed(alg: Algebra, i: nat, P1: Mat<Expr>, P0: Mat<Expr>, fuel: nat): RunResult
    requires Valid(alg) && SameShape(P1, P0) && fuel > 0
    decreases fuel, 1
  {
    Advance(alg, i, P1, P0, fuel)
  }

  /** Pass i, then the run from the pair it hands on. */
  function Advance(alg: Algebra, i: nat, P1: Mat<Expr>, P0: Mat<Expr>, fuel: nat): RunResult
    requires Valid(alg) && SameShape(P1, P0) && fuel > 0
    decreases fuel, 0
  {
    match Pass(alg, i, P1, P0)
    case Stop(e) => RunResult([], Failed(e))
    case Finished(it) => RunResult([it], Terminal)
    case Continue(it, nextP1, nextP0) =>
      var rest := Run(alg, i + 1, nextP1, nextP0, fuel - 1);
      RunResult([it] + rest.trace, rest.outcome)
  }

  /** One step of a run with fuel left: how it follows from the pass. */
  lemma RunStep(alg: Algebra, i: nat, P1: Mat<Expr>, P0: Mat<Expr>, fuel: nat)
    requires Valid(alg) && SameShape(P1, P0) && fuel > 0
    ensures Pass(alg, i, P1, P0).Stop? ==>
              Run(alg, i, P1, P0, fuel) == RunResult([], Failed(Pass(alg, i, P1, P0).error))
    ensures Pass(alg, i, P1, P0).Finished? ==>
              Run(alg, i, P1, P0, fuel) == RunResult([Pass(alg, i, P1, P0).last], Terminal)
    ensures Pass(alg, i, P1, P0).Continue? ==>
              var p := Pass(alg, i, P1, P0);
              var rest := Run(alg, i + 1, p.nextP1, p.nextP0, fuel - 1);
              Run(alg, i, P1, P0, fuel) == RunResult([p.done] + rest.trace, rest.outcome)
  {
    assert Run(alg, i, P1, P0, fuel) == Advance(alg, i, P1, P0, fuel);
  }

  /** What every appended record satisfies: it was reduced from a P1 of full
      row rank to a non-zero B, the special case ran exactly when B lacks
      full column rank, it is marked last exactly when the tested matrix
      (B~ or B) has full row rank, and exactly the records that are not last
      were eliminated, with the left complement of the original B. */
  predicate WellReduced(alg: Algebra, it: Iteration)
  {
    && it.reduction.Some?
    && HasFullRowRank(alg, it.P1)
    && !IsZeroMatrix(alg, it.reduction.value.B)
    && (it.outlier.Some? <==> Outlier(alg, it.reduction.value.B))
    && (it.lastIterStep <==> EndCondition(alg, TestedMatrix(it.reduction.value, it.outlier)))
    && (it.lastIterStep <==> it.BLoc.None?)
    && (it.BLoc.Some? ==> it.BLoc.value == alg.leftOrthoComplement(it.reduction.value.B))
  }

  /** The guards of one pass: a P1 without full row rank stops it before any
      reduction, a zero B stops it before the special case, and every record
      the pass produces is well reduced and carries the pass's index and pair. */
  lemma PassGuards(alg: Algebra, i: nat, P1: Mat<Expr>, P0: Mat<Expr>)
    requires Valid(alg) && SameShape(P1, P0)
    ensures Pass(alg, i, P1, P0) == Stop(AlgebraicConstraint) <==> !HasFullRowRank(alg, P1)
    ensures Pass(alg, i, P1, P0) == Stop(NotFlat) <==>
              && HasFullRowRank(alg, P1)
              && Reduce(alg, P1, P0).Success?
              && IsZeroMatrix(alg, Reduce(alg, P1, P0).value.B)
    ensures Pass(alg, i, P1, P0).Finished? ==>
              var it := Pass(alg, i, P1, P0).last;
              WellReduced(alg, it) && it.lastIterStep && it.i == i && it.P1 == P1 && it.P0 == P0
    ensures Pass(alg, i, P1, P0).Continue? ==>
              var it := Pass(alg, i, P1, P0).done;
              WellReduced(alg, it) && !it.lastIterStep && it.i == i && it.P1 == P1 && it.P0 == P0
  {
    var r := Pass(alg, i, P1, P0);
    if HasFullRowRank(alg, P1) && Reduce(alg, P1, P0).Success? {
      var red := Reduce(alg, P1, P0).value;
      if !IsZeroMatrix(alg, red.B) {
        if Outlier(alg, red.B) && FourSevenCase(alg, red).Success? {
          assert r == Conclude(alg, i, P1, P0, red, Some(FourSevenCase(alg, red).value));
        } else if !Outlier(alg, red.B) {
          assert r == Conclude(alg, i, P1, P0, red, None);
        }
      }
    }
  }

  /** A pass that continues hands on the pair elimination built from its own
      record: P1 becomes the record's B_loc and P0 becomes B_loc A. */
  lemma PassHandsOn(alg: Algebra, i: nat, P1: Mat<Expr>, P0: Mat<Expr>)
    requires Valid(alg) && SameShape(P1, P0)
    ensures Pass(alg, i, P1, P0).Continue? ==>
              var p := Pass(alg, i, P1, P0);
              && p.done.reduction.Some? && p.done.BLoc == Some(p.nextP1)
              && p.nextP1.cols == p.done.reduction.value.A.rows
              && p.nextP0 == Product(p.nextP1, p.done.reduction.value.A)
  {
    var r := Pass(alg, i, P1, P0);
    if HasFullRowRank(alg, P1) && Reduce(alg, P1, P0).Success? {
      var red := Reduce(alg, P1, P0).value;
      if !IsZeroMatrix(alg, red.B) {
        if Outlier(alg, red.B) && FourSevenCase(alg, red).Success? {
          assert r == Conclude(alg, i, P1, P0, red, Some(FourSevenCase(alg, red).value));
        } else if !Outlier(alg, red.B) {
          assert r == Conclude(alg, i, P1, P0, red, None);
        }
      }
    }
  }

  /** Consecutive records are linked by elimination: the next pass starts
      from (B_loc, B_loc A) of the previous one. */
  predicate Linked(it: Iteration, next: Iteration)
  {
    && it.reduction.Some? && it.BLoc.Some?
    && next.P1 == it.BLoc.value
    && it.BLoc.value.cols == it.reduction.value.A.rows
    && next.P0 == Product(it.BLoc.value, it.reduction.value.A)
  }

  /** The records of a run: one per completed pass, numbered from i, each
      well reduced, the first one holding the starting pair; never more
      records than passes allowed. */
  lemma {:induction false} RunRecords(alg: Algebra, i: nat, P1: Mat<Expr>, P0: Mat<Expr>, fuel: nat)
    requires Valid(alg) && SameShape(P1, P0)
    ensures var t := Run(alg, i, P1, P0, fuel).trace;
      && |t| <= fuel
      && (forall k :: 0 <= k < |t| ==> t[k].i == i + k && WellReduced(alg, t[k]))
      && (t != [] ==> t[0].P1 == P1 && t[0].P0 == P0)
    decreases fuel
  {
    if fuel > 0 {
      RunStep(alg, i, P1, P0, fuel);
      PassGuards(alg, i, P1, P0);
      match Pass(alg, i, P1, P0)
      case Stop(e) =>
      case Finished(it) =>
      case Continue(it, nextP1, nextP0) =>
        RunRecords(alg, i + 1, nextP1, nextP0, fuel - 1);
        var rest := Run(alg, i + 1, nextP1, nextP0, fuel - 1).trace;
        var t := Run(alg, i, P1, P0, fuel).trace;
        assert t == [it] + rest;
        forall k | 0 <= k < |t| ensures t[k].i == i + k && WellReduced(alg, t[k]) {
          if k > 0 {
            assert t[k] == rest[k - 1];
          }
        }
    }
  }

  /** Consecutive records of a run are linked by elimination. */
  lemma {:induction false} RunLinks(alg: Algebra, i: nat, P1: Mat<Expr>, P0: Mat<Expr>, fuel: nat)
    requires Valid(alg) && SameShape(P1, P0)
    ensures var t := Run(alg, i, P1, P0, fuel).trace;
      forall k :: 0 <= k < |t| - 1 ==> Linked(t[k], t[k + 1])
    decreases fuel
  {
    if fuel > 0 {
      RunStep(alg, i, P1, P0, fuel);
      match Pass(alg, i, P1, P0)
      case Stop(e) =>
      case Finished(it) =>
      case Continue(it, nextP1, nextP0) =>
        PassHandsOn(alg, i, P1, P0);
        RunLinks(alg, i + 1, nextP1, nextP0, fuel - 1);
        RunRecords(alg, i + 1, nextP1, nextP0, fuel - 1);
        var rest := Run(alg, i + 1, nextP1, nextP0, fuel - 1).trace;
        var t := Run(alg, i, P1, P0, fuel).trace;
        assert t == [it] + rest;
        forall k | 0 <= k < |t| - 1 ensures Linked(t[k], t[k + 1]) {
          if k > 0 {
            assert t[k] == rest[k - 1] && t[k + 1] == rest[k];
          } else {
            assert t[1] == rest[0];
          }
        }
    }
  }

  /** Only the final record of a run can be marked last, and it is marked
      exactly when the run ended at the termination test. */
  lemma {:induction false} RunLast(alg: Algebra, i: nat, P1: Mat<Expr>, P0: Mat<Expr>, fuel: nat)
    requires Valid(alg) && SameShape(P1, P0)
    ensures var r := Run(alg, i, P1, P0, fuel);
      && (forall k :: 0 <= k < |r.trace| - 1 ==> !r.trace[k].lastIterStep)
      && (r.outcome.Terminal? <==> r.trace != [] && r.trace[|r.trace| - 1].lastIterStep)
    decreases fuel
  {
    if fuel > 0 {
      RunStep(alg, i, P1, P0, fuel);
      match Pass(alg, i, P1, P0)
      case Stop(e) =>
      case Finished(it) =>
      case Continue(it, nextP1, nextP0) =>
        RunLast(alg, i + 1, nextP1, nextP0, fuel - 1);
        var rest := Run(alg, i + 1, nextP1, nextP0, fuel - 1);
        var t := Run(alg, i, P1, P0, fuel).trace;
        assert t == [it] + rest.trace;
        forall k | 0 <= k < |t| - 1 ensures !t[k].lastIterStep {
          if k > 0 {
            assert t[k] == rest.trace[k - 1];
          }
        }
        if rest.trace != [] {
          assert t[|t| - 1] == rest.trace[|rest.trace| - 1];
        }
    }
  }

  /** The fuel only bounds the loop: a run that ended within its fuel ends
      the same way, with the same records, given any larger bound. */
  lemma {:induction false} RunFuelMonotone(alg: Algebra, i: nat, P1: Mat<Expr>, P0: Mat<Expr>, fuel: nat, more: nat)
    requires Valid(alg) && SameShape(P1, P0)
    requires fuel <= more
    requires !Run(alg, i, P1, P0, fuel).outcome.OutOfFuel?
    ensures Run(alg, i, P1, P0, more) == Run(alg, i, P1, P0, fuel)
    decreases fuel
  {
    RunStep(alg, i, P1, P0, fuel);
    RunStep(alg, i, P1, P0, more);
    match Pass(alg, i, P1, P0)
    case Stop(e) =>
    case Finished(it) =>
    case Continue(it, nextP1, nextP0) =>
      RunFuelMonotone(alg, i + 1, nextP1, nextP0, fuel - 1, more - 1);
  }
}
