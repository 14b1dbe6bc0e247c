/** The exact-structure checks and the assembly steps of the unimodularity
    test for a Lie-Baecklund transformation.

    The Jacobian of the transformation is a polynomial in the shift symbol s
    whose coefficients are matrices; the test posits an inverse of the same
    kind with unknown parameters, splits the equations that define the
    inverse into homogeneous and inhomogeneous ones, and finally accepts the
    inverse only when three products test as unit matrices.  The symbolic
    steps in between (non-commutative products, right shifts, solving) are
    computer algebra and stay outside; the checks here work on the numeric
    matrices those steps produce. */
module Unimodular {
  import opened Matrices

  /** The ways the test can fail instead of answering. */
  datatype Error =
    | DivisionByZero     // the number of scalar components is zero
    | NotWholeBlocks     // the variables do not split into whole blocks
    | ShapeMismatch      // adding matrices of different shapes
    | NotSquare          // the unit-matrix test was handed a non-square matrix

  // ---------------------------------------------------------------------
  // Index arithmetic of row-major flattening

  lemma {:induction false} Dist(a: nat, n: nat)
    ensures (a + 1) * n == a * n + n
    ensures a * (n + 1) == a * n + a
  {
  }

  lemma {:induction false} MulStep(a: nat, b: nat, n: nat)
    requires a < b
    ensures a * n + n <= b * n
    decreases b - a
  {
    Dist(a, n);
    if a + 1 < b {
      MulStep(a + 1, b, n);
    }
  }

  /** Quotient and remainder are unique. */
  lemma {:induction false} DivUnique(a: nat, b: nat, c: nat, d: nat, n: nat)
    requires b < n && d < n && a * n + b == c * n + d
    ensures a == c && b == d
  {
    if a < c {
      MulStep(a, c, n);
    } else if c < a {
      MulStep(c, a, n);
    }
  }

  lemma {:induction false} DivMod(k: nat, m: nat)
    requires m > 0
    ensures k == (k / m) * m + k % m && k % m < m
  {
  }

  lemma {:induction false} ModOf(k: nat, m: nat, q: nat, r: nat)
    requires r < m && k == q * m + r
    ensures k % m == r && k / m == q
  {
    DivMod(k, m);
    DivUnique(q, r, k / m, k % m, m);
  }

  lemma {:induction false} DiagonalOn(n: nat, i: nat)
    requires i < n
    ensures (i * n + i) % (n + 1) == 0
  {
    Dist(i, n);
    ModOf(i * n + i, n + 1, i, 0);
  }

  /** Every flat index of an n x n matrix lies below n * (n + 1). */
  lemma {:induction false} FlatBelow(n: nat, i: nat, j: nat)
    requires i < n && j < n
    ensures i * n + j < n * (n + 1)
  {
    MulStep(i, n, n);
    Dist(n, n);
  }

  lemma {:induction false} DiagonalOff(n: nat, i: nat, j: nat)
    requires i < n && j < n && (i * n + j) % (n + 1) == 0
    ensures i == j
  {
    var k := i * n + j;
    var q := k / (n + 1);
    DivMod(k, n + 1);
    assert k == q * (n + 1);
    FlatBelow(n, i, j);
    if n <= q {
      if n < q {
        MulStep(n, q, n + 1);
      }
      assert false;
    }
    Dist(q, n);
    DivUnique(i, j, q, q, n);
  }

  /** In the row-major flattening of an n x n matrix, entry (i, j) sits at
      i * n + j, and that index is a multiple of n + 1 exactly when the entry
      is on the diagonal. */
  lemma {:induction false} DiagonalIndex(n: nat, i: nat, j: nat)
    requires i < n && j < n
    ensures (i * n + j) % (n + 1) == 0 <==> i == j
  {
    if i == j {
      DiagonalOn(n, i);
    } else if (i * n + j) % (n + 1) == 0 {
      DiagonalOff(n, i, j);
    }
  }

  // ---------------------------------------------------------------------
  // is_zero_matrix and is_unit_matrix on the substituted matrix

  /** A matrix is zero exactly when its flattening is. */
  lemma ZeroFlat(m: Mat<real>)
    ensures var flat := Flatten(m.entries);
      AllZero(m) <==> forall q :: 0 <= q < |flat| ==> flat[q] == 0.0
  {
    var flat := Flatten(m.entries);
    FlattenLength(m.entries, m.cols);
    if AllZero(m) {
      forall q | 0 <= q < |flat| ensures flat[q] == 0.0 {
        FlatPosition(m, q);
        FlattenIndex(m, q / m.cols, q % m.cols);
      }
    }
    if forall q :: 0 <= q < |flat| ==> flat[q] == 0.0 {
      forall i, j | 0 <= i < m.rows && 0 <= j < m.cols ensures m.entries[i][j] == 0.0 {
        FlattenIndex(m, i, j);
      }
    }
  }

  /** What is_unit_matrix expects at flat index q of an n x n matrix. */
  function UnitPattern(q: nat, n: nat): real
  {
    if q % (n + 1) == 0 then 1.0 else 0.0
  }

  /** A square matrix is the identity exactly when its flattening has 1 at
      the multiples of n + 1 and 0 elsewhere. */
  lemma UnitFlat(m: Mat<real>)
    requires IsSquare(m)
    ensures var flat := Flatten(m.entries);
      IsIdentity(m) <==> forall q :: 0 <= q < |flat| ==> flat[q] == UnitPattern(q, m.rows)
  {
    var flat := Flatten(m.entries);
    var n := m.rows;
    FlattenLength(m.entries, m.cols);
    if IsIdentity(m) {
      forall q | 0 <= q < |flat| ensures flat[q] == UnitPattern(q, n) {
        FlatPosition(m, q);
        FlattenIndex(m, q / n, q % n);
        DiagonalIndex(n, q / n, q % n);
      }
    }
    if forall q :: 0 <= q < |flat| ==> flat[q] == UnitPattern(q, n) {
      forall i, j | 0 <= i < n && 0 <= j < n ensures m.entries[i][j] == (if i == j then 1.0 else 0.0) {
        FlattenIndex(m, i, j);
        DiagonalIndex(n, i, j);
      }
    }
  }

  /** is_zero_matrix: walks the flattened matrix and answers false at the
      first entry that is not zero. */
  method IsZeroMatrix(m: Mat<real>) returns (r: bool)
    ensures r == AllZero(m)
  {
    var flat := Flatten(m.entries);
    ZeroFlat(m);
    var k := 0;
    while k < |flat|
      invariant 0 <= k <= |flat|
      invariant forall q :: 0 <= q < k ==> flat[q] == 0.0
    {
      if flat[k] != 0.0 {
        return false;
      }
      k := k + 1;
    }
    return true;
  }

  /** is_unit_matrix: asserts that the matrix is square, then walks the
      flattened matrix, expecting 1 at every index that is a multiple of
      n + 1 and 0 elsewhere, and answers false at the first mismatch. */
  method IsUnitMatrix(m: Mat<real>) returns (r: Result<bool, Error>)
    ensures !IsSquare(m) ==> r == Failure(NotSquare)
    ensures IsSquare(m) ==> r == Success(IsIdentity(m))
  {
    if !IsSquare(m) {
      return Failure(NotSquare);
    }
    var n := m.rows;
    var flat := Flatten(m.entries);
    UnitFlat(m);
    var k := 0;
    while k < |flat|
      invariant 0 <= k <= |flat|
      invariant forall q :: 0 <= q < k ==> flat[q] == UnitPattern(q, n)
    {
      if k % (n + 1) == 0 {
        if flat[k] != 1.0 {
          assert flat[k] != UnitPattern(k, n);
          return Success(false);
        }
      } else if flat[k] != 0.0 {
        assert flat[k] != UnitPattern(k, n);
        return Success(false);
      }
      k := k + 1;
    }
    return Success(true);
  }

  // ---------------------------------------------------------------------
  // Polynomials in the shift symbol s with matrix coefficients

  /** coeffs[k] is the coefficient of s^k; the zero polynomial has none. */
  datatype PolyMatrix = PolyMatrix(rows: nat, cols: nat, coeffs: seq<Mat<Expr>>)
  {
    predicate WellFormed()
    {
      forall k :: 0 <= k < |coeffs| ==> coeffs[k].rows == rows && coeffs[k].cols == cols
    }
  }

  /** P + J * s^i. */
  function AddTerm(P: PolyMatrix, J: Mat<Expr>, i: nat): (Q: PolyMatrix)
    requires P.WellFormed() && J.rows == P.rows && J.cols == P.cols
    ensures Q.WellFormed() && Q.rows == P.rows && Q.cols == P.cols
    ensures |Q.coeffs| == if i < |P.coeffs| then |P.coeffs| else i + 1
  {
    if i < |P.coeffs| then
      PolyMatrix(P.rows, P.cols, P.coeffs[i := MatAdd(P.coeffs[i], J)])
    else
      PolyMatrix(P.rows, P.cols,
        P.coeffs + seq(i - |P.coeffs|, _ => Zeros(P.rows, P.cols)) + [J])
  }

  /** The coefficient of s^k; zero beyond the last stored one. */
  function Coefficient(P: PolyMatrix, k: nat): (C: Mat<Expr>)
    requires P.WellFormed()
    ensures C.rows == P.rows && C.cols == P.cols
  {
    if k < |P.coeffs| then P.coeffs[k] else Zeros(P.rows, P.cols)
  }

  /** Adding J * s^i adds the value of J to the coefficient of s^i and
      leaves the value of every other coefficient as it was. */
  lemma AddTermCoefficient(P: PolyMatrix, J: Mat<Expr>, i: nat, k: nat, r: nat, c: nat,
                           point: Symbol -> real)
    requires P.WellFormed() && J.rows == P.rows && J.cols == P.cols
    requires r < P.rows && c < P.cols
    ensures Eval(Coefficient(AddTerm(P, J, i), k).entries[r][c], point)
         == Eval(Coefficient(P, k).entries[r][c], point)
            + (if k == i then Eval(J.entries[r][c], point) else 0.0)
  {
    var Q := AddTerm(P, J, i);
    if i >= |P.coeffs| && |P.coeffs| <= k < i {
      assert Q.coeffs[k] == Zeros(P.rows, P.cols);
    }
  }

  // ---------------------------------------------------------------------
  // lie_baecklund_jacobi_matrix

  /** The variables split into consecutive blocks of ny, one per derivative
      order (the reshape to a matrix with ny columns). */
  function Reshape(yya: seq<Symbol>, ny: nat): (blocks: seq<seq<Symbol>>)
    requires ny > 0
    ensures forall k :: 0 <= k < |blocks| ==> |blocks[k]| == ny
    decreases |yya|
  {
    if |yya| < ny then [] else [yya[..ny]] + Reshape(yya[ny..], ny)
  }

  /** When the number of variables is a multiple of ny, there are
      |yya| / ny blocks and, read row after row, they give back the variables. */
  lemma {:induction false} ReshapeBlocks(yya: seq<Symbol>, ny: nat)
    requires ny > 0 && |yya| % ny == 0
    ensures |Reshape(yya, ny)| == |yya| / ny
    ensures Flatten(Reshape(yya, ny)) == yya
    decreases |yya|
  {
    DivMod(|yya|, ny);
    var q := |yya| / ny;
    if q == 0 {
      assert yya == [];
    } else {
      Dist(q - 1, ny);
      ModOf(|yya| - ny, ny, q - 1, 0);
      ReshapeBlocks(yya[ny..], ny);
      var blocks := Reshape(yya, ny);
      assert blocks[0] == yya[..ny] && blocks[1..] == Reshape(yya[ny..], ny);
      assert yya == yya[..ny] + yya[ny..];
    }
  }

  /** lie_baecklund_jacobi_matrix: the polynomial in s whose coefficient of
      s^i is the Jacobian of ZZ with respect to the i-th block of ny
      variables, accumulated term by term from the zero ny x ny matrix. */
  method LieBaecklundJacobiMatrix(ZZ: seq<Expr>, yya: seq<Symbol>, ny: nat)
    returns (r: Result<PolyMatrix, Error>)
    ensures ny == 0 ==> r == Failure(DivisionByZero)
    ensures ny > 0 && |yya| % ny != 0 ==> r == Failure(NotWholeBlocks)
    ensures ny > 0 && |yya| % ny == 0 && |yya| > 0 && |ZZ| != ny ==> r == Failure(ShapeMismatch)
    ensures ny > 0 && |yya| % ny == 0 && (|yya| == 0 || |ZZ| == ny) ==>
      && r.Success?
      && r.value.rows == ny && r.value.cols == ny && r.value.WellFormed()
      && |r.value.coeffs| == |Reshape(yya, ny)|
      && forall k :: 0 <= k < |Reshape(yya, ny)| ==> r.value.coeffs[k] == Jacobian(ZZ, Reshape(yya, ny)[k])
  {
    if ny == 0 {
      return Failure(DivisionByZero);
    }
    if |yya| % ny != 0 {
      return Failure(NotWholeBlocks);
    }
    var P := PolyMatrix(ny, ny, []);
    var yyam := Reshape(yya, ny);
    ReshapeBlocks(yya, ny);
    var i := 0;
    while i < |yyam|
      invariant 0 <= i <= |yyam|
      invariant P.rows == ny && P.cols == ny && P.WellFormed()
      invariant |P.coeffs| == i
      invariant forall k :: 0 <= k < i ==> P.coeffs[k] == Jacobian(ZZ, yyam[k])
    {
      var J := Jacobian(ZZ, yyam[i]);
      if J.rows != P.rows || J.cols != P.cols {
        return Failure(ShapeMismatch);
      }
      P := AddTerm(P, J, i);
      i := i + 1;
    }
    return Success(P);
  }

  /** Block k of the reshape is the slice of the variables from k * ny. */
  lemma {:induction false} ReshapeAt(yya: seq<Symbol>, ny: nat, k: nat)
    requires ny > 0 && k < |Reshape(yya, ny)|
    ensures k * ny + ny <= |yya| && Reshape(yya, ny)[k] == yya[k * ny .. k * ny + ny]
    decreases k
  {
    if k > 0 {
      ReshapeAt(yya[ny..], ny, k - 1);
      Dist(k - 1, ny);
    }
  }

  // ---------------------------------------------------------------------
  // create_parameter_inverse

  /** The size n of the posited inverse. */
  const AnsatzSize: nat := 2

  /** An n x n matrix of parameters prefix1, prefix2, ..., numbered row by row. */
  function ParameterMatrix(prefix: string, n: nat): (M: Mat<Expr>)
    ensures M.rows == n && M.cols == n
    ensures forall i, j :: 0 <= i < n && 0 <= j < n ==>
              M.entries[i][j].Sym? && M.entries[i][j].symbol.name == prefix
    ensures forall i, j, i', j' ::
              (0 <= i < n && 0 <= j < n && 0 <= i' < n && 0 <= j' < n &&
               M.entries[i][j] == M.entries[i'][j']) ==> i == i' && j == j'
  {
    var M := Matrix(n, n, seq(n, i requires 0 <= i < n =>
                             seq(n, j requires 0 <= j < n => Sym(Symbol(prefix, i * n + j + 1)))));
    forall i, j, i', j' | 0 <= i < n && 0 <= j < n && 0 <= i' < n && 0 <= j' < n &&
                          M.entries[i][j] == M.entries[i'][j']
      ensures i == i' && j == j'
    {
      DivUnique(i, j, i', j', n);
    }
    M
  }

  /** create_parameter_inverse: the ansatz I0 + I1 s + I2 s^2 with three
      2 x 2 parameter matrices named a, b and c. */
  function CreateParameterInverse(): (r: (PolyMatrix, Mat<Expr>, Mat<Expr>, Mat<Expr>))
    ensures r.1.rows == AnsatzSize && r.1.cols == AnsatzSize
    ensures r.2.rows == AnsatzSize && r.2.cols == AnsatzSize
    ensures r.3.rows == AnsatzSize && r.3.cols == AnsatzSize
    ensures r.0.WellFormed() && r.0.rows == AnsatzSize && r.0.cols == AnsatzSize
    ensures r.0 == AddTerm(AddTerm(AddTerm(PolyMatrix(AnsatzSize, AnsatzSize, []), r.1, 0), r.2, 1), r.3, 2)
  {
    var n := AnsatzSize;
    var I0 := ParameterMatrix("a", n);
    var I1 := ParameterMatrix("b", n);
    var I2 := ParameterMatrix("c", n);
    (PolyMatrix(n, n, [I0, I1, I2]), I0, I1, I2)
  }

  /** The parameter vector: the entries of I0, I1 and I2, each read row by row. */
  function Parameters(I0: Mat<Expr>, I1: Mat<Expr>, I2: Mat<Expr>): seq<Expr>
  {
    Flatten(I0.entries) + Flatten(I1.entries) + Flatten(I2.entries)
  }

  /** Read row by row, a parameter matrix holds prefix1, ..., prefix(n^2). */
  lemma ParameterFlat(prefix: string, n: nat)
    ensures var f := Flatten(ParameterMatrix(prefix, n).entries);
      |f| == n * n && forall q :: 0 <= q < |f| ==> f[q] == Sym(Symbol(prefix, q + 1))
  {
    var M := ParameterMatrix(prefix, n);
    var f := Flatten(M.entries);
    FlattenLength(M.entries, n);
    forall q | 0 <= q < |f| ensures f[q] == Sym(Symbol(prefix, q + 1)) {
      FlatPosition(M, q);
      FlattenIndex(M, q / n, q % n);
    }
  }

  /** The ansatz has 3 n^2 parameters and no two of them are the same symbol. */
  lemma ParametersDistinct()
    ensures var (_, I0, I1, I2) := CreateParameterInverse();
      var pars := Parameters(I0, I1, I2);
      && |pars| == 3 * AnsatzSize * AnsatzSize
      && (forall k :: 0 <= k < |pars| ==> pars[k].Sym?)
      && (forall k, l :: 0 <= k < l < |pars| ==> pars[k] != pars[l])
  {
    var (_, I0, I1, I2) := CreateParameterInverse();
    ParameterFlat("a", AnsatzSize);
    ParameterFlat("b", AnsatzSize);
    ParameterFlat("c", AnsatzSize);
    var sz := AnsatzSize * AnsatzSize;
    var pars := Parameters(I0, I1, I2);
    assert forall k :: 0 <= k < sz ==> pars[k] == Sym(Symbol("a", k + 1));
    assert forall k :: sz <= k < 2 * sz ==> pars[k] == Sym(Symbol("b", k - sz + 1));
    assert forall k :: 2 * sz <= k < 3 * sz ==> pars[k] == Sym(Symbol("c", k - 2 * sz + 1));
  }

  // ---------------------------------------------------------------------
  // get_homogeneous_equation and the index helpers

  /** Every parameter replaced by zero (the substitution zip0(pars)). */
  function SubsZero(e: Expr, pars: seq<Symbol>): Expr
  {
    match e
    case Num(v) => Num(v)
    case Sym(x) => if x in pars then Num(0.0) else Sym(x)
    case Add(a, b) => Add(SubsZero(a, pars), SubsZero(b, pars))
    case Mul(a, b) => Mul(SubsZero(a, pars), SubsZero(b, pars))
    case Neg(a) => Neg(SubsZero(a, pars))
  }

  /** x + y under the automatic evaluation of the computer-algebra system:
      numbers are added and a zero term is dropped. */
  function SimplifyAdd(x: Expr, y: Expr): Expr
  {
    if x.Num? && y.Num? then Num(x.value + y.value)
    else if x == Num(0.0) then y
    else if y == Num(0.0) then x
    else Add(x, y)
  }

  /** x * y under automatic evaluation: numbers are multiplied, a zero
      factor gives zero and a factor one is dropped. */
  function SimplifyMul(x: Expr, y: Expr): Expr
  {
    if x.Num? && y.Num? then Num(x.value * y.value)
    else if x == Num(0.0) || y == Num(0.0) then Num(0.0)
    else if x == Num(1.0) then y
    else if y == Num(1.0) then x
    else Mul(x, y)
  }

  /** -x under automatic evaluation: a number is negated and a double
      negation cancels. */
  function SimplifyNeg(x: Expr): Expr
  {
    if x.Num? then Num(-x.value) else if x.Neg? then x.arg else Neg(x)
  }

  /** The automatic evaluation applied to every expression the
      computer-algebra system builds, bottom up. */
  function AutoSimplify(e: Expr): Expr
  {
    match e
    case Num(v) => Num(v)
    case Sym(x) => Sym(x)
    case Add(a, b) => SimplifyAdd(AutoSimplify(a), AutoSimplify(b))
    case Mul(a, b) => SimplifyMul(AutoSimplify(a), AutoSimplify(b))
    case Neg(a) => SimplifyNeg(AutoSimplify(a))
  }

  lemma {:induction false} SimplifyAddSound(x: Expr, y: Expr, point: Symbol -> real)
    ensures Eval(SimplifyAdd(x, y), point) == Eval(x, point) + Eval(y, point)
  {
  }

  lemma {:induction false} ZeroFactorSound(x: Expr, y: Expr, point: Symbol -> real)
    requires x == Num(0.0) || y == Num(0.0)
    ensures Eval(x, point) * Eval(y, point) == 0.0
  {
    var u, v := Eval(x, point), Eval(y, point);
    assert u == 0.0 || v == 0.0;
  }

  lemma {:induction false} UnitFactorSound(x: Expr, y: Expr, point: Symbol -> real)
    requires x == Num(1.0)
    ensures Eval(x, point) * Eval(y, point) == Eval(y, point)
  {
    var u, v := Eval(x, point), Eval(y, point);
    assert u == 1.0;
  }

  lemma {:induction false} SimplifyMulSound(x: Expr, y: Expr, point: Symbol -> real)
    ensures Eval(SimplifyMul(x, y), point) == Eval(Mul(x, y), point)
  {
    if x.Num? && y.Num? {
    } else if x == Num(0.0) || y == Num(0.0) {
      ZeroFactorSound(x, y, point);
    } else if x == Num(1.0) {
      UnitFactorSound(x, y, point);
    } else if y == Num(1.0) {
      UnitFactorSound(y, x, point);
    }
  }

  lemma {:induction false} SimplifyNegSound(x: Expr, point: Symbol -> real)
    ensures Eval(SimplifyNeg(x), point) == -Eval(x, point)
  {
  }

  /** Factors of equal value give products of equal value. */
  lemma {:induction false} MulCongruence(x: Expr, y: Expr, a: Expr, b: Expr, point: Symbol -> real)
    requires Eval(x, point) == Eval(a, point) && Eval(y, point) == Eval(b, point)
    ensures Eval(Mul(x, y), point) == Eval(Mul(a, b), point)
  {
  }

  lemma {:induction false} MulCaseSound(a: Expr, b: Expr, point: Symbol -> real)
    requires Eval(AutoSimplify(a), point) == Eval(a, point)
    requires Eval(AutoSimplify(b), point) == Eval(b, point)
    ensures Eval(AutoSimplify(Mul(a, b)), point) == Eval(Mul(a, b), point)
  {
    var x, y := AutoSimplify(a), AutoSimplify(b);
    assert AutoSimplify(Mul(a, b)) == SimplifyMul(x, y);
    SimplifyMulSound(x, y, point);
    MulCongruence(x, y, a, b, point);
  }

  /** Automatic evaluation never changes the value of an expression. */
  lemma {:induction false} AutoSimplifySound(e: Expr, point: Symbol -> real)
    ensures Eval(AutoSimplify(e), point) == Eval(e, point)
  {
    match e
    case Num(_) =>
    case Sym(_) =>
    case Add(a, b) =>
      AutoSimplifySound(a, point);
      AutoSimplifySound(b, point);
      SimplifyAddSound(AutoSimplify(a), AutoSimplify(b), point);
    case Mul(a, b) =>
      AutoSimplifySound(a, point);
      AutoSimplifySound(b, point);
      MulCaseSound(a, b, point);
    case Neg(a) =>
      AutoSimplifySound(a, point);
      SimplifyNegSound(AutoSimplify(a), point);
  }

  /** At a point where every parameter is zero, substituting zero for the
      parameters does not change the value. */
  lemma {:induction false} SubsZeroSound(e: Expr, pars: seq<Symbol>, point: Symbol -> real)
    requires forall x :: x in pars ==> point(x) == 0.0
    ensures Eval(SubsZero(e, pars), point) == Eval(e, point)
  {
    match e
    case Num(_) =>
    case Sym(_) =>
    case Add(a, b) =>
      SubsZeroSound(a, pars, point);
      SubsZeroSound(b, pars, point);
    case Mul(a, b) =>
      SubsZeroSound(a, pars, point);
      SubsZeroSound(b, pars, point);
    case Neg(a) =>
      SubsZeroSound(a, pars, point);
  }

  /** The equations with every parameter set to zero. */
  function AtZero(eq: seq<Expr>, pars: seq<Symbol>): (eq0: seq<Expr>)
    ensures |eq0| == |eq|
  {
    seq(|eq|, k requires 0 <= k < |eq| => AutoSimplify(SubsZero(eq[k], pars)))
  }

  /** get_homogeneous_indices_from_eq: the indices of the zero entries, in
      increasing order. */
  function HomIndices(eq: seq<Expr>): (idx: seq<nat>)
    ensures forall t :: 0 <= t < |idx| ==> idx[t] < |eq| && eq[idx[t]] == Num(0.0)
    ensures forall t, u :: 0 <= t < u < |idx| ==> idx[t] < idx[u]
  {
    if eq == [] then []
    else HomIndices(eq[..|eq| - 1]) + (if eq[|eq| - 1] == Num(0.0) then [|eq| - 1] else [])
  }

  /** get_inhomogeneous_indices_from_eq: the indices of the non-zero entries,
      in increasing order. */
  function InhomIndices(eq: seq<Expr>): (idx: seq<nat>)
    ensures forall t :: 0 <= t < |idx| ==> idx[t] < |eq| && eq[idx[t]] != Num(0.0)
    ensures forall t, u :: 0 <= t < u < |idx| ==> idx[t] < idx[u]
  {
    if eq == [] then []
    else InhomIndices(eq[..|eq| - 1]) + (if eq[|eq| - 1] != Num(0.0) then [|eq| - 1] else [])
  }

  /** Every index whose entry is zero is a homogeneous index. */
  lemma {:induction false} HomIndicesComplete(eq: seq<Expr>, k: nat)
    requires k < |eq| && eq[k] == Num(0.0)
    ensures k in HomIndices(eq)
  {
    var n := |eq| - 1;
    if k < n {
      HomIndicesComplete(eq[..n], k);
    }
  }

  /** Every index whose entry is not zero is an inhomogeneous index. */
  lemma {:induction false} InhomIndicesComplete(eq: seq<Expr>, k: nat)
    requires k < |eq| && eq[k] != Num(0.0)
    ensures k in InhomIndices(eq)
  {
    var n := |eq| - 1;
    if k < n {
      InhomIndicesComplete(eq[..n], k);
    }
  }

  /** The two index lists partition the indices of the equations: every
      index is in exactly one of them, according to whether its entry is zero. */
  lemma {:induction false} IndicesPartition(eq: seq<Expr>)
    ensures |HomIndices(eq)| + |InhomIndices(eq)| == |eq|
    ensures forall k :: 0 <= k < |eq| ==>
              (k in HomIndices(eq) <==> eq[k] == Num(0.0)) &&
              (k in InhomIndices(eq) <==> eq[k] != Num(0.0))
  {
    if eq != [] {
      IndicesPartition(eq[..|eq| - 1]);
    }
    forall k | 0 <= k < |eq|
      ensures (k in HomIndices(eq) <==> eq[k] == Num(0.0))
      ensures (k in InhomIndices(eq) <==> eq[k] != Num(0.0))
    {
      if eq[k] == Num(0.0) {
        HomIndicesComplete(eq, k);
      } else {
        InhomIndicesComplete(eq, k);
      }
    }
  }

  /** The entries of v at the given indices, in that order. */
  function Select(v: seq<Expr>, idx: seq<nat>): (w: seq<Expr>)
    requires forall t :: 0 <= t < |idx| ==> idx[t] < |v|
    ensures |w| == |idx|
  {
    seq(|idx|, t requires 0 <= t < |idx| => v[idx[t]])
  }

  lemma SelectSnoc(v: seq<Expr>, idx: seq<nat>, x: nat)
    requires x < |v| && forall t :: 0 <= t < |idx| ==> idx[t] < |v|
    ensures Select(v, idx + [x]) == Select(v, idx) + [v[x]]
  {
  }

  lemma SelectPrefix(v: seq<Expr>, idx: seq<nat>, n: nat)
    requires n <= |v| && forall t :: 0 <= t < |idx| ==> idx[t] < n
    ensures Select(v[..n], idx) == Select(v, idx)
  {
  }

  /** Selecting by the two index lists loses and duplicates nothing. */
  lemma {:induction false} SelectPartition(eq: seq<Expr>, eq0: seq<Expr>)
    requires |eq0| == |eq|
    ensures multiset(Select(eq, HomIndices(eq0)) + Select(eq, InhomIndices(eq0))) == multiset(eq)
    decreases |eq|
  {
    if eq != [] {
      var n := |eq| - 1;
      SelectPartition(eq[..n], eq0[..n]);
      var h, g := HomIndices(eq0[..n]), InhomIndices(eq0[..n]);
      SelectPrefix(eq, h, n);
      SelectPrefix(eq, g, n);
      assert eq == eq[..n] + [eq[n]];
      if eq0[n] == Num(0.0) {
        assert HomIndices(eq0) == h + [n] && InhomIndices(eq0) == g;
        SelectSnoc(eq, h, n);
      } else {
        assert HomIndices(eq0) == h && InhomIndices(eq0) == g + [n];
        SelectSnoc(eq, g, n);
      }
    }
  }

  /** get_homogeneous_equation: the equations that vanish once every
      parameter is zero, and the others, each in their original order.  The
      closing probe (the homogeneous ones substituted at zero give the zero
      vector) always passes, so the split never fails. */
  function GetHomogeneousEquation(eq: seq<Expr>, pars: seq<Symbol>): (r: (seq<Expr>, seq<Expr>))
    ensures forall t :: 0 <= t < |r.0| ==> AutoSimplify(SubsZero(r.0[t], pars)) == Num(0.0)
    ensures forall t :: 0 <= t < |r.1| ==> AutoSimplify(SubsZero(r.1[t], pars)) != Num(0.0)
    ensures multiset(r.0 + r.1) == multiset(eq)
  {
    var eq0 := AtZero(eq, pars);
    SelectPartition(eq, eq0);
    (Select(eq, HomIndices(eq0)), Select(eq, InhomIndices(eq0)))
  }

  /** Every homogeneous equation is satisfied when all parameters are zero,
      whatever the values of the other symbols. */
  lemma HomogeneousVanish(eq: seq<Expr>, pars: seq<Symbol>, point: Symbol -> real, t: nat)
    requires forall x :: x in pars ==> point(x) == 0.0
    requires t < |GetHomogeneousEquation(eq, pars).0|
    ensures Eval(GetHomogeneousEquation(eq, pars).0[t], point) == 0.0
  {
    var e := GetHomogeneousEquation(eq, pars).0[t];
    AutoSimplifySound(SubsZero(e, pars), point);
    SubsZeroSound(e, pars, point);
  }

  // ---------------------------------------------------------------------
  // test_unimodularity

  /** The answer of the test: not unimodular, or unimodular with the
      inverse and the Jacobian in time-function form. */
  datatype Verdict = NotUnimodular | Unimodular(inverse: PolyMatrix, jacobian: PolyMatrix)

  /** test_unimodularity: J Inv, then Inv J (both in time-function form),
      then the symbolic J Inv must test as unit matrices; the first that
      does not decides "not unimodular", and a non-square one fails the
      unit-matrix assertion.  The three arguments are those products after
      the right shift and the random substitution. */
  method TestUnimodularity(JInv: Mat<real>, InvJ: Mat<real>, JInvSymbolic: Mat<real>,
                           invf: PolyMatrix, jf: PolyMatrix)
    returns (v: Result<Verdict, Error>)
    ensures v == Success(Unimodular(invf, jf)) <==>
              IsIdentity(JInv) && IsIdentity(InvJ) && IsIdentity(JInvSymbolic)
    ensures !IsSquare(JInv) ==> v == Failure(NotSquare)
    ensures IsSquare(JInv) && !IsIdentity(JInv) ==> v == Success(NotUnimodular)
    ensures IsIdentity(JInv) && !IsSquare(InvJ) ==> v == Failure(NotSquare)
    ensures IsIdentity(JInv) && IsSquare(InvJ) && !IsIdentity(InvJ) ==> v == Success(NotUnimodular)
    ensures IsIdentity(JInv) && IsIdentity(InvJ) && !IsSquare(JInvSymbolic) ==> v == Failure(NotSquare)
    ensures IsIdentity(JInv) && IsIdentity(InvJ) && IsSquare(JInvSymbolic) && !IsIdentity(JInvSymbolic) ==>
              v == Success(NotUnimodular)
  {
    var first := IsUnitMatrix(JInv);
    if first.Failure? {
      return Failure(first.error);
    }
    if !first.value {
      return Success(NotUnimodular);
    }
    var second := IsUnitMatrix(InvJ);
    if second.Failure? {
      return Failure(second.error);
    }
    if !second.value {
      return Success(NotUnimodular);
    }
    var third := IsUnitMatrix(JInvSymbolic);
    if third.Failure? {
      return Failure(third.error);
    }
    if !third.value {
      return Success(NotUnimodular);
    }
    return Success(Unimodular(invf, jf));
  }
}
