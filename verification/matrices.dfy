/** Symbolic matrices: the values every step of the flat-output algorithm and
    the unimodularity test work on.

    An entry is a symbolic expression over named symbols (state variables,
    their time derivatives, free parameters).  A matrix is a shape plus a
    row-major table of entries; entries are never shared or updated, every
    operation builds a new matrix. */
module Matrices {

  datatype Option<+T> = None | Some(value: T)

  datatype Result<+T, +E> = Success(value: T) | Failure(error: E)

  /** A symbol such as x1 (name "x", index 1), xdot3 or the ansatz parameter a4. */
  datatype Symbol = Symbol(name: string, index: nat)

  /** A symbolic entry.  `Mul` keeps the order of its factors, as the
      non-commutative symbols of the unimodularity test require. */
  datatype Expr =
    | Num(value: real)
    | Sym(symbol: Symbol)
    | Add(left: Expr, right: Expr)
    | Mul(left: Expr, right: Expr)
    | Neg(arg: Expr)

  /** The value of an expression once every symbol is replaced by a number. */
  function Eval(e: Expr, point: Symbol -> real): real
  {
    match e
    case Num(v) => v
    case Sym(x) => point(x)
    case Add(a, b) => Eval(a, point) + Eval(b, point)
    case Mul(a, b) => Eval(a, point) * Eval(b, point)
    case Neg(a) => -Eval(a, point)
  }

  /** Partial derivative with respect to one symbol; the product rule keeps
      the order of the factors. */
  function Diff(e: Expr, x: Symbol): Expr
  {
    match e
    case Num(_) => Num(0.0)
    case Sym(y) => if y == x then Num(1.0) else Num(0.0)
    case Add(a, b) => Add(Diff(a, x), Diff(b, x))
    case Mul(a, b) => Add(Mul(Diff(a, x), b), Mul(a, Diff(b, x)))
    case Neg(a) => Neg(Diff(a, x))
  }

  /** A matrix: its shape and its rows.  `rows` and `cols` are kept apart from
      the table so that a matrix with no rows still has a column count. */
  datatype Matrix<T> = Matrix(rows: nat, cols: nat, entries: seq<seq<T>>)
  {
    predicate WellFormed()
    {
      |entries| == rows && forall i :: 0 <= i < |entries| ==> |entries[i]| == cols
    }
  }

  /** Every matrix the system builds is rectangular. */
  type Mat<T> = m: Matrix<T> | m.WellFormed() witness Matrix(0, 0, [])

  predicate IsSquare<T>(m: Mat<T>)
  {
    m.rows == m.cols
  }

  /** The rows x cols matrix of zeros. */
  function Zeros(rows: nat, cols: nat): (z: Mat<Expr>)
    ensures z.rows == rows && z.cols == cols
  {
    Matrix(rows, cols, seq(rows, i => seq(cols, j => Num(0.0))))
  }

  /** Entrywise sum of two matrices of the same shape. */
  function MatAdd(a: Mat<Expr>, b: Mat<Expr>): (c: Mat<Expr>)
    requires a.rows == b.rows && a.cols == b.cols
    ensures c.rows == a.rows && c.cols == a.cols
  {
    Matrix(a.rows, a.cols,
      seq(a.rows, i requires 0 <= i < a.rows =>
        seq(a.cols, j requires 0 <= j < a.cols => Add(a.entries[i][j], b.entries[i][j]))))
  }

  /** Entrywise difference a - b of two matrices of the same shape. */
  function Minus(a: Mat<Expr>, b: Mat<Expr>): (c: Mat<Expr>)
    requires a.rows == b.rows && a.cols == b.cols
    ensures c.rows == a.rows && c.cols == a.cols
  {
    Matrix(a.rows, a.cols,
      seq(a.rows, i requires 0 <= i < a.rows =>
        seq(a.cols, j requires 0 <= j < a.cols => Add(a.entries[i][j], Neg(b.entries[i][j])))))
  }

  /** Sum of the products u[k] * v[k], accumulated from the left. */
  function Dot(u: seq<Expr>, v: seq<Expr>): Expr
    requires |u| == |v|
  {
    if |u| == 0 then Num(0.0)
    else Add(Dot(u[..|u| - 1], v[..|v| - 1]), Mul(u[|u| - 1], v[|v| - 1]))
  }

  /** Column j of m, top to bottom. */
  function Column<T>(m: Mat<T>, j: nat): (c: seq<T>)
    requires j < m.cols
    ensures |c| == m.rows
  {
    seq(m.rows, i requires 0 <= i < m.rows => m.entries[i][j])
  }

  /** Matrix product; the column count of a must equal the row count of b. */
  function Product(a: Mat<Expr>, b: Mat<Expr>): (c: Mat<Expr>)
    requires a.cols == b.rows
    ensures c.rows == a.rows && c.cols == b.cols
  {
    Matrix(a.rows, b.cols,
      seq(a.rows, i requires 0 <= i < a.rows =>
        seq(b.cols, j requires 0 <= j < b.cols => Dot(a.entries[i], Column(b, j)))))
  }

  /** [a | b]: the columns of a followed by the columns of b. */
  function ConcatCols<T>(a: Mat<T>, b: Mat<T>): (c: Mat<T>)
    requires a.rows == b.rows
    ensures c.rows == a.rows && c.cols == a.cols + b.cols
  {
    Matrix(a.rows, a.cols + b.cols, seq(a.rows, i requires 0 <= i < a.rows => a.entries[i] + b.entries[i]))
  }

  function Transpose<T>(m: Mat<T>): (t: Mat<T>)
    ensures t.rows == m.cols && t.cols == m.rows
  {
    Matrix(m.cols, m.rows, seq(m.cols, j requires 0 <= j < m.cols => Column(m, j)))
  }

  /** The single-column matrix holding v. */
  function ColumnMatrix<T>(v: seq<T>): (m: Mat<T>)
    ensures m.rows == |v| && m.cols == 1
  {
    Matrix(|v|, 1, seq(|v|, i requires 0 <= i < |v| => [v[i]]))
  }

  /** The column vector of the partial derivatives of f by one symbol. */
  function DiffColumn(f: seq<Expr>, x: Symbol): (d: Mat<Expr>)
    ensures d.rows == |f| && d.cols == 1
  {
    ColumnMatrix(seq(|f|, r requires 0 <= r < |f| => Diff(f[r], x)))
  }

  /** The Jacobian of the column vector f with respect to the symbols xs:
      entry (r, c) is the partial derivative of f[r] by xs[c]. */
  function Jacobian(f: seq<Expr>, xs: seq<Symbol>): (j: Mat<Expr>)
    ensures j.rows == |f| && j.cols == |xs|
  {
    Matrix(|f|, |xs|,
      seq(|f|, r requires 0 <= r < |f| => seq(|xs|, c requires 0 <= c < |xs| => Diff(f[r], xs[c]))))
  }

  /** Every entry is exactly zero. */
  predicate AllZero(m: Mat<real>)
  {
    forall i, j :: 0 <= i < m.rows && 0 <= j < m.cols ==> m.entries[i][j] == 0.0
  }

  /** Square, ones on the diagonal and zeros elsewhere. */
  predicate IsIdentity(m: Mat<real>)
  {
    && m.rows == m.cols
    && forall i, j :: 0 <= i < m.rows && 0 <= j < m.cols ==>
         m.entries[i][j] == (if i == j then 1.0 else 0.0)
  }

  /** The row-major flattening of a table: what the computer-algebra system
      indexes when a matrix is addressed by one index. */
  function Flatten<T>(rows: seq<seq<T>>): seq<T>
  {
    if rows == [] then [] else rows[0] + Flatten(rows[1..])
  }

  /** The flattening of a table of `rows` rows of `cols` entries has rows * cols elements. */
  lemma {:induction false} FlattenLength<T>(t: seq<seq<T>>, cols: nat)
    requires forall i :: 0 <= i < |t| ==> |t[i]| == cols
    ensures |Flatten(t)| == |t| * cols
    decreases |t|
  {
    if t != [] {
      FlattenLength(t[1..], cols);
      assert |t| * cols == cols + (|t| - 1) * cols;
    }
  }

  /** Flat index i * cols + j addresses entry (i, j). */
  lemma {:induction false} FlattenAt<T>(t: seq<seq<T>>, cols: nat, i: nat, j: nat)
    requires forall k :: 0 <= k < |t| ==> |t[k]| == cols
    requires i < |t| && j < cols
    ensures i * cols + j < |Flatten(t)|
    ensures Flatten(t)[i * cols + j] == t[i][j]
    decreases |t|
  {
    FlattenLength(t[1..], cols);
    if i > 0 {
      FlattenAt(t[1..], cols, i - 1, j);
      assert i * cols + j == cols + ((i - 1) * cols + j);
    }
  }

  /** The flattening of a matrix: its length and where entry (i, j) lands. */
  lemma FlattenIndex<T>(m: Mat<T>, i: nat, j: nat)
    requires i < m.rows && j < m.cols
    ensures |Flatten(m.entries)| == m.rows * m.cols
    ensures i * m.cols + j < m.rows * m.cols
    ensures Flatten(m.entries)[i * m.cols + j] == m.entries[i][j]
  {
    FlattenLength(m.entries, m.cols);
    FlattenAt(m.entries, m.cols, i, j);
  }

  /** Every flat index below rows * cols is i * cols + j for the entry it addresses. */
  lemma FlatPosition<T>(m: Mat<T>, q: nat)
    requires q < m.rows * m.cols
    ensures m.cols > 0 && q / m.cols < m.rows && q % m.cols < m.cols
    ensures q == (q / m.cols) * m.cols + q % m.cols
  {
  }
}
