# Franke's flat-output algorithm and the unimodularity test, in Dafny

This project models the core of an implementation of Franke and Röbenack's
algorithm. For a nonlinear control system given implicitly as
`F(x, xdot) = 0`, the algorithm searches for differentially flat outputs.

The algorithm works on the tangent-system pair `(P1, P0)`. Each pass of its
loop does the following:

- checks that `P1` has full row rank;
- reduces the pair to `A` and `B`;
- stops if `B` is the zero matrix;
- runs the special case "4.7" when `B` lacks full column rank, which replaces
  `B` by `B~ = B K1`;
- ends when the tested matrix has full row rank;
- otherwise eliminates with the left complement `B_loc` of the original `B`,
  giving the next pair `(B_loc, B_loc A)`.

Each pass fills an iteration record, and the record is appended to the
system stack.

A second, independent part checks whether a Lie-Baecklund Jacobian is
unimodular, meaning it has a polynomial inverse in the shift symbol `s`. It
builds the Jacobian as a polynomial in `s` with matrix coefficients and posits
an inverse `I0 + I1 s + I2 s^2` with unknown parameters. It splits the
equations for those parameters into homogeneous and inhomogeneous ones. It
accepts the inverse only when three products test as unit matrices.

The files:

- `matrices.dfy` (module `Matrices`): symbolic expressions and matrices, and
  how they are evaluated, differentiated, multiplied, concatenated and
  flattened.
- `algebra.dfy` (module `SymbolicAlgebra`): the computer-algebra toolbox the
  algorithm calls. This covers rank, orthogonal complements,
  pseudo-inverses, simplification, the time derivative, the restricted left
  pseudo-inverse and the probabilistic zero and unit tests. They are
  function values whose known properties are the shapes of their results and
  the rank bounds.
- `franke.dfy` (module `Franke`): one pass and the whole loop as functions on
  values (`Pass`, `Run`), and what is proved about a run.
- `franke_algorithm.dfy` (module `FrankeAlgorithm`): the imperative driver as
  the source runs it.
  - An iteration-record class whose fields the steps fill in.
  - A system-stack class that records are appended to.
  - The methods `reduction`, `fourseven`, `elimination` and `tangent_system`.
  - The loop of `main`.

  The three steps and the loop are proved to compute what module `Franke`
  defines.
- `unimodular.dfy` (module `Unimodular`):
  - the zero and unit tests on a matrix whose symbols have already been
    replaced by numbers;
  - `lie_baecklund_jacobi_matrix`;
  - the parameter ansatz;
  - the homogeneous/inhomogeneous split;
  - the decision chain of `test_unimodularity`.

The loop of `main` runs `while 1`, so it has no bound. The model gives `Run`
and `MainLoop` a fuel count instead. `RunFuelMonotone` shows that the fuel
only bounds the loop: a run that ends within its fuel ends the same way with
any larger fuel.

## Model

| member | source | states |
|---|---|---|
| Franke.EndConditionShape | franke_algorithm.py:68-80 | With the rank bounded by the shape, the end condition (rank equals rows) needs at least as many columns as rows. Not being an outlier means rank equals columns. A B that ends without the special case is square. |
| Franke.Reduce | franke_algorithm.py:166-187 | The reduction fails (singular system) exactly when P1 has no right pseudo-inverse. Otherwise A is n x n and B has n rows and one column per column of P1's right complement. The stored complement is that of P1, and the stored left pseudo-inverse of B is None exactly when the library has none. |
| Franke.CombiningColumns | franke_algorithm.py:196-202 | K2 is the right complement of B. K1 is B's right pseudo-inverse when B has full row rank, and otherwise the right complement of K2 transposed. This fails exactly when B has full row rank but no right pseudo-inverse. Both K1 and K2 have one row per column of B. |
| Franke.FourSevenCase | franke_algorithm.py:189-222 | A failure to choose K1 is passed on. With K1 and K2 chosen, the case fails with DegenerateCase exactly when K = [K1 K2] is not regular. With K regular, B~ = simplify(B K1), P1~roc = simplify(P1roc K1) and Z = simplify(P1roc K2). The case then fails with SingularSystem exactly when B~ has no left pseudo-inverse or the restricted left pseudo-inverse of Z does not exist. It fails with VerificationFailure exactly when both exist but Zi_lpinv * Zi does not test as the unit matrix. Otherwise it succeeds, and the stored matrices are exactly these. On success K1 and K2 together have as many columns as B, and B~ keeps B's rows. |
| Franke.Eliminate | franke_algorithm.py:224-237 | The next P1 is the left complement of B, and the next P0 is B_loc * A. Both have the same shape. |
| Franke.Conclude | franke_algorithm.py:284-292 | The end of a pass never stops with an error. A continued pass hands on a pair of equal shape whose column count is the old row count. |
| Franke.Pass | franke_algorithm.py:269-299 | A pass that continues hands on a pair of the same shape, with one column per row of the old P1. |
| Franke.PassGuards | franke_algorithm.py:273-292 | A pass stops with AlgebraicConstraint exactly when P1 lacks full row rank. It stops with NotFlat exactly when the reduction succeeded with a zero B. Every record a pass produces is well reduced and carries the pass's index and pair: the special case ran exactly for an outlier B, the record is last exactly when the tested matrix has full row rank, and B_loc is stored exactly when it is not last. |
| Franke.PassHandsOn | franke_algorithm.py:292 | A continuing pass hands on (B_loc, B_loc A) from its own record. |
| Franke.RunRecords | franke_algorithm.py:267-299 | The run has at most one record per allowed pass. Record k carries index i + k and is well reduced, and the first record holds the starting pair. |
| Franke.RunLinks | franke_algorithm.py:292-299 | Consecutive records are linked by elimination: record k + 1 starts from B_loc and B_loc A of record k. |
| Franke.RunLast | franke_algorithm.py:284-290 | Only the final record can be flagged last, and it is flagged exactly when the run ended at the termination test. |
| Franke.RunFuelMonotone | franke_algorithm.py:269 | A run that ended within its fuel gives the same records and outcome with any larger fuel. |
| FrankeAlgorithm.IterationStack.constructor | franke_algorithm.py:271 | A new record holds the pass's index and pair and nothing else. |
| FrankeAlgorithm.IterationStack.StoreReductionMatrices | franke_algorithm.py:185 | Stores the reduction matrices and changes no other field. |
| FrankeAlgorithm.IterationStack.StoreOutlierMatrices | franke_algorithm.py:220 | Stores the special-case matrices and changes no other field. |
| FrankeAlgorithm.IterationStack.StoreEliminationMatrices | franke_algorithm.py:232 | Stores B_loc and changes no other field. |
| FrankeAlgorithm.SystemStack.constructor | franke_algorithm.py:63 | A new system stack holds no records. |
| FrankeAlgorithm.SystemStack.AddIteration | franke_algorithm.py:289 | Appends the record. The trace grows by exactly that record's contents. |
| FrankeAlgorithm.Reduction | franke_algorithm.py:166-187 | Returns B and stores what Reduce computes. On a missing right pseudo-inverse of P1 it returns the error and the record is unchanged. |
| FrankeAlgorithm.FourSeven | franke_algorithm.py:189-222 | Returns B~ and stores what FourSevenCase computes. Every failure (failed assertion or missing pseudo-inverse) leaves the record unchanged. |
| FrankeAlgorithm.Elimination | franke_algorithm.py:224-237 | Returns Eliminate's pair, computed from the stored B, and stores B_loc. |
| FrankeAlgorithm.RunPass | franke_algorithm.py:271-297 | One turn of the loop body on a fresh record, related to Run. A failed guard or step gives the run's error with no record. A pass flagged last gives the run's single final record. Otherwise the record is followed by the run from the returned pair. |
| FrankeAlgorithm.MainLoop | franke_algorithm.py:267-299 | The system stack ends up holding exactly the records of Run from pass 0, and the loop ends with Run's outcome. |
| FrankeAlgorithm.TangentSystem | franke_algorithm.py:239-255 | With no state components both matrices are the empty 0 x 0 matrix. Otherwise P1 and P0 have one row per equation and one column per state component. Column c of P1 is the simplified derivative of F by xdot[c], and column c of P0 the simplified derivative by x[c]. |
| Unimodular.DiagonalIndex | unimodular.py:143 | In the row-major flattening of an n x n matrix, index i*n + j is a multiple of n + 1 exactly when i = j. |
| Unimodular.ZeroFlat | unimodular.py:129-132 | A matrix is zero exactly when every entry of its flattening is zero. |
| Unimodular.UnitFlat | unimodular.py:142-148 | A square matrix is the identity exactly when its flattening has 1 at the multiples of n + 1 and 0 elsewhere. |
| Unimodular.IsZeroMatrix | unimodular.py:124-132 | The loop answers true exactly when every entry of the substituted matrix is zero. |
| Unimodular.IsUnitMatrix | unimodular.py:134-148 | A non-square matrix fails the squareness assertion. A square one gives true exactly when it is the identity. |
| Unimodular.AddTerm | unimodular.py:106 | P + J s^i keeps the shape. It has i + 1 coefficients when i is past the last stored one, and otherwise the same number. |
| Unimodular.Coefficient | unimodular.py:106 | A coefficient of an n x n polynomial matrix is n x n. |
| Unimodular.AddTermCoefficient | unimodular.py:106 | Adding J s^i adds J's value to the coefficient of s^i and leaves every other coefficient's value unchanged. |
| Unimodular.Reshape | unimodular.py:100 | Every block of the reshape has ny variables. |
| Unimodular.ReshapeBlocks | unimodular.py:93-100 | When ny divides the number of variables there are len/ny blocks, and read row after row they give back the variables. |
| Unimodular.ReshapeAt | unimodular.py:100 | Block k is the slice of the variables from k*ny to k*ny + ny. |
| Unimodular.LieBaecklundJacobiMatrix | unimodular.py:87-107 | ny = 0 is a division by zero, and a length not divisible by ny fails the whole-number assertion. A Jacobian of the wrong shape fails the matrix addition. Otherwise the result is the ny x ny polynomial whose coefficient of s^k is the Jacobian of ZZ by the k-th block. |
| Unimodular.ParameterMatrix | unimodular.py:111-113 | An n x n matrix of distinct symbols, all with the given prefix. |
| Unimodular.CreateParameterInverse | unimodular.py:109-116 | Three 2 x 2 parameter matrices, and the ansatz equals I0 + I1 s + I2 s^2 built term by term. |
| Unimodular.ParameterFlat | unimodular.py:111-113 | Read row by row, a parameter matrix holds prefix1, ..., prefix(n^2). |
| Unimodular.ParametersDistinct | unimodular.py:225 | The parameter vector list(I0) + list(I1) + list(I2) has 12 entries, all symbols, no two the same. |
| Unimodular.SubsZeroSound | unimodular.py:152 | Where every parameter is zero, substituting zero for the parameters does not change an expression's value. |
| Unimodular.SimplifyAddSound | unimodular.py:152 | Automatic evaluation of a sum keeps its value. |
| Unimodular.SimplifyMulSound | unimodular.py:152 | Automatic evaluation of a product keeps its value. |
| Unimodular.SimplifyNegSound | unimodular.py:152 | Automatic evaluation of a negation keeps its value. |
| Unimodular.AutoSimplifySound | unimodular.py:152 | Automatic evaluation never changes the value of an expression. |
| Unimodular.AtZero | unimodular.py:152 | The equations at zero parameters: one per equation. |
| Unimodular.HomIndices | unimodular.py:176-178 | Increasing, valid indices, all of zero entries. |
| Unimodular.InhomIndices | unimodular.py:180-182 | Increasing, valid indices, all of non-zero entries. |
| Unimodular.HomIndicesComplete | unimodular.py:177 | Every index of a zero entry is a homogeneous index. |
| Unimodular.InhomIndicesComplete | unimodular.py:181 | Every index of a non-zero entry is an inhomogeneous index. |
| Unimodular.IndicesPartition | unimodular.py:155-156 | The two index lists partition the indices. Their lengths add up, and an index is in each list exactly according to whether its entry is zero. |
| Unimodular.Select | unimodular.py:159-160 | Selecting by an index list gives one entry per index. |
| Unimodular.SelectPartition | unimodular.py:159-160 | Selecting by the two index lists loses and duplicates no equation (multisets agree). |
| Unimodular.GetHomogeneousEquation | unimodular.py:150-165 | Every homogeneous equation becomes zero with the parameters at zero, and no inhomogeneous one does, so the probe always passes. Together they are the original equations. |
| Unimodular.HomogeneousVanish | unimodular.py:163 | At any point where the parameters are zero, every homogeneous equation evaluates to zero. |
| Unimodular.TestUnimodularity | unimodular.py:263-290 | The verdict is "unimodular" with (Invf, J2f) exactly when all three products are identities. The first non-square product fails the unit-matrix assertion, and the first non-identity square product gives "not unimodular", in the source's order. |

## Left out

- The manual mode is not modelled: `roc_hint`, `loc_hint`, `rpinv_hint`, `lpinv_hint` and the mode prompt are interactive input. The model always takes the automatic branch.
- Printing (`print_candy`, `print`) and loading the example module from the command line are left out, because they are I/O.
- `main` after the loop is left out: `Transformation` and `IntegrabilityCheck` consume the finished stack and do not take part in the reduction.
- The internals of `core.algebra` are not part of this model. Rank, complements, pseudo-inverses, `custom_simplify`, the time derivative, `Zi_left_pinv_with_restrictions`, `is_zero_matrix` and `is_unit_matrix` are function values. Their only stated properties are shapes and rank bounds. Whether a complement annihilates its matrix is not stated.
- `core.matrix_container` and `core.system_container` are not part of this model. The iteration record and the system stack are modelled from how the loop and the steps use them.
- The random substitution of `subs_random_numbers` and the tolerance of `np.allclose` are left out. `IsZeroMatrix`, `IsUnitMatrix` and `TestUnimodularity` take the already substituted matrix and compare exactly, because floating point is outside the model.
- `Run`, `MainLoop`: the `while 1` loop is bounded by a fuel count, and running out of fuel is the outcome `OutOfFuel`. The source has no such bound.
- `symbMatrix` of `symb_tools` is not part of this model. `ParameterMatrix` assumes it numbers the entries row by row from 1.
- `is_unimodular` is left out beyond the steps modelled here. Its non-commutative product `nc_mul`, `right_shift_all`, the coefficient extraction by differentiation in `s`, `make_all_symbols_commutative`, `is_system_solvable` (null space) and `sp.solve` are computer algebra with no model here. `TestUnimodularity` therefore receives the three products after these steps.
- `AutoSimplify`: models only part of sympy's automatic evaluation, namely folding numbers and dropping zero and one terms. The collection of like terms that sympy performs automatically is not modelled, so `x + (-x)` stays as it is instead of becoming 0. `GetHomogeneousEquation` can therefore put an equation such as `y - y*(1 + a)` with parameter `a` in the inhomogeneous half, where the source puts it in the homogeneous one.
- `AddTermCoefficient`: states the coefficient semantics of `P += J * s**i` only, not a product with the non-commutative `s`.
- `TangentSystem`: models only the derivative path of `tangent_system`. The `try: P1i / except NameError` branch (franke_algorithm.py:241-243) is meant for a pair supplied directly, but it can never be taken. `P1i` is assigned later in the same function, so it is a local name, and reading it first always raises `UnboundLocalError`, which is a `NameError`. `concat_cols` of the empty matrix and a column is assumed to give that column; `symb_tools` is not part of this model.
- `is_square_matrix` is modelled by `Matrices.IsSquare`, a predicate, and has no row of its own.
- The float division `len(yya)*1.0/ny` is modelled as integer divisibility. `int(N) == N` holds exactly when `ny` divides the length.
- `prepare_example`, `generate_example`, `solve_system_of_equations` (an empty stub) and the script code at the end of `unimodular.py` are example set-up and reporting, and are left out.
