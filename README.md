# LU decomposition by gradient descent — a Dafny model

The program factors an 8-by-8 matrix A as L·Uᵀ. L is unit lower-triangular
and U is upper-triangular. Both are found by gradient descent on the mean
squared error of A − L·Uᵀ. Every matrix is a flat row-major buffer of
8·8 cells with stride `Size`.

The program does these things in order:

- fills L's diagonal with ones and its strict lower triangle with random draws;
- fills U's diagonal and upper triangle with random draws;
- runs up to 256·1024 training iterations. Each iteration scales the
  gradient down to norm at most 1 and moves only the trainable cells by
  `eta` times the scaled gradient. Training stops after the first
  iteration whose cost has magnitude below 1;
- prints the product of U's diagonal beside U's determinant. The
  determinant is computed by cofactor expansion along row 0.

The model has five modules:

- `Rings` (`ring.dfy`): the entries form an abstract ring given by its
  operations. `Laws` lists the laws the determinant proofs use. `Reals`
  is one instance, proved lawful by `RealsLaws`.
- `Matrix` (`matrix.dfy`): index arithmetic and the pure determinant `Det`.
  `Det` is defined by cofactor expansion along row 0 (`Expansion`, `Term`,
  `Minor`, `Sign`). This module also holds the theory of `Det`: it depends
  only on the n-by-n corner, it is zero when the first column is zero, it
  is the diagonal product for an upper-triangular matrix, and it is one
  for the identity.
- `Laplace` (`laplace.dfy`): the imperative `cofactor` and `determinant`
  over arrays. `Cofactor` is proved to leave the pure minor in the
  (n−1)-by-(n−1) corner of the scratch buffer and every other cell as it
  was; `Determinant` is proved equal to `Det`.
- `Factors` (`factors.dfy`): the masks of L and U (`Trainable`), the
  initialisation loops and the masked update loops. Each loop is a method
  proved equal to a specification function (`Initialised`, `Updated`).
  The lemmas say which draw lands in which cell and that the fixed cells
  never move.
- `Training` (`training.dfy`):
  - the step scale `ClipScale`;
  - the training loop `Train`, proved against the recursive
    specification `Trained`;
  - the diagonal product loop;
  - `Factorize`, the whole run, with its consequences: both factors keep
    their shape, the iteration count is bounded, and over a lawful ring
    the diagonal product equals the determinant of U.

## Model

| member | source | states |
|---|---|---|
| `Laplace.Cofactor` | main.go:27-41 | The top-left (n−1)-by-(n−1) corner of temp becomes the minor of mat that deletes row p and column q. Every other cell of temp keeps its old value. |
| `Laplace.Determinant` | main.go:43-56 | The returned value is `Det(mat, n)`: `mat[0]` for n = 1; for n ≥ 2, the sum over f of sign·mat[f]·det(minor without row 0 and column f), with the sign flipped after each term; zero for n ≤ 0. |
| `Laplace.SignedTerm` | main.go:51-53 | One iteration of the expansion loop returns exactly the f-th term: `Sign(f)` times entry f of row 0 times the determinant of the minor held in the reused scratch buffer, and leaves that minor in the buffer's corner and every other cell of the buffer as it was. |
| `Laplace.HoldsMinorAgrees` | main.go:27-41 | A buffer that holds the minor, as `Cofactor` leaves it, agrees with the pure `Minor` on its (n−1)-by-(n−1) corner. |
| `Laplace.WriteStep` | main.go:31-37 | One write at the packing position (i, j) extends the packed region by one cell and touches no other cell. |
| `Matrix.MinorUpperTriangular` | main.go:51-52 | The minor that deletes row 0 and column 0 of an upper-triangular matrix, the first one the expansion recurses on, is upper-triangular again, and its diagonal is the matrix's diagonal without its first entry. |
| `Matrix.DetRegion` | main.go:43-56 | The determinant of size n reads only the n-by-n corner of the buffer: two buffers that agree there have the same determinant. |
| `Matrix.MinorRegion` | main.go:27-41 | The minor of an n-by-n matrix reads only the matrix's n-by-n corner. |
| `Matrix.DetZeroFirstColumn` | main.go:43-56 | A matrix whose first column is zero over the first n rows has determinant zero. |
| `Matrix.DetUpperTriangular` | main.go:43-56 | Over a lawful ring, an upper-triangular matrix has as determinant the product of its diagonal, in the order the diagonal loop multiplies. |
| `Matrix.DiagProdSplit` | main.go:152-159 | The left-to-right diagonal product of the loop equals the right-nested product that cofactor expansion yields, given associativity and a unit. |
| `Matrix.DetIdentity` | main.go:43-56 | Every n-by-n identity corner has determinant one. |
| `Factors.Init` | main.go:84-102 | The nested mask loop leaves the buffer equal to `Initialised`. Each trainable cell gets the next draw in scan order. L's diagonal cells become one. Every other cell keeps its value. It returns the index after the last draw it used. |
| `Factors.InitialisedShaped` | main.go:84-102 | From a zero-filled buffer, initialisation gives the wanted shape. L gets ones on the diagonal and zeros above it. U gets zeros below the diagonal. |
| `Factors.DrawsDistinct` | main.go:84-102 | Two different trainable cells receive different draws, all within the draws the scan takes. |
| `Factors.DrawCounts` | main.go:84-102 | The scan of L takes 28 draws and the scan of U takes 36. |
| `Factors.Update` | main.go:128-142 | The masked update loop leaves the buffer equal to `Updated`. Each trainable cell becomes w − eta·D·scale. Every other cell keeps its value. |
| `Factors.UpdatedFreezes` | main.go:128-142 | A masked update leaves every non-trainable cell unchanged. |
| `Factors.UpdatedKeepsShape` | main.go:128-142 | A masked update keeps a factor's shape. |
| `Factors.UpperShaped` | main.go:95-102 | A buffer with U's shape is upper-triangular in the sense of `Matrix`. |
| `Training.ClipScale` | main.go:122-126 | The step scale lies in (0, 1]. It equals 1 exactly when the norm is at most 1. Beyond that it is the reciprocal of the norm, so scale·norm = 1. |
| `Training.Train` | main.go:110-150 | The loop leaves L, U and the sequence of observed costs equal to `Trained` with the iteration budget: it evaluates, updates both factors, counts the iteration, and then breaks on a cost below the threshold. |
| `Training.TrainedStops` | main.go:110-150 | Training runs at least one and at most `budget` iterations. Every cost before the last is at least the threshold. Stopping before the budget runs out happens only on a cost below the threshold. |
| `Training.TrainedFreezes` | main.go:110-150 | However many iterations run, the diagonal and upper triangle of L and the strict lower triangle of U keep their values. |
| `Training.TrainedKeepsShape` | main.go:110-150 | Training keeps L unit lower-triangular and U upper-triangular. |
| `Training.DiagonalProduct` | main.go:152-159 | The nested loop returns the product of U's diagonal, multiplied in scan order onto one. |
| `Training.NewFactor` | main.go:84-102 | A fresh zero-filled factor, initialised with the given shape from the draws starting at `start`, has that shape. The next draw index advances by the number of trainable cells. |
| `Training.ShapedDet` | main.go:152-160 | Over a lawful ring, the determinant of a buffer with U's shape equals the product of its diagonal. |
| `Training.Factorize` | main.go:84-160 | The whole run. L is initialised from the draws after the 64 input draws, and U from the draws that follow L's 28 (draw 92 on). Then comes the training loop with 256·1024 iterations. Afterwards L and U still have their shapes, between 1 and 256·1024 costs were recorded, `d` is U's diagonal product, `det` is U's determinant, and `d == det` over a lawful ring. Both factors are freshly allocated, distinct buffers. |

## Left out

- The automatic-differentiation library (`tc128`: the cost graph L·Uᵀ, `Gradient`, `Zero`) is not part of this model. It is the parameter `engine`, which maps the current L and U to the cost magnitude, both gradients and the gradient norm.
- The gradient norm (the square root of the sum of squared gradient magnitudes, main.go:116-122) is taken from `engine` as a real input, not computed.
- The random generator is the parameter `draw`, indexed by draw number. Two normal floats per complex draw are one draw of the model. The fill of the input matrix A (main.go:71-82) is modelled only as the 64 draws it takes before L is drawn (`InputDraws`).
- Complex floating-point arithmetic is not modelled. Entries belong to an abstract ring with the ring's exact operations. `eta` (0.1+0.1i) is a ring element, and `complex(scaling, 0)` is the parameter `embed` applied to the real scale. The cost magnitude `cmplx.Abs(total)` is a real given by `engine`.
- Training.Factorize: `d == det` is stated only over a ring satisfying `Laws`. With floating point, the source's diagonal loop and the cofactor expansion round differently, so the printed values may differ in their last bits.
- Plotting, printing and the log-scale points (main.go:144-145, 160-193) are left out. The model only computes the values that are printed.
- Laplace.Cofactor requires `mat != temp`. The source always passes a freshly allocated scratch buffer, and aliasing the two is not meaningful.
- Laplace.Determinant requires `n <= Size`: beyond that, the source indexes past the buffer and panics. For `n <= 0` it returns zero, as the source's loop then does not run.
- The loop body of `determinant` is a separate method (`Laplace.SignedTerm`) so that its recursion carries its own contract. It reuses the one scratch buffer, as the source does.
- Matrix.Det: invariance under transposition, negation under a row swap and multiplicativity are not proved. Each needs commutativity of multiplication and distributivity, which `Rings.Laws` does not assume, and in complex floating point they hold only up to rounding.
- Whether training converges to a true factorisation of A is not modelled. It depends on the numerics of the engine.
