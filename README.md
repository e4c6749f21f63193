# Mat.h dense-matrix storage, modelled in Dafny

This project models the matrix storage of the `linear` C library (`Mat.h`).
The `Mat` struct holds a row count `m`, a column count `n` and a flat
row-major buffer of doubles. The modelled operations are:

- `initMat`: checks the dimensions and allocates the buffer.
- `cleanMat`: releases the buffer.
- `getElem` / `setElem`: read and write cell `(i, j)` at buffer position `i*n + j`.
- `rref`: in this version only checks that two matrices have the same shape, then does nothing.

Two modules:

- `RowMajor` (`rowmajor.dfy`) covers the addressing. `Index(i, j, n) = i*n + j`, as at Mat.h:34.
  It proves that this is a bijection between the cells of `[0, m) x [0, n)` and the
  buffer positions `[0, m*n)`. It also gives the grid view `RowsOf` of a flat buffer,
  with the lemmas that connect a grid cell to its buffer position and a buffer write
  to a one-cell grid update.
- `Matrix` (`mat.dfy`) covers the struct and its operations.
  - Class `Mat` has fields `m`, `n` and `matrix: array?<real>`. `Valid()` is the shape
    invariant of an initialised matrix. `Contents()` is the matrix as `m` rows of `n` values.
    `Live()` is the number of cells in the buffer, counting a null buffer as none.
  - `InitMat`, `Clean` and `SetElem` are methods that change the object or its buffer.
    `Get` is a function that reads it.
  - `Rref` is a method over two matrices that changes neither.
  - The pure functions `InitAction` and `SetAction` give the branch that `initMat`
    and `setElem` take. The lemmas about them show where the guards fail.

The build switch `DISABLE_ERROR_HANDLE` (Mat.h:4-5) becomes a `Mode` parameter:

- `Checked`: the shipped build, since the macro is defined and then undefined at once.
- `Unchecked`: every guard is compiled out.
- `StrictChecked`: the guards as evidently intended. See Findings.

Each diagnostic `printf` becomes a report value that names the branch taken.
Doubles are only stored and returned, so they are modelled as `real`.

What `Mat.h` itself does, which the model keeps:

- `getElem` has no bounds check in either build (Mat.h:33-35).
- `setElem` rejects only `i > m` and `j > n` (Mat.h:39, Mat.h:43).
- `rref` only compares the two shapes. Its body is otherwise empty (Mat.h:52-63).

## Model

| member | source | states |
|---|---|---|
| RowMajor.IndexDecode | Mat.h:34 | for the buffer position `i*n + j` of cell `(i, j)`, shared by getElem and setElem, with `0 <= j < n`: dividing it by `n` gives back `i` and the remainder gives back `j` |
| RowMajor.RowOrder | Mat.h:34 | with columns in `[0, n)`, a cell of an earlier row always has a smaller buffer position than any cell of a later row |
| RowMajor.IndexInRange | Mat.h:34 | every cell with `0 <= i < m` and `0 <= j < n` is addressed inside the buffer `[0, m*n)` |
| RowMajor.IndexInjective | Mat.h:49 | two different cells whose columns lie in `[0, n)` never share a buffer position |
| RowMajor.IndexCovers | Mat.h:34 | every buffer position `k` in `[0, m*n)` is the address of the in-range cell `(k / n, k % n)`; with IndexInjective, addressing is a bijection |
| RowMajor.ColumnOverrun | Mat.h:49 | column `n` of row `i` has the same buffer position as cell `(i+1, 0)` |
| RowMajor.RowsOf | Mat.h:10-13 | the grid view of a buffer of `m*n` cells has `m` rows of exactly `n` cells each |
| RowMajor.RowsOfPeel | Mat.h:34 | the grid view of a buffer of `m` rows is its first `n` cells followed by the grid view of the remaining `m-1` rows |
| RowMajor.FlattenRowsOf | Mat.h:34 | reading the grid view back row after row gives exactly the buffer, so the view loses and reorders nothing |
| RowMajor.RowsOfFlatten | Mat.h:34 | a grid of `m` rows of `n` cells flattens to `m*n` cells whose grid view is that grid again, so the two layouts are inverse |
| RowMajor.RowsOfRow | Mat.h:34 | row `i` of the grid view is exactly the `n` buffer cells that start at position `i*n`, and they lie inside the buffer |
| RowMajor.RowsOfCell | Mat.h:34 | grid cell `(i, j)` is buffer cell `i*n + j` |
| RowMajor.RowsOfUpdate | Mat.h:49 | writing buffer cell `i*n + j` changes grid cell `(i, j)` and no other cell |
| Matrix.InitAction | Mat.h:16-21 | the branch initMat takes: a guarded build never accepts a zero dimension, the corrected guard accepts only positive dimensions, and positive dimensions are accepted in every build |
| Matrix.RowRejected | Mat.h:39 | setElem's row guard (`i > m` as shipped, none unchecked, `i` outside `[0, m)` corrected): a rejected row is never a row of the matrix, and the corrected guard rejects every row outside it |
| Matrix.ColRejected | Mat.h:43 | setElem's column guard (`j > n` as shipped): a rejected column is never a column of the matrix, and the corrected guard rejects every column outside it |
| Matrix.SetAction | Mat.h:38-49 | the branch setElem takes: row guard, then column guard, then the write at `i*n + j`; a write lands inside the buffer, an out-of-buffer outcome lies outside it, and a guard rejection means the index really is out of range |
| Matrix.SetActionInRange | Mat.h:38-49 | in every mode, an in-range `(i, j)` of a matrix with `m*n` cells passes the guards and writes position `i*n + j` |
| Matrix.StrictSetSafe | Mat.h:39-46 | with the corrected guards, no write ever leaves the buffer, and a write happens exactly when `0 <= i < m` and `0 <= j < n` |
| Matrix.CheckedRowPastEnd | Mat.h:39-42 | as written, row `i == m` passes the row guard and the write lands at `m*n + j`, outside the buffer |
| Matrix.CheckedColumnAliases | Mat.h:43-49 | as written, column `j == n` passes the column guard, and for a row before the last the write lands on cell `(i+1, 0)` |
| Matrix.CheckedNegativeRow | Mat.h:39-49 | as written, row `-1` passes both guards and the write lands before the buffer, at `j - n` |
| Matrix.CheckedNegativeColumnAliases | Mat.h:39-49 | as written, column `-1` passes both guards, and for any row after the first the write lands inside the buffer on cell `(i-1, n-1)`, the last cell of the previous row |
| Matrix.CheckedInitAcceptsNegative | Mat.h:17-26 | as written, two negative dimensions pass the zero check and their product is a positive buffer size |
| Matrix.StrictInitPositive | Mat.h:17-20 | the corrected dimension check accepts exactly positive `m` and `n` |
| Matrix.ContentsIsBuffer | Mat.h:10-13 | a well-formed matrix has `m` rows, and read row after row they are exactly its buffer |
| Matrix.Mat.Declare | Mat.h:10-13 | a declared struct holds whatever `m`, `n` and buffer pointer it was given and is not released |
| Matrix.Mat.InitMat | Mat.h:15-27 | a rejected call leaves every field as it was. An accepted call sets `m` and `n` to the arguments and gives a fresh buffer of exactly `m*n` cells, or none when the product is negative. With positive dimensions in any mode, and in the corrected mode whenever it accepts the dimensions, the result is a well-formed matrix |
| Matrix.Mat.Clean | Mat.h:29-31 | the buffer is released, may not be released twice, and no field changes |
| Matrix.Mat.Get | Mat.h:33-35 | reads position `i*n + j` with no bounds check (it must lie in the buffer). In a well-formed matrix this is cell `(i, j)` of the grid for in-range indices, and cell `(i+1, 0)` for column `n` |
| Matrix.Mat.SetElem | Mat.h:37-50 | the guards of the mode decide the outcome, on any buffer including a null one (counted as no cells). A write changes only buffer cell `i*n + j`; `m`, `n` and the buffer stay the same. A rejected or out-of-buffer call changes nothing. With the corrected guards on a buffer of `m*n` cells, it writes exactly the in-range cells and never leaves the buffer. A following get returns the value written. For in-range `(i, j)` only grid cell `(i, j)` changes. Under the shipped guards column `n` overwrites cell `(i+1, 0)` |
| Matrix.Rref | Mat.h:52-63 | in a guarded mode it reports a row-count mismatch first, then a column-count mismatch, and otherwise completes. It modifies nothing, so both matrices are unchanged on every path |

## Left out

- `printMat` (Mat.h:65-76) is console output and is not modelled. The demonstration driver `main.c` has no logic of its own and is not part of this model.
- The text of the diagnostic `printf` calls is not modelled. Each becomes a report value, and the call changes nothing.
- Allocation failure is not modelled for a non-negative size: `malloc` always succeeds then, and `malloc(0)` gives an empty buffer. A negative `m*n` wraps to a huge `size_t` request, which is modelled as a failed allocation (a null buffer).
- `cleanMat` keeps only the fact of release, as a ghost flag. Freeing memory is outside Dafny. Use after release and double release are caller obligations, stated as preconditions.
- Integers are unbounded. The model does not capture 32-bit overflow of `i*n + j` or of `m*n*sizeof(double)`.
- The contents of a freshly allocated buffer are unspecified in C. Dafny fills the array, but no contract says anything about its values.
- Matrix.Mat.SetElem: a write that the guards let through to a position outside the buffer is undefined behaviour in C. The model reports it as `OutOfBuffer` and performs no write, so it does not capture the memory corruption.
- Matrix.Mat.Get: reading outside the buffer is undefined behaviour, so the model requires the position to lie in the buffer. For a matrix that is not well formed (negative dimensions), the contract says nothing about the value beyond that requirement.
- The build switch is one setting for the whole program, but the model passes `Mode` to each call. So the model also allows calls that mix builds on one matrix, which no single build can do. Every contract holds per call whatever the mix.
- Matrix.Rref: that both matrices are unchanged comes from the method having no `modifies` clause, not from an `ensures`.
- Gauss-Jordan elimination, pivot normalisation, row swaps and zero-row relocation are not in `Mat.h`. They are not modelled.

## Findings

| source | as written | input that shows it | evidently intended | confidence | as-written member | corrected member |
|---|---|---|---|---|---|---|
| Mat.h:39 | the row guard rejects only `i > m` | 2x2 matrix, `setElem(mat, 2, 0, v)`: writes position 4 of a 4-cell buffer | reject `i >= m`: the message says "i exceeds the row count" (Mat.h:40), and rows of a row-major `m`-row buffer are `0 .. m-1` | high; not executed | Matrix.CheckedRowPastEnd | Matrix.StrictSetSafe |
| Mat.h:43 | the column guard rejects only `j > n` | 2x2 matrix, `setElem(mat, 0, 2, v)`: writes position 2, which is cell `(1, 0)` | reject `j >= n`: the message says "j exceeds the col count" (Mat.h:44), and a column index of `n` or more runs into the next row | high; not executed | Matrix.CheckedColumnAliases | Matrix.StrictSetSafe |
| Mat.h:39-46 | negative indices pass both guards | 2x2 matrix, `setElem(mat, -1, 0, v)`: writes position -2, before the buffer | reject `i < 0` and `j < 0`: the write at `i*n + j` (Mat.h:49) is only inside the buffer for cells of `[0, m) x [0, n)` | medium; not executed | Matrix.CheckedNegativeRow | Matrix.StrictSetSafe |
| Mat.h:39-46 | a negative column passes both guards and can land inside the buffer | 2x2 matrix, `setElem(mat, 1, -1, v)`: writes position 1, which is cell `(0, 1)` | reject `j < 0`: the write at `i*n + j` (Mat.h:49) is only the cell `(i, j)` for columns in `[0, n)` | medium; not executed | Matrix.CheckedNegativeColumnAliases | Matrix.StrictSetSafe |
| Mat.h:17 | `initMat` rejects only zero dimensions | `initMat(mat, -2, -3)`: sets `m = -2`, `n = -3` with a 6-cell buffer | reject `m <= 0` or `n <= 0`: the message says a matrix cannot be created without dimensions (Mat.h:18), and `m*n` cells (Mat.h:26) only make sense for positive sizes | medium; not executed | Matrix.CheckedInitAcceptsNegative | Matrix.StrictInitPositive |

The corrected guards are the `StrictChecked` mode of `Matrix.Mat.InitMat` and
`Matrix.Mat.SetElem`. With that mode, `InitMat` yields a well-formed matrix
whenever it accepts the dimensions, and `SetElem` on a buffer of `m*n` cells never reaches past it.
