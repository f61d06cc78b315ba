# Axis atoms: shape, axis check and gradient assembly

This project models the axis layer of cvxpy's atoms (`AxisAtom` in
`cvxpy/atoms/axis_atom.py`). An axis atom applies one operator either to its
whole `m` x `n` operand (axis None), to each column (axis 0) or to each row
(axis 1). The layer does four things, all modelled here:

- it infers the output shape;
- it checks the axis;
- it reports the axis as the atom's data;
- it assembles the gradient (Jacobian) of the vectorised operation. It calls a
  per-slice gradient primitive once per slice and stitches the results into one
  `m*n` x `slices` sparse matrix.

Files:

- `wrappers.dfy` (module `Wrappers`): `Option`, `Result`, `Outcome`.
- `sparse.dfy` (module `SparseMatrix`): a sparse matrix as a shape plus a map
  from cells to values. It has the all-zero matrix, sparse addition, and the
  triplet constructor `csc_matrix((data, (row, col)), shape)`.
- `dense.dfy` (module `DenseMatrix`): the operand's value as rows of reals,
  with column extraction, transpose and the vectorisation
  `reshape(values.T, (m*n, 1))`. It proves that entry (r, c) sits at index `c*m + r`.
- `axis_atom.dfy` (module `AxisAtoms`): the atom itself. Validation,
  construction, `SizeFromArgs`, `GetData` and the row formulas are functions.
  The gradient assembly is the method `AxisGrad`. It dispatches on the axis, as
  the source does. The two loops are the methods `ColumnwiseGrad` and
  `RowwiseGrad`. Each loop starts from an all-zero matrix and adds one slice's
  triplet matrix per iteration. Each returns `[None]` at the first slice that
  has no gradient.
- `axis_properties.dfy` (module `AxisProperties`): what the assembly means. It
  covers which operand entries each slice reads and where each derivative lands.
  It also compares the axis-0 row offset with the vectorisation.

The primitive `_column_grad` is abstract in the source. Here it is a parameter
`grad: seq<real> -> Option<seq<real>>`. It must return one entry per entry of
its input (`PreservesLength`). On axes 0 and 1 a gradient of the wrong length makes
the triplet constructor raise, because its data and row lists differ in length. On
axis None the source returns the primitive's matrix whatever its shape.
The result list `[D]` / `[None]` is a one-element sequence of `Option<Sparse>`.
The sparse constructor raises `ValueError` for a row index outside the shape.
The model returns this as `Err(RowIndexExceedsDimensions)`, at the same point in
the loop.

Two consequences of the axis-0 row offset `i*n` follow from the code:

- When `n < m`, neighbouring axis-0 columns use overlapping row ranges. The cells
  stay distinct, because each slice writes only its own column. Accumulating the
  slices is therefore the same as placing them directly.
- On a 2 x 3 operand the code needs row 6 of a 6-row matrix and raises (see
  Findings). Whether axis 0 returns `[None]` or raises depends on the order of the
  columns. A column without a gradient returns `[None]` at once. A column whose
  rows overrun raises when it is reached, provided it has a gradient.

## Model

| member | source | states |
|---|---|---|
| `AxisAtoms.ValidateArguments` | python/cvxgrp_cvxpy/cvxpy-master/cvxpy/atoms/axis_atom.py:49-53 | passes exactly for axis None, 0 and 1; any other axis fails with `InvalidAxis` |
| `AxisAtoms.New` | python/cvxgrp_cvxpy/cvxpy-master/cvxpy/atoms/axis_atom.py:30-32 | building an atom succeeds exactly for axis None, 0 or 1 and then keeps the operand shape and the axis; otherwise it fails with `InvalidAxis` |
| `AxisAtoms.SizeFromArgs` | python/cvxgrp_cvxpy/cvxpy-master/cvxpy/atoms/axis_atom.py:34-42 | shape (1, 1) for axis None, (1, n) for axis 0, (m, 1) for any other axis; the product of the two is the number of slices, which is the gradient's column count |
| `AxisAtoms.GetData` | python/cvxgrp_cvxpy/cvxpy-master/cvxpy/atoms/axis_atom.py:44-47 | a one-element list whose only element is the axis |
| `AxisAtoms.AxisGrad` | python/cvxgrp_cvxpy/cvxpy-master/cvxpy/atoms/axis_atom.py:55-98 | result is a one-element list; `[D]` only when every slice has a gradient, the rows fit, and `D` is the `m*n` x slice-count gradient with every cell as placed; `[None]` only when some slice has no gradient; an error only on axis 0 with `1 <= m < n`; when the rows fit, `[None]` exactly when some slice lacks a gradient and never an error; when they do not fit and all slices have gradients, an error; on axis 0, `[None]` exactly when some column without a gradient comes before every column whose rows overrun, and an error exactly when the rows do not fit and no such column exists |
| `AxisAtoms.ColumnwiseGrad` | python/cvxgrp_cvxpy/cvxpy-master/cvxpy/atoms/axis_atom.py:75-85 | axis 0: from a zero `m*n` x `n` matrix, column `i` gets entry `k` of column `i`'s gradient at row `i*n + k` and zero elsewhere; `[None]` exactly when some column without a gradient comes before every column whose rows overrun; `RowIndexExceedsDimensions` only when `1 <= m < n` |
| `AxisAtoms.RowwiseGrad` | python/cvxgrp_cvxpy/cvxpy-master/cvxpy/atoms/axis_atom.py:86-97 | axis 1: from a zero `m*n` x `m` matrix, column `i` gets entry `k` of row `i`'s gradient at row `i + k*m`; never an error; `[None]` only if some row has no gradient |
| `AxisAtoms.PlaceSlice` | python/cvxgrp_cvxpy/cvxpy-master/cvxpy/atoms/axis_atom.py:84-85 | adding slice `i`'s matrix to the running sum leaves columns below `i` unchanged, fills column `i`, and leaves later columns zero |
| `AxisAtoms.ColumnwiseSliceMatrix` | python/cvxgrp_cvxpy/cvxpy-master/cvxpy/atoms/axis_atom.py:82-85 | column `i`'s triplet matrix holds the gradient entry `p - i*n` in rows `i*n .. i*n+m-1` of column `i` and zero everywhere else |
| `AxisAtoms.RowwiseSliceMatrix` | python/cvxgrp_cvxpy/cvxpy-master/cvxpy/atoms/axis_atom.py:94-97 | row `i`'s triplet indices are always inside the `m*n` x `m` shape, and its matrix holds gradient entry `p / m` in the rows `p` with `p % m == i` of column `i`, zero elsewhere |
| `AxisAtoms.ColumnwiseRowsFitIff` | python/cvxgrp_cvxpy/cvxpy-master/cvxpy/atoms/axis_atom.py:82 | the axis-0 rows `i*n + k` all lie inside `m*n` rows exactly when `m == 0` or `n <= m` |
| `AxisAtoms.LastColumnFits` | python/cvxgrp_cvxpy/cvxpy-master/cvxpy/atoms/axis_atom.py:82 | the last axis-0 row `(n-1)*n + m-1` fits exactly when `n <= m` |
| `AxisAtoms.RowwiseRowBound` | python/cvxgrp_cvxpy/cvxpy-master/cvxpy/atoms/axis_atom.py:94 | every axis-1 row `i + k*m` is below `m*n` |
| `AxisAtoms.DivModOfSum` | python/cvxgrp_cvxpy/cvxpy-master/cvxpy/atoms/axis_atom.py:94 | row `i + k*m` gives back `k` and `i` as quotient and remainder by `m`, so each axis-1 row names one (row, position) pair |
| `AxisAtoms.ColumnMatrix` | python/cvxgrp_cvxpy/cvxpy-master/cvxpy/atoms/axis_atom.py:71-73 | the whole-operand gradient vector becomes an `|d|` x 1 matrix holding `d[p]` in row `p` |
| `AxisAtoms.Slice` | python/cvxgrp_cvxpy/cvxpy-master/cvxpy/atoms/axis_atom.py:69-90 | the vector handed to the primitive for slice `q` has the slice length: `m*n` for axis None, `m` for axis 0, `n` otherwise |
| `AxisAtoms.ColumnwiseRows` | python/cvxgrp_cvxpy/cvxpy-master/cvxpy/atoms/axis_atom.py:82 | `linspace(i*n, i*n+m-1, m)`: `m` rows, the `k`-th being `i*n + k`, from `i*n` up to `i*n + m - 1` |
| `AxisAtoms.RowwiseRows` | python/cvxgrp_cvxpy/cvxpy-master/cvxpy/atoms/axis_atom.py:94 | `linspace(i, i+(n-1)*m, n)`: `n` rows, the `k`-th being `i + k*m`, from `i` up to `i + (n-1)*m` |
| `AxisAtoms.SliceCols` | python/cvxgrp_cvxpy/cvxpy-master/cvxpy/atoms/axis_atom.py:83 | `ones(len) * i`: `len` column indices, all equal to `i` |
| `AxisAtoms.ColumnFitsIff` | python/cvxgrp_cvxpy/cvxpy-master/cvxpy/atoms/axis_atom.py:82-84 | column `i`'s triplet indices fit the `m*n` x `n` shape exactly when `m == 0` or `i*n + m <= m*n` |
| `AxisAtoms.OverrunIsError` | python/cvxgrp_cvxpy/cvxpy-master/cvxpy/atoms/axis_atom.py:82-84 | a column whose triplets leave the shape means the operand is wide (`1 <= m < n`) |
| `AxisAtoms.AllColumnsFit` | python/cvxgrp_cvxpy/cvxpy-master/cvxpy/atoms/axis_atom.py:77-85 | when every column's rows fit, the operand has no more columns than rows |
| `AxisAtoms.ColumnsFitExtend` | python/cvxgrp_cvxpy/cvxpy-master/cvxpy/atoms/axis_atom.py:77-85 | a fitting column extends the prefix of fitting columns by one |
| `AxisAtoms.NoneFirst` | python/cvxgrp_cvxpy/cvxpy-master/cvxpy/atoms/axis_atom.py:77-81 | a column without a gradient, met after only fitting columns, makes the result `[None]` |
| `AxisAtoms.OverrunFirst` | python/cvxgrp_cvxpy/cvxpy-master/cvxpy/atoms/axis_atom.py:77-85 | an overrunning column that has a gradient, met after only columns with gradients, rules `[None]` out |
| `AxisAtoms.ColumnOverrun` | python/cvxgrp_cvxpy/cvxpy-master/cvxpy/atoms/axis_atom.py:82-85 | an overrunning column reached with gradients for it and all earlier columns makes the error the promised outcome, and rules `[None]` out |
| `AxisAtoms.AddColumnSlice` | python/cvxgrp_cvxpy/cvxpy-master/cvxpy/atoms/axis_atom.py:84-85 | one axis-0 step returns `D` plus column `i`'s triplet matrix, and the placed prefix grows by column `i` |
| `AxisAtoms.RowwiseRowsInShape` | python/cvxgrp_cvxpy/cvxpy-master/cvxpy/atoms/axis_atom.py:94-97 | row `i`'s triplet indices always fit the `m*n` x `m` shape, so axis 1 never raises |
| `AxisAtoms.RowwiseRowAtPosition` | python/cvxgrp_cvxpy/cvxpy-master/cvxpy/atoms/axis_atom.py:94 | a row `p` with remainder `i` and quotient `k < n` by `m` is the `k`-th row of row `i`'s list |
| `AxisAtoms.RowwiseRowsAvoid` | python/cvxgrp_cvxpy/cvxpy-master/cvxpy/atoms/axis_atom.py:94 | a row `p` that `RowwisePosition` rejects is in none of row `i`'s rows |
| `AxisAtoms.RowwiseEmbedAt` | python/cvxgrp_cvxpy/cvxpy-master/cvxpy/atoms/axis_atom.py:94-97 | row `i`'s triplet matrix holds `d[p / m]` at the rows `p` with `p % m == i` of column `i` and zero elsewhere |
| `AxisAtoms.ColumnwiseEmbedAt` | python/cvxgrp_cvxpy/cvxpy-master/cvxpy/atoms/axis_atom.py:82-85 | column `i`'s triplet matrix holds `d[p - i*n]` at rows `i*n .. i*n+m-1` of column `i` and zero elsewhere |
| `SparseMatrix.Zero` | python/cvxgrp_cvxpy/cvxpy-master/cvxpy/atoms/axis_atom.py:76 | the starting matrix has the requested shape and holds zero in every cell |
| `SparseMatrix.Add` | python/cvxgrp_cvxpy/cvxpy-master/cvxpy/atoms/axis_atom.py:84 | the sum keeps the shape and holds the cell-wise sum of both operands |
| `SparseMatrix.FromTriplets` | python/cvxgrp_cvxpy/cvxpy-master/cvxpy/atoms/axis_atom.py:84-85 | the triplet matrix has the given shape; with no repeated cell, it holds `data[k]` at (`row[k]`, `col[k]`) and zero at every cell not listed |
| `SparseMatrix.FromTripletsStep` | python/cvxgrp_cvxpy/cvxpy-master/cvxpy/atoms/axis_atom.py:84-85 | one more triplet in front of the rest keeps every listed cell's value (when no cell repeats) and leaves every unlisted cell zero |
| `DenseMatrix.VecAt` | python/cvxgrp_cvxpy/cvxpy-master/cvxpy/atoms/axis_atom.py:70 | the flattening of the transpose has `m*n` entries and holds operand entry (r, c) at index `VecIndex(m, r, c)`, that is `c*m + r` |
| `DenseMatrix.Vec` | python/cvxgrp_cvxpy/cvxpy-master/cvxpy/atoms/axis_atom.py:70 | `reshape(values.T, (m*n, 1))` has `m*n` entries; where each entry sits is `VecAt` |
| `DenseMatrix.Column` | python/cvxgrp_cvxpy/cvxpy-master/cvxpy/atoms/axis_atom.py:78 | `values[:, c]` has one entry per row, entry `r` being `v[r][c]` |
| `DenseMatrix.Transpose` | python/cvxgrp_cvxpy/cvxpy-master/cvxpy/atoms/axis_atom.py:87 | `np.transpose` of an `|v|` x `n` matrix is `n` x `|v|`, with `t[c][r] == v[r][c]` |
| `DenseMatrix.FlattenLength` | python/cvxgrp_cvxpy/cvxpy-master/cvxpy/atoms/axis_atom.py:70 | flattening rows of width `w` gives `|rows| * w` entries |
| `DenseMatrix.FlattenAt` | python/cvxgrp_cvxpy/cvxpy-master/cvxpy/atoms/axis_atom.py:70 | the row-major reshape into one column holds entry `k` of row `c` at index `c*w + k` |
| `DenseMatrix.ColumnOfTranspose` | python/cvxgrp_cvxpy/cvxpy-master/cvxpy/atoms/axis_atom.py:87-90 | column `i` of the transposed value is row `i` of the operand |
| `AxisProperties.SliceReadsVec` | python/cvxgrp_cvxpy/cvxpy-master/cvxpy/atoms/axis_atom.py:69-90 | entry `k` of slice `q` is the vectorised operand entry at `IntendedRow(q, k)`: the whole vector for axis None, `q*m + k` for column `q`, `k*m + q` for row `q` |
| `AxisProperties.RowwiseSliceIsRow` | python/cvxgrp_cvxpy/cvxpy-master/cvxpy/atoms/axis_atom.py:87-90 | on axis 1 the vector handed to the primitive for slice `q` is row `q` of the operand |
| `AxisProperties.RowIndexPlacesEntry` | python/cvxgrp_cvxpy/cvxpy-master/cvxpy/atoms/axis_atom.py:82-94 | when the rows fit, row `RowIndex(q, k)` (`i*n + k` or `i + k*m`) is inside the matrix and is the row holding entry `k` of slice `q` |
| `AxisProperties.SlicePositionIsRowIndex` | python/cvxgrp_cvxpy/cvxpy-master/cvxpy/atoms/axis_atom.py:82-94 | a row of column `q` holds entry `k` of slice `q` only if it is `RowIndex(q, k)`; no other row holds any gradient entry |
| `AxisProperties.ExpectedAtRowIndex` | python/cvxgrp_cvxpy/cvxpy-master/cvxpy/atoms/axis_atom.py:77-97 | in the gradient, cell (`RowIndex(q, k)`, `q`) holds exactly entry `k` of slice `q`'s gradient |
| `AxisProperties.RowwiseRowsDisjoint` | python/cvxgrp_cvxpy/cvxpy-master/cvxpy/atoms/axis_atom.py:94 | two axis-1 rows `i + k*m` and `j + l*m` coincide exactly when `i == j` and `k == l` |
| `AxisProperties.RowIndexIsIntended` | python/cvxgrp_cvxpy/cvxpy-master/cvxpy/atoms/axis_atom.py:69-94 | axes None and 1, and axis 0 on a square operand, place each entry at the vectorised index of the operand entry it came from |
| `AxisProperties.ColumnwiseIntendedOnlyWhenSquare` | python/cvxgrp_cvxpy/cvxpy-master/cvxpy/atoms/axis_atom.py:82 | with at least two columns, the axis-0 rows agree with the vectorisation exactly when `m == n` |
| `AxisProperties.ColumnwiseMisplacesOnTallOperand` | python/cvxgrp_cvxpy/cvxpy-master/cvxpy/atoms/axis_atom.py:82 | on a 3 x 2 operand, column 1's entry 0 is placed in row 2, the row of operand entry (2, 0); its intended row is 3 |
| `AxisProperties.ColumnwiseOverrunsWideOperand` | python/cvxgrp_cvxpy/cvxpy-master/cvxpy/atoms/axis_atom.py:82-85 | on a 2 x 3 operand, column 2 needs row 6 of a 6-row matrix |
| `AxisProperties.CorrectedColumnwiseRowIsVectorization` | python/cvxgrp_cvxpy/cvxpy-master/cvxpy/atoms/axis_atom.py:82 | the offset `i*m + k` is always in range and is distinct for distinct (i, k). It is the vectorised index of entry `k` of column `i` |
| `AxisProperties.SingleSliceAgreesWithWhole` | python/cvxgrp_cvxpy/cvxpy-master/cvxpy/atoms/axis_atom.py:69-97 | axis 0 on one column, or axis 1 on one row, gives the primitive the same vector as axis None and expects the same gradient |

## Left out

- The `Atom` base class (`cvxpy/atoms/atom.py` is not part of this model). This includes construction order, `self.args` and the expression tree. The operand is reduced to its shape `(m, n)` and its value. `AxisAtoms.New` stands for `__init__` followed by the base class's call of `validate_arguments`.
- `_column_grad` has no concrete implementation here: it is the `grad` parameter. The assembly requires it to return as many entries as it receives (`PreservesLength`). This excludes two behaviours of the source. On axes 0 and 1, a gradient of the wrong length makes the triplet constructor raise. On axis None, the source returns the primitive's matrix whatever its shape.
- AxisAtoms.ColumnwiseGrad, AxisAtoms.RowwiseGrad: the source applies `.T` to the primitive's result before testing it for `None` (lines 79-80, 91-92). A `None` would therefore raise `AttributeError` before `return [None]` runs. The model tests for `None` first, which is what the code evidently intends.
- SciPy and NumPy details are not modelled: CSC storage, `dtype`, and the float indices that `np.linspace` produces. Indices are integers, and values are exact reals with no floating-point rounding.
- The axis is an `Option<int>`. Python values such as `True` or `0.0` that pass `in [0, 1]` are outside this type.
- `values` is the list of argument values; only its first element is read, and that element is the single operand value here.

## Findings

| source | as written | input that shows it | evidently intended | confidence | as-written member | corrected member |
|---|---|---|---|---|---|---|
| python/cvxgrp_cvxpy/cvxpy-master/cvxpy/atoms/axis_atom.py:82 | axis 0 places column `i`'s entries at rows `i*n .. i*n+m-1` | m = 3, n = 2: column 1's entry 0 lands in row 2, the vectorised row of operand entry (2, 0). m = 2, n = 3: column 2 needs row 6 of a 6-row matrix and the sparse constructor raises | rows `i*m .. i*m+m-1`, the column-major vectorisation that line 70 and the axis-1 branch (line 94) use | not executed; the two placements differ by arithmetic alone | `AxisProperties.ColumnwiseMisplacesOnTallOperand` | `AxisProperties.CorrectedColumnwiseRowIsVectorization` |

`AxisAtoms.AxisGrad` keeps the offset as written, so that it matches the code.
`AxisProperties.ColumnwiseIntendedOnlyWhenSquare` shows the as-written offset
agrees with the corrected one exactly on square operands.
`AxisProperties.IntendedRow` is the reference placement that the rest of the
properties compare against.
