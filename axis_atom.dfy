/**
  An atom that can be applied to a whole `m` x `n` operand (axis None), to each
  column (axis 0) or to each row (axis 1): its output shape, its axis check, its
  axis tag, and the assembly of its gradient from a per-slice gradient primitive.
*/
module AxisAtoms {
  import opened Wrappers
  import opened SparseMatrix
  import opened DenseMatrix

  /** `ValueError`s: an axis outside None/0/1, and a triplet row index outside the sparse shape. */
  datatype Error = InvalidAxis | RowIndexExceedsDimensions

  /** The atom as this component sees it: its one operand's shape and its axis. */
  datatype AxisAtom = AxisAtom(m: nat, n: nat, axis: Option<int>)

  /** The per-slice gradient primitive: a column vector in, its gradient or "none" out. */
  type Primitive = seq<real> -> Option<seq<real>>

  /** A primitive whose gradient has one entry per entry of the slice it was given. */
  ghost predicate PreservesLength(grad: Primitive)
  {
    forall v :: grad(v).Some? ==> |grad(v).value| == |v|
  }

  // ---------------------------------------------------------------- validation

  /** The axis check run when the atom is built: only None, 0 and 1 pass. */
  function ValidateArguments(axis: Option<int>): (r: Outcome<Error>)
    ensures r == Pass <==> axis == None || axis == Some(0) || axis == Some(1)
    ensures r.Fail? ==> r.error == InvalidAxis
  {
    if axis.Some? && axis.value != 0 && axis.value != 1 then Fail(InvalidAxis) else Pass
  }

  /** Building the atom stores the axis and then validates it. */
  function New(m: nat, n: nat, axis: Option<int>): (r: Result<AxisAtom, Error>)
    ensures r.Ok? <==> axis == None || axis == Some(0) || axis == Some(1)
    ensures r.Ok? ==> r.value.m == m && r.value.n == n && r.value.axis == axis
    ensures r.Err? ==> r.error == InvalidAxis
  {
    match ValidateArguments(axis)
    case Pass => Ok(AxisAtom(m, n, axis))
    case Fail(e) => Err(e)
  }

  // ---------------------------------------------------------------- shape and tag

  /** How many slices the primitive is applied to: one output entry per slice. */
  function SliceCount(atom: AxisAtom): nat
  {
    match atom.axis
    case None => 1
    case Some(a) => if a == 0 then atom.n else atom.m
  }

  /** How many entries each slice (and each slice gradient) has. */
  function SliceLength(atom: AxisAtom): nat
  {
    match atom.axis
    case None => atom.m * atom.n
    case Some(a) => if a == 0 then atom.m else atom.n
  }

  /**
    The output shape. Any axis other than None and 0 is treated as axis 1: validation
    keeps every other value out of a built atom.
  */
  function SizeFromArgs(atom: AxisAtom): (shape: (nat, nat))
    ensures atom.axis == None ==> shape == (1, 1)
    ensures atom.axis == Some(0) ==> shape == (1, atom.n)
    ensures atom.axis.Some? && atom.axis != Some(0) ==> shape == (atom.m, 1)
    ensures shape.0 * shape.1 == SliceCount(atom)
  {
    if atom.axis == None then (1, 1)
    else if atom.axis == Some(0) then (1, atom.n)
    else (atom.m, 1)
  }

  /** The data distinguishing atoms of one family: a one-element list holding the axis. */
  function GetData(atom: AxisAtom): (data: seq<Option<int>>)
    ensures |data| == 1 && data[0] == atom.axis
  {
    [atom.axis]
  }

  // ---------------------------------------------------------------- slices and rows

  /**
    The vector the primitive receives for slice `q`: the whole vectorised operand for
    axis None, column `q` for axis 0, and column `q` of the transpose otherwise.
  */
  function Slice(atom: AxisAtom, values: Matrix, q: nat): (s: seq<real>)
    requires IsShape(values, atom.m, atom.n) && q < SliceCount(atom)
    ensures |s| == SliceLength(atom)
  {
    match atom.axis
    case None => Vec(values, atom.m, atom.n)
    case Some(a) =>
      if a == 0 then Column(values, q) else Column(Transpose(values, atom.n), q)
  }

  /** Row of entry `k` of column `i`'s gradient under axis 0, as written: `i*n + k`. */
  function ColumnwiseRow(m: nat, n: nat, i: nat, k: nat): nat
  {
    i * n + k
  }

  /** Row of entry `k` of row `i`'s gradient under axis 1: `i + k*m`. */
  function RowwiseRow(m: nat, n: nat, i: nat, k: nat): nat
  {
    i + k * m
  }

  /** The row in which entry `k` of slice `q`'s gradient is placed. */
  function RowIndex(atom: AxisAtom, q: nat, k: nat): nat
  {
    match atom.axis
    case None => k
    case Some(a) =>
      if a == 0 then ColumnwiseRow(atom.m, atom.n, q, k) else RowwiseRow(atom.m, atom.n, q, k)
  }

  /**
    The row indices of column `i`'s triplets under axis 0: `linspace(i*n, i*n+m-1, m)`,
    the `m` consecutive rows from `i*n` to `i*n+m-1`.
  */
  function ColumnwiseRows(m: nat, n: nat, i: nat): (rows: seq<int>)
    ensures |rows| == m && forall k :: 0 <= k < m ==> rows[k] == ColumnwiseRow(m, n, i, k)
    ensures m > 0 ==> rows[0] == i * n && rows[m - 1] == i * n + m - 1
  {
    seq(m, k requires 0 <= k < m => ColumnwiseRow(m, n, i, k))
  }

  /**
    The row indices of row `i`'s triplets under axis 1: `linspace(i, i+(n-1)*m, n)`,
    the `n` rows from `i` to `i+(n-1)*m` in steps of `m`.
  */
  function RowwiseRows(m: nat, n: nat, i: nat): (rows: seq<int>)
    ensures |rows| == n && forall k :: 0 <= k < n ==> rows[k] == RowwiseRow(m, n, i, k)
    ensures n > 0 ==> rows[0] == i && rows[n - 1] == i + (n - 1) * m
  {
    seq(n, k requires 0 <= k < n => RowwiseRow(m, n, i, k))
  }

  /** The column indices of slice `i`'s triplets: `ones(len) * i`. */
  function SliceCols(len: nat, i: nat): (cols: seq<int>)
    ensures |cols| == len && forall k :: 0 <= k < len ==> cols[k] == i
  {
    seq(len, _ => i)
  }

  /** Which entry of column `q`'s gradient belongs in row `p` under axis 0 (as written). */
  function ColumnwisePosition(m: nat, n: nat, p: int, q: nat): Option<nat>
  {
    if q * n <= p < q * n + m then Some(p - q * n) else None
  }

  /** Which entry of row `q`'s gradient belongs in row `p` under axis 1. */
  function RowwisePosition(m: nat, n: nat, p: int, q: nat): Option<nat>
  {
    if m > 0 && 0 <= p && p % m == q && p / m < n then Some(p / m) else None
  }

  /**
    Which entry of slice `q`'s gradient belongs in row `p` of column `q`, if any:
    the inverse of `RowIndex`, read off the row number.
  */
  function SlicePosition(atom: AxisAtom, p: int, q: nat): Option<nat>
  {
    match atom.axis
    case None => if q == 0 && 0 <= p < atom.m * atom.n then Some(p) else None
    case Some(a) =>
      if a == 0 then ColumnwisePosition(atom.m, atom.n, p, q)
      else RowwisePosition(atom.m, atom.n, p, q)
  }

  /** Entry `k` of `d`, or zero when there is no such entry. */
  function EntryOr0(d: seq<real>, k: Option<nat>): real
  {
    match k
    case None => 0.0
    case Some(k) => if k < |d| then d[k] else 0.0
  }

  /**
    The value the assembled gradient should hold in cell (p, q): entry
    `SlicePosition(atom, p, q)` of slice `q`'s gradient, and zero off that slice's rows.
  */
  ghost function Expected(atom: AxisAtom, values: Matrix, grad: Primitive, p: int, q: nat): real
    requires IsShape(values, atom.m, atom.n) && q < SliceCount(atom)
  {
    match grad(Slice(atom, values, q))
    case None => 0.0
    case Some(d) => EntryOr0(d, SlicePosition(atom, p, q))
  }

  /**
    Every row `RowIndex(atom, q, k)` lies inside the `m*n` rows of the gradient. Always
    so for axes None and 1; for axis 0 only when the operand has no more columns than
    rows (or no rows at all).
  */
  predicate Fits(atom: AxisAtom)
  {
    atom.axis != Some(0) || atom.m == 0 || atom.n <= atom.m
  }

  /** Column `j`'s axis-0 rows `j*n .. j*n+m-1` all lie inside the `m*n` rows. */
  predicate ColumnFits(m: nat, n: nat, j: nat)
  {
    m == 0 || j * n + m <= m * n
  }

  /** Columns `0 .. i-1` all fit. */
  predicate ColumnsFitUpTo(m: nat, n: nat, i: nat)
  {
    forall j :: 0 <= j < i ==> ColumnFits(m, n, j)
  }

  /**
    Axis 0 meets a column without a gradient before it meets a column whose rows overrun
    the matrix: the columns are taken in order, and each is tested for a gradient before
    its rows are.
  */
  ghost predicate NoneBeforeOverrun(atom: AxisAtom, values: Matrix, grad: Primitive)
    requires IsShape(values, atom.m, atom.n) && atom.axis == Some(0)
  {
    exists q :: 0 <= q < atom.n && grad(Slice(atom, values, q)).None? &&
      forall j :: 0 <= j < q ==> ColumnFits(atom.m, atom.n, j)
  }

  /**
    `D` is the gradient of the atom at `values`: every slice has a gradient, `D` has
    `m*n` rows and one column per slice, and each cell holds `Expected`.
  */
  ghost predicate IsGradient(atom: AxisAtom, values: Matrix, grad: Primitive, D: Sparse)
    requires IsShape(values, atom.m, atom.n)
  {
    && Fits(atom)
    && (forall q :: 0 <= q < SliceCount(atom) ==> grad(Slice(atom, values, q)).Some?)
    && D.rows == atom.m * atom.n && D.cols == SliceCount(atom) && Valid(D)
    && forall p, q :: 0 <= p < atom.m * atom.n && 0 <= q < SliceCount(atom) ==>
         At(D, p, q) == Expected(atom, values, grad, p, q)
  }

  // ---------------------------------------------------------------- index arithmetic

  lemma MulMonotone(a: int, b: int, c: nat)
    requires a <= b
    ensures a * c <= b * c
  {
    assert b * c - a * c == (b - a) * c;
  }

  /** `i + k*m` with `0 <= i < m` has quotient `k` and remainder `i`. */
  lemma DivModOfSum(i: int, k: nat, m: int)
    requires 0 <= i < m
    ensures (i + k * m) / m == k && (i + k * m) % m == i
  {
    var p := i + k * m;
    var a, b := p / m, p % m;
    assert p == a * m + b && 0 <= b < m;
    if a < k {
      MulMonotone(a + 1, k, m);
      assert false;
    } else if a > k {
      MulMonotone(k + 1, a, m);
      assert false;
    }
  }

  /** Row `i + k*m` of a row-wise slice lies inside the `m*n` rows. */
  lemma RowwiseRowBound(m: nat, n: nat, i: nat, k: nat)
    requires i < m && k < n
    ensures RowwiseRow(m, n, i, k) < m * n
  {
    MulMonotone(k, n - 1, m);
    assert (n - 1) * m == m * n - m;
  }

  /** The axis-0 rows `i*n + k` all lie inside the `m*n` rows exactly when `Fits`. */
  lemma ColumnwiseRowsFitIff(m: nat, n: nat)
    ensures (m == 0 || n <= m) <==>
            forall i, k :: 0 <= i < n && 0 <= k < m ==> ColumnwiseRow(m, n, i, k) < m * n
  {
    if m > 0 && n > 0 {
      if n <= m {
        forall i, k | 0 <= i < n && 0 <= k < m ensures ColumnwiseRow(m, n, i, k) < m * n {
          ColumnwiseRowBound(m, n, i, k);
        }
      } else {
        LastColumnFits(m, n);
      }
    }
  }

  lemma ColumnwiseRowBound(m: nat, n: nat, i: nat, k: nat)
    requires i < n <= m && k < m
    ensures ColumnwiseRow(m, n, i, k) < m * n
  {
    MulMonotone(i, n - 1, n);
    MulMonotone(n, m, n - 1);
    assert (n - 1) * m == m * n - m;
  }

  /** The last row of the last column fits only when the operand has no more columns than rows. */
  lemma LastColumnFits(m: nat, n: nat)
    requires 0 < m && 0 < n
    ensures ColumnwiseRow(m, n, n - 1, m - 1) < m * n <==> n <= m
  {
    assert (n - 1) * n == n * n - n;
    assert (n - 1) * m == m * n - m;
    if n <= m {
      ColumnwiseRowBound(m, n, n - 1, m - 1);
    } else {
      MulMonotone(m, n - 1, n - 1);
    }
  }

  /** Column `i`'s triplet indices fit the `m*n` x `n` shape exactly when `ColumnFits`. */
  lemma ColumnFitsIff(m: nat, n: nat, i: nat)
    requires i < n
    ensures InShape(ColumnwiseRows(m, n, i), SliceCols(m, i), m * n, n) <==> ColumnFits(m, n, i)
  {
    var ri, ci := ColumnwiseRows(m, n, i), SliceCols(m, i);
    if m > 0 && InShape(ri, ci, m * n, n) {
      assert ri[m - 1] < m * n;
    }
  }

  /** A fitting column `i` extends the prefix of fitting columns by one. */
  lemma ColumnsFitExtend(m: nat, n: nat, i: nat)
    requires ColumnsFitUpTo(m, n, i) && ColumnFits(m, n, i)
    ensures ColumnsFitUpTo(m, n, i + 1)
  {
  }

  /** When every column fits, so does the operand as a whole. */
  lemma AllColumnsFit(m: nat, n: nat)
    requires ColumnsFitUpTo(m, n, n)
    ensures m == 0 || n <= m
  {
    if m > 0 && n > 0 {
      assert ColumnFits(m, n, n - 1);
      LastColumnFits(m, n);
    }
  }

  /** A column whose triplet indices leave the shape does not fit, and neither does the operand. */
  lemma OverrunIsError(m: nat, n: nat, i: nat)
    requires i < n && !InShape(ColumnwiseRows(m, n, i), SliceCols(m, i), m * n, n)
    ensures !ColumnFits(m, n, i) && !(m == 0 || n <= m)
  {
    ColumnFitsIff(m, n, i);
    ColumnwiseRowsFitIff(m, n);
  }

  // ---------------------------------------------------------------- one slice's triplets

  /** Column `i`'s triplets under axis 0 put `d[p - i*n]` in rows `i*n .. i*n+m-1` of column `i`. */
  lemma ColumnwiseEmbedAt(m: nat, n: nat, i: nat, d: seq<real>, p: int, q: int)
    requires |d| == m && InShape(ColumnwiseRows(m, n, i), SliceCols(m, i), m * n, n)
    ensures At(FromTriplets(d, ColumnwiseRows(m, n, i), SliceCols(m, i), m * n, n), p, q)
            == if q == i then EntryOr0(d, ColumnwisePosition(m, n, p, i)) else 0.0
  {
    var ri, ci := ColumnwiseRows(m, n, i), SliceCols(m, i);
    assert DistinctCells(ri, ci);
    if q == i && i * n <= p < i * n + m {
      assert ri[p - i * n] == p && ci[p - i * n] == q;
    }
  }

  /** Row `i`'s rows `i + k*m` are in range and give back `k` and `i` as quotient and remainder by `m`. */
  lemma RowwiseRowsFacts(m: nat, n: nat, i: nat)
    requires i < m
    ensures forall k :: 0 <= k < n ==>
      0 <= RowwiseRows(m, n, i)[k] < m * n && RowwiseRows(m, n, i)[k] / m == k && RowwiseRows(m, n, i)[k] % m == i
  {
    forall k | 0 <= k < n
      ensures 0 <= RowwiseRow(m, n, i, k) < m * n
      ensures RowwiseRow(m, n, i, k) / m == k && RowwiseRow(m, n, i, k) % m == i
    {
      RowwiseRowBound(m, n, i, k);
      DivModOfSum(i, k, m);
    }
  }

  /** A row `p` with remainder `i` by `m` is row `i + (p / m) * m`. */
  lemma RowwiseRowOfRemainder(m: nat, i: nat, p: nat)
    requires i < m && p % m == i
    ensures i + (p / m) * m == p
  {
  }

  /** Distinct entries of row `i`'s gradient go to distinct rows. */
  lemma RowwiseCellsDistinct(m: nat, n: nat, i: nat)
    requires i < m
    ensures DistinctCells(RowwiseRows(m, n, i), SliceCols(n, i))
  {
    var ri := RowwiseRows(m, n, i);
    RowwiseRowsFacts(m, n, i);
    forall a, b | 0 <= a < b < n ensures ri[a] != ri[b] {
      assert ri[a] / m == a && ri[b] / m == b;
    }
  }

  /** Row `i`'s triplet indices under axis 1 lie inside the `m*n` x `m` shape. */
  lemma RowwiseRowsInShape(m: nat, n: nat, i: nat)
    requires i < m
    ensures InShape(RowwiseRows(m, n, i), SliceCols(n, i), m * n, m)
  {
    RowwiseRowsFacts(m, n, i);
  }

  /** Row `p` of the axis-1 gradient is entry `k` of row `i`'s row list when `RowwisePosition` says so. */
  lemma RowwiseRowAtPosition(m: nat, n: nat, i: nat, p: int, k: nat)
    requires i < m && RowwisePosition(m, n, p, i) == Some(k)
    ensures k < n && RowwiseRows(m, n, i)[k] == p
  {
    RowwiseRowOfRemainder(m, i, p);
  }

  /** When `RowwisePosition` finds no entry, no row in row `i`'s row list is `p`. */
  lemma RowwiseRowsAvoid(m: nat, n: nat, i: nat, p: int)
    requires i < m && RowwisePosition(m, n, p, i) == None
    ensures forall k :: 0 <= k < n ==> RowwiseRows(m, n, i)[k] != p
  {
    forall k | 0 <= k < n ensures RowwiseRow(m, n, i, k) != p {
      DivModOfSum(i, k, m);
    }
  }

  /** Row `i`'s triplets under axis 1 put `d[p / m]` in the rows `p` with `p % m == i` of column `i`. */
  lemma RowwiseEmbedAt(m: nat, n: nat, i: nat, d: seq<real>, p: int, q: int)
    requires i < m && |d| == n
    requires InShape(RowwiseRows(m, n, i), SliceCols(n, i), m * n, m)
    ensures At(FromTriplets(d, RowwiseRows(m, n, i), SliceCols(n, i), m * n, m), p, q)
            == if q == i then EntryOr0(d, RowwisePosition(m, n, p, i)) else 0.0
  {
    var ri, ci := RowwiseRows(m, n, i), SliceCols(n, i);
    var pos := RowwisePosition(m, n, p, i);
    if q == i && pos.Some? {
      RowwiseCellsDistinct(m, n, i);
      RowwiseRowAtPosition(m, n, i, p, pos.value);
      assert ri[pos.value] == p && ci[pos.value] == q;
    } else if q == i {
      RowwiseRowsAvoid(m, n, i, p);
    }
  }

  /** A gradient vector as an `|d|` x 1 sparse matrix (`csc_matrix(D)`). */
  function ColumnMatrix(d: seq<real>): (D: Sparse)
    ensures D.rows == |d| && D.cols == 1 && Valid(D)
    ensures forall p :: 0 <= p < |d| ==> At(D, p, 0) == d[p]
  {
    var ri, ci := seq(|d|, k => k), SliceCols(|d|, 0);
    assert DistinctCells(ri, ci);
    FromTriplets(d, ri, ci, |d|, 1)
  }

  // ---------------------------------------------------------------- gradient assembly

  /** What the gradient assembly promises, for every axis. */
  ghost predicate AssemblyOutcome(atom: AxisAtom, values: Matrix, grad: Primitive,
                                  r: Result<seq<Option<Sparse>>, Error>)
    requires IsShape(values, atom.m, atom.n)
  {
    && (r.Ok? ==> |r.value| == 1)
    && (r.Ok? && r.value[0].Some? ==> IsGradient(atom, values, grad, r.value[0].value))
    && (r == Ok([None]) ==>
          exists q :: 0 <= q < SliceCount(atom) && grad(Slice(atom, values, q)).None?)
    && (r.Err? ==> r.error == RowIndexExceedsDimensions && atom.axis == Some(0) && !Fits(atom))
  }

  /**
    The gradient of the atom at `values` (the operand's value), as a one-element list:
    `[D]`, with `D` the `m*n` x `SliceCount` gradient, or `[None]` when a slice has no
    gradient. Axis 0 fails with `RowIndexExceedsDimensions` when its rows `i*n + k`
    overrun the matrix, which some column's do exactly when `1 <= m < n`; which of
    `[None]` and the failure it gives depends on the column it meets first.
  */
  method AxisGrad(atom: AxisAtom, values: Matrix, grad: Primitive)
    returns (r: Result<seq<Option<Sparse>>, Error>)
    requires IsShape(values, atom.m, atom.n)
    requires PreservesLength(grad)
    ensures AssemblyOutcome(atom, values, grad, r)
    ensures Fits(atom) ==> r.Ok?
    ensures Fits(atom) ==>
      (r == Ok([None]) <==> exists q :: 0 <= q < SliceCount(atom) && grad(Slice(atom, values, q)).None?)
    ensures !Fits(atom) && (forall q :: 0 <= q < SliceCount(atom) ==> grad(Slice(atom, values, q)).Some?)
      ==> r.Err?
    ensures atom.axis == Some(0) ==> (r == Ok([None]) <==> NoneBeforeOverrun(atom, values, grad))
    ensures atom.axis == Some(0) ==> (r.Err? <==> !Fits(atom) && !NoneBeforeOverrun(atom, values, grad))
  {
    var m, n := atom.m, atom.n;
    if atom.axis == None {
      var D := grad(Vec(values, m, n));
      assert Vec(values, m, n) == Slice(atom, values, 0);
      if D.None? {
        return Ok([None]);
      }
      var G := ColumnMatrix(D.value);
      assert forall p, q :: 0 <= p < m * n && 0 <= q < 1 ==>
        At(G, p, q) == Expected(atom, values, grad, p, q);
      r := Ok([Some(G)]);
    } else if atom.axis == Some(0) {
      r := ColumnwiseGrad(atom, values, grad);
    } else {
      r := RowwiseGrad(atom, values, grad);
    }
    assert r.Ok? ==> r.value == [r.value[0]];
  }

  /**
    The loop state after `i` slices: `D` has the gradient's shape, slices `0 .. i-1` had
    a gradient and fill their columns, and the remaining columns are still zero.
  */
  ghost predicate PlacedUpTo(atom: AxisAtom, values: Matrix, grad: Primitive, D: Sparse, i: nat)
    requires IsShape(values, atom.m, atom.n)
  {
    && i <= SliceCount(atom)
    && D.rows == atom.m * atom.n && D.cols == SliceCount(atom) && Valid(D)
    && (forall j :: 0 <= j < i ==> grad(Slice(atom, values, j)).Some?)
    && forall p, q :: 0 <= p < atom.m * atom.n && 0 <= q < SliceCount(atom) ==>
         At(D, p, q) == if q < i then Expected(atom, values, grad, p, q) else 0.0
  }

  /** Adding slice `i`'s embedding, which fills column `i` only, extends the placed prefix by one. */
  lemma PlaceSlice(atom: AxisAtom, values: Matrix, grad: Primitive, D: Sparse, E: Sparse, i: nat, d: seq<real>)
    requires IsShape(values, atom.m, atom.n) && i < SliceCount(atom)
    requires PlacedUpTo(atom, values, grad, D, i)
    requires grad(Slice(atom, values, i)) == Some(d)
    requires E.rows == D.rows && E.cols == D.cols && Valid(E)
    requires forall p, q :: 0 <= p < atom.m * atom.n && 0 <= q < SliceCount(atom) ==>
      At(E, p, q) == if q == i then EntryOr0(d, SlicePosition(atom, p, i)) else 0.0
    ensures PlacedUpTo(atom, values, grad, Add(D, E), i + 1)
  {
  }

  /** Once every slice is placed and the rows fit, the matrix is the gradient. */
  lemma PlacedAllIsGradient(atom: AxisAtom, values: Matrix, grad: Primitive, D: Sparse)
    requires IsShape(values, atom.m, atom.n) && Fits(atom)
    requires PlacedUpTo(atom, values, grad, D, SliceCount(atom))
    ensures IsGradient(atom, values, grad, D)
    ensures AssemblyOutcome(atom, values, grad, Ok([Some(D)]))
    ensures atom.axis == Some(0) ==> !NoneBeforeOverrun(atom, values, grad)
  {
  }

  /** Column `i`'s triplets under axis 0 fill column `i` as `PlaceSlice` expects. */
  lemma ColumnwiseSliceMatrix(atom: AxisAtom, i: nat, d: seq<real>)
    requires atom.axis == Some(0) && i < atom.n && |d| == atom.m
    requires InShape(ColumnwiseRows(atom.m, atom.n, i), SliceCols(atom.m, i), atom.m * atom.n, atom.n)
    ensures forall p, q :: 0 <= p < atom.m * atom.n && 0 <= q < atom.n ==>
      At(FromTriplets(d, ColumnwiseRows(atom.m, atom.n, i), SliceCols(atom.m, i), atom.m * atom.n, atom.n), p, q)
      == if q == i then EntryOr0(d, SlicePosition(atom, p, i)) else 0.0
  {
    forall p, q | 0 <= p < atom.m * atom.n && 0 <= q < atom.n {
      ColumnwiseEmbedAt(atom.m, atom.n, i, d, p, q);
    }
  }

  /** Row `i`'s triplets under axis 1 are in range and fill column `i` as `PlaceSlice` expects. */
  lemma RowwiseSliceMatrix(atom: AxisAtom, i: nat, d: seq<real>)
    requires atom.axis.Some? && atom.axis != Some(0) && i < atom.m && |d| == atom.n
    ensures InShape(RowwiseRows(atom.m, atom.n, i), SliceCols(atom.n, i), atom.m * atom.n, atom.m)
    ensures forall p, q :: 0 <= p < atom.m * atom.n && 0 <= q < atom.m ==>
      At(FromTriplets(d, RowwiseRows(atom.m, atom.n, i), SliceCols(atom.n, i), atom.m * atom.n, atom.m), p, q)
      == if q == i then EntryOr0(d, SlicePosition(atom, p, i)) else 0.0
  {
    RowwiseRowsInShape(atom.m, atom.n, i);
    forall p, q | 0 <= p < atom.m * atom.n && 0 <= q < atom.m {
      RowwiseEmbedAt(atom.m, atom.n, i, d, p, q);
    }
  }

  /**
    Axis 0: the primitive is applied to each column `i`, and entry `k` of its gradient
    goes to cell (i*n + k, i) of an `m*n` x `n` matrix that starts at zero.

    The source applies `.T` to the primitive's result before testing it for None; the
    model tests first, which is what the `return [None]` evidently intends.
  */
  method ColumnwiseGrad(atom: AxisAtom, values: Matrix, grad: Primitive)
    returns (r: Result<seq<Option<Sparse>>, Error>)
    requires IsShape(values, atom.m, atom.n) && atom.axis == Some(0)
    requires PreservesLength(grad)
    ensures AssemblyOutcome(atom, values, grad, r)
    ensures r == Ok([None]) <==> NoneBeforeOverrun(atom, values, grad)
  {
    var m, n := atom.m, atom.n;
    var D := Zero(m * n, n);
    for i := 0 to n
      invariant PlacedUpTo(atom, values, grad, D, i)
      invariant ColumnsFitUpTo(m, n, i)
    {
      var value := Column(values, i);
      assert value == Slice(atom, values, i);
      var d := grad(value);
      if d.None? {
        NoneFirst(atom, values, grad, i);
        return Ok([None]);
      }
      var row, col := ColumnwiseRows(m, n, i), SliceCols(m, i);
      if !InShape(row, col, m * n, n) {
        ColumnOverrun(atom, values, grad, i);
        return Err(RowIndexExceedsDimensions);
      }
      ColumnFitsIff(m, n, i);
      ColumnsFitExtend(m, n, i);
      D := AddColumnSlice(atom, values, grad, D, i, d.value);
    }
    AllColumnsFit(m, n);
    PlacedAllIsGradient(atom, values, grad, D);
    return Ok([Some(D)]);
  }

  /**
    One step of the axis-0 loop: `D + csc_matrix((d, (row, col)), shape=(m*n, n))` with
    column `i`'s rows and columns, which fills column `i` of the gradient.
  */
  method AddColumnSlice(atom: AxisAtom, values: Matrix, grad: Primitive, D: Sparse, i: nat, d: seq<real>)
    returns (D': Sparse)
    requires IsShape(values, atom.m, atom.n) && atom.axis == Some(0) && i < atom.n && |d| == atom.m
    requires PlacedUpTo(atom, values, grad, D, i)
    requires grad(Slice(atom, values, i)) == Some(d)
    requires InShape(ColumnwiseRows(atom.m, atom.n, i), SliceCols(atom.m, i), atom.m * atom.n, atom.n)
    ensures D' == Add(D, FromTriplets(d, ColumnwiseRows(atom.m, atom.n, i), SliceCols(atom.m, i),
                                      atom.m * atom.n, atom.n))
    ensures PlacedUpTo(atom, values, grad, D', i + 1)
  {
    var m, n := atom.m, atom.n;
    ColumnwiseSliceMatrix(atom, i, d);
    var E := FromTriplets(d, ColumnwiseRows(m, n, i), SliceCols(m, i), m * n, n);
    PlaceSlice(atom, values, grad, D, E, i, d);
    D' := Add(D, E);
  }

  /**
    Axis 0 meeting column `i` with a gradient (as every earlier one had) but with triplet
    indices outside the shape: the operand is wide and no column without a gradient comes
    first, so the failure is the outcome the assembly promises.
  */
  lemma ColumnOverrun(atom: AxisAtom, values: Matrix, grad: Primitive, i: nat)
    requires IsShape(values, atom.m, atom.n) && atom.axis == Some(0) && i < atom.n
    requires forall j :: 0 <= j <= i ==> grad(Slice(atom, values, j)).Some?
    requires !InShape(ColumnwiseRows(atom.m, atom.n, i), SliceCols(atom.m, i), atom.m * atom.n, atom.n)
    ensures AssemblyOutcome(atom, values, grad, Err(RowIndexExceedsDimensions))
    ensures !NoneBeforeOverrun(atom, values, grad)
  {
    OverrunIsError(atom.m, atom.n, i);
    OverrunFirst(atom, values, grad, i);
  }

  /** A column without a gradient, reached with every earlier column fitting, decides `[None]`. */
  lemma NoneFirst(atom: AxisAtom, values: Matrix, grad: Primitive, i: nat)
    requires IsShape(values, atom.m, atom.n) && atom.axis == Some(0) && i < atom.n
    requires grad(Slice(atom, values, i)).None?
    requires ColumnsFitUpTo(atom.m, atom.n, i)
    ensures NoneBeforeOverrun(atom, values, grad)
    ensures AssemblyOutcome(atom, values, grad, Ok([None]))
  {
  }

  /**
    A column whose rows overrun, reached with it and every earlier column having a
    gradient, rules `[None]` out: every column without a gradient comes after it.
  */
  lemma OverrunFirst(atom: AxisAtom, values: Matrix, grad: Primitive, i: nat)
    requires IsShape(values, atom.m, atom.n) && atom.axis == Some(0) && i < atom.n
    requires forall j :: 0 <= j <= i ==> grad(Slice(atom, values, j)).Some?
    requires !ColumnFits(atom.m, atom.n, i)
    ensures !NoneBeforeOverrun(atom, values, grad)
  {
    forall q | 0 <= q < atom.n && grad(Slice(atom, values, q)).None?
      ensures !(forall j :: 0 <= j < q ==> ColumnFits(atom.m, atom.n, j))
    {
      assert i < q;
    }
  }

  /**
    Axis 1 (and any other non-None axis): the primitive is applied to each column `i`
    of the transpose, that is to row `i`, and entry `k` of its gradient goes to cell
    (i + k*m, i) of an `m*n` x `m` matrix that starts at zero.

    As on axis 0, the None test is placed before the transposition of the gradient.
  */
  method RowwiseGrad(atom: AxisAtom, values: Matrix, grad: Primitive)
    returns (r: Result<seq<Option<Sparse>>, Error>)
    requires IsShape(values, atom.m, atom.n) && atom.axis.Some? && atom.axis != Some(0)
    requires PreservesLength(grad)
    ensures AssemblyOutcome(atom, values, grad, r)
    ensures r.Ok?
  {
    var m, n := atom.m, atom.n;
    var t := Transpose(values, n);
    var D := Zero(m * n, m);
    for i := 0 to m
      invariant PlacedUpTo(atom, values, grad, D, i)
    {
      var value := Column(t, i);
      assert value == Slice(atom, values, i);
      var d := grad(value);
      if d.None? {
        return Ok([None]);
      }
      var row, col := RowwiseRows(m, n, i), SliceCols(n, i);
      RowwiseSliceMatrix(atom, i, d.value);
      var E := FromTriplets(d.value, row, col, m * n, m);
      PlaceSlice(atom, values, grad, D, E, i, d.value);
      D := Add(D, E);
    }
    PlacedAllIsGradient(atom, values, grad, D);
    return Ok([Some(D)]);
  }
}
