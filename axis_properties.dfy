/**
  What the gradient assembly means: where each slice's entries come from in the
  vectorised operand, where their derivatives land, and how the as-written axis-0
  row offset compares with the vectorisation the other branches use.
*/
module AxisProperties {
  import opened Wrappers
  import opened DenseMatrix
  import opened AxisAtoms

  /**
    The row where entry `k` of slice `q`'s gradient belongs: the vectorised index of
    the operand entry that slice entry came from.
  */
  function IntendedRow(atom: AxisAtom, q: nat, k: nat): nat
  {
    match atom.axis
    case None => k
    case Some(a) => if a == 0 then VecIndex(atom.m, k, q) else VecIndex(atom.m, q, k)
  }

  /** The axis-0 row the vectorisation calls for: entry `k` of column `i` goes to `i*m + k`. */
  function CorrectedColumnwiseRow(m: nat, i: nat, k: nat): nat
  {
    VecIndex(m, k, i)
  }

  /**
    Entry `k` of slice `q` is the operand entry at vectorised index `IntendedRow`:
    axis None hands over the whole vectorisation, axis 0 column `q` and axis 1 row `q`.
  */
  lemma SliceReadsVec(atom: AxisAtom, values: Matrix, q: nat, k: nat)
    requires IsShape(values, atom.m, atom.n) && q < SliceCount(atom) && k < SliceLength(atom)
    ensures IntendedRow(atom, q, k) < atom.m * atom.n
    ensures Slice(atom, values, q)[k] == Vec(values, atom.m, atom.n)[IntendedRow(atom, q, k)]
  {
    match atom.axis
    case None =>
    case Some(a) =>
      if a == 0 {
        VecAt(values, atom.m, atom.n, k, q);
      } else {
        VecAt(values, atom.m, atom.n, q, k);
      }
  }

  /** Under axis 1 (and any other non-None, non-0 axis) slice `q` is row `q` of the operand. */
  lemma RowwiseSliceIsRow(atom: AxisAtom, values: Matrix, q: nat)
    requires IsShape(values, atom.m, atom.n) && atom.axis.Some? && atom.axis != Some(0)
    requires q < atom.m
    ensures Slice(atom, values, q) == values[q]
  {
    ColumnOfTranspose(values, atom.m, atom.n, q);
  }

  /**
    When the rows fit, entry `k` of slice `q`'s gradient is placed in row `RowIndex(q, k)`
    (`i*n + k` from `linspace(i*n, i*n+m-1, m)` on axis 0, `i + k*m` from
    `linspace(i, i+(n-1)*m, n)` on axis 1) of column `q`, inside the matrix.
  */
  lemma RowIndexPlacesEntry(atom: AxisAtom, q: nat, k: nat)
    requires Fits(atom) && q < SliceCount(atom) && k < SliceLength(atom)
    ensures RowIndex(atom, q, k) < atom.m * atom.n
    ensures SlicePosition(atom, RowIndex(atom, q, k), q) == Some(k)
  {
    var m, n := atom.m, atom.n;
    match atom.axis
    case None =>
    case Some(a) =>
      if a == 0 {
        ColumnwiseRowsFitIff(m, n);
      } else {
        RowwiseRowBound(m, n, q, k);
        DivModOfSum(q, k, m);
      }
  }

  /** Row `p` of column `q` holds entry `k` of slice `q`'s gradient only if `p == RowIndex(q, k)`. */
  lemma SlicePositionIsRowIndex(atom: AxisAtom, p: int, q: nat, k: nat)
    requires SlicePosition(atom, p, q) == Some(k)
    ensures p == RowIndex(atom, q, k) && k < SliceLength(atom)
  {
    match atom.axis
    case None =>
    case Some(a) =>
      if a != 0 {
        RowwiseRowOfRemainder(atom.m, q, p);
      }
  }

  /**
    The placed gradient entry: with the rows fitting, cell (RowIndex(q, k), q) of the
    expected gradient holds entry `k` of slice `q`'s gradient.
  */
  lemma ExpectedAtRowIndex(atom: AxisAtom, values: Matrix, grad: Primitive, q: nat, k: nat, d: seq<real>)
    requires IsShape(values, atom.m, atom.n) && Fits(atom) && PreservesLength(grad)
    requires q < SliceCount(atom) && k < SliceLength(atom)
    requires grad(Slice(atom, values, q)) == Some(d)
    ensures k < |d| && Expected(atom, values, grad, RowIndex(atom, q, k), q) == d[k]
  {
    RowIndexPlacesEntry(atom, q, k);
  }

  /** Under axis 1 different (row, position) pairs use different rows: the slices' row sets are disjoint. */
  lemma RowwiseRowsDisjoint(m: nat, n: nat, i: nat, k: nat, j: nat, l: nat)
    requires i < m && j < m && k < n && l < n
    ensures RowwiseRow(m, n, i, k) == RowwiseRow(m, n, j, l) <==> i == j && k == l
  {
    DivModOfSum(i, k, m);
    DivModOfSum(j, l, m);
  }

  /**
    Axes None and 1 place every entry at the row of the operand entry it came from; so
    does axis 0 on a square operand.
  */
  lemma RowIndexIsIntended(atom: AxisAtom, q: nat, k: nat)
    requires atom.axis != Some(0) || atom.m == atom.n
    ensures RowIndex(atom, q, k) == IntendedRow(atom, q, k)
  {
  }

  /** On an operand with at least two columns, axis 0's rows follow the vectorisation only if it is square. */
  lemma ColumnwiseIntendedOnlyWhenSquare(m: nat, n: nat)
    requires 1 <= m && 2 <= n
    ensures (forall i, k :: 0 <= i < n && 0 <= k < m ==>
               ColumnwiseRow(m, n, i, k) == CorrectedColumnwiseRow(m, i, k)) <==> m == n
  {
    if m != n {
      assert ColumnwiseRow(m, n, 1, 0) != CorrectedColumnwiseRow(m, 1, 0);
    }
  }

  /**
    As written, axis 0 on a 3 x 2 operand puts the derivative for entry 0 of column 1
    in row 2, the vectorised row of operand entry (2, 0), which column 1 does not contain;
    its intended row is 3.
  */
  lemma ColumnwiseMisplacesOnTallOperand()
    ensures var atom := AxisAtom(3, 2, Some(0));
      && Fits(atom)
      && RowIndex(atom, 1, 0) == 2 == VecIndex(3, 2, 0)
      && IntendedRow(atom, 1, 0) == 3
      && SlicePosition(atom, 2, 1) == Some(0)
  {
  }

  /**
    As written, axis 0 on a 2 x 3 operand needs row 6 of a 6-row matrix for column 2,
    so the assembly fails instead of returning a gradient.
  */
  lemma ColumnwiseOverrunsWideOperand()
    ensures var atom := AxisAtom(2, 3, Some(0));
      && !Fits(atom)
      && RowIndex(atom, 2, 0) == 6 == atom.m * atom.n
  {
  }

  /**
    The corrected axis-0 rows `i*m + k` are always inside the `m*n` rows, are distinct,
    and hold the derivative for the very operand entry column `i` passed in at `k`.
  */
  lemma CorrectedColumnwiseRowIsVectorization(values: Matrix, m: nat, n: nat, i: nat, k: nat)
    requires IsShape(values, m, n) && i < n && k < m
    ensures CorrectedColumnwiseRow(m, i, k) < m * n
    ensures CorrectedColumnwiseRow(m, i, k) == VecIndex(m, k, i)
    ensures Vec(values, m, n)[CorrectedColumnwiseRow(m, i, k)] == Column(values, i)[k]
    ensures forall j, l :: 0 <= j < n && 0 <= l < m && CorrectedColumnwiseRow(m, j, l) == CorrectedColumnwiseRow(m, i, k)
              ==> j == i && l == k
  {
    VecAt(values, m, n, k, i);
    forall j, l | 0 <= j < n && 0 <= l < m && CorrectedColumnwiseRow(m, j, l) == CorrectedColumnwiseRow(m, i, k)
      ensures j == i && l == k
    {
      DivModOfSum(l, j, m);
      DivModOfSum(k, i, m);
    }
  }

  /**
    With a single slice (axis 0 on one column, axis 1 on one row) the axis-wise atom
    sees the same vector and expects the same gradient as the whole-operand atom.
  */
  lemma SingleSliceAgreesWithWhole(atom: AxisAtom, values: Matrix, grad: Primitive, p: int)
    requires IsShape(values, atom.m, atom.n)
    requires (atom.axis == Some(0) && atom.n == 1) ||
             (atom.axis.Some? && atom.axis != Some(0) && atom.m == 1)
    ensures Slice(atom, values, 0) == Slice(AxisAtom(atom.m, atom.n, None), values, 0)
    ensures Expected(atom, values, grad, p, 0) == Expected(AxisAtom(atom.m, atom.n, None), values, grad, p, 0)
  {
    var m, n := atom.m, atom.n;
    var whole := AxisAtom(m, n, None);
    var s, w := Slice(atom, values, 0), Slice(whole, values, 0);
    forall k | 0 <= k < |s| ensures s[k] == w[k] {
      SliceReadsVec(atom, values, 0, k);
    }
    assert s == w;
    assert SlicePosition(atom, p, 0) == SlicePosition(whole, p, 0);
  }
}
