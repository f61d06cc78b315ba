/**
  The numeric value of a matrix operand, stored as a sequence of rows, and the
  slicing and flattening operations the gradient assembly applies to it.
*/
module DenseMatrix {

  /** A dense matrix as a sequence of rows. */
  type Matrix = seq<seq<real>>

  /** `v` has `m` rows of `n` entries each. */
  predicate IsShape(v: Matrix, m: nat, n: nat)
  {
    |v| == m && forall r :: 0 <= r < m ==> |v[r]| == n
  }

  /** Column `c` of `v` (`v[:, c]`), as a vector of length `|v|`. */
  function Column(v: Matrix, c: nat): (col: seq<real>)
    requires forall r :: 0 <= r < |v| ==> c < |v[r]|
    ensures |col| == |v|
    ensures forall r :: 0 <= r < |v| ==> col[r] == v[r][c]
  {
    seq(|v|, r requires 0 <= r < |v| => v[r][c])
  }

  /** The transpose of an `|v|` x `n` matrix (`np.transpose(v)`). */
  function Transpose(v: Matrix, n: nat): (t: Matrix)
    requires IsShape(v, |v|, n)
    ensures IsShape(t, n, |v|)
    ensures forall c, r :: 0 <= c < n && 0 <= r < |v| ==> t[c][r] == v[r][c]
  {
    seq(n, c requires 0 <= c < n => seq(|v|, r requires 0 <= r < |v| => v[r][c]))
  }

  /** The rows of `rows` laid end to end (a row-major reshape into one column). */
  function Flatten(rows: Matrix): seq<real>
  {
    if |rows| == 0 then [] else rows[0] + Flatten(rows[1..])
  }

  /**
    The vectorisation of an `m` x `n` operand used by the gradient: transpose,
    then flatten row by row (`np.reshape(v.T, (m*n, 1))`).
  */
  function Vec(v: Matrix, m: nat, n: nat): (x: seq<real>)
    requires IsShape(v, m, n)
    ensures |x| == m * n
  {
    FlattenLength(Transpose(v, n), m);
    Flatten(Transpose(v, n))
  }

  lemma {:induction false} FlattenLength(rows: Matrix, w: nat)
    requires forall j :: 0 <= j < |rows| ==> |rows[j]| == w
    ensures |Flatten(rows)| == |rows| * w
  {
    if |rows| > 0 {
      FlattenLength(rows[1..], w);
      assert |rows| * w == w + (|rows| - 1) * w;
    }
  }

  /** Entry `k` of row `c` sits at index `c * w + k` of the flattening. */
  lemma {:induction false} FlattenAt(rows: Matrix, w: nat, c: nat, k: nat)
    requires forall j :: 0 <= j < |rows| ==> |rows[j]| == w
    requires c < |rows| && k < w
    ensures c * w + k < |Flatten(rows)| && Flatten(rows)[c * w + k] == rows[c][k]
  {
    FlattenLength(rows, w);
    FlattenLength(rows[1..], w);
    if c > 0 {
      FlattenAt(rows[1..], w, c - 1, k);
      assert c * w + k == w + ((c - 1) * w + k);
    }
  }

  /** Index of entry (r, c) of an `m`-row operand in its column-major vectorisation. */
  function VecIndex(m: nat, r: nat, c: nat): nat
  {
    c * m + r
  }

  /**
    The vectorisation is column-major: it has `m * n` entries and entry (r, c)
    of the operand sits at index `VecIndex(m, r, c)`.
  */
  lemma VecAt(v: Matrix, m: nat, n: nat, r: nat, c: nat)
    requires IsShape(v, m, n) && r < m && c < n
    ensures VecIndex(m, r, c) < m * n && Vec(v, m, n)[VecIndex(m, r, c)] == v[r][c]
  {
    var t := Transpose(v, n);
    FlattenAt(t, m, c, r);
    assert Vec(v, m, n) == Flatten(t);
    assert t[c][r] == v[r][c];
  }

  /** Column `i` of the transpose is row `i` of the operand. */
  lemma ColumnOfTranspose(v: Matrix, m: nat, n: nat, i: nat)
    requires IsShape(v, m, n) && i < m
    ensures Column(Transpose(v, n), i) == v[i]
  {
    var col := Column(Transpose(v, n), i);
    assert |col| == n == |v[i]|;
    assert forall c :: 0 <= c < n ==> col[c] == v[i][c];
  }
}
