/**
  Sparse matrices in coordinate form, as far as the gradient assembly uses them:
  an all-zero matrix of a given shape, the sum of two matrices of the same shape,
  and the matrix built from (value, row, column) triplets.
*/
module SparseMatrix {

  /** A `rows` x `cols` matrix; cells absent from `entries` hold zero. */
  datatype Sparse = Sparse(rows: nat, cols: nat, entries: map<(int, int), real>)

  /** Every stored cell lies inside the shape. */
  ghost predicate Valid(s: Sparse)
  {
    forall c | c in s.entries :: 0 <= c.0 < s.rows && 0 <= c.1 < s.cols
  }

  /** The value held in cell (p, q). */
  function At(s: Sparse, p: int, q: int): real
  {
    if (p, q) in s.entries then s.entries[(p, q)] else 0.0
  }

  /** The empty sparse matrix of a shape. */
  function Zero(rows: nat, cols: nat): (z: Sparse)
    ensures z.rows == rows && z.cols == cols && Valid(z)
    ensures forall p, q :: At(z, p, q) == 0.0
  {
    Sparse(rows, cols, map[])
  }

  /** Sparse addition `a + b`; the shapes must agree. */
  function Add(a: Sparse, b: Sparse): (s: Sparse)
    requires a.rows == b.rows && a.cols == b.cols
    ensures s.rows == a.rows && s.cols == a.cols
    ensures Valid(a) && Valid(b) ==> Valid(s)
    ensures forall p, q :: At(s, p, q) == At(a, p, q) + At(b, p, q)
  {
    Sparse(a.rows, a.cols,
           map c | c in a.entries.Keys + b.entries.Keys :: At(a, c.0, c.1) + At(b, c.0, c.1))
  }

  /** The matrix of a shape holding `v` in cell (p, q) and zero elsewhere. */
  function Single(rows: nat, cols: nat, p: int, q: int, v: real): (s: Sparse)
    requires 0 <= p < rows && 0 <= q < cols
    ensures s.rows == rows && s.cols == cols && Valid(s)
    ensures At(s, p, q) == v
    ensures forall p', q' :: p' != p || q' != q ==> At(s, p', q') == 0.0
  {
    Sparse(rows, cols, map[(p, q) := v])
  }

  /** Every (row, column) index pair lies inside the shape. */
  predicate InShape(ri: seq<int>, ci: seq<int>, rows: nat, cols: nat)
    requires |ri| == |ci|
  {
    forall k :: 0 <= k < |ri| ==> 0 <= ri[k] < rows && 0 <= ci[k] < cols
  }

  /** No (row, column) index pair occurs twice. */
  ghost predicate DistinctCells(ri: seq<int>, ci: seq<int>)
    requires |ri| == |ci|
  {
    forall a, b :: 0 <= a < b < |ri| ==> ri[a] != ri[b] || ci[a] != ci[b]
  }

  /**
    The matrix of a shape built from triplets (data[k], ri[k], ci[k]): values given
    for the same cell are summed. The constructor refuses indices outside the shape,
    so callers check `InShape` first.
  */
  function FromTriplets(data: seq<real>, ri: seq<int>, ci: seq<int>, rows: nat, cols: nat): (s: Sparse)
    requires |data| == |ri| == |ci|
    requires InShape(ri, ci, rows, cols)
    ensures s.rows == rows && s.cols == cols && Valid(s)
    ensures DistinctCells(ri, ci) ==>
      forall k :: 0 <= k < |ri| ==> At(s, ri[k], ci[k]) == data[k]
    ensures forall p, q :: (forall k :: 0 <= k < |ri| ==> ri[k] != p || ci[k] != q) ==> At(s, p, q) == 0.0
    decreases |data|
  {
    if |data| == 0 then Zero(rows, cols)
    else
      assert InShape(ri[1..], ci[1..], rows, cols) by {
        forall k | 0 <= k < |ri| - 1 ensures 0 <= ri[1..][k] < rows && 0 <= ci[1..][k] < cols {
          assert ri[1..][k] == ri[k + 1] && ci[1..][k] == ci[k + 1];
        }
      }
      var rest := FromTriplets(data[1..], ri[1..], ci[1..], rows, cols);
      FromTripletsStep(data, ri, ci, rows, cols, rest);
      Add(Single(rows, cols, ri[0], ci[0], data[0]), rest)
  }

  /**
    Prepending one triplet to a matrix that holds the remaining triplets gives a matrix
    that holds them all: the first cell gets `data[0]` when no later triplet names it,
    the later cells keep their values, and every unnamed cell stays zero.
  */
  lemma FromTripletsStep(data: seq<real>, ri: seq<int>, ci: seq<int>, rows: nat, cols: nat, rest: Sparse)
    requires |data| == |ri| == |ci| > 0
    requires InShape(ri, ci, rows, cols)
    requires rest.rows == rows && rest.cols == cols && Valid(rest)
    requires DistinctCells(ri[1..], ci[1..]) ==>
      forall k :: 0 <= k < |ri[1..]| ==> At(rest, ri[1..][k], ci[1..][k]) == data[1..][k]
    requires forall p, q :: (forall k :: 0 <= k < |ri[1..]| ==> ri[1..][k] != p || ci[1..][k] != q) ==> At(rest, p, q) == 0.0
    ensures var s := Add(Single(rows, cols, ri[0], ci[0], data[0]), rest);
      && s.rows == rows && s.cols == cols && Valid(s)
      && (DistinctCells(ri, ci) ==> forall k :: 0 <= k < |ri| ==> At(s, ri[k], ci[k]) == data[k])
      && forall p, q :: (forall k :: 0 <= k < |ri| ==> ri[k] != p || ci[k] != q) ==> At(s, p, q) == 0.0
  {
    var one := Single(rows, cols, ri[0], ci[0], data[0]);
    var s := Add(one, rest);
    var tr, tc, td := ri[1..], ci[1..], data[1..];
    if DistinctCells(ri, ci) {
      assert DistinctCells(tr, tc) by {
        forall a, b | 0 <= a < b < |tr| ensures tr[a] != tr[b] || tc[a] != tc[b] {
          assert tr[a] == ri[a + 1] && tr[b] == ri[b + 1] && tc[a] == ci[a + 1] && tc[b] == ci[b + 1];
        }
      }
      forall k | 0 <= k < |ri| ensures At(s, ri[k], ci[k]) == data[k] {
        if k == 0 {
          forall j | 0 <= j < |tr| ensures tr[j] != ri[0] || tc[j] != ci[0] {
            assert tr[j] == ri[j + 1] && tc[j] == ci[j + 1];
          }
        } else {
          assert tr[k - 1] == ri[k] && tc[k - 1] == ci[k] && td[k - 1] == data[k];
        }
      }
    }
    forall p, q | forall k :: 0 <= k < |ri| ==> ri[k] != p || ci[k] != q
      ensures At(s, p, q) == 0.0
    {
      forall j | 0 <= j < |tr| ensures tr[j] != p || tc[j] != q {
        assert tr[j] == ri[j + 1] && tc[j] == ci[j + 1];
      }
    }
  }
}
