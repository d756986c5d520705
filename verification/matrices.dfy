/** Dense real matrices as immutable sequences of rows, indexed `a[row][col]`
    like the numpy arrays `a[row, col]` of the Python implementation. */
module Matrices {

  type Matrix = seq<seq<real>>

  predicate IsMatrix(a: Matrix, rows: nat, cols: nat) {
    |a| == rows && forall i :: 0 <= i < rows ==> |a[i]| == cols
  }

  /** np.zeros((rows, cols)) */
  function Zeros(rows: nat, cols: nat): (a: Matrix)
    ensures IsMatrix(a, rows, cols)
    ensures forall i, j :: 0 <= i < rows && 0 <= j < cols ==> a[i][j] == 0.0
  {
    seq(rows, _ => seq(cols, _ => 0.0))
  }

  /** np.identity(size) */
  function Identity(size: nat): (a: Matrix)
    ensures IsMatrix(a, size, size)
    ensures forall i, j :: 0 <= i < size && 0 <= j < size ==> a[i][j] == if i == j then 1.0 else 0.0
  {
    seq(size, i => seq(size, j => if i == j then 1.0 else 0.0))
  }

  /** The matrix `a` with the single cell `[i][j]` replaced by `v`. */
  function Set(a: Matrix, i: nat, j: nat, v: real): (b: Matrix)
    requires i < |a| && j < |a[i]|
    ensures |b| == |a| && forall r :: 0 <= r < |a| ==> |b[r]| == |a[r]|
    ensures b[i][j] == v
    ensures forall r, s :: 0 <= r < |a| && 0 <= s < |a[r]| && (r != i || s != j) ==> b[r][s] == a[r][s]
  {
    a[i := a[i][j := v]]
  }

  /** Python's negative indexing: index -1 addresses the last of `len` slots. The slot is
      the one in range that is congruent to the index modulo `len`. */
  function Wrap(index: int, len: nat): (r: nat)
    requires -(len as int) <= index < len
    ensures r < len
    ensures (r - index) % len == 0
  {
    if index < 0 then len + index else index
  }

  /** Only one slot in range is congruent to the index, so the slot Wrap picks is the
      only one Python's rule can mean. */
  lemma WrapUnique(index: int, len: nat, s: int)
    requires -(len as int) <= index < len
    requires 0 <= s < len && (s - index) % len == 0
    ensures s == Wrap(index, len)
  {
    var r := Wrap(index, len);
    var q := (s - index) / len;
    var q' := (r - index) / len;
    assert s - index == q * len;
    assert r - index == q' * len;
    assert s - r == (q - q') * len;
    MultipleInRange(q - q', len);
  }

  /** The only multiple of a positive `len` strictly between -len and len is zero. */
  lemma MultipleInRange(d: int, len: int)
    requires len > 0 && -len < d * len < len
    ensures d == 0
  {
  }
}
