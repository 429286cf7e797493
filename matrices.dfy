/** Row-major integer matrices: the `int[][]` values of the program as
    `array2<Int32>` objects, and their contents as sequences of rows. */
module Matrices {
  import opened JavaInt

  /** The contents of a matrix, one sequence per row. */
  type Grid = seq<seq<int>>

  /** `g` has exactly `rows` rows, each of `cols` elements. */
  predicate IsMatrix(g: Grid, rows: nat, cols: nat) {
    |g| == rows && forall i :: 0 <= i < |g| ==> |g[i]| == cols
  }

  /** The current contents of array `m`. */
  ghost function Contents(m: array2<Int32>): (g: Grid)
    reads m
    ensures IsMatrix(g, m.Length0, m.Length1)
    ensures forall i, j :: 0 <= i < m.Length0 && 0 <= j < m.Length1 ==> g[i][j] == m[i, j] as int
  {
    seq(m.Length0, i requires 0 <= i < m.Length0 reads m =>
      seq(m.Length1, j requires 0 <= j < m.Length1 reads m => m[i, j] as int))
  }

  /** Column `j` of array `m`, read element by element. */
  ghost function ColumnOf(m: array2<Int32>, j: nat): (c: seq<int>)
    reads m
    requires j < m.Length1
    ensures |c| == m.Length0 && forall k :: 0 <= k < m.Length0 ==> c[k] == m[k, j] as int
  {
    seq(m.Length0, k requires 0 <= k < m.Length0 reads m => m[k, j] as int)
  }

  /** Element-wise agreement of an array with a grid of its shape is
      equality of contents. */
  lemma ContentsEqual(m: array2<Int32>, g: Grid)
    requires IsMatrix(g, m.Length0, m.Length1)
    requires forall i, j :: 0 <= i < m.Length0 && 0 <= j < m.Length1 ==> m[i, j] as int == g[i][j]
    ensures Contents(m) == g
  {
    var c := Contents(m);
    forall i | 0 <= i < m.Length0
      ensures c[i] == g[i]
    {
      assert |c[i]| == |g[i]|;
      forall j | 0 <= j < m.Length1
        ensures c[i][j] == g[i][j]
      {
      }
    }
  }

  /** A `rows` by `cols` matrix of zeros, as Java's `new int[rows][cols]` holds. */
  function Zeros(rows: nat, cols: nat): (g: Grid)
    ensures IsMatrix(g, rows, cols)
    ensures forall i, j :: 0 <= i < rows && 0 <= j < cols ==> g[i][j] == 0
  {
    seq(rows, i => seq(cols, j => 0))
  }

  /** Sum over `k < n` of `x[k] * y[k]`: the inner product of two rows. */
  function RowDot(x: seq<int>, y: seq<int>, n: nat): int
    requires n <= |x| && n <= |y|
  {
    if n == 0 then 0 else RowDot(x, y, n - 1) + x[n - 1] * y[n - 1]
  }

  /** The inner product does not depend on the order of its operands, so a
      row of A against a row of B is also that row of B against the row of A. */
  lemma {:induction false} RowDotSymmetric(x: seq<int>, y: seq<int>, n: nat)
    requires n <= |x| && n <= |y|
    ensures RowDot(x, y, n) == RowDot(y, x, n)
  {
    if n > 0 {
      RowDotSymmetric(x, y, n - 1);
    }
  }

  /** The column of an array is the column of its contents. */
  lemma ColumnOfContents(m: array2<Int32>, j: nat)
    requires j < m.Length1
    ensures ColumnOf(m, j) == Column(Contents(m), j)
  {
  }

  /** One more term of an inner product accumulated in Java ints: when
      `acc` holds the wrapped partial sum over `k` terms, `acc += x[k] * y[k]`
      leaves the wrapped partial sum over `k + 1` terms. */
  lemma WrappedDotStep(c0: int, x: seq<int>, y: seq<int>, k: nat, acc: Int32, u: Int32, v: Int32)
    requires k < |x| && k < |y|
    requires acc as int == Wrap(c0 + RowDot(x, y, k)) && u as int == x[k] && v as int == y[k]
    ensures MulAdd(acc, u, v) as int == Wrap(c0 + RowDot(x, y, k + 1))
  {
    var p := x[k] * y[k];
    WrapAdd(c0 + RowDot(x, y, k), p);
    WrapAdd(acc as int, p);
    assert c0 + RowDot(x, y, k + 1) == (c0 + RowDot(x, y, k)) + p;
  }

  /** Column `j` of `g`. */
  function Column(g: Grid, j: nat): (c: seq<int>)
    requires forall i :: 0 <= i < |g| ==> j < |g[i]|
    ensures |c| == |g| && forall i :: 0 <= i < |g| ==> c[i] == g[i][j]
  {
    seq(|g|, i requires 0 <= i < |g| => g[i][j])
  }

  /** The transpose of a `rows` by `cols` matrix. */
  function Transpose(g: Grid, rows: nat, cols: nat): (t: Grid)
    requires IsMatrix(g, rows, cols)
    ensures IsMatrix(t, cols, rows)
    ensures forall i, j :: 0 <= i < cols && 0 <= j < rows ==> t[i][j] == g[j][i]
  {
    seq(cols, i requires 0 <= i < cols => Column(g, i))
  }

  /** Overwrites `dst` with the contents of `src`, a matrix of the same shape. */
  method Copy(dst: array2<Int32>, src: array2<Int32>)
    requires dst != src && dst.Length0 == src.Length0 && dst.Length1 == src.Length1
    modifies dst
    ensures Contents(dst) == Contents(src)
  {
    for i := 0 to dst.Length0
      invariant forall r, c :: 0 <= r < i && 0 <= c < dst.Length1 ==> dst[r, c] == src[r, c]
    {
      for j := 0 to dst.Length1
        invariant forall r, c :: 0 <= r < i && 0 <= c < dst.Length1 ==> dst[r, c] == src[r, c]
        invariant forall c :: 0 <= c < j ==> dst[i, c] == src[i, c]
      {
        dst[i, j] := src[i, j];
      }
    }
    ContentsEqual(dst, Contents(src));
  }
}
