/** The two in-place block shifts of the ring engines, exactly as the program
    performs them with `System.arraycopy` and a saved corner element. Neither
    is a true cyclic rotation: the lemmas at the end say where they agree with
    one and where they do not. */
module Shifts {
  import opened JavaInt
  import opened Matrices

  /** `System.arraycopy` between rows of one matrix: `len` elements of row
      `srcRow` from column `srcCol` on are written to row `dstRow` from column
      `dstCol` on, as if through a temporary copy (so overlapping ranges are
      safe). Every other element is left unchanged. */
  method ArrayCopy(m: array2<Int32>, srcRow: nat, srcCol: nat, dstRow: nat, dstCol: nat, len: nat)
    requires srcRow < m.Length0 && srcCol + len <= m.Length1
    requires dstRow < m.Length0 && dstCol + len <= m.Length1
    modifies m
    ensures forall j :: dstCol <= j < dstCol + len ==> m[dstRow, j] == old(m[srcRow, srcCol + (j - dstCol)])
    ensures forall i, j :: 0 <= i < m.Length0 && 0 <= j < m.Length1 && (i != dstRow || j < dstCol || dstCol + len <= j) ==>
              m[i, j] == old(m[i, j])
  {
    var tmp := seq(len, t requires 0 <= t < len reads m => m[srcRow, srcCol + t]);
    for t := 0 to len
      invariant forall j :: dstCol <= j < dstCol + t ==> m[dstRow, j] == tmp[j - dstCol]
      invariant forall i, j :: 0 <= i < m.Length0 && 0 <= j < m.Length1 && (i != dstRow || j < dstCol || dstCol + t <= j) ==>
                  m[i, j] == old(m[i, j])
    {
      m[dstRow, dstCol + t] := tmp[t];
    }
  }

  /** The "rows up" shift of an `n` by `cols` block: row `i` takes the old
      row `i + 1` for `i < n - 1`; the last row keeps its contents except its
      first element, which takes the old corner `[0][0]`. */
  function RowsUp(g: Grid, n: nat, cols: nat): (r: Grid)
    requires IsMatrix(g, n, cols) && n >= 1 && cols >= 1
    ensures IsMatrix(r, n, cols)
  {
    seq(n, i requires 0 <= i < n => if i < n - 1 then g[i + 1] else g[n - 1][0 := g[0][0]])
  }

  /** The "columns left" shift of an `n` by `cols` block (`n <= cols`): each
      row `i < n - 1` moves its elements `1 .. cols-1` one place left and keeps
      its old last element at the end; row `n - 1` is not shifted; finally
      `[0][n-1]` takes the old corner `[0][0]`. */
  function ColumnsLeft(g: Grid, n: nat, cols: nat): (r: Grid)
    requires IsMatrix(g, n, cols) && 1 <= n <= cols
    ensures IsMatrix(r, n, cols)
  {
    var shifted := seq(n, i requires 0 <= i < n =>
                     if i < n - 1 then g[i][1..] + [g[i][cols - 1]] else g[i]);
    shifted[0 := shifted[0][n - 1 := g[0][0]]]
  }

  /** Shifts the block `m` "rows up" in place. */
  method ShiftRowsUp(m: array2<Int32>)
    requires m.Length0 >= 1 && m.Length1 >= 1
    modifies m
    ensures Contents(m) == RowsUp(old(Contents(m)), m.Length0, m.Length1)
  {
    var n, cols := m.Length0, m.Length1;
    ghost var g := Contents(m);
    var temp := m[0, 0];
    for i := 0 to n - 1
      invariant forall r, c :: 0 <= r < i && 0 <= c < cols ==> m[r, c] as int == g[r + 1][c]
      invariant forall r, c :: i <= r < n && 0 <= c < cols ==> m[r, c] as int == g[r][c]
    {
      ArrayCopy(m, i + 1, 0, i, 0, cols);
    }
    m[n - 1, 0] := temp;
    RowsUpContents(m, g);
  }

  lemma RowsUpContents(m: array2<Int32>, g: Grid)
    requires IsMatrix(g, m.Length0, m.Length1) && m.Length0 >= 1 && m.Length1 >= 1
    requires forall r, c {:trigger m[r, c]} :: 0 <= r < m.Length0 && 0 <= c < m.Length1 ==>
               m[r, c] as int == if r == m.Length0 - 1 && c == 0 then g[0][0]
                                 else if r < m.Length0 - 1 then g[r + 1][c]
                                 else g[r][c]
    ensures Contents(m) == RowsUp(g, m.Length0, m.Length1)
  {
    ContentsEqual(m, RowsUp(g, m.Length0, m.Length1));
  }

  /** Shifts the block `m` "columns left" in place. */
  method ShiftColumnsLeft(m: array2<Int32>)
    requires 1 <= m.Length0 <= m.Length1
    modifies m
    ensures Contents(m) == ColumnsLeft(old(Contents(m)), m.Length0, m.Length1)
  {
    var n, cols := m.Length0, m.Length1;
    ghost var g := Contents(m);
    var temp := m[0, 0];
    for i := 0 to n - 1
      invariant forall r, c :: 0 <= r < i && 0 <= c < cols - 1 ==> m[r, c] as int == g[r][c + 1]
      invariant forall r :: 0 <= r < i ==> m[r, cols - 1] as int == g[r][cols - 1]
      invariant forall r, c :: i <= r < n && 0 <= c < cols ==> m[r, c] as int == g[r][c]
    {
      ArrayCopy(m, i, 1, i, 0, cols - 1);
    }
    m[0, n - 1] := temp;
    ColumnsLeftContents(m, g);
  }

  lemma ColumnsLeftContents(m: array2<Int32>, g: Grid)
    requires IsMatrix(g, m.Length0, m.Length1) && 1 <= m.Length0 <= m.Length1
    requires forall r, c {:trigger m[r, c]} :: 0 <= r < m.Length0 && 0 <= c < m.Length1 ==>
               m[r, c] as int == if r == 0 && c == m.Length0 - 1 then g[0][0]
                                 else if r < m.Length0 - 1 && c < m.Length1 - 1 then g[r][c + 1]
                                 else g[r][c]
    ensures Contents(m) == ColumnsLeft(g, m.Length0, m.Length1)
  {
    var n, cols := m.Length0, m.Length1;
    forall r, c | 0 <= r < n && 0 <= c < cols
      ensures m[r, c] as int == ColumnsLeft(g, n, cols)[r][c]
    {
      ColumnsLeftAt(g, n, cols, r, c);
    }
    ContentsEqual(m, ColumnsLeft(g, n, cols));
  }

  /** Element (r, c) after "columns left": the old corner at `[0][n-1]`, the
      right-hand neighbour in rows `r < n - 1` (but for the last column), and
      the old element everywhere else. */
  lemma ColumnsLeftAt(g: Grid, n: nat, cols: nat, r: nat, c: nat)
    requires IsMatrix(g, n, cols) && 1 <= n <= cols && r < n && c < cols
    ensures ColumnsLeft(g, n, cols)[r][c]
              == if r == 0 && c == n - 1 then g[0][0]
                 else if r < n - 1 && c < cols - 1 then g[r][c + 1]
                 else g[r][c]
  {
    if r < n - 1 {
      assert (g[r][1..] + [g[r][cols - 1]])[c] == if c < cols - 1 then g[r][c + 1] else g[r][cols - 1];
    }
  }

  /** A one-row block is left unchanged by either shift. */
  lemma SingleRowUnchanged(g: Grid, cols: nat)
    requires IsMatrix(g, 1, cols) && cols >= 1
    ensures RowsUp(g, 1, cols) == g
    ensures ColumnsLeft(g, 1, cols) == g
  {
    assert RowsUp(g, 1, cols)[0] == g[0];
    assert ColumnsLeft(g, 1, cols)[0] == g[0];
  }

  /** The true cyclic rotation of the rows up by one place. */
  function RotateRowsUp(g: Grid, n: nat): (r: Grid)
    requires |g| == n && n >= 1
    ensures |r| == n
    ensures forall i :: 0 <= i < n - 1 ==> r[i] == g[i + 1]
    ensures r[n - 1] == g[0]
  {
    g[1..] + [g[0]]
  }

  /** "Rows up" agrees with the true rotation on every row but the last; its
      last row agrees with it only in the first element, so the two are equal
      exactly when the first and last rows agree from the second element on. */
  lemma RowsUpVersusRotation(g: Grid, n: nat, cols: nat)
    requires IsMatrix(g, n, cols) && n >= 1 && cols >= 1
    ensures forall i :: 0 <= i < n - 1 ==> RowsUp(g, n, cols)[i] == RotateRowsUp(g, n)[i]
    ensures RowsUp(g, n, cols)[n - 1][0] == RotateRowsUp(g, n)[n - 1][0]
    ensures RowsUp(g, n, cols) == RotateRowsUp(g, n) <==> g[n - 1][1..] == g[0][1..]
  {
    var up, rot := RowsUp(g, n, cols), RotateRowsUp(g, n);
    if up == rot {
      assert up[n - 1][1..] == rot[n - 1][1..];
    }
    if g[n - 1][1..] == g[0][1..] {
      assert up[n - 1] == [g[0][0]] + g[n - 1][1..];
      assert g[0] == [g[0][0]] + g[0][1..];
    }
  }

  /** The true cyclic rotation of every row left by one place. */
  function RotateColumnsLeft(g: Grid, n: nat, cols: nat): (r: Grid)
    requires IsMatrix(g, n, cols) && cols >= 1
    ensures IsMatrix(r, n, cols)
  {
    seq(n, i requires 0 <= i < n => g[i][1..] + [g[i][0]])
  }

  /** "Columns left" agrees with the true rotation in every row `i < n - 1`
      except at its last column (which keeps the row's old last element) and
      at `[0][n-1]`; the last row is not rotated at all. */
  lemma ColumnsLeftVersusRotation(g: Grid, n: nat, cols: nat)
    requires IsMatrix(g, n, cols) && 1 <= n <= cols
    ensures forall i, j :: 0 <= i < n - 1 && 0 <= j < cols - 1 && (i, j) != (0, n - 1) ==>
              ColumnsLeft(g, n, cols)[i][j] == RotateColumnsLeft(g, n, cols)[i][j]
    ensures forall i :: 0 <= i < n - 1 && (i, cols - 1) != (0, n - 1) ==>
              ColumnsLeft(g, n, cols)[i][cols - 1] == g[i][cols - 1]
    ensures n >= 2 ==> ColumnsLeft(g, n, cols)[n - 1] == g[n - 1]
    ensures ColumnsLeft(g, n, cols)[0][n - 1] == g[0][0]
  {
  }

  /** A concrete block on which neither shift is a rotation. */
  lemma ShiftsAreNotRotations()
    ensures RowsUp([[1, 2], [3, 4]], 2, 2) == [[3, 4], [1, 4]]
    ensures RotateRowsUp([[1, 2], [3, 4]], 2) == [[3, 4], [1, 2]]
    ensures ColumnsLeft([[1, 2], [3, 4]], 2, 2) == [[2, 1], [3, 4]]
    ensures RotateColumnsLeft([[1, 2], [3, 4]], 2, 2) == [[2, 1], [4, 3]]
  {
    var g: Grid := [[1, 2], [3, 4]];
    assert RowsUp(g, 2, 2)[1] == [1, 4];
    assert ColumnsLeft(g, 2, 2)[0] == [2, 1];
    assert ColumnsLeft(g, 2, 2)[1] == [3, 4];
    assert RotateColumnsLeft(g, 2, 2)[0] == [2, 1];
    assert RotateColumnsLeft(g, 2, 2)[1] == [4, 3];
  }
}
