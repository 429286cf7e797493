/** Row-block distribution: how many rows each rank receives, where its block
    starts, the per-rank element counts and displacements handed to the
    scatter, and the scatter's effect on one rank. */
module Distribution {
  import opened JavaInt
  import opened Matrices

  function Min(x: int, y: int): int {
    if x <= y then x else y
  }

  /** Rows given to rank `r`: `rows / size`, plus one for the first
      `rows % size` ranks. */
  function RowCount(rows: nat, size: nat, r: nat): (c: nat)
    requires size > 0
    ensures rows / size <= c <= rows / size + 1
    ensures c == rows / size + 1 <==> r < rows % size
  {
    rows / size + (if r < rows % size then 1 else 0)
  }

  /** The first row of rank `r`'s block: the blocks of ranks `0 .. r-1` laid
      end to end. This is where the program's closed form
      `r * (rows / size) + min(r, rows % size)` puts it. */
  function FirstRow(rows: nat, size: nat, r: nat): (f: nat)
    requires size > 0
    ensures f == r * (rows / size) + Min(r, rows % size)
  {
    if r == 0 then 0
    else
      assert r * (rows / size) == (r - 1) * (rows / size) + rows / size;
      FirstRow(rows, size, r - 1) + RowCount(rows, size, r - 1)
  }

  /** Element count sent to rank `r` (row-major layout, `cols` per row): the
      program's ternary picks `(rows / size + 1) * cols` exactly for the
      first `rows % size` ranks. */
  function SendCount(rows: nat, cols: nat, size: nat, r: nat): (c: nat)
    requires size > 0
    ensures c == if r < rows % size then (rows / size + 1) * cols else rows / size * cols
  {
    RowCount(rows, size, r) * cols
  }

  /** Element offset of rank `r`'s block in the row-major layout, as the
      program computes it. */
  function Displacement(rows: nat, cols: nat, size: nat, r: nat): (d: nat)
    requires size > 0
    ensures d == r * (rows / size) * cols + Min(r, rows % size) * cols
  {
    var q, m := rows / size, Min(r, rows % size);
    assert (r * q + m) * cols == r * q * cols + m * cols;
    FirstRow(rows, size, r) * cols
  }

  /** A later rank's block starts no earlier than an earlier rank's. */
  lemma {:induction false} FirstRowMonotone(rows: nat, size: nat, r: nat, s: nat)
    requires size > 0 && r <= s
    ensures FirstRow(rows, size, r) <= FirstRow(rows, size, s)
    decreases s - r
  {
    if r < s {
      FirstRowMonotone(rows, size, r, s - 1);
    }
  }

  /** The blocks of all `size` ranks together hold exactly `rows` rows. */
  lemma AllRowsDistributed(rows: nat, size: nat)
    requires size > 0
    ensures FirstRow(rows, size, size) == rows
  {
  }

  /** Displacements start at zero and each one is the previous one plus the
      previous send count. */
  lemma DisplacementsChain(rows: nat, cols: nat, size: nat, r: nat)
    requires size > 0
    ensures Displacement(rows, cols, size, 0) == 0
    ensures Displacement(rows, cols, size, r + 1)
              == Displacement(rows, cols, size, r) + SendCount(rows, cols, size, r)
  {
    var f, c := FirstRow(rows, size, r), RowCount(rows, size, r);
    assert FirstRow(rows, size, r + 1) == f + c;
    assert (f + c) * cols == f * cols + c * cols;
  }

  /** Sum of a sequence of counts. */
  function Sum(s: seq<int>): int {
    if s == [] then 0 else Sum(s[..|s| - 1]) + s[|s| - 1]
  }

  /** The send counts of the first `n` ranks, in rank order. */
  function SendCounts(rows: nat, cols: nat, size: nat, n: nat): (s: seq<int>)
    requires size > 0
    ensures |s| == n
  {
    seq(n, r requires 0 <= r < n => SendCount(rows, cols, size, r))
  }

  /** The send counts add up to every element of the matrix. */
  lemma SendCountsSum(rows: nat, cols: nat, size: nat)
    requires size > 0
    ensures Sum(SendCounts(rows, cols, size, size)) == rows * cols
  {
    SendCountsPrefixSum(rows, cols, size, size);
    AllRowsDistributed(rows, size);
  }

  lemma {:induction false} SendCountsPrefixSum(rows: nat, cols: nat, size: nat, n: nat)
    requires size > 0
    ensures Sum(SendCounts(rows, cols, size, n)) == Displacement(rows, cols, size, n)
  {
    if n > 0 {
      var s := SendCounts(rows, cols, size, n);
      assert s[..n - 1] == SendCounts(rows, cols, size, n - 1);
      SendCountsPrefixSum(rows, cols, size, n - 1);
      DisplacementsChain(rows, cols, size, n - 1);
    }
  }

  /** Blocks never move backwards: a later rank's block starts no earlier
      than an earlier rank's block ends. */
  lemma {:induction false} DisplacementMonotone(rows: nat, cols: nat, size: nat, r: nat, s: nat)
    requires size > 0 && r <= s
    ensures Displacement(rows, cols, size, r) <= Displacement(rows, cols, size, s)
    decreases s - r
  {
    if r < s {
      DisplacementsChain(rows, cols, size, r);
      DisplacementMonotone(rows, cols, size, r + 1, s);
    }
  }

  /** Whether element offset `e` lies in the range sent to rank `r`. */
  predicate SentTo(rows: nat, cols: nat, size: nat, r: nat, e: int)
    requires size > 0
  {
    Displacement(rows, cols, size, r) <= e
      < Displacement(rows, cols, size, r) + SendCount(rows, cols, size, r)
  }

  /** Every element offset below `Displacement(n)` is sent to some rank below `n`. */
  lemma {:induction false} SentToSomeRank(rows: nat, cols: nat, size: nat, n: nat, e: int)
    requires size > 0 && 0 <= e < Displacement(rows, cols, size, n)
    ensures exists r :: 0 <= r < n && SentTo(rows, cols, size, r, e)
  {
    DisplacementsChain(rows, cols, size, n - 1);
    if e < Displacement(rows, cols, size, n - 1) {
      SentToSomeRank(rows, cols, size, n - 1, e);
    } else {
      assert SentTo(rows, cols, size, n - 1, e);
    }
  }

  /** The element ranges of the `size` ranks tile `[0, rows * cols)`: each
      offset in it is sent to exactly one rank, and no offset outside it is sent. */
  lemma ElementRangesTile(rows: nat, cols: nat, size: nat, e: int)
    requires size > 0
    ensures 0 <= e < rows * cols <==> exists r :: 0 <= r < size && SentTo(rows, cols, size, r, e)
    ensures forall r1, r2 ::
              (0 <= r1 < size && 0 <= r2 < size &&
               SentTo(rows, cols, size, r1, e) && SentTo(rows, cols, size, r2, e)) ==> r1 == r2
  {
    AllRowsDistributed(rows, size);
    if 0 <= e < rows * cols {
      SentToSomeRank(rows, cols, size, size, e);
    }
    forall r | 0 <= r < size && SentTo(rows, cols, size, r, e)
      ensures 0 <= e < rows * cols
    {
      DisplacementsChain(rows, cols, size, r);
      DisplacementMonotone(rows, cols, size, r + 1, size);
    }
    forall r1, r2 | 0 <= r1 < size && 0 <= r2 < size &&
        SentTo(rows, cols, size, r1, e) && SentTo(rows, cols, size, r2, e)
      ensures r1 == r2
    {
      if r1 < r2 {
        DisplacementsChain(rows, cols, size, r1);
        DisplacementMonotone(rows, cols, size, r1 + 1, r2);
      } else if r2 < r1 {
        DisplacementsChain(rows, cols, size, r2);
        DisplacementMonotone(rows, cols, size, r2 + 1, r1);
      }
    }
  }

  /** The block the program allocates for rank `r` has exactly
      `sendcounts[r] / cols` rows, so what it receives is what was sent to it. */
  lemma LocalRowsFromCount(rows: nat, cols: nat, size: nat, r: nat)
    requires size > 0 && cols > 0
    ensures SendCount(rows, cols, size, r) / cols == RowCount(rows, size, r)
  {
    ExactQuotient(RowCount(rows, size, r) * cols, cols, RowCount(rows, size, r));
  }

  /** Dividing an exact multiple `q * c` by `c` gives back `q`. */
  lemma ExactQuotient(x: int, c: int, q: int)
    requires c > 0 && x == q * c
    ensures x / c == q
  {
    var d, m := x / c, x % c;
    assert (q - d) * c == m;
    SmallMultiple(q - d, c);
  }

  /** The only multiple of `c` in `[0, c)` is zero. */
  lemma SmallMultiple(k: int, c: int)
    requires c > 0 && 0 <= k * c < c
    ensures k == 0
  {
  }

  /** Fills the per-rank element counts and displacements of the scatter:
      rank `r` receives `RowCount(r)` whole rows starting at row `FirstRow(r)`.
      The counts are computed as mathematical integers. */
  method ComputeCounts(rows: nat, cols: nat, size: nat)
    returns (sendcounts: array<int>, displacements: array<int>)
    requires size > 0
    ensures fresh(sendcounts) && fresh(displacements)
    ensures sendcounts.Length == size && displacements.Length == size
    ensures forall r :: 0 <= r < size ==>
              sendcounts[r] == SendCount(rows, cols, size, r) &&
              displacements[r] == Displacement(rows, cols, size, r)
  {
    var rowsPerProcess := rows / size;
    var extraRows := rows % size;
    sendcounts := new int[size];
    displacements := new int[size];
    for i := 0 to size
      invariant forall r :: 0 <= r < i ==>
                  sendcounts[r] == SendCount(rows, cols, size, r) &&
                  displacements[r] == Displacement(rows, cols, size, r)
    {
      sendcounts[i] := if i < extraRows then (rowsPerProcess + 1) * cols else rowsPerProcess * cols;
      displacements[i] := i * rowsPerProcess * cols + Min(i, extraRows) * cols;
    }
  }

  /** Rank `r`'s block of `g`: its rows `FirstRow(r) .. FirstRow(r) + RowCount(r)`. */
  function Block(g: Grid, size: nat, r: nat): (b: Grid)
    requires size > 0 && r < size
    ensures |b| == RowCount(|g|, size, r)
  {
    BlockFits(|g|, size, r);
    var first := FirstRow(|g|, size, r);
    g[first .. first + RowCount(|g|, size, r)]
  }

  /** Row `i` of rank `r`'s block is row `FirstRow(r) + i` of the matrix. */
  lemma BlockRow(g: Grid, size: nat, r: nat, i: nat)
    requires size > 0 && r < size && i < RowCount(|g|, size, r)
    ensures FirstRow(|g|, size, r) + i < |g|
    ensures Block(g, size, r)[i] == g[FirstRow(|g|, size, r) + i]
  {
    BlockFits(|g|, size, r);
  }

  /** The blocks of ranks `0 .. n-1` stacked in rank order; they hold as
      many rows as precede rank `n`'s block. */
  function Stacked(g: Grid, size: nat, n: nat): (s: Grid)
    requires size > 0 && n <= size
    ensures |s| == FirstRow(|g|, size, n)
  {
    if n == 0 then [] else Stacked(g, size, n - 1) + Block(g, size, n - 1)
  }

  /** Stacking the blocks of the first `n` ranks gives back the first
      `FirstRow(n)` rows. */
  lemma {:induction false} StackedPrefix(g: Grid, size: nat, n: nat)
    requires size > 0 && n <= size
    ensures FirstRow(|g|, size, n) <= |g|
    ensures Stacked(g, size, n) == g[..FirstRow(|g|, size, n)]
  {
    FirstRowMonotone(|g|, size, n, size);
    AllRowsDistributed(|g|, size);
    if n > 0 {
      StackedPrefix(g, size, n - 1);
      var a, b := FirstRow(|g|, size, n - 1), FirstRow(|g|, size, n);
      assert g[..b] == g[..a] + g[a..b];
    }
  }

  /** Concatenating the blocks of all ranks in rank order reproduces the matrix. */
  lemma BlocksReassemble(g: Grid, size: nat)
    requires size > 0
    ensures Stacked(g, size, size) == g
  {
    StackedPrefix(g, size, size);
    AllRowsDistributed(|g|, size);
  }

  /** The scatter as one rank sees it: the `sendcount` elements from element
      offset `displacement` on, in `matrix`'s row-major layout, land in
      `local`'s row-major layout. With a displacement of `firstRow` whole rows
      and counts of `local`'s size on both sides, this copies rows
      `firstRow ..` of `matrix` into the rows of `local`. */
  method ScatterBlock(matrix: array2<Int32>, local: array2<Int32>, firstRow: nat,
                      displacement: int, sendcount: int, recvcount: int)
    requires matrix != local && local.Length1 == matrix.Length1
    requires displacement == firstRow * matrix.Length1
    requires sendcount == recvcount == local.Length0 * local.Length1
    requires firstRow + local.Length0 <= matrix.Length0
    modifies local
    ensures forall i, j :: 0 <= i < local.Length0 && 0 <= j < local.Length1 ==>
              local[i, j] == matrix[firstRow + i, j]
  {
    for i := 0 to local.Length0
      invariant forall r, c :: 0 <= r < i && 0 <= c < local.Length1 ==>
                  local[r, c] == matrix[firstRow + r, c]
    {
      for j := 0 to local.Length1
        invariant forall r, c :: 0 <= r < i && 0 <= c < local.Length1 ==>
                    local[r, c] == matrix[firstRow + r, c]
        invariant forall c :: 0 <= c < j ==> local[i, c] == matrix[firstRow + i, c]
      {
        local[i, j] := matrix[firstRow + i, j];
      }
    }
  }

  /** One rank's share of a matrix: a fresh block of `RowCount(rank)` rows
      holding rank `rank`'s rows of `matrix`. The matrix must have a first row
      (its length is the column count). */
  method Distribute(matrix: array2<Int32>, size: nat, rank: nat) returns (local: array2<Int32>)
    requires matrix.Length0 > 0
    requires size > 0 && rank < size
    ensures fresh(local)
    ensures local.Length0 == RowCount(matrix.Length0, size, rank) && local.Length1 == matrix.Length1
    ensures Contents(local) == Block(Contents(matrix), size, rank)
  {
    var rows, cols := matrix.Length0, matrix.Length1;
    var rowsPerProcess := rows / size;
    var extraRows := rows % size;
    if rank < extraRows {
      local := new Int32[rowsPerProcess + 1, cols];
    } else {
      local := new Int32[rowsPerProcess, cols];
    }
    var sendcounts, displacements := ComputeCounts(rows, cols, size);
    var firstRow := FirstRow(rows, size, rank);
    BlockFits(rows, size, rank);
    ScatterBlock(matrix, local, firstRow, displacements[rank], sendcounts[rank], local.Length0 * cols);
    ScatteredIsBlock(matrix, local, size, rank);
  }

  /** Rank `rank`'s rows lie inside the matrix. */
  lemma BlockFits(rows: nat, size: nat, rank: nat)
    requires size > 0 && rank < size
    ensures FirstRow(rows, size, rank) + RowCount(rows, size, rank) <= rows
  {
    FirstRowMonotone(rows, size, rank + 1, size);
    AllRowsDistributed(rows, size);
  }

  /** A block holding rank `rank`'s rows of `matrix`, element by element, is
      that rank's block. */
  lemma ScatteredIsBlock(matrix: array2<Int32>, local: array2<Int32>, size: nat, rank: nat)
    requires size > 0 && rank < size
    requires local.Length0 == RowCount(matrix.Length0, size, rank) && local.Length1 == matrix.Length1
    requires FirstRow(matrix.Length0, size, rank) + local.Length0 <= matrix.Length0
    requires forall i, j :: 0 <= i < local.Length0 && 0 <= j < local.Length1 ==>
               local[i, j] == matrix[FirstRow(matrix.Length0, size, rank) + i, j]
    ensures Contents(local) == Block(Contents(matrix), size, rank)
  {
    var g := Contents(matrix);
    var block := Block(g, size, rank);
    forall i, j | 0 <= i < local.Length0 && 0 <= j < local.Length1
      ensures local[i, j] as int == block[i][j]
    {
      BlockRow(g, size, rank, i);
    }
    ContentsEqual(local, Block(Contents(matrix), size, rank));
  }
}
