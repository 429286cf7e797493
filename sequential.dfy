/** The single-process pieces of the program: the test-data initialiser and
    the reference triple-loop multiplication used as the oracle. */
module Sequential {
  import opened JavaInt
  import opened Matrices

  /** The test data: entry (i, j) holds the Java int `i + j`. */
  function InitialGrid(rows: nat, cols: nat): (g: Grid)
    ensures IsMatrix(g, rows, cols)
  {
    seq(rows, i => seq(cols, j => Wrap(i + j)))
  }

  /** Fills every entry (i, j) of `m` with `i + j`. */
  method InitializeMatrix(m: array2<Int32>)
    modifies m
    ensures Contents(m) == InitialGrid(m.Length0, m.Length1)
  {
    for i := 0 to m.Length0
      invariant forall r, c :: 0 <= r < i && 0 <= c < m.Length1 ==> m[r, c] as int == Wrap(r + c)
    {
      for j := 0 to m.Length1
        invariant forall r, c :: 0 <= r < i && 0 <= c < m.Length1 ==> m[r, c] as int == Wrap(r + c)
        invariant forall c :: 0 <= c < j ==> m[i, c] as int == Wrap(i + c)
      {
        m[i, j] := Wrap(i + j) as Int32;
      }
    }
    ContentsEqual(m, InitialGrid(m.Length0, m.Length1));
  }

  /** The product of `a` (rows by inner) and the first `inner` rows of `b`
      (each `cols` wide), each entry reduced to a Java int. */
  function Product(a: Grid, b: Grid, rows: nat, inner: nat, cols: nat): (p: Grid)
    requires IsMatrix(a, rows, inner)
    requires inner <= |b| && forall k :: 0 <= k < |b| ==> |b[k]| == cols
    ensures IsMatrix(p, rows, cols)
  {
    seq(rows, i requires 0 <= i < rows =>
      seq(cols, j requires 0 <= j < cols => Wrap(RowDot(a[i], Column(b, j), inner))))
  }

  /** One entry of the product: `c[i, j]` accumulates `a[i, k] * b[k, j]` for
      `k < a.Length1` in Java ints. Every other entry is left unchanged. */
  method AccumulateEntry(c: array2<Int32>, a: array2<Int32>, b: array2<Int32>, i: nat, j: nat)
    requires c != a && c != b
    requires i < c.Length0 && j < c.Length1 && i < a.Length0 && j < b.Length1
    requires a.Length1 <= b.Length0
    modifies c
    ensures c[i, j] as int == Wrap(old(c[i, j]) as int + RowDot(Contents(a)[i], ColumnOf(b, j), a.Length1))
    ensures forall r, s :: 0 <= r < c.Length0 && 0 <= s < c.Length1 && (r, s) != (i, j) ==>
              c[r, s] == old(c[r, s])
  {
    ghost var x, y := Contents(a)[i], ColumnOf(b, j);
    ghost var c0 := old(c[i, j]) as int;
    for k := 0 to a.Length1
      invariant c[i, j] as int == Wrap(c0 + RowDot(x, y, k))
      invariant forall r, s :: 0 <= r < c.Length0 && 0 <= s < c.Length1 && (r, s) != (i, j) ==>
                  c[r, s] == old(c[r, s])
    {
      WrappedDotStep(c0, x, y, k, c[i, j], a[i, k], b[k, j]);
      c[i, j] := MulAdd(c[i, j], a[i, k], b[k, j]);
    }
  }

  /** The reference multiplication: a fresh `a.Length0` by `b.Length1` matrix
      whose entry (i, j) is the Java-int sum over `k < a.Length1` of
      `a[i, k] * b[k, j]`. `b` must have a first row (its length gives the
      result's width), and when any entry is computed `b` must have at least as
      many rows as `a` has columns. */
  method Multiply(a: array2<Int32>, b: array2<Int32>) returns (c: array2<Int32>)
    requires b.Length0 > 0
    requires a.Length0 > 0 && b.Length1 > 0 ==> a.Length1 <= b.Length0
    ensures fresh(c)
    ensures c.Length0 == a.Length0 && c.Length1 == b.Length1
    ensures a.Length0 > 0 && b.Length1 > 0 ==>
              Contents(c) == Product(Contents(a), Contents(b), a.Length0, a.Length1, b.Length1)
  {
    c := new Int32[a.Length0, b.Length1]((i, j) => 0);
    ghost var ga, gb := Contents(a), Contents(b);
    for i := 0 to a.Length0
      invariant forall r, s :: 0 <= r < c.Length0 && 0 <= s < c.Length1 ==>
                  c[r, s] as int == if r < i then Wrap(RowDot(ga[r], Column(gb, s), a.Length1)) else 0
    {
      for j := 0 to b.Length1
        invariant forall r, s :: 0 <= r < c.Length0 && 0 <= s < c.Length1 ==>
                    c[r, s] as int == if r < i || (r == i && s < j)
                               then Wrap(RowDot(ga[r], Column(gb, s), a.Length1)) else 0
      {
        AccumulateEntry(c, a, b, i, j);
        ColumnOfContents(b, j);
      }
    }
    if a.Length0 > 0 && b.Length1 > 0 {
      ContentsEqual(c, Product(ga, gb, a.Length0, a.Length1, b.Length1));
    }
  }

  /** The inner product of a row `i, i+1, i+2, i+3` with a column
      `j, j+1, j+2, j+3`, in closed form. */
  lemma ConsecutiveDot(x: seq<int>, y: seq<int>, i: int, j: int)
    requires |x| == 4 && |y| == 4
    requires forall k :: 0 <= k < 4 ==> x[k] == i + k && y[k] == k + j
    ensures RowDot(x, y, 4) == 4 * i * j + 6 * (i + j) + 14
  {
    assert RowDot(x, y, 1) == i * j;
    assert RowDot(x, y, 2) == 2 * i * j + (i + j) + 1;
    assert RowDot(x, y, 3) == 3 * i * j + 3 * (i + j) + 5;
  }

  /** Entry (i, j) of the square of the 4 by 4 test matrix, in closed form. */
  lemma ScenarioEntry(i: nat, j: nat)
    requires i < 4 && j < 4
    ensures var m := InitialGrid(4, 4);
            Product(m, m, 4, 4, 4)[i][j] == 4 * i * j + 6 * (i + j) + 14
  {
    var m := InitialGrid(4, 4);
    var row, col := m[i], Column(m, j);
    forall k | 0 <= k < 4
      ensures row[k] == i + k && col[k] == k + j
    {
      assert row[k] == Wrap(i + k) && InRange(i + k);
      assert col[k] == Wrap(k + j) && InRange(k + j);
    }
    ConsecutiveDot(row, col, i, j);
    assert InRange(RowDot(row, col, 4));
  }

  /** The program's own inputs: with 4 by 4 operands from the initialiser, the
      reference multiplication yields this matrix. */
  lemma FourByFourScenario()
    ensures var m := InitialGrid(4, 4);
            Product(m, m, 4, 4, 4)
              == [[14, 20, 26, 32], [20, 30, 40, 50], [26, 40, 54, 68], [32, 50, 68, 86]]
  {
    var p := Product(InitialGrid(4, 4), InitialGrid(4, 4), 4, 4, 4);
    ScenarioRow(0);
    ScenarioRow(1);
    ScenarioRow(2);
    ScenarioRow(3);
  }

  /** Row `i` of the square of the 4 by 4 test matrix. */
  lemma ScenarioRow(i: nat)
    requires i < 4
    ensures var m := InitialGrid(4, 4);
            Product(m, m, 4, 4, 4)[i] == [6 * i + 14, 10 * i + 20, 14 * i + 26, 18 * i + 32]
  {
    ScenarioEntry(i, 0);
    ScenarioEntry(i, 1);
    ScenarioEntry(i, 2);
    ScenarioEntry(i, 3);
  }
}
