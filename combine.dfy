/** The local combine step of both ring engines: every entry (i, j) of the
    leading `n` by `n` square of the result block accumulates the inner
    product of row `i` of the A block with row `j` of the B block. */
module LocalCombine {
  import opened JavaInt
  import opened Matrices
  import Sequential

  /** The result block after one combine: entry (i, j) with `j < n` adds the
      inner product of `a[i]` and `b[j]` over all `cols` columns, in Java ints;
      columns `n ..` are left as they were. */
  function Combined(acc: Grid, a: Grid, b: Grid, n: nat, cols: nat): (r: Grid)
    requires IsMatrix(acc, n, cols) && IsMatrix(a, n, cols) && IsMatrix(b, n, cols) && n <= cols
    ensures IsMatrix(r, n, cols)
  {
    seq(n, i requires 0 <= i < n =>
      seq(cols, j requires 0 <= j < cols =>
        if j < n then Wrap(acc[i][j] + RowDot(a[i], b[j], cols)) else acc[i][j]))
  }

  /** `acc[i, j]` accumulates `a[i, k] * b[j, k]` for every `k < cols` in Java
      ints; every other entry is left unchanged. */
  method AccumulateRowProduct(acc: array2<Int32>, a: array2<Int32>, b: array2<Int32>, i: nat, j: nat)
    requires acc != a && acc != b
    requires i < acc.Length0 && j < acc.Length1 && i < a.Length0 && j < b.Length0
    requires a.Length1 == b.Length1
    modifies acc
    ensures acc[i, j] as int
              == Wrap(old(acc[i, j]) as int + RowDot(Contents(a)[i], Contents(b)[j], a.Length1))
    ensures forall r, s :: 0 <= r < acc.Length0 && 0 <= s < acc.Length1 && (r, s) != (i, j) ==>
              acc[r, s] == old(acc[r, s])
  {
    ghost var x, y := Contents(a)[i], Contents(b)[j];
    ghost var c0 := old(acc[i, j]) as int;
    for k := 0 to a.Length1
      invariant acc[i, j] as int == Wrap(c0 + RowDot(x, y, k))
      invariant forall r, s :: 0 <= r < acc.Length0 && 0 <= s < acc.Length1 && (r, s) != (i, j) ==>
                  acc[r, s] == old(acc[r, s])
    {
      WrappedDotStep(c0, x, y, k, acc[i, j], a[i, k], b[j, k]);
      acc[i, j] := MulAdd(acc[i, j], a[i, k], b[j, k]);
    }
  }

  /** Row `i` of a combine pass: entries (i, j) with `j < n` accumulate
      their inner products; every other entry is left unchanged. */
  method CombineRow(acc: array2<Int32>, a: array2<Int32>, b: array2<Int32>, i: nat)
    requires acc != a && acc != b
    requires a.Length0 == b.Length0 == acc.Length0
    requires a.Length1 == b.Length1 == acc.Length1
    requires i < acc.Length0 <= acc.Length1
    modifies acc
    ensures forall r, s :: 0 <= r < acc.Length0 && 0 <= s < acc.Length1 ==>
              acc[r, s] as int
                == if r == i && s < acc.Length0
                   then Wrap(old(acc[r, s]) as int + RowDot(Contents(a)[r], Contents(b)[s], acc.Length1))
                   else old(acc[r, s]) as int
  {
    for j := 0 to acc.Length0
      invariant forall r, s :: 0 <= r < acc.Length0 && 0 <= s < acc.Length1 ==>
                  acc[r, s] as int
                    == if r == i && s < j
                       then Wrap(old(acc[r, s]) as int + RowDot(Contents(a)[r], Contents(b)[s], acc.Length1))
                       else old(acc[r, s]) as int
    {
      AccumulateRowProduct(acc, a, b, i, j);
    }
  }

  /** One combine pass on an `n` by `cols` result block (`n <= cols`, as the
      result column index runs up to `n`). */
  method Combine(acc: array2<Int32>, a: array2<Int32>, b: array2<Int32>)
    requires acc != a && acc != b
    requires a.Length0 == b.Length0 == acc.Length0
    requires a.Length1 == b.Length1 == acc.Length1
    requires acc.Length0 <= acc.Length1
    modifies acc
    ensures Contents(acc)
              == Combined(old(Contents(acc)), Contents(a), Contents(b), acc.Length0, acc.Length1)
  {
    var n, cols := acc.Length0, acc.Length1;
    ghost var g, ga, gb := Contents(acc), Contents(a), Contents(b);
    for i := 0 to n
      invariant forall r, s :: 0 <= r < n && 0 <= s < cols ==>
                  acc[r, s] as int == if r < i && s < n then Wrap(g[r][s] + RowDot(ga[r], gb[s], cols))
                                      else g[r][s]
    {
      CombineRow(acc, a, b, i);
    }
    CombinedContents(acc, g, ga, gb);
  }

  /** A block whose every entry is the combined one holds `Combined`. */
  lemma CombinedContents(acc: array2<Int32>, g: Grid, ga: Grid, gb: Grid)
    requires acc.Length0 <= acc.Length1
    requires IsMatrix(g, acc.Length0, acc.Length1) && IsMatrix(ga, acc.Length0, acc.Length1)
    requires IsMatrix(gb, acc.Length0, acc.Length1)
    requires forall r, s {:trigger acc[r, s]} :: 0 <= r < acc.Length0 && 0 <= s < acc.Length1 ==>
               acc[r, s] as int == if s < acc.Length0 then Wrap(g[r][s] + RowDot(ga[r], gb[s], acc.Length1))
                                   else g[r][s]
    ensures Contents(acc) == Combined(g, ga, gb, acc.Length0, acc.Length1)
  {
    ContentsEqual(acc, Combined(g, ga, gb, acc.Length0, acc.Length1));
  }

  /** On the leading square, a combine into a zero block is the product of
      the A block with the TRANSPOSE of the B block, not with the B block. */
  lemma CombineIsProductWithTranspose(a: Grid, b: Grid, n: nat, cols: nat, i: nat, j: nat)
    requires IsMatrix(a, n, cols) && IsMatrix(b, n, cols) && n <= cols
    requires i < n && j < n
    ensures Combined(Zeros(n, cols), a, b, n, cols)[i][j]
              == Sequential.Product(a, Transpose(b, n, cols), n, cols, n)[i][j]
  {
    var t := Transpose(b, n, cols);
    assert Column(t, j) == b[j];
    assert Zeros(n, cols)[i][j] == 0;
  }

  /** An inner product of two rows of length 2, written out. */
  lemma RowDotOfTwo(x: seq<int>, y: seq<int>)
    requires |x| == 2 && |y| == 2
    ensures RowDot(x, y, 2) == x[0] * y[0] + x[1] * y[1]
  {
    assert RowDot(x, y, 1) == x[0] * y[0];
  }

  /** One combine of the 2 by 2 block `[[0, 1], [0, 0]]` with itself. */
  lemma CombineExample()
    ensures Combined(Zeros(2, 2), [[0, 1], [0, 0]], [[0, 1], [0, 0]], 2, 2) == [[1, 0], [0, 0]]
  {
    var a: Grid := [[0, 1], [0, 0]];
    RowDotOfTwo(a[0], a[0]);
    RowDotOfTwo(a[0], a[1]);
    RowDotOfTwo(a[1], a[0]);
    RowDotOfTwo(a[1], a[1]);
    var c := Combined(Zeros(2, 2), a, a, 2, 2);
    assert c[0] == [1, 0];
    assert c[1] == [0, 0];
  }

  /** The product of the 2 by 2 block `[[0, 1], [0, 0]]` with itself. */
  lemma ProductExample()
    ensures Sequential.Product([[0, 1], [0, 0]], [[0, 1], [0, 0]], 2, 2, 2) == [[0, 0], [0, 0]]
  {
    var a: Grid := [[0, 1], [0, 0]];
    assert Column(a, 0) == [0, 0];
    assert Column(a, 1) == [1, 0];
    RowDotOfTwo(a[0], Column(a, 0));
    RowDotOfTwo(a[0], Column(a, 1));
    RowDotOfTwo(a[1], Column(a, 0));
    RowDotOfTwo(a[1], Column(a, 1));
    var p := Sequential.Product(a, a, 2, 2, 2);
    assert p[0] == [0, 0];
    assert p[1] == [0, 0];
  }

  /** A 2 by 2 block on which one combine differs from the product. */
  lemma CombineIsNotProduct()
    ensures var a: Grid := [[0, 1], [0, 0]];
            Combined(Zeros(2, 2), a, a, 2, 2) != Sequential.Product(a, a, 2, 2, 2)
  {
    CombineExample();
    ProductExample();
    assert [[1, 0], [0, 0]] != [[0, 0], [0, 0]] by {
      assert [[1, 0], [0, 0]][0][0] == 1;
    }
  }
}
