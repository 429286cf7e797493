/** The two ring engines ("Fox" and "Cannon") run on all ranks at once. Each
    of the `size` stages does, on every rank, a local combine into the rank's
    result block, a shift of its A block and of its B block, and then an
    exchange in which every rank passes both blocks to its successor and
    receives its predecessor's. */
module Engine {
  import opened JavaInt
  import opened Matrices
  import opened Ring
  import opened Shifts
  import opened LocalCombine
  import Sequential

  /** The engines differ only in which shift each operand gets: "Fox" shifts
      A rows up and B columns left, "Cannon" the other way round. */
  datatype Variant = Fox | Cannon

  function ShiftA(v: Variant, g: Grid, n: nat, cols: nat): (r: Grid)
    requires IsMatrix(g, n, cols) && 1 <= n <= cols
    ensures IsMatrix(r, n, cols)
  {
    match v
    case Fox => RowsUp(g, n, cols)
    case Cannon => ColumnsLeft(g, n, cols)
  }

  function ShiftB(v: Variant, g: Grid, n: nat, cols: nat): (r: Grid)
    requires IsMatrix(g, n, cols) && 1 <= n <= cols
    ensures IsMatrix(r, n, cols)
  {
    match v
    case Fox => ColumnsLeft(g, n, cols)
    case Cannon => RowsUp(g, n, cols)
  }

  /** Switching the engine swaps the operands' shifts: what "Fox" does to A,
      "Cannon" does to B, and the other way round. */
  lemma VariantsSwapShifts(g: Grid, n: nat, cols: nat)
    requires IsMatrix(g, n, cols) && 1 <= n <= cols
    ensures ShiftA(Fox, g, n, cols) == ShiftB(Cannon, g, n, cols) == RowsUp(g, n, cols)
    ensures ShiftB(Fox, g, n, cols) == ShiftA(Cannon, g, n, cols) == ColumnsLeft(g, n, cols)
  {
  }

  /** A block after `t` A-shifts. */
  function ShiftAN(v: Variant, g: Grid, n: nat, cols: nat, t: nat): (r: Grid)
    requires IsMatrix(g, n, cols) && 1 <= n <= cols
    ensures IsMatrix(r, n, cols)
  {
    if t == 0 then g else ShiftA(v, ShiftAN(v, g, n, cols, t - 1), n, cols)
  }

  /** A block after `t` B-shifts. */
  function ShiftBN(v: Variant, g: Grid, n: nat, cols: nat, t: nat): (r: Grid)
    requires IsMatrix(g, n, cols) && 1 <= n <= cols
    ensures IsMatrix(r, n, cols)
  {
    if t == 0 then g else ShiftB(v, ShiftBN(v, g, n, cols, t - 1), n, cols)
  }

  /** What every rank holds between stages: its A block, its B block and its
      result block, indexed by rank. */
  datatype RingState = RingState(blocksA: seq<Grid>, blocksB: seq<Grid>, results: seq<Grid>)

  /** Every rank holds three `n` by `cols` blocks. */
  predicate Shaped(blocks: seq<Grid>, size: nat, n: nat, cols: nat) {
    |blocks| == size && forall r :: 0 <= r < size ==> IsMatrix(blocks[r], n, cols)
  }

  predicate ValidState(st: RingState, size: nat, n: nat, cols: nat) {
    Shaped(st.blocksA, size, n, cols) && Shaped(st.blocksB, size, n, cols) &&
    Shaped(st.results, size, n, cols)
  }

  /** The initial A and B blocks of `size > 0` ranks, each `n` by `cols`
      with `n <= cols`. */
  predicate Inputs(blocksA: seq<Grid>, blocksB: seq<Grid>, n: nat, cols: nat) {
    |blocksA| > 0 && Shaped(blocksA, |blocksA|, n, cols) && Shaped(blocksB, |blocksA|, n, cols) &&
    1 <= n <= cols
  }

  /** Every rank's A block, A-shifted once. */
  function ShiftedAs(v: Variant, blocks: seq<Grid>, size: nat, n: nat, cols: nat): (r: seq<Grid>)
    requires 1 <= n <= cols && Shaped(blocks, size, n, cols)
    ensures Shaped(r, size, n, cols)
  {
    seq(size, k requires 0 <= k < size => ShiftA(v, blocks[k], n, cols))
  }

  /** Every rank's B block, B-shifted once. */
  function ShiftedBs(v: Variant, blocks: seq<Grid>, size: nat, n: nat, cols: nat): (r: seq<Grid>)
    requires 1 <= n <= cols && Shaped(blocks, size, n, cols)
    ensures Shaped(r, size, n, cols)
  {
    seq(size, k requires 0 <= k < size => ShiftB(v, blocks[k], n, cols))
  }

  /** Every rank's result block after its local combine. */
  function CombinedAll(st: RingState, size: nat, n: nat, cols: nat): (r: seq<Grid>)
    requires 1 <= n <= cols && ValidState(st, size, n, cols)
    ensures Shaped(r, size, n, cols)
  {
    seq(size, k requires 0 <= k < size => Combined(st.results[k], st.blocksA[k], st.blocksB[k], n, cols))
  }

  /** The local part of one stage on every rank: combine, then shift both
      blocks. */
  function LocalPart(v: Variant, st: RingState, size: nat, n: nat, cols: nat): (next: RingState)
    requires 1 <= n <= cols && ValidState(st, size, n, cols)
    ensures ValidState(next, size, n, cols)
  {
    RingState(ShiftedAs(v, st.blocksA, size, n, cols), ShiftedBs(v, st.blocksB, size, n, cols),
              CombinedAll(st, size, n, cols))
  }

  /** One stage on every rank: the local part, then both blocks exchanged
      round the ring. */
  function Stage(v: Variant, st: RingState, size: nat, n: nat, cols: nat): (next: RingState)
    requires size > 0 && 1 <= n <= cols && ValidState(st, size, n, cols)
    ensures ValidState(next, size, n, cols)
  {
    var local := LocalPart(v, st, size, n, cols);
    RingState(Exchange(local.blocksA), Exchange(local.blocksB), local.results)
  }

  /** The local part of one stage on one rank, in place on the rank's
      arrays: combine into the result block, then shift the A block and the
      B block as the variant prescribes. The exchange that ends the stage
      is `Exchange` on the blocks of all ranks. */
  method RankStage(v: Variant, a: array2<Int32>, b: array2<Int32>, c: array2<Int32>)
    requires a != b && a != c && b != c
    requires a.Length0 == b.Length0 == c.Length0 && a.Length1 == b.Length1 == c.Length1
    requires 1 <= c.Length0 <= c.Length1
    modifies a, b, c
    ensures Contents(c) == Combined(old(Contents(c)), old(Contents(a)), old(Contents(b)), c.Length0, c.Length1)
    ensures Contents(a) == ShiftA(v, old(Contents(a)), a.Length0, a.Length1)
    ensures Contents(b) == ShiftB(v, old(Contents(b)), b.Length0, b.Length1)
  {
    Combine(c, a, b);
    match v
    case Fox =>
      ShiftRowsUp(a);
      ShiftColumnsLeft(b);
    case Cannon =>
      ShiftColumnsLeft(a);
      ShiftRowsUp(b);
  }

  /** Rank `r`'s result block after `s` stages, stated from where its blocks
      came from: at stage `t` it combines the blocks that started on rank
      `Origin(r, t)`, each shifted `t` times. */
  function Accumulated(v: Variant, blocksA: seq<Grid>, blocksB: seq<Grid>, n: nat, cols: nat,
                       r: nat, s: nat): (acc: Grid)
    requires Inputs(blocksA, blocksB, n, cols) && r < |blocksA| && s <= |blocksA|
    ensures IsMatrix(acc, n, cols)
  {
    if s == 0 then Zeros(n, cols)
    else
      var o := Origin(r, s - 1, |blocksA|);
      Combined(Accumulated(v, blocksA, blocksB, n, cols, r, s - 1),
               ShiftAN(v, blocksA[o], n, cols, s - 1), ShiftBN(v, blocksB[o], n, cols, s - 1), n, cols)
  }

  /** The A blocks held after `s` stages: rank `r` holds the block that
      started on rank `Origin(r, s)`, A-shifted `s` times. */
  function HeldAs(v: Variant, blocksA: seq<Grid>, n: nat, cols: nat, s: nat): (r: seq<Grid>)
    requires |blocksA| > 0 && Shaped(blocksA, |blocksA|, n, cols)
    requires 1 <= n <= cols && s <= |blocksA|
    ensures Shaped(r, |blocksA|, n, cols)
  {
    var size := |blocksA|;
    seq(size, k requires 0 <= k < size => ShiftAN(v, blocksA[Origin(k, s, size)], n, cols, s))
  }

  /** The B blocks held after `s` stages, likewise. */
  function HeldBs(v: Variant, blocksB: seq<Grid>, n: nat, cols: nat, s: nat): (r: seq<Grid>)
    requires |blocksB| > 0 && Shaped(blocksB, |blocksB|, n, cols)
    requires 1 <= n <= cols && s <= |blocksB|
    ensures Shaped(r, |blocksB|, n, cols)
  {
    var size := |blocksB|;
    seq(size, k requires 0 <= k < size => ShiftBN(v, blocksB[Origin(k, s, size)], n, cols, s))
  }

  /** The result blocks after `s` stages. */
  function ResultsAfter(v: Variant, blocksA: seq<Grid>, blocksB: seq<Grid>, n: nat, cols: nat,
                        s: nat): (r: seq<Grid>)
    requires Inputs(blocksA, blocksB, n, cols) && s <= |blocksA|
    ensures Shaped(r, |blocksA|, n, cols)
  {
    var size := |blocksA|;
    seq(size, k requires 0 <= k < size => Accumulated(v, blocksA, blocksB, n, cols, k, s))
  }

  /** The state after `s` stages, stated from the initial blocks. */
  function AfterStages(v: Variant, blocksA: seq<Grid>, blocksB: seq<Grid>, n: nat, cols: nat,
                       s: nat): (st: RingState)
    requires Inputs(blocksA, blocksB, n, cols) && s <= |blocksA|
    ensures ValidState(st, |blocksA|, n, cols)
  {
    RingState(HeldAs(v, blocksA, n, cols, s), HeldBs(v, blocksB, n, cols, s),
              ResultsAfter(v, blocksA, blocksB, n, cols, s))
  }

  /** A zero result block on each of `size` ranks. */
  function ZeroBlocks(size: nat, n: nat, cols: nat): (r: seq<Grid>)
    ensures Shaped(r, size, n, cols)
    ensures forall k :: 0 <= k < size ==> r[k] == Zeros(n, cols)
  {
    seq(size, k => Zeros(n, cols))
  }

  /** Before the first stage every rank holds its own blocks and a zero result. */
  lemma InitialState(v: Variant, blocksA: seq<Grid>, blocksB: seq<Grid>, n: nat, cols: nat)
    requires Inputs(blocksA, blocksB, n, cols)
    ensures AfterStages(v, blocksA, blocksB, n, cols, 0)
              == RingState(blocksA, blocksB, ZeroBlocks(|blocksA|, n, cols))
  {
  }

  /** Shifting every held A block and passing it on gives the A blocks held
      one stage later. */
  lemma HeldAsStep(v: Variant, blocksA: seq<Grid>, n: nat, cols: nat, s: nat)
    requires |blocksA| > 0 && Shaped(blocksA, |blocksA|, n, cols)
    requires 1 <= n <= cols && s < |blocksA|
    ensures Exchange(ShiftedAs(v, HeldAs(v, blocksA, n, cols, s), |blocksA|, n, cols))
              == HeldAs(v, blocksA, n, cols, s + 1)
  {
    var size := |blocksA|;
    var held := HeldAs(v, blocksA, n, cols, s);
    var next := Exchange(ShiftedAs(v, held, size, n, cols));
    forall r | 0 <= r < size
      ensures next[r] == HeldAs(v, blocksA, n, cols, s + 1)[r]
    {
      var p := Predecessor(r, size);
      assert Origin(p, s, size) == Origin(r, s + 1, size);
      assert next[r] == ShiftA(v, held[p], n, cols);
    }
  }

  /** Likewise for the B blocks. */
  lemma HeldBsStep(v: Variant, blocksB: seq<Grid>, n: nat, cols: nat, s: nat)
    requires |blocksB| > 0 && Shaped(blocksB, |blocksB|, n, cols)
    requires 1 <= n <= cols && s < |blocksB|
    ensures Exchange(ShiftedBs(v, HeldBs(v, blocksB, n, cols, s), |blocksB|, n, cols))
              == HeldBs(v, blocksB, n, cols, s + 1)
  {
    var size := |blocksB|;
    var held := HeldBs(v, blocksB, n, cols, s);
    var next := Exchange(ShiftedBs(v, held, size, n, cols));
    forall r | 0 <= r < size
      ensures next[r] == HeldBs(v, blocksB, n, cols, s + 1)[r]
    {
      var p := Predecessor(r, size);
      assert Origin(p, s, size) == Origin(r, s + 1, size);
      assert next[r] == ShiftB(v, held[p], n, cols);
    }
  }

  /** One more stage on the state after `s` stages gives the state after `s + 1`. */
  lemma StageStep(v: Variant, blocksA: seq<Grid>, blocksB: seq<Grid>, n: nat, cols: nat, s: nat)
    requires Inputs(blocksA, blocksB, n, cols) && s < |blocksA|
    ensures Stage(v, AfterStages(v, blocksA, blocksB, n, cols, s), |blocksA|, n, cols)
              == AfterStages(v, blocksA, blocksB, n, cols, s + 1)
  {
    var st := AfterStages(v, blocksA, blocksB, n, cols, s);
    HeldAsStep(v, blocksA, n, cols, s);
    HeldBsStep(v, blocksB, n, cols, s);
    assert CombinedAll(st, |blocksA|, n, cols) == ResultsAfter(v, blocksA, blocksB, n, cols, s + 1);
  }

  /** `StageStep` for a state known to be the one after `s` stages. */
  lemma StageFrom(v: Variant, st: RingState, blocksA: seq<Grid>, blocksB: seq<Grid>, n: nat, cols: nat, s: nat)
    requires Inputs(blocksA, blocksB, n, cols) && s < |blocksA|
    requires st == AfterStages(v, blocksA, blocksB, n, cols, s)
    ensures ValidState(st, |blocksA|, n, cols)
    ensures Stage(v, st, |blocksA|, n, cols) == AfterStages(v, blocksA, blocksB, n, cols, s + 1)
  {
    StageStep(v, blocksA, blocksB, n, cols, s);
  }

  /** After all `size` stages every rank holds its own blocks again, each
      shifted `size` times. */
  lemma BlocksReturnHome(v: Variant, blocksA: seq<Grid>, blocksB: seq<Grid>, n: nat, cols: nat)
    requires Inputs(blocksA, blocksB, n, cols)
    ensures var st := AfterStages(v, blocksA, blocksB, n, cols, |blocksA|);
            forall r :: 0 <= r < |blocksA| ==>
              st.blocksA[r] == ShiftAN(v, blocksA[r], n, cols, |blocksA|) &&
              st.blocksB[r] == ShiftBN(v, blocksB[r], n, cols, |blocksA|)
  {
    var size := |blocksA|;
    forall r | 0 <= r < size
      ensures Origin(r, size, size) == r
    {
    }
  }

  /** With a single rank there is one stage and no communication: the result
      is one combine into a zero block, which on the leading square is the
      product with the transposed B block and elsewhere stays zero. */
  lemma SingleRank(v: Variant, a: Grid, b: Grid, n: nat, cols: nat)
    requires IsMatrix(a, n, cols) && IsMatrix(b, n, cols) && 1 <= n <= cols
    ensures var acc := Accumulated(v, [a], [b], n, cols, 0, 1);
            (forall i, j :: 0 <= i < n && 0 <= j < n ==>
               acc[i][j] == Sequential.Product(a, Transpose(b, n, cols), n, cols, n)[i][j]) &&
            (forall i, j :: 0 <= i < n && n <= j < cols ==> acc[i][j] == 0)
  {
    var acc := Accumulated(v, [a], [b], n, cols, 0, 1);
    assert Origin(0, 0, 1) == 0 && [a][0] == a && [b][0] == b;
    assert Accumulated(v, [a], [b], n, cols, 0, 0) == Zeros(n, cols);
    assert ShiftAN(v, a, n, cols, 0) == a && ShiftBN(v, b, n, cols, 0) == b;
    assert acc == Combined(Zeros(n, cols), a, b, n, cols);
    forall i, j | 0 <= i < n && 0 <= j < n
      ensures acc[i][j] == Sequential.Product(a, Transpose(b, n, cols), n, cols, n)[i][j]
    {
      CombineIsProductWithTranspose(a, b, n, cols, i, j);
    }
  }
}
