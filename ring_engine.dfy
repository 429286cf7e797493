/** A whole run of a ring engine on the arrays of every rank: the fresh
    result blocks and the loop of `size` stages. */
module RingEngine {
  import opened JavaInt
  import opened Matrices
  import opened Engine
  import opened RankBlocks
  import opened RingStage

  /** The stage loop of an engine, run on all `size` ranks: every rank starts
      with its own A and B blocks and a fresh zero result block; each stage
      combines, shifts and exchanges on every rank. After `size` stages rank
      `r` holds the combines of the blocks that reached it, which started on
      every rank once. */
  method RunEngine(v: Variant, arraysA: seq<array2<Int32>>, arraysB: seq<array2<Int32>>, n: nat, cols: nat)
    returns (arraysC: seq<array2<Int32>>)
    requires |arraysA| > 0 && RankArrays(arraysA, |arraysA|, n, cols) && RankArrays(arraysB, |arraysA|, n, cols)
    requires Disjoint(arraysA, arraysB) && 1 <= n <= cols
    modifies arraysA, arraysB
    ensures |arraysC| == |arraysA| && forall k :: 0 <= k < |arraysC| ==> fresh(arraysC[k])
    ensures AllContents(arraysC) == ResultsAfter(v, old(AllContents(arraysA)), old(AllContents(arraysB)), n, cols, |arraysA|)
    ensures AllContents(arraysA) == HeldAs(v, old(AllContents(arraysA)), n, cols, |arraysA|)
    ensures AllContents(arraysB) == HeldBs(v, old(AllContents(arraysB)), n, cols, |arraysA|)
  {
    ghost var blocksA, blocksB := AllContents(arraysA), AllContents(arraysB);
    arraysC := NewResults(|arraysA|, n, cols);
    ArraysShaped(arraysA, n, cols);
    ArraysShaped(arraysB, n, cols);
    InitialState(v, blocksA, blocksB, n, cols);
    RunStages(v, arraysA, arraysB, arraysC, n, cols, blocksA, blocksB);
  }

  /** The stage loop: `size` stages on the arrays of every rank, which start
      in the state before the first stage for the blocks `blocksA` and
      `blocksB`. */
  method RunStages(v: Variant, arraysA: seq<array2<Int32>>, arraysB: seq<array2<Int32>>,
                   arraysC: seq<array2<Int32>>, n: nat, cols: nat,
                   ghost blocksA: seq<Grid>, ghost blocksB: seq<Grid>)
    requires |arraysA| > 0 && RankArrays(arraysA, |arraysA|, n, cols) && RankArrays(arraysB, |arraysA|, n, cols)
    requires RankArrays(arraysC, |arraysA|, n, cols)
    requires Disjoint(arraysA, arraysB) && Disjoint(arraysA, arraysC) && Disjoint(arraysB, arraysC) && 1 <= n <= cols
    requires Inputs(blocksA, blocksB, n, cols) && |blocksA| == |arraysA|
    requires State(arraysA, arraysB, arraysC) == AfterStages(v, blocksA, blocksB, n, cols, 0)
    modifies arraysA, arraysB, arraysC
    ensures State(arraysA, arraysB, arraysC) == AfterStages(v, blocksA, blocksB, n, cols, |arraysA|)
  {
    for stage := 0 to |arraysA|
      invariant State(arraysA, arraysB, arraysC) == AfterStages(v, blocksA, blocksB, n, cols, stage)
    {
      NextStage(v, arraysA, arraysB, arraysC, n, cols, blocksA, blocksB, stage);
    }
  }

  /** Stage `stage` of the loop takes the arrays from the state after
      `stage` stages to the state after `stage + 1`. */
  method NextStage(v: Variant, arraysA: seq<array2<Int32>>, arraysB: seq<array2<Int32>>,
                   arraysC: seq<array2<Int32>>, n: nat, cols: nat,
                   ghost blocksA: seq<Grid>, ghost blocksB: seq<Grid>, ghost stage: nat)
    requires |arraysA| > 0 && RankArrays(arraysA, |arraysA|, n, cols) && RankArrays(arraysB, |arraysA|, n, cols)
    requires RankArrays(arraysC, |arraysA|, n, cols)
    requires Disjoint(arraysA, arraysB) && Disjoint(arraysA, arraysC) && Disjoint(arraysB, arraysC) && 1 <= n <= cols
    requires Inputs(blocksA, blocksB, n, cols) && |blocksA| == |arraysA| && stage < |arraysA|
    requires State(arraysA, arraysB, arraysC) == AfterStages(v, blocksA, blocksB, n, cols, stage)
    modifies arraysA, arraysB, arraysC
    ensures State(arraysA, arraysB, arraysC) == AfterStages(v, blocksA, blocksB, n, cols, stage + 1)
  {
    StageFrom(v, State(arraysA, arraysB, arraysC), blocksA, blocksB, n, cols, stage);
    StageInPlace(v, arraysA, arraysB, arraysC, n, cols);
  }
}
