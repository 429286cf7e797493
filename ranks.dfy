/** The arrays of all ranks at once: each rank owns one array for its A
    block, one for its B block and one for its result block, and what they
    hold together is a `RingState`. */
module RankBlocks {
  import opened JavaInt
  import opened Matrices
  import opened Ring
  import opened LocalCombine
  import opened Engine

  /** `size` distinct arrays, one per rank, each an `n` by `cols` block. */
  predicate RankArrays(ms: seq<array2<Int32>>, size: nat, n: nat, cols: nat) {
    |ms| == size &&
    (forall k :: 0 <= k < size ==> ms[k].Length0 == n && ms[k].Length1 == cols) &&
    (forall k, l :: 0 <= k < l < size ==> ms[k] != ms[l])
  }

  /** No array of `xs` is an array of `ys`. */
  predicate Disjoint(xs: seq<array2<Int32>>, ys: seq<array2<Int32>>) {
    forall k, l :: 0 <= k < |xs| && 0 <= l < |ys| ==> xs[k] != ys[l]
  }

  /** The contents of every rank's array, in rank order. */
  ghost function AllContents(ms: seq<array2<Int32>>): (gs: seq<Grid>)
    reads ms
    ensures |gs| == |ms|
  {
    seq(|ms|, k requires 0 <= k < |ms| reads ms => Contents(ms[k]))
  }

  /** Rank 0 holding the last rank's block and every other rank its
      predecessor's is the exchange. */
  lemma ExchangeParts(after: seq<Grid>, before: seq<Grid>)
    requires |after| == |before| > 0 && after[0] == before[|before| - 1]
    requires forall j :: 0 <= j < |before| - 1 ==> after[j + 1] == before[j]
    ensures after == Exchange(before)
  {
    var want := Exchange(before);
    forall j | 0 <= j < |before|
      ensures after[j] == want[j]
    {
      if j > 0 {
        assert after[(j - 1) + 1] == before[j - 1];
      }
    }
  }

  /** What the arrays of all ranks hold. */
  ghost function State(arraysA: seq<array2<Int32>>, arraysB: seq<array2<Int32>>, arraysC: seq<array2<Int32>>): RingState
    reads arraysA, arraysB, arraysC
  {
    RingState(AllContents(arraysA), AllContents(arraysB), AllContents(arraysC))
  }

  /** The contents of `n` by `cols` arrays are `n` by `cols` grids. */
  lemma ArraysShaped(ms: seq<array2<Int32>>, n: nat, cols: nat)
    requires RankArrays(ms, |ms|, n, cols)
    ensures Shaped(AllContents(ms), |ms|, n, cols)
  {
  }

  /** Every rank having done its local part, rank by rank, is the local part
      of the stage on all ranks. */
  lemma LocalParts(v: Variant, st: RingState, after: RingState, size: nat, n: nat, cols: nat)
    requires 1 <= n <= cols && ValidState(st, size, n, cols)
    requires |after.blocksA| == |after.blocksB| == |after.results| == size
    requires forall j :: 0 <= j < size ==>
               after.blocksA[j] == ShiftA(v, st.blocksA[j], n, cols) &&
               after.blocksB[j] == ShiftB(v, st.blocksB[j], n, cols) &&
               after.results[j] == Combined(st.results[j], st.blocksA[j], st.blocksB[j], n, cols)
    ensures after == LocalPart(v, st, size, n, cols)
  {
  }

  /** Every rank but the last passes its contents to the next rank, from the
      top down; rank 0 keeps its own. */
  method PassUp(ms: seq<array2<Int32>>, n: nat, cols: nat)
    requires |ms| > 0 && RankArrays(ms, |ms|, n, cols)
    modifies ms
    ensures unchanged(ms[0])
    ensures forall j :: 0 <= j < |ms| - 1 ==> Contents(ms[j + 1]) == old(Contents(ms[j]))
  {
    var k := |ms| - 1;
    while k > 0
      invariant 0 <= k < |ms|
      invariant forall j :: 0 <= j <= k ==> unchanged(ms[j])
      invariant forall j :: k <= j < |ms| - 1 ==> Contents(ms[j + 1]) == old(Contents(ms[j]))
    {
      Copy(ms[k], ms[k - 1]);
      k := k - 1;
    }
  }

  /** The local part of one stage on rank `k`; every other rank's arrays
      are left unchanged. */
  method RankStep(v: Variant, arraysA: seq<array2<Int32>>, arraysB: seq<array2<Int32>>,
                  arraysC: seq<array2<Int32>>, n: nat, cols: nat, k: nat)
    requires k < |arraysA| && RankArrays(arraysA, |arraysA|, n, cols) && RankArrays(arraysB, |arraysA|, n, cols)
    requires RankArrays(arraysC, |arraysA|, n, cols)
    requires Disjoint(arraysA, arraysB) && Disjoint(arraysA, arraysC) && Disjoint(arraysB, arraysC) && 1 <= n <= cols
    modifies arraysA[k], arraysB[k], arraysC[k]
    ensures Contents(arraysA[k]) == ShiftA(v, old(Contents(arraysA[k])), n, cols)
    ensures Contents(arraysB[k]) == ShiftB(v, old(Contents(arraysB[k])), n, cols)
    ensures Contents(arraysC[k]) == Combined(old(Contents(arraysC[k])), old(Contents(arraysA[k])), old(Contents(arraysB[k])), n, cols)
    ensures forall j :: 0 <= j < |arraysA| && j != k ==> unchanged(arraysA[j], arraysB[j], arraysC[j])
  {
    RankStage(v, arraysA[k], arraysB[k], arraysC[k]);
  }

  /** Java's `new int[blockSize][cols]` on every rank: fresh zero blocks. */
  method NewResults(size: nat, n: nat, cols: nat) returns (arraysC: seq<array2<Int32>>)
    ensures RankArrays(arraysC, size, n, cols)
    ensures forall k :: 0 <= k < size ==> fresh(arraysC[k])
    ensures AllContents(arraysC) == ZeroBlocks(size, n, cols)
  {
    arraysC := [];
    for k := 0 to size
      invariant RankArrays(arraysC, k, n, cols)
      invariant forall j :: 0 <= j < k ==> fresh(arraysC[j])
      invariant forall j :: 0 <= j < k ==> Contents(arraysC[j]) == Zeros(n, cols)
    {
      var c := new Int32[n, cols]((i, j) => 0);
      ContentsEqual(c, Zeros(n, cols));
      arraysC := arraysC + [c];
    }
    assert AllContents(arraysC) == ZeroBlocks(size, n, cols) by {
      forall j | 0 <= j < size
        ensures AllContents(arraysC)[j] == ZeroBlocks(size, n, cols)[j]
      {
      }
    }
  }
}
