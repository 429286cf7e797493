/** One stage of a ring engine on the arrays of every rank, in place: the
    local part on each rank in turn, then the two blocking exchanges, which
    replace every rank's A and B arrays with its predecessor's. */
module RingStage {
  import opened JavaInt
  import opened Matrices
  import opened Ring
  import opened LocalCombine
  import opened Engine
  import opened RankBlocks

  /** The blocking send-and-replace on every rank at once: each rank's array
      is sent to its successor and replaced by its predecessor's. */
  method ExchangeInPlace(ms: seq<array2<Int32>>, n: nat, cols: nat)
    requires |ms| > 0 && RankArrays(ms, |ms|, n, cols)
    modifies ms
    ensures AllContents(ms) == Exchange(old(AllContents(ms)))
  {
    var size := |ms|;
    var last := new Int32[n, cols];
    Copy(last, ms[size - 1]);
    PassUp(ms, n, cols);
    Copy(ms[0], last);
    ExchangeParts(AllContents(ms), old(AllContents(ms)));
  }

  /** The two exchanges that end a stage: the A blocks round the ring, then
      the B blocks; the result blocks stay where they are. */
  method ExchangeBoth(arraysA: seq<array2<Int32>>, arraysB: seq<array2<Int32>>, arraysC: seq<array2<Int32>>,
                      n: nat, cols: nat)
    requires |arraysA| > 0 && RankArrays(arraysA, |arraysA|, n, cols) && RankArrays(arraysB, |arraysA|, n, cols)
    requires Disjoint(arraysA, arraysB) && Disjoint(arraysA, arraysC) && Disjoint(arraysB, arraysC)
    modifies arraysA, arraysB
    ensures State(arraysA, arraysB, arraysC)
              == RingState(Exchange(old(AllContents(arraysA))), Exchange(old(AllContents(arraysB))), old(AllContents(arraysC)))
  {
    ExchangeInPlace(arraysA, n, cols);
    ExchangeInPlace(arraysB, n, cols);
  }

  /** The local part of one stage, on every rank in turn. */
  method LocalStages(v: Variant, arraysA: seq<array2<Int32>>, arraysB: seq<array2<Int32>>,
                     arraysC: seq<array2<Int32>>, n: nat, cols: nat)
    requires |arraysA| > 0 && RankArrays(arraysA, |arraysA|, n, cols) && RankArrays(arraysB, |arraysA|, n, cols)
    requires RankArrays(arraysC, |arraysA|, n, cols)
    requires Disjoint(arraysA, arraysB) && Disjoint(arraysA, arraysC) && Disjoint(arraysB, arraysC) && 1 <= n <= cols
    modifies arraysA, arraysB, arraysC
    ensures ValidState(old(State(arraysA, arraysB, arraysC)), |arraysA|, n, cols)
    ensures State(arraysA, arraysB, arraysC) == LocalPart(v, old(State(arraysA, arraysB, arraysC)), |arraysA|, n, cols)
  {
    var size := |arraysA|;
    for k := 0 to size
      invariant forall j :: 0 <= j < k ==>
                  Contents(arraysA[j]) == ShiftA(v, old(Contents(arraysA[j])), n, cols) &&
                  Contents(arraysB[j]) == ShiftB(v, old(Contents(arraysB[j])), n, cols) &&
                  Contents(arraysC[j]) == Combined(old(Contents(arraysC[j])), old(Contents(arraysA[j])), old(Contents(arraysB[j])), n, cols)
      invariant forall j :: k <= j < size ==> unchanged(arraysA[j], arraysB[j], arraysC[j])
    {
      RankStep(v, arraysA, arraysB, arraysC, n, cols, k);
    }
    LocalParts(v, old(State(arraysA, arraysB, arraysC)), State(arraysA, arraysB, arraysC), size, n, cols);
  }

  /** One stage on every rank: the local part, then the exchange of the A
      blocks and of the B blocks. */
  method StageInPlace(v: Variant, arraysA: seq<array2<Int32>>, arraysB: seq<array2<Int32>>,
                      arraysC: seq<array2<Int32>>, n: nat, cols: nat)
    requires |arraysA| > 0 && RankArrays(arraysA, |arraysA|, n, cols) && RankArrays(arraysB, |arraysA|, n, cols)
    requires RankArrays(arraysC, |arraysA|, n, cols)
    requires Disjoint(arraysA, arraysB) && Disjoint(arraysA, arraysC) && Disjoint(arraysB, arraysC) && 1 <= n <= cols
    modifies arraysA, arraysB, arraysC
    ensures State(arraysA, arraysB, arraysC) == Stage(v, old(State(arraysA, arraysB, arraysC)), |arraysA|, n, cols)
  {
    LocalStages(v, arraysA, arraysB, arraysC, n, cols);
    ExchangeBoth(arraysA, arraysB, arraysC, n, cols);
  }
}
