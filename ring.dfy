/** The ring of ranks `0 .. size-1`: the neighbour each rank sends its blocks
    to, the neighbour it receives from, and the effect of one exchange of
    every rank's block with its neighbours. */
module Ring {

  /** The rank that receives this rank's blocks: the next rank, and rank 0
      after the last one. */
  function Successor(rank: nat, size: nat): (s: nat)
    requires rank < size
    ensures s < size
  {
    if rank == size - 1 then 0 else rank + 1
  }

  /** The rank whose blocks this rank receives: the previous rank, and the
      last rank before rank 0. */
  function Predecessor(rank: nat, size: nat): (p: nat)
    requires rank < size
    ensures p < size
  {
    if rank == 0 then size - 1 else rank - 1
  }

  /** Within `[0, 2 * size)`, reducing modulo `size` subtracts `size` at most once. */
  lemma ModOnce(x: int, size: nat)
    requires size > 0 && 0 <= x < 2 * size
    ensures x % size == if x < size then x else x - size
  {
    if x < size {
      assert x == 0 * size + x;
    } else {
      assert x == 1 * size + (x - size);
    }
  }

  /** The neighbours are the program's modular expressions `(rank + 1) % size`
      and `(rank - 1 + size) % size`. */
  lemma NeighbourFormulas(rank: nat, size: nat)
    requires rank < size
    ensures Successor(rank, size) == (rank + 1) % size
    ensures Predecessor(rank, size) == (rank - 1 + size) % size
  {
    ModOnce(rank + 1, size);
    ModOnce(rank - 1 + size, size);
  }

  /** Sender and receiver agree: the rank a block is sent to names the sender
      as its source, and the other way round, so every send has a matching
      receive. */
  lemma NeighboursInverse(rank: nat, size: nat)
    requires rank < size
    ensures Predecessor(Successor(rank, size), size) == rank
    ensures Successor(Predecessor(rank, size), size) == rank
  {
  }

  /** The rank reached from `rank` after `steps` successor moves. */
  function SuccessorN(rank: nat, steps: nat, size: nat): (s: nat)
    requires rank < size
    ensures s < size
  {
    if steps == 0 then rank else Successor(SuccessorN(rank, steps - 1, size), size)
  }

  /** Within one trip round the ring, `steps` successor moves add `steps`
      to the rank and wrap once past the end. */
  lemma {:induction false} SuccessorNWindow(rank: nat, steps: nat, size: nat)
    requires rank < size && steps <= size
    ensures SuccessorN(rank, steps, size)
              == if rank + steps < size then rank + steps else rank + steps - size
  {
    if steps > 0 {
      SuccessorNWindow(rank, steps - 1, size);
    }
  }

  /** The ranks visited from `rank` during the `size` stages, in stage order. */
  function Tour(rank: nat, size: nat): (t: seq<nat>)
    requires rank < size
    ensures |t| == size
  {
    seq(size, s requires 0 <= s < size => SuccessorN(rank, s, size))
  }

  /** Over the `size` stages of an engine, following successors from any rank
      visits every rank exactly once and then returns to the start. */
  lemma RingCycle(rank: nat, size: nat)
    requires rank < size
    ensures SuccessorN(rank, size, size) == rank
    ensures forall t :: 0 <= t < size ==> t in Tour(rank, size)
    ensures forall s1, s2 :: 0 <= s1 < s2 < size ==> Tour(rank, size)[s1] != Tour(rank, size)[s2]
  {
    var tour := Tour(rank, size);
    SuccessorNWindow(rank, size, size);
    forall t | 0 <= t < size
      ensures t in tour
    {
      var s := if rank <= t then t - rank else t + size - rank;
      SuccessorNWindow(rank, s, size);
      assert tour[s] == t;
    }
    forall s1, s2 | 0 <= s1 < s2 < size
      ensures tour[s1] != tour[s2]
    {
      SuccessorNWindow(rank, s1, size);
      SuccessorNWindow(rank, s2, size);
    }
  }

  /** One exchange on every rank at once: each rank sends its block to its
      successor and replaces it with the block of its predecessor. */
  function Exchange<T>(blocks: seq<T>): (r: seq<T>)
    requires |blocks| > 0
    ensures |r| == |blocks|
  {
    seq(|blocks|, k requires 0 <= k < |blocks| => blocks[Predecessor(k, |blocks|)])
  }

  /** What rank `k` sends is what its successor holds after the exchange. */
  lemma ExchangeDelivers<T>(blocks: seq<T>, k: nat)
    requires k < |blocks|
    ensures Exchange(blocks)[Successor(k, |blocks|)] == blocks[k]
  {
    NeighboursInverse(k, |blocks|);
  }

  /** An exchange is a rotation of the rank-ordered blocks by one place. */
  lemma ExchangeIsRotation<T>(blocks: seq<T>)
    requires |blocks| > 0
    ensures Exchange(blocks) == [blocks[|blocks| - 1]] + blocks[..|blocks| - 1]
  {
  }

  /** `stages` exchanges in a row. */
  function ExchangeN<T>(blocks: seq<T>, stages: nat): (r: seq<T>)
    requires |blocks| > 0
    ensures |r| == |blocks|
  {
    if stages == 0 then blocks else Exchange(ExchangeN(blocks, stages - 1))
  }

  /** The rank whose block rank `rank` holds after `stages` exchanges, for
      at most one trip round the ring: `stages` places behind it. */
  function Origin(rank: nat, stages: nat, size: nat): (o: nat)
    requires rank < size && stages <= size
    ensures o < size
  {
    if stages <= rank then rank - stages else rank + size - stages
  }

  /** The origin is the rank whose successors lead to `rank` in `stages` moves. */
  lemma OriginReaches(rank: nat, stages: nat, size: nat)
    requires rank < size && stages <= size
    ensures SuccessorN(Origin(rank, stages, size), stages, size) == rank
  {
    SuccessorNWindow(Origin(rank, stages, size), stages, size);
  }

  /** The ranks whose blocks rank `rank` holds at stages `0 .. size-1`. */
  function Sources(rank: nat, size: nat): (o: seq<nat>)
    requires rank < size
    ensures |o| == size
  {
    seq(size, t requires 0 <= t < size => Origin(rank, t, size))
  }

  /** During the `size` stages a rank holds the blocks that started on every
      rank, each exactly once. */
  lemma SourcesCoverRing(rank: nat, size: nat)
    requires rank < size
    ensures forall o :: 0 <= o < size ==> o in Sources(rank, size)
    ensures forall t1, t2 :: 0 <= t1 < t2 < size ==> Sources(rank, size)[t1] != Sources(rank, size)[t2]
  {
    var sources := Sources(rank, size);
    forall o | 0 <= o < size
      ensures o in sources
    {
      var t := if o <= rank then rank - o else rank + size - o;
      assert sources[t] == o;
    }
  }

  /** After `stages` exchanges rank `k` holds the block that started at
      `Origin(k, stages)`. */
  lemma {:induction false} ExchangeNAt<T>(blocks: seq<T>, stages: nat, k: nat)
    requires k < |blocks| && stages <= |blocks|
    ensures ExchangeN(blocks, stages)[k] == blocks[Origin(k, stages, |blocks|)]
  {
    var n := |blocks|;
    if stages > 0 {
      var p := Predecessor(k, n);
      ExchangeNAt(blocks, stages - 1, p);
      assert Origin(p, stages - 1, n) == Origin(k, stages, n);
      assert ExchangeN(blocks, stages)[k] == ExchangeN(blocks, stages - 1)[p];
    }
  }

  /** After `size` exchanges every block is back at the rank it started on. */
  lemma ExchangeFullCycle<T>(blocks: seq<T>)
    requires |blocks| > 0
    ensures ExchangeN(blocks, |blocks|) == blocks
  {
    var n := |blocks|;
    forall k | 0 <= k < n
      ensures ExchangeN(blocks, n)[k] == blocks[k]
    {
      ExchangeNAt(blocks, n, k);
    }
  }
}
