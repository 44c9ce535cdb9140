/**
 * The per-entity change index: a `BlockList` is the sorted set of block numbers at
 * which an entity (a contract's nonce or class, a storage slot) changed, queried with
 * rank/select to find the most recent change at or before a pinned block.
 */
module BlockLists {
  import opened Wrappers

  predicate StrictlyIncreasing(s: seq<nat>) {
    forall i, j :: 0 <= i < j < |s| ==> s[i] < s[j]
  }

  /** Block numbers are appended in increasing order, so a list never repeats or goes back. */
  type BlockList = s: seq<nat> | StrictlyIncreasing(s) witness []

  /** `rank(n)`: the number of elements that are at most `n`. */
  function Rank(list: seq<nat>, n: nat): (r: nat)
    ensures r <= |list|
  {
    if |list| == 0 then 0 else (if list[0] <= n then 1 else 0) + Rank(list[1..], n)
  }

  /** `select(i)`: the `i`-th smallest element, counting from 0, if there is one. */
  function Select(list: seq<nat>, i: nat): (r: Option<nat>)
    ensures r.Some? <==> i < |list|
    ensures r.Some? ==> r.value == list[i]
  {
    if i < |list| then Some(list[i]) else None
  }

  /** In a sorted list, `rank(n)` is the length of the prefix of elements at most `n`. */
  lemma {:induction false} RankSplitsList(list: BlockList, n: nat)
    ensures forall i :: 0 <= i < Rank(list, n) ==> list[i] <= n
    ensures forall i :: Rank(list, n) <= i < |list| ==> list[i] > n
  {
    if |list| > 0 {
      var tail: BlockList := list[1..];
      RankSplitsList(tail, n);
    }
  }

  /**
   * The block of the most recent change at or before `blockNumber`: with `r = rank(n)`,
   * no change when `r == 0` (the list is empty or every change is later), otherwise
   * `select(r - 1)`.
   */
  function RecentChangeFromBlock(blockNumber: nat, list: BlockList): (r: Option<nat>)
    ensures r.None? <==> forall i :: 0 <= i < |list| ==> list[i] > blockNumber
    ensures r.Some? ==> r.value in list && r.value <= blockNumber
    ensures r.Some? ==> forall x :: x in list && x <= blockNumber ==> x <= r.value
  {
    RankSplitsList(list, blockNumber);
    var rank := Rank(list, blockNumber);
    if rank == 0 then None
    else
      assert forall x :: x in list && x <= blockNumber ==> x <= list[rank - 1] by {
        forall x | x in list && x <= blockNumber ensures x <= list[rank - 1] {
          var j :| 0 <= j < |list| && list[j] == x;
          assert j < rank;
        }
      }
      Select(list, rank - 1)
  }

  /** The cases fixed by the unit test over the list [1, 2, 5, 6, 10]. */
  lemma RecentChangeExamples()
    ensures var list: BlockList := [1, 2, 5, 6, 10];
            && RecentChangeFromBlock(0, list) == None
            && RecentChangeFromBlock(1, list) == Some(1)
            && RecentChangeFromBlock(3, list) == Some(2)
            && RecentChangeFromBlock(5, list) == Some(5)
            && RecentChangeFromBlock(9, list) == Some(6)
            && RecentChangeFromBlock(10, list) == Some(10)
            && RecentChangeFromBlock(11, list) == Some(10)
  {
    var list: BlockList := [1, 2, 5, 6, 10];
    assert list[0] == 1 && list[1] == 2 && list[2] == 5 && list[3] == 6 && list[4] == 10;
  }

  /** Pinning a later block never loses a change and never goes back to an older one. */
  lemma RecentChangeMonotone(list: BlockList, p: nat, q: nat)
    requires p <= q
    ensures RecentChangeFromBlock(p, list).Some? ==>
              && RecentChangeFromBlock(q, list).Some?
              && RecentChangeFromBlock(p, list).value <= RecentChangeFromBlock(q, list).value
  {
  }

  /**
   * With no change in `(p, q]`, a reader pinned at `q` sees the same most recent change
   * as one pinned at `p`.
   */
  lemma RecentChangeStable(list: BlockList, p: nat, q: nat)
    requires p <= q
    requires forall x :: x in list ==> x <= p || x > q
    ensures RecentChangeFromBlock(q, list) == RecentChangeFromBlock(p, list)
  {
    var rp, rq := RecentChangeFromBlock(p, list), RecentChangeFromBlock(q, list);
    if rq.Some? {
      assert rq.value <= p;
      assert rp.Some? by {
        var j :| 0 <= j < |list| && list[j] == rq.value;
      }
    }
  }
}
