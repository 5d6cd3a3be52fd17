/**
 * Order statistics from the cached subtree sizes: `findRank` (the number of
 * smaller keys) and `select` (the key with a given rank). Both Java methods
 * are `while` loops; here each is a tail-recursive function over the loop's
 * variables. They are each other's inverse on the stored keys.
 */
module OrderStatistics {
  import opened Outcomes
  import opened Trees
  import opened Lookup

  /**
   * The loop of `findRank`: `rank` counts the keys passed over on the way
   * down. Falling off the tree gives the loop's trailing `return 0`.
   */
  function RankFrom<V>(node: Tree<V>, k: int, rank: int): int {
    if node.Leaf? then 0
    else if k < node.key then RankFrom(node.left, k, rank)
    else if k > node.key then RankFrom(node.right, k, rank + Size(node.left) + 1)
    else rank + Size(node.left)
  }

  /** The rank of a stored key, or -1 when `k` is absent. */
  function FindRank<V>(t: Tree<V>, k: int): (r: int)
    ensures !ContainsKey(t, k) ==> r == -1
  {
    if !ContainsKey(t, k) then -1 else RankFrom(t, k, 0)
  }

  /**
   * The loop of the private `select(node, rank)`: `rank` is relative to the
   * current subtree. Falling off the tree gives null.
   */
  function SelectFrom<V>(node: Tree<V>, rank: int): Option<int> {
    if node.Leaf? then None
    else if rank < Size(node.left) then SelectFrom(node.left, rank)
    else if Size(node.left) == rank then Some(node.key)
    else SelectFrom(node.right, rank - (Size(node.left) + 1))
  }

  /** The key of rank `rank`; a rank outside [0, size()) is an `IllegalArgumentException`. */
  function Select<V>(t: Tree<V>, rank: int): (r: Result<Option<int>>)
    ensures r.Err? <==> rank < 0 || rank >= Size(t)
    ensures r.Err? ==> r.error == IllegalArgument
  {
    if rank < 0 || rank >= Size(t) then Err(IllegalArgument)
    else Ok(SelectFrom(t, rank))
  }

  /**
   * Walking down from a subtree holding `k` at in-order position `i`, the
   * rank loop adds exactly `i` to what it has counted so far.
   */
  lemma {:induction false} RankFromPosition<V>(node: Tree<V>, k: int, rank: int, i: int)
    requires Ordered(node) && Sized(node) && 0 <= i < |Keys(node)| && Keys(node)[i] == k
    ensures RankFrom(node, k, rank) == rank + i
    decreases node
  {
    KeyPosition(node, k, i);
    SizeCountsKeys(node.left);
    var n := |Keys(node.left)|;
    if k < node.key {
      RankFromPosition(node.left, k, rank, i);
    } else if k > node.key {
      RankFromPosition(node.right, k, rank + n + 1, i - n - 1);
    }
  }

  /**
   * `findRank` returns -1 exactly for absent keys, and for a stored key its
   * position in sorted order, which is the number of smaller stored keys.
   */
  lemma FindRankCorrect<V>(t: Tree<V>, k: int)
    requires Ordered(t) && Sized(t)
    ensures FindRank(t, k) == -1 <==> k !in Contents(t)
    ensures k in Contents(t) ==>
      && 0 <= FindRank(t, k) < |Keys(t)|
      && Keys(t)[FindRank(t, k)] == k
      && (forall j :: 0 <= j < |Keys(t)| ==> (Keys(t)[j] < k <==> j < FindRank(t, k)))
  {
    ContentsMatchKeys(t);
    if k in Contents(t) {
      var i :| 0 <= i < |Keys(t)| && Keys(t)[i] == k;
      RankFromPosition(t, k, 0, i);
      OrderedKeysIncrease(t);
    }
  }

  /**
   * With exact sizes the selection loop finds a key exactly when the rank
   * is in range for the subtree, and the key it finds is the one at that
   * in-order position.
   */
  lemma {:induction false} SelectFromPosition<V>(node: Tree<V>, rank: int)
    requires Sized(node)
    ensures SelectFrom(node, rank).Some? <==> 0 <= rank < |Keys(node)|
    ensures 0 <= rank < |Keys(node)| ==> SelectFrom(node, rank) == Some(Keys(node)[rank])
    decreases node
  {
    if node.Node? {
      SizeCountsKeys(node.left);
      var n := Size(node.left);
      if rank < n {
        SelectFromPosition(node.left, rank);
      } else if rank > n {
        SelectFromPosition(node.right, rank - (n + 1));
      }
    }
  }

  /** `select(i)` is the i-th least stored key for every rank in range. */
  lemma SelectCorrect<V>(t: Tree<V>, rank: int)
    requires Sized(t)
    ensures Select(t, rank).Ok? <==> 0 <= rank < |Keys(t)|
    ensures 0 <= rank < |Keys(t)| ==> Select(t, rank) == Ok(Some(Keys(t)[rank]))
  {
    SizeCountsKeys(t);
    SelectFromPosition(t, rank);
  }

  /** Selecting the rank of a stored key gives the key back. */
  lemma SelectOfRank<V>(t: Tree<V>, k: int)
    requires Ordered(t) && Sized(t) && k in Contents(t)
    ensures Select(t, FindRank(t, k)) == Ok(Some(k))
  {
    FindRankCorrect(t, k);
    SelectCorrect(t, FindRank(t, k));
  }

  /** The rank of the key selected for a rank in range is that rank. */
  lemma RankOfSelect<V>(t: Tree<V>, rank: int)
    requires Ordered(t) && Sized(t) && 0 <= rank < Size(t)
    ensures Select(t, rank).Ok? && Select(t, rank).value.Some?
    ensures FindRank(t, Select(t, rank).value.value) == rank
  {
    SizeCountsKeys(t);
    SelectCorrect(t, rank);
    var k := Keys(t)[rank];
    ContentsMatchKeys(t);
    assert k in Keys(t);
    FindRankCorrect(t, k);
    OrderedKeysIncrease(t);
  }

  /** Selection respects order: a smaller rank selects a smaller key. */
  lemma SelectMonotone<V>(t: Tree<V>, i: int, j: int)
    requires Ordered(t) && Sized(t) && 0 <= i < j < Size(t)
    ensures Select(t, i).Ok? && Select(t, j).Ok?
    ensures Select(t, i).value.Some? && Select(t, j).value.Some?
    ensures Select(t, i).value.value < Select(t, j).value.value
  {
    SizeCountsKeys(t);
    SelectCorrect(t, i);
    SelectCorrect(t, j);
    OrderedKeysIncrease(t);
  }
}
