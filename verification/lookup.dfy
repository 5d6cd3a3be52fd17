/**
 * The read-only queries that walk one path of the tree: `get`,
 * `containsKey`, `isEmpty`, `size`, the leftmost and rightmost keys, the
 * root key, and in-order predecessor and successor. The Java versions are
 * `while` loops; here each loop is a tail-recursive function whose
 * parameters are the loop's variables.
 */
module Lookup {
  import opened Outcomes
  import opened Trees

  /** The value stored under `k`, or null. */
  function Get<V>(t: Tree<V>, k: int): (r: Option<V>)
    ensures Ordered(t) ==> r == (if k in Contents(t) then Some(Contents(t)[k]) else None)
  {
    if t.Leaf? then None
    else if k < t.key then KeyBelowRoot(t, k); Get(t.left, k)
    else if k > t.key then KeyAboveRoot(t, k); Get(t.right, k)
    else KeyAtRoot(t); Some(t.value)
  }

  /** The loop of `containsKey`, with its `containsKey` flag as `found`. */
  function ContainsKeyFrom<V>(node: Tree<V>, k: int, found: bool): (r: bool)
    ensures Ordered(node) ==> (r <==> found || k in Contents(node))
    decreases node, if found then 0 else 1
  {
    if found || node.Leaf? then found
    else if k < node.key then KeyBelowRoot(node, k); ContainsKeyFrom(node.left, k, false)
    else if k > node.key then KeyAboveRoot(node, k); ContainsKeyFrom(node.right, k, false)
    else KeyAtRoot(node); ContainsKeyFrom(node, k, true)
  }

  /** True when `k` is stored. */
  function ContainsKey<V>(t: Tree<V>, k: int): (r: bool)
    ensures Ordered(t) ==> (r <==> k in Contents(t))
  {
    ContainsKeyFrom(t, k, false)
  }

  /** True when the tree has no root. */
  function IsEmpty<V>(t: Tree<V>): (r: bool)
    ensures r <==> Contents(t) == map[]
  {
    if t.Leaf? then true
    else
      assert t.key in Contents(t);
      false
  }

  /**
   * With exact sizes and distinct keys, `size()` is the number of stored
   * entries.
   */
  lemma {:induction false} SizeCountsEntries<V>(t: Tree<V>)
    requires Ordered(t) && Sized(t)
    ensures Size(t) == |Contents(t)|
  {
    match t
    case Leaf =>
    case Node(_, l, k, v, _, r) =>
      SizeCountsEntries(l);
      SizeCountsEntries(r);
      assert Contents(l).Keys !! Contents(r).Keys by {
        forall x | x in Contents(l) ensures x !in Contents(r) {
          assert x < k;
        }
      }
      DisjointUnionSize(Contents(l), k, v, Contents(r));
  }

  /** Cardinality of a node's map when its parts are disjoint. */
  lemma DisjointUnionSize<V>(a: map<int, V>, k: int, v: V, b: map<int, V>)
    requires k !in a && k !in b && a.Keys !! b.Keys
    ensures |a[k := v] + b| == |a| + 1 + |b|
  {
    var m := a[k := v];
    assert m.Keys == a.Keys + {k};
    assert |m.Keys| == |a.Keys| + 1;
    assert m.Keys !! b.Keys;
    assert (m + b).Keys == m.Keys + b.Keys;
    assert |m.Keys + b.Keys| == |m.Keys| + |b.Keys|;
  }

  /**
   * The leftmost node, or null for an empty tree. Its key is the first of
   * the in-order keys; in an ordered tree it is the least key and its entry
   * is the node's own.
   */
  function FindMinNode<V>(t: Tree<V>): (r: Tree<V>)
    ensures r.Node? <==> t.Node?
    ensures r.Node? ==> r.left.Leaf? && |Keys(t)| > 0 && Keys(t)[0] == r.key && r.key in Contents(t)
    ensures r.Node? && Ordered(t) ==>
      Contents(t)[r.key] == r.value && forall x :: x in Contents(t) ==> r.key <= x
  {
    if t.Leaf? || t.left.Leaf? then t
    else
      var m := FindMinNode(t.left);
      assert Contents(t) == Contents(t.left)[t.key := t.value] + Contents(t.right);
      m
  }

  /** `findFirstKey` as written: it dereferences the result of `findMinNode` even when that is null. */
  function FindFirstKey<V>(t: Tree<V>): (r: Result<int>)
    ensures t.Leaf? ==> r == Err(NullPointer)
    ensures t.Node? ==> r.Ok? && r.value in Contents(t)
    ensures r.Ok? && Ordered(t) ==> forall x :: x in Contents(t) ==> r.value <= x
  {
    var m := FindMinNode(t);
    if m.Leaf? then Err(NullPointer) else Ok(m.key)
  }

  /** The least key, or null when the tree is empty, as the doc-comment of `findFirstKey` promises. */
  function FirstKey<V>(t: Tree<V>): (r: Option<int>)
    ensures r.None? <==> Contents(t) == map[]
    ensures r.Some? ==> r.value in Contents(t)
    ensures r.Some? && Ordered(t) ==> forall x :: x in Contents(t) ==> r.value <= x
  {
    var m := FindMinNode(t);
    if m.Leaf? then None
    else
      assert t.Node? && t.key in Contents(t);
      Some(m.key)
  }

  /** The loop of `findLastKey`: follow right links to the end. */
  function FindLastKey<V>(t: Tree<V>): (r: Option<int>)
    ensures r.None? <==> t.Leaf?
    ensures r.Some? ==> |Keys(t)| > 0 && Keys(t)[|Keys(t)| - 1] == r.value && r.value in Contents(t)
    ensures r.Some? && Ordered(t) ==> forall x :: x in Contents(t) ==> x <= r.value
  {
    if t.Leaf? then None
    else if t.right.Leaf? then
      assert t.key in Contents(t);
      Some(t.key)
    else
      var m := FindLastKey(t.right);
      assert Contents(t) == Contents(t.left)[t.key := t.value] + Contents(t.right);
      m
  }

  /** The root's key, or null. */
  function GetRootKey<V>(t: Tree<V>): (r: Option<int>)
    ensures r.None? <==> Contents(t) == map[]
    ensures r.Some? ==> r.value in Contents(t)
  {
    if t.Leaf? then None
    else
      assert t.key in Contents(t);
      Some(t.key)
  }

  /**
   * The search loop of `findPredecessor`, with `pred` the last node the
   * search left by going right.
   */
  function PredecessorFrom<V>(node: Tree<V>, k: int, pred: Option<int>): Option<int> {
    if node.Leaf? then None
    else if k < node.key then PredecessorFrom(node.left, k, pred)
    else if k > node.key then PredecessorFrom(node.right, k, Some(node.key))
    else if node.left.Node? then FindLastKey(node.left)
    else pred
  }

  /** The greatest key below a stored `k`, or null. */
  function FindPredecessor<V>(t: Tree<V>, k: int): Option<int> {
    if !ContainsKey(t, k) then None else PredecessorFrom(t, k, None)
  }

  /** The search loop of `findSuccessor`, with `succ` the last node the search left by going left. */
  function SuccessorFrom<V>(node: Tree<V>, k: int, succ: Option<int>): Option<int> {
    if node.Leaf? then None
    else if k < node.key then SuccessorFrom(node.left, k, Some(node.key))
    else if k > node.key then SuccessorFrom(node.right, k, succ)
    else if node.right.Node? then Some(FindMinNode(node.right).key)
    else succ
  }

  /** The least key above a stored `k`, or null. */
  function FindSuccessor<V>(t: Tree<V>, k: int): Option<int> {
    if !ContainsKey(t, k) then None else SuccessorFrom(t, k, None)
  }

  /** The key just before position `i` of `s`, or null at the front. */
  ghost function KeyBefore(s: seq<int>, i: int): Option<int>
    requires 0 <= i < |s|
  {
    if i == 0 then None else Some(s[i - 1])
  }

  /** The key just after position `i` of `s`, or null at the back. */
  ghost function KeyAfter(s: seq<int>, i: int): Option<int>
    requires 0 <= i < |s|
  {
    if i == |s| - 1 then None else Some(s[i + 1])
  }

  /** The position of a key in the in-order sequence of an ordered tree. */
  lemma KeyPosition<V>(t: Tree<V>, k: int, i: int)
    requires t.Node? && Ordered(t) && 0 <= i < |Keys(t)| && Keys(t)[i] == k
    ensures k < t.key <==> i < |Keys(t.left)|
    ensures k == t.key <==> i == |Keys(t.left)|
    ensures k < t.key ==> Keys(t.left)[i] == k
    ensures k > t.key ==> Keys(t.right)[i - |Keys(t.left)| - 1] == k
  {
    OrderedKeysIncrease(t);
    var n := |Keys(t.left)|;
    assert Keys(t)[n] == t.key;
  }

  /**
   * Predecessor walk: from a subtree holding `k` at in-order position `i`,
   * the answer is the key just before it, or the tracked ancestor when `k`
   * is the subtree's first key.
   */
  lemma {:induction false} PredecessorFromPosition<V>(node: Tree<V>, k: int, pred: Option<int>, i: int)
    requires Ordered(node) && 0 <= i < |Keys(node)| && Keys(node)[i] == k
    ensures PredecessorFrom(node, k, pred) == if i == 0 then pred else Some(Keys(node)[i - 1])
    decreases node
  {
    KeyPosition(node, k, i);
    var n := |Keys(node.left)|;
    if k < node.key {
      PredecessorFromPosition(node.left, k, pred, i);
    } else if k > node.key {
      PredecessorFromPosition(node.right, k, Some(node.key), i - n - 1);
    }
  }

  /**
   * `findPredecessor` returns null for an absent key, and otherwise the key
   * just before `k` in sorted order, or null when `k` is the least key.
   */
  lemma FindPredecessorCorrect<V>(t: Tree<V>, k: int)
    requires Ordered(t)
    ensures k !in Contents(t) ==> FindPredecessor(t, k) == None
    ensures forall i :: 0 <= i < |Keys(t)| && Keys(t)[i] == k ==>
      FindPredecessor(t, k) == KeyBefore(Keys(t), i)
  {
    ContentsMatchKeys(t);
    forall i | 0 <= i < |Keys(t)| && Keys(t)[i] == k {
      FindPredecessorAt(t, k, i);
    }
  }

  lemma FindPredecessorAt<V>(t: Tree<V>, k: int, i: int)
    requires Ordered(t) && 0 <= i < |Keys(t)| && Keys(t)[i] == k
    ensures FindPredecessor(t, k) == KeyBefore(Keys(t), i)
  {
    ContentsMatchKeys(t);
    assert Keys(t)[i] in Keys(t);
    assert ContainsKey(t, k);
    PredecessorFromPosition(t, k, None, i);
  }

  /** Successor walk: the mirror image of `PredecessorFromPosition`. */
  lemma {:induction false} SuccessorFromPosition<V>(node: Tree<V>, k: int, succ: Option<int>, i: int)
    requires Ordered(node) && 0 <= i < |Keys(node)| && Keys(node)[i] == k
    ensures SuccessorFrom(node, k, succ) == if i == |Keys(node)| - 1 then succ else Some(Keys(node)[i + 1])
    decreases node
  {
    KeyPosition(node, k, i);
    var n := |Keys(node.left)|;
    if k < node.key {
      SuccessorFromPosition(node.left, k, Some(node.key), i);
      assert Keys(node)[n] == node.key;
    } else if k > node.key {
      SuccessorFromPosition(node.right, k, succ, i - n - 1);
    }
  }

  /**
   * `findSuccessor` returns null for an absent key, and otherwise the key
   * just after `k` in sorted order, or null when `k` is the greatest key.
   */
  lemma FindSuccessorCorrect<V>(t: Tree<V>, k: int)
    requires Ordered(t)
    ensures k !in Contents(t) ==> FindSuccessor(t, k) == None
    ensures forall i :: 0 <= i < |Keys(t)| && Keys(t)[i] == k ==>
      FindSuccessor(t, k) == KeyAfter(Keys(t), i)
  {
    ContentsMatchKeys(t);
    forall i | 0 <= i < |Keys(t)| && Keys(t)[i] == k {
      FindSuccessorAt(t, k, i);
    }
  }

  lemma FindSuccessorAt<V>(t: Tree<V>, k: int, i: int)
    requires Ordered(t) && 0 <= i < |Keys(t)| && Keys(t)[i] == k
    ensures FindSuccessor(t, k) == KeyAfter(Keys(t), i)
  {
    ContentsMatchKeys(t);
    assert Keys(t)[i] in Keys(t);
    assert ContainsKey(t, k);
    SuccessorFromPosition(t, k, None, i);
  }
}
