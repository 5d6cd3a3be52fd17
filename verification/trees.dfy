/**
 * The node store of the left-leaning red-black tree: the node record, the
 * two null-safe primitives `IsRed` and `Size`, the abstract views used in
 * every contract, and the structural invariants the tree maintains.
 */
module Trees {

  /**
   * A subtree. `Leaf` is Java's `null` child. `size` is the cached
   * `subtreeSize` field: like the Java field it may be stale in the middle of
   * an operation, and `Sized` says when it is exact.
   */
  datatype Tree<V> =
    | Leaf
    | Node(red: bool, left: Tree<V>, key: int, value: V, size: int, right: Tree<V>)

  /** An absent child counts as black. */
  function IsRed<V>(t: Tree<V>): bool {
    t.Node? && t.red
  }

  /** An absent child has size 0; otherwise the cached field is read. */
  function Size<V>(t: Tree<V>): int {
    if t.Leaf? then 0 else t.size
  }

  // ----- abstract views -----

  /** The stored keys, in order. */
  ghost function Keys<V>(t: Tree<V>): seq<int> {
    match t
    case Leaf => []
    case Node(_, l, k, _, _, r) => Keys(l) + [k] + Keys(r)
  }

  /**
   * The key-to-value map the tree represents. Entries are merged in in-order
   * position with later ones winning, so any restructuring that keeps the
   * in-order sequence keeps the map, ordered or not.
   */
  ghost function Contents<V>(t: Tree<V>): map<int, V> {
    match t
    case Leaf => map[]
    case Node(_, l, k, v, _, r) => Contents(l)[k := v] + Contents(r)
  }

  // ----- invariants -----

  /** Binary-search-tree order: left keys below, right keys above. */
  ghost predicate Ordered<V>(t: Tree<V>) {
    match t
    case Leaf => true
    case Node(_, l, k, _, _, r) =>
      && Ordered(l) && Ordered(r)
      && (forall x :: x in Contents(l) ==> x < k)
      && (forall x :: x in Contents(r) ==> k < x)
  }

  /** Every cached `size` equals 1 + size(left) + size(right). */
  ghost predicate Sized<V>(t: Tree<V>) {
    match t
    case Leaf => true
    case Node(_, l, _, _, s, r) => Size(l) + Size(r) == s - 1 && Sized(l) && Sized(r)
  }

  /** Black nodes on the leftmost path. */
  ghost function BlackHeight<V>(t: Tree<V>): nat {
    match t
    case Leaf => 0
    case Node(c, l, _, _, _, _) => BlackHeight(l) + (if c then 0 else 1)
  }

  /** Every path from a node down to an absent child meets as many black nodes. */
  ghost predicate Balanced<V>(t: Tree<V>) {
    match t
    case Leaf => true
    case Node(_, l, _, _, _, r) => BlackHeight(l) == BlackHeight(r) && Balanced(l) && Balanced(r)
  }

  /** The left-leaning colour rules: no red right link, no red node with a red left child. */
  ghost predicate RedRule<V>(t: Tree<V>) {
    match t
    case Leaf => true
    case Node(c, l, _, _, _, r) => !IsRed(r) && !(c && IsRed(l)) && RedRule(l) && RedRule(r)
  }

  /**
   * The colour rules below the root and no red right link at the root; the
   * root may be red with a red left child. Blackening the root of such a
   * tree makes it satisfy `RedRule`.
   */
  ghost predicate LeansLeft<V>(t: Tree<V>) {
    t.Leaf? || (!IsRed(t.right) && RedRule(t.left) && RedRule(t.right))
  }

  /** A well-formed subtree, whatever the colour of its root. */
  ghost predicate Llrb<V>(t: Tree<V>) {
    Ordered(t) && Sized(t) && Balanced(t) && RedRule(t)
  }

  /** The tree invariant that holds after every public operation: the root is black. */
  ghost predicate Valid<V>(t: Tree<V>) {
    Llrb(t) && !IsRed(t)
  }

  /** Java's `root.isRed = false`, applied to a possibly absent root. */
  function Blacken<V>(t: Tree<V>): (r: Tree<V>)
    ensures !IsRed(r)
    ensures Keys(r) == Keys(t) && Contents(r) == Contents(t)
  {
    if t.Leaf? then t else t.(red := false)
  }

  /** Java's `root.isRed = true` before a deletion descends, applied to a possibly absent root. */
  function Redden<V>(t: Tree<V>): (r: Tree<V>)
    ensures t.Node? ==> IsRed(r)
    ensures Keys(r) == Keys(t) && Contents(r) == Contents(t)
  {
    if t.Leaf? then t else t.(red := true)
  }

  // ----- lemmas about the views -----

  /** A key is stored exactly when it occurs in the in-order key sequence. */
  lemma {:induction false} ContentsMatchKeys<V>(t: Tree<V>)
    ensures forall x :: x in Contents(t) <==> x in Keys(t)
  {
    match t
    case Leaf =>
    case Node(_, l, k, v, _, r) =>
      ContentsMatchKeys(l);
      ContentsMatchKeys(r);
  }

  /** With exact cached sizes, `Size` counts the nodes. */
  lemma {:induction false} SizeCountsKeys<V>(t: Tree<V>)
    requires Sized(t)
    ensures Size(t) == |Keys(t)|
  {
    match t
    case Leaf =>
    case Node(_, l, _, _, _, r) =>
      SizeCountsKeys(l);
      SizeCountsKeys(r);
  }

  /** Strictly increasing. */
  ghost predicate Increasing(s: seq<int>) {
    forall i, j :: 0 <= i < j < |s| ==> s[i] < s[j]
  }

  /** Order means the in-order key sequence is strictly increasing. */
  lemma {:induction false} OrderedKeysIncrease<V>(t: Tree<V>)
    requires Ordered(t)
    ensures Increasing(Keys(t))
  {
    match t
    case Leaf =>
    case Node(_, l, k, _, _, r) =>
      OrderedKeysIncrease(l);
      OrderedKeysIncrease(r);
      ContentsMatchKeys(l);
      ContentsMatchKeys(r);
      var s := Keys(t);
      forall i, j | 0 <= i < j < |s|
        ensures s[i] < s[j]
      {
        var n := |Keys(l)|;
        if j < n {
        } else if j == n {
          assert s[i] == Keys(l)[i];
          assert Keys(l)[i] in Keys(l);
        } else if i < n {
          assert s[i] == Keys(l)[i] && Keys(l)[i] in Keys(l);
          assert s[j] == Keys(r)[j - n - 1] && Keys(r)[j - n - 1] in Keys(r);
        } else if i == n {
          assert s[j] == Keys(r)[j - n - 1] && Keys(r)[j - n - 1] in Keys(r);
        } else {
        }
      }
  }

  /** In an ordered tree a key below the root can only be stored on the left. */
  lemma KeyBelowRoot<V>(t: Tree<V>, k: int)
    requires t.Node? && k < t.key
    ensures Ordered(t) ==> (k in Contents(t) <==> k in Contents(t.left))
    ensures Ordered(t) && k in Contents(t) ==> Contents(t)[k] == Contents(t.left)[k]
  {
  }

  /** In an ordered tree a key above the root can only be stored on the right. */
  lemma KeyAboveRoot<V>(t: Tree<V>, k: int)
    requires t.Node? && t.key < k
    ensures Ordered(t) ==> (k in Contents(t) <==> k in Contents(t.right))
    ensures Ordered(t) && k in Contents(t) ==> Contents(t)[k] == Contents(t.right)[k]
  {
  }

  /** In an ordered tree the root's own entry is not shadowed. */
  lemma KeyAtRoot<V>(t: Tree<V>)
    requires t.Node?
    ensures t.key in Contents(t)
    ensures Ordered(t) ==> Contents(t)[t.key] == t.value
  {
  }
}
