/**
 * Insertion: `put` and its recursive helper `findAndAdd`. The helper
 * descends to an absent child, puts a red leaf there (or overwrites the
 * value of an equal key), and on the way back up repairs the colours with at
 * most one left rotation, one right rotation and one colour flip per node.
 */
module Insertion {
  import opened Outcomes
  import opened Trees
  import opened Rotations
  import opened Lookup

  /**
   * The repair `findAndAdd` runs at every node on the way back up: rotate a
   * lone red right link left, rotate two stacked red left links right, flip
   * two red children, then recompute the cached size.
   */
  function AddFixUp<V>(t: Tree<V>): (r: Tree<V>)
    requires t.Node?
    ensures r.Node? && Keys(r) == Keys(t) && Contents(r) == Contents(t)
    ensures Ordered(t) ==> Ordered(r)
    ensures SizedBelow(t) ==> Sized(r)
  {
    var t2 := if IsRed(t.right) && !IsRed(t.left) then RotateLeft(t) else t;
    var t3 := if IsRed(t2.left) && IsRed(t2.left.left) then RotateRight(t2) else t2;
    var t4 := if IsRed(t3.left) && IsRed(t3.right) then ColorFlip(t3) else t3;
    Resize(t4)
  }

  /** RedBlackTree.java `findAndAdd`: the new root of the subtree after adding `k -> v`. */
  function FindAndAdd<V>(t: Tree<V>, k: int, v: V): (r: Tree<V>)
    ensures r.Node?
  {
    if t.Leaf? then Node(true, Leaf, k, v, 1, Leaf)
    else if k < t.key then AddFixUp(t.(left := FindAndAdd(t.left, k, v)))
    else if k > t.key then AddFixUp(t.(right := FindAndAdd(t.right, k, v)))
    else AddFixUp(t.(value := v))
  }

  /** RedBlackTree.java `put`: add or overwrite, then make the root black. */
  function Put<V>(t: Tree<V>, k: int, v: V): (r: Tree<V>)
    ensures r.Node? && !r.red
  {
    Blacken(FindAndAdd(t, k, v))
  }

  /** Adding to an ordered tree stores exactly `k -> v` on top of the old map and keeps the order. */
  lemma {:induction false} FindAndAddContents<V>(t: Tree<V>, k: int, v: V)
    requires Ordered(t)
    ensures Contents(FindAndAdd(t, k, v)) == Contents(t)[k := v]
    ensures Ordered(FindAndAdd(t, k, v))
  {
    match t
    case Leaf =>
    case Node(c, l, key, val, s, r) =>
      if k < key {
        var l2 := FindAndAdd(l, k, v);
        FindAndAddContents(l, k, v);
        AddedOnLeft(t, l2, k, v);
        assert FindAndAdd(t, k, v) == AddFixUp(t.(left := l2));
      } else if k > key {
        var r2 := FindAndAdd(r, k, v);
        FindAndAddContents(r, k, v);
        AddedOnRight(t, r2, k, v);
        assert FindAndAdd(t, k, v) == AddFixUp(t.(right := r2));
      } else {
        KeyAtRoot(t);
        assert Contents(t.(value := v)) == Contents(t)[k := v];
        assert FindAndAdd(t, k, v) == AddFixUp(t.(value := v));
      }
  }

  /** Replacing the left child by one that also maps `k` (a key below the root) adds `k` to the map. */
  lemma AddedOnLeft<V>(t: Tree<V>, l2: Tree<V>, k: int, v: V)
    requires t.Node? && Ordered(t) && k < t.key
    requires Ordered(l2) && Contents(l2) == Contents(t.left)[k := v]
    ensures Contents(t.(left := l2)) == Contents(t)[k := v]
    ensures Ordered(t.(left := l2))
  {
    assert k !in Contents(t.right);
  }

  /** Replacing the right child by one that also maps `k` (a key above the root) adds `k` to the map. */
  lemma AddedOnRight<V>(t: Tree<V>, r2: Tree<V>, k: int, v: V)
    requires t.Node? && Ordered(t) && t.key < k
    requires Ordered(r2) && Contents(r2) == Contents(t.right)[k := v]
    ensures Contents(t.(right := r2)) == Contents(t)[k := v]
    ensures Ordered(t.(right := r2))
  {
  }

  /** Adding keeps every cached size exact. */
  lemma {:induction false} FindAndAddSized<V>(t: Tree<V>, k: int, v: V)
    requires Sized(t)
    ensures Sized(FindAndAdd(t, k, v))
  {
    match t
    case Leaf =>
    case Node(c, l, key, val, s, r) =>
      if k < key {
        FindAndAddSized(l, k, v);
      } else if k > key {
        FindAndAddSized(r, k, v);
      }
  }

  /** A map gains one entry exactly when the stored key is new. */
  lemma StoreCount<V>(m: map<int, V>, k: int, v: V)
    ensures |m[k := v]| == |m| + (if k in m then 0 else 1)
  {
    if k in m {
      assert m[k := v].Keys == m.Keys;
    } else {
      assert m[k := v].Keys == m.Keys + {k};
    }
  }

  /** The size grows by one for a new key and stays put for an overwrite. */
  lemma FindAndAddSize<V>(t: Tree<V>, k: int, v: V)
    requires Ordered(t) && Sized(t)
    ensures Size(FindAndAdd(t, k, v)) == Size(t) + (if k in Contents(t) then 0 else 1)
  {
    FindAndAddContents(t, k, v);
    FindAndAddSized(t, k, v);
    SizeCountsEntries(t);
    SizeCountsEntries(FindAndAdd(t, k, v));
    StoreCount(Contents(t), k, v);
  }

  /**
   * The colour cases the repair meets on the way up. The changed child may
   * come back red with a red left child only under a black node whose other
   * child is black; otherwise both children obey the colour rules. The
   * repair then keeps the black height, and it leaves a black node's
   * subtree obeying the colour rules and a red node's subtree red and
   * leaning left.
   */
  lemma AddFixUpShape<V>(t: Tree<V>)
    requires t.Node? && Balanced(t)
    requires LeansLeft(t.left) && RedRule(t.right)
    requires t.red ==> RedRule(t.left) && !(IsRed(t.left) && IsRed(t.right))
    requires IsRed(t.left) && IsRed(t.left.left) ==> !t.red && !IsRed(t.right)
    ensures Balanced(AddFixUp(t)) && BlackHeight(AddFixUp(t)) == BlackHeight(t)
    ensures !t.red ==> RedRule(AddFixUp(t))
    ensures t.red ==> AddFixUp(t).red && LeansLeft(AddFixUp(t))
  {
    var t2 := if IsRed(t.right) && !IsRed(t.left) then RotateLeft(t) else t;
    if IsRed(t.right) && !IsRed(t.left) {
      RotateLeftBalanced(t);
    }
    var t3 := if IsRed(t2.left) && IsRed(t2.left.left) then RotateRight(t2) else t2;
    if IsRed(t2.left) && IsRed(t2.left.left) {
      RotateRightBalanced(t2);
    }
    if IsRed(t3.left) && IsRed(t3.right) {
      ColorFlipBalanced(t3);
    }
  }

  /**
   * Adding keeps the black height. A black (or absent) subtree comes back
   * obeying the colour rules, possibly with a red root; a red one comes back
   * red and leaning left, to be repaired by its black parent.
   */
  lemma {:induction false} FindAndAddShape<V>(t: Tree<V>, k: int, v: V)
    requires Balanced(t) && RedRule(t)
    ensures Balanced(FindAndAdd(t, k, v)) && BlackHeight(FindAndAdd(t, k, v)) == BlackHeight(t)
    ensures !IsRed(t) ==> RedRule(FindAndAdd(t, k, v))
    ensures IsRed(t) ==> FindAndAdd(t, k, v).red && LeansLeft(FindAndAdd(t, k, v))
  {
    match t
    case Leaf =>
    case Node(c, l, key, val, s, r) =>
      if k < key {
        var l2 := FindAndAdd(l, k, v);
        FindAndAddShape(l, k, v);
        AddFixUpShape(t.(left := l2));
        assert FindAndAdd(t, k, v) == AddFixUp(t.(left := l2));
      } else if k > key {
        var r2 := FindAndAdd(r, k, v);
        FindAndAddShape(r, k, v);
        AddFixUpShape(t.(right := r2));
        assert FindAndAdd(t, k, v) == AddFixUp(t.(right := r2));
      } else {
        AddFixUpShape(t.(value := v));
        assert FindAndAdd(t, k, v) == AddFixUp(t.(value := v));
      }
  }

  /**
   * `put` keeps a valid tree valid, maps `k` to `v` and leaves every other
   * key's entry as it was, and grows the size exactly when `k` is new.
   */
  lemma PutCorrect<V>(t: Tree<V>, k: int, v: V)
    requires Valid(t)
    ensures Valid(Put(t, k, v))
    ensures Contents(Put(t, k, v)) == Contents(t)[k := v]
    ensures Size(Put(t, k, v)) == Size(t) + (if k in Contents(t) then 0 else 1)
  {
    var top := FindAndAdd(t, k, v);
    FindAndAddContents(t, k, v);
    FindAndAddSized(t, k, v);
    FindAndAddSize(t, k, v);
    FindAndAddShape(t, k, v);
    Recolor(top, false);
  }

  /**
   * On any ordered, exactly sized tree, valid or not, `put` keeps order and
   * exact sizes, maps `k` to `v`, and grows `size()` exactly when `k` was new.
   */
  lemma PutKeepsMap<V>(t: Tree<V>, k: int, v: V)
    requires Ordered(t) && Sized(t)
    ensures Ordered(Put(t, k, v)) && Sized(Put(t, k, v))
    ensures Contents(Put(t, k, v)) == Contents(t)[k := v]
    ensures Size(Put(t, k, v)) == Size(t) + (if k in Contents(t) then 0 else 1)
  {
    var top := FindAndAdd(t, k, v);
    FindAndAddContents(t, k, v);
    FindAndAddSized(t, k, v);
    FindAndAddSize(t, k, v);
    Recolor(top, false);
    assert Put(t, k, v) == top.(red := false);
  }

  /**
   * After `put(k, v)`, `get(k)` finds `v`, and every other key still finds
   * what it found before. Only order is needed, so this also holds for the
   * trees the as-written `delete` leaves behind.
   */
  lemma GetAfterPut<V>(t: Tree<V>, k: int, v: V, j: int)
    requires Ordered(t)
    ensures Get(Put(t, k, v), k) == Some(v)
    ensures j != k ==> Get(Put(t, k, v), j) == Get(t, j)
  {
    var top := FindAndAdd(t, k, v);
    FindAndAddContents(t, k, v);
    Recolor(top, false);
    assert Put(t, k, v) == top.(red := false);
  }

  /**
   * Putting the same entry twice is the same as putting it once, as far as
   * the map and `size()` are concerned, on any ordered, exactly sized tree.
   */
  lemma PutIdempotent<V>(t: Tree<V>, k: int, v: V)
    requires Ordered(t) && Sized(t)
    ensures Contents(Put(Put(t, k, v), k, v)) == Contents(Put(t, k, v))
    ensures Size(Put(Put(t, k, v), k, v)) == Size(Put(t, k, v))
  {
    PutKeepsMap(t, k, v);
    PutAgain(Put(t, k, v), k, v);
  }

  /** Putting an entry the tree already holds changes neither the map nor `size()`. */
  lemma PutAgain<V>(t: Tree<V>, k: int, v: V)
    requires Ordered(t) && Sized(t) && k in Contents(t) && Contents(t)[k] == v
    ensures Contents(Put(t, k, v)) == Contents(t)
    ensures Size(Put(t, k, v)) == Size(t)
  {
    PutKeepsMap(t, k, v);
    assert Contents(t)[k := v] == Contents(t);
  }
}
