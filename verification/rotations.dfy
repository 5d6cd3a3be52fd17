/**
 * The shared restructuring primitives: `rotateLeft`, `rotateRight`,
 * `colorFlip` and the size recomputation that follows every structural
 * change. Each needs the children it dereferences to be present; the
 * callers only invoke them after an `isRed` test that guarantees it.
 */
module Rotations {
  import opened Trees

  /** `node.subtreeSize = size(node.left) + size(node.right) + 1`. */
  function Resize<V>(h: Tree<V>): (r: Tree<V>)
    requires h.Node?
    ensures r.Node? && Keys(r) == Keys(h) && Contents(r) == Contents(h)
    ensures r.red == h.red && r.left == h.left && r.right == h.right && r.key == h.key
    ensures Sized(h.left) && Sized(h.right) ==> Sized(r)
  {
    h.(size := Size(h.left) + Size(h.right) + 1)
  }

  /** True when both children carry exact sizes; the node's own may be stale. */
  ghost predicate SizedBelow<V>(t: Tree<V>) {
    t.Node? && Sized(t.left) && Sized(t.right)
  }

  /**
   * Turns a right-leaning link into a left-leaning one. The old right child
   * becomes the top, takes the old top's colour and cached size; the old top
   * becomes its red left child with its size recomputed.
   */
  function RotateLeft<V>(h: Tree<V>): (r: Tree<V>)
    requires h.Node? && h.right.Node?
    ensures r.Node? && r.left.Node?
    ensures Keys(r) == Keys(h) && Contents(r) == Contents(h)
    ensures r.red == h.red && r.left.red
    ensures r.size == h.size
    ensures r.left.size == Size(r.left.left) + Size(r.left.right) + 1
    ensures r.left.left == h.left && r.left.right == h.right.left && r.right == h.right.right
    ensures Ordered(h) ==> Ordered(r)
    ensures SizedBelow(h) ==> SizedBelow(r)
    ensures Sized(h) ==> Sized(r)
  {
    var x := h.right;
    var lower := h.(right := x.left, red := true, size := Size(h.left) + Size(x.left) + 1);
    assert Contents(x) == Contents(x.left)[x.key := x.value] + Contents(x.right);
    assert Contents(lower) == Contents(h.left)[h.key := h.value] + Contents(x.left);
    RotatedOrder(x.(left := lower), h);
    x.(left := lower, red := h.red, size := h.size)
  }

  /** The mirror image of `RotateLeft`: a red left link becomes a red right link. */
  function RotateRight<V>(h: Tree<V>): (r: Tree<V>)
    requires h.Node? && h.left.Node?
    ensures r.Node? && r.right.Node?
    ensures Keys(r) == Keys(h) && Contents(r) == Contents(h)
    ensures r.red == h.red && r.right.red
    ensures r.size == h.size
    ensures r.right.size == Size(r.right.left) + Size(r.right.right) + 1
    ensures r.left == h.left.left && r.right.left == h.left.right && r.right.right == h.right
    ensures Ordered(h) ==> Ordered(r)
    ensures SizedBelow(h) ==> SizedBelow(r)
    ensures Sized(h) ==> Sized(r)
  {
    var x := h.left;
    var upper := h.(left := x.right, red := true, size := Size(x.right) + Size(h.right) + 1);
    assert Contents(x) == Contents(x.left)[x.key := x.value] + Contents(x.right);
    assert Contents(upper) == Contents(x.right)[h.key := h.value] + Contents(h.right);
    RotatedOrder(h, x.(right := upper));
    x.(right := upper, red := h.red, size := h.size)
  }

  /** Gives a node and both its children the opposite colour; nothing else changes. */
  function ColorFlip<V>(h: Tree<V>): (r: Tree<V>)
    requires h.Node? && h.left.Node? && h.right.Node?
    ensures r.Node? && r.left.Node? && r.right.Node?
    ensures Keys(r) == Keys(h) && Contents(r) == Contents(h)
    ensures r.red == !h.red && r.left.red == !h.left.red && r.right.red == !h.right.red
    ensures r.key == h.key && r.size == h.size
    ensures Ordered(h) ==> Ordered(r)
    ensures Sized(h) ==> Sized(r)
    ensures SizedBelow(h) ==> SizedBelow(r)
  {
    Recolor(h.left, !h.left.red);
    Recolor(h.right, !h.right.red);
    h.(red := !h.red,
       left := h.left.(red := !h.left.red),
       right := h.right.(red := !h.right.red))
  }

  /**
   * The two shapes a rotation moves between, ((a j b) k c) and (a j (b k c)),
   * are ordered under the same conditions; colours, values and sizes play no part.
   */
  lemma RotatedOrder<V>(lo: Tree<V>, hi: Tree<V>)
    requires lo.Node? && lo.left.Node? && hi.Node? && hi.right.Node?
    requires lo.left.left == hi.left && lo.left.key == hi.key && lo.left.value == hi.value
    requires lo.left.right == hi.right.left
    requires lo.key == hi.right.key && lo.value == hi.right.value && lo.right == hi.right.right
    ensures Ordered(lo) <==> Ordered(hi)
  {
    if Ordered(lo) {
      OrderedUpward(lo, hi);
    }
    if Ordered(hi) {
      OrderedDownward(lo, hi);
    }
  }

  /** ((a j b) k c) ordered gives (a j (b k c)) ordered. */
  lemma OrderedUpward<V>(lo: Tree<V>, hi: Tree<V>)
    requires lo.Node? && lo.left.Node? && hi.Node? && hi.right.Node?
    requires lo.left.left == hi.left && lo.left.key == hi.key && lo.left.value == hi.value
    requires lo.left.right == hi.right.left
    requires lo.key == hi.right.key && lo.value == hi.right.value && lo.right == hi.right.right
    requires Ordered(lo)
    ensures Ordered(hi)
  {
    var a, b, c := hi.left, hi.right.left, hi.right.right;
    var j, k := hi.key, hi.right.key;
    assert Contents(lo.left) == Contents(a)[j := hi.value] + Contents(b);
    assert Contents(hi.right) == Contents(b)[k := lo.value] + Contents(c);
    assert j in Contents(lo.left);
    assert j < k;
    forall x | x in Contents(b)
      ensures j < x < k
    {
      assert x in Contents(lo.left);
    }
    assert Ordered(hi.right);
    forall x | x in Contents(hi.right)
      ensures j < x
    {
      assert x in Contents(b) || x == k || x in Contents(c);
    }
  }

  /** (a j (b k c)) ordered gives ((a j b) k c) ordered. */
  lemma OrderedDownward<V>(lo: Tree<V>, hi: Tree<V>)
    requires lo.Node? && lo.left.Node? && hi.Node? && hi.right.Node?
    requires lo.left.left == hi.left && lo.left.key == hi.key && lo.left.value == hi.value
    requires lo.left.right == hi.right.left
    requires lo.key == hi.right.key && lo.value == hi.right.value && lo.right == hi.right.right
    requires Ordered(hi)
    ensures Ordered(lo)
  {
    var a, b, c := hi.left, hi.right.left, hi.right.right;
    var j, k := hi.key, hi.right.key;
    assert Contents(lo.left) == Contents(a)[j := hi.value] + Contents(b);
    assert Contents(hi.right) == Contents(b)[k := lo.value] + Contents(c);
    assert k in Contents(hi.right);
    assert j < k;
    forall x | x in Contents(b)
      ensures j < x < k
    {
      assert x in Contents(hi.right);
    }
    assert Ordered(lo.left);
    forall x | x in Contents(lo.left)
      ensures x < k
    {
      assert x in Contents(a) || x == j || x in Contents(b);
    }
  }

  /** Changing a node's colour changes none of its contents, order or sizes. */
  lemma Recolor<V>(t: Tree<V>, c: bool)
    requires t.Node?
    ensures Keys(t.(red := c)) == Keys(t) && Contents(t.(red := c)) == Contents(t)
    ensures Ordered(t.(red := c)) == Ordered(t) && Sized(t.(red := c)) == Sized(t)
    ensures Balanced(t.(red := c)) == Balanced(t)
  {
  }

  /** Flipping twice restores the node. */
  lemma ColorFlipInvolutive<V>(h: Tree<V>)
    requires h.Node? && h.left.Node? && h.right.Node?
    ensures ColorFlip(ColorFlip(h)) == h
  {
  }

  /**
   * A rotation keeps the cached size of the rotated position and, when the
   * subtree's sizes were exact, leaves them all exact.
   */
  lemma RotationsKeepSizes<V>(h: Tree<V>)
    requires h.Node? && Sized(h)
    ensures h.right.Node? ==> Sized(RotateLeft(h)) && Size(RotateLeft(h)) == Size(h)
    ensures h.left.Node? ==> Sized(RotateRight(h)) && Size(RotateRight(h)) == Size(h)
  {
  }

  /** Rotating a red right link to the left and back restores the subtree exactly. */
  lemma RotateRightUndoesRotateLeft<V>(h: Tree<V>)
    requires h.Node? && IsRed(h.right) && Sized(h)
    ensures RotateRight(RotateLeft(h)) == h
  {
  }

  /** Rotating a red left link to the right and back restores the subtree exactly. */
  lemma RotateLeftUndoesRotateRight<V>(h: Tree<V>)
    requires h.Node? && IsRed(h.left) && Sized(h)
    ensures RotateLeft(RotateRight(h)) == h
  {
  }

  /**
   * Rotating a red right link keeps every path's black count: the subtree
   * stays balanced with the same black height.
   */
  lemma RotateLeftBalanced<V>(h: Tree<V>)
    requires h.Node? && IsRed(h.right) && Balanced(h)
    ensures Balanced(RotateLeft(h)) && BlackHeight(RotateLeft(h)) == BlackHeight(h)
  {
  }

  /** The mirror image of `RotateLeftBalanced`, for a red left link. */
  lemma RotateRightBalanced<V>(h: Tree<V>)
    requires h.Node? && IsRed(h.left) && Balanced(h)
    ensures Balanced(RotateRight(h)) && BlackHeight(RotateRight(h)) == BlackHeight(h)
  {
  }

  /**
   * A flip between a node and two children of the opposite colour moves one
   * black level up or down without changing any path's black count.
   */
  lemma ColorFlipBalanced<V>(h: Tree<V>)
    requires h.Node? && h.left.Node? && h.right.Node? && Balanced(h)
    requires h.left.red == h.right.red && h.red != h.left.red
    ensures Balanced(ColorFlip(h)) && BlackHeight(ColorFlip(h)) == BlackHeight(h)
  {
    Recolor(h.left, !h.left.red);
    Recolor(h.right, !h.right.red);
  }
}
