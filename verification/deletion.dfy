/**
 * Deletion, top-down: `delete` reddens the root, `findAndDelete` walks down
 * pushing a red link ahead of itself so that the node finally removed is red
 * (or has a red partner), and `fixForDelete` restores the colour rules on the
 * way back up. A node with a right subtree is replaced by its in-order
 * successor, which `deleteMinNode` removes from that subtree.
 *
 * This module is the deletion as its design intends it: `DeleteMin` pushes
 * redness left with the same step `findAndDelete` uses, and `delete` reports
 * the value the removed key was mapped to. `DeletionAsWritten` models the
 * source's two departures from this and exhibits what they break.
 */
module Deletion {
  import opened Outcomes
  import opened Trees
  import opened Rotations
  import opened Lookup

  /** What `findAndDelete` hands back: the new subtree and the value of the removed entry. */
  datatype Cut<V> = Cut(rest: Tree<V>, removed: V)

  /** The result of a public `delete`: the new tree and the value returned to the caller (Java `null` is `None`). */
  datatype Removed<V> = Removed(tree: Tree<V>, value: Option<V>)

  /**
   * RedBlackTree.java `fixForDelete`: flip two red children, rotate a lone
   * red right link left, rotate two stacked red left links right, flip again.
   */
  function FixForDelete<V>(h: Tree<V>): (r: Tree<V>)
    requires h.Node?
    ensures r.Node? && Keys(r) == Keys(h) && Contents(r) == Contents(h)
    ensures Ordered(h) ==> Ordered(r)
    ensures Sized(h) ==> Sized(r)
  {
    var h1 := if IsRed(h.left) && IsRed(h.right) then ColorFlip(h) else h;
    var h2 := if IsRed(h1.right) && !IsRed(h1.left) then RotateLeft(h1) else h1;
    var h3 := if IsRed(h2.left) && IsRed(h2.left.left) then RotateRight(h2) else h2;
    if IsRed(h3.left) && IsRed(h3.right) then ColorFlip(h3) else h3
  }

  /**
   * The step `findAndDelete` takes before descending left: when neither
   * the left child nor its left child is red, flip to borrow redness from
   * the parent and, if the right child's left child is red, move that red
   * node over to the left side. Dereferencing an absent left
   * or right child is Java's NullPointerException.
   */
  function MoveRedLeft<V>(h: Tree<V>): (r: Result<Tree<V>>)
    requires h.Node?
    ensures r.Ok? ==> r.value.Node? && Keys(r.value) == Keys(h) && Contents(r.value) == Contents(h)
    ensures r.Ok? && Ordered(h) ==> Ordered(r.value)
    ensures r.Ok? && Sized(h) ==> Sized(r.value)
  {
    if IsRed(h.left) then Ok(h)
    else if h.left.Leaf? then Err(NullPointer)
    else if IsRed(h.left.left) then Ok(h)
    else if h.right.Leaf? then Err(NullPointer)
    else
      var f := ColorFlip(h);
      if IsRed(f.right.left) then Ok(ColorFlip(RotateLeft(f.(right := RotateRight(f.right)))))
      else Ok(f)
  }

  /**
   * The step `findAndDelete` takes before descending right: when neither
   * the right child nor its left child is red, flip and, if the left child's
   * left child is then red, rotate right and flip back.
   */
  function MoveRedRight<V>(h: Tree<V>): (r: Result<Tree<V>>)
    requires h.Node?
    ensures r.Ok? ==> r.value.Node? && r.value.right.Node?
    ensures r.Ok? ==> Keys(r.value) == Keys(h) && Contents(r.value) == Contents(h)
    ensures r.Ok? && Ordered(h) ==> Ordered(r.value)
    ensures r.Ok? && Sized(h) ==> Sized(r.value)
  {
    if IsRed(h.right) then Ok(h)
    else if h.right.Leaf? then Err(NullPointer)
    else if IsRed(h.right.left) then Ok(h)
    else if h.left.Leaf? then Err(NullPointer)
    else
      var f := ColorFlip(h);
      if IsRed(f.left.left) then Ok(ColorFlip(RotateRight(f)))
      else Ok(f)
  }

  /** The node `findAndDelete` works on when going right: a red left link is first rotated to the right. */
  function RightTurn<V>(h: Tree<V>): (g: Tree<V>)
    requires h.Node?
    ensures g.Node? && Keys(g) == Keys(h) && Contents(g) == Contents(h)
    ensures Ordered(h) ==> Ordered(g) && g.key <= h.key
    ensures Sized(h) ==> Sized(g)
  {
    if IsRed(h.left) then
      var g := RotateRight(h);
      assert Ordered(h) ==> h.left.key in Contents(h.left);
      g
    else h
  }

  /**
   * RedBlackTree.java `deleteMinNode`, with redness pushed left by the same
   * step `findAndDelete` uses: removes the smallest key of the subtree.
   */
  function DeleteMin<V>(h: Tree<V>): (r: Result<Tree<V>>)
    decreases |Keys(h)|
  {
    if h.Leaf? then Err(NullPointer)
    else if h.left.Leaf? then Ok(Leaf)
    else
      var m :- MoveRedLeft(h);
      var l :- DeleteMin(m.left);
      Ok(FixForDelete(Resize(m.(left := l))))
  }

  /**
   * RedBlackTree.java `findAndDelete`: removes `k` from the subtree and
   * returns the value it was mapped to.
   */
  function FindAndDelete<V>(h: Tree<V>, k: int): (r: Result<Cut<V>>)
    decreases |Keys(h)|
  {
    if h.Leaf? then Err(NullPointer)
    else if k < h.key then
      var m :- MoveRedLeft(h);
      var c :- FindAndDelete(m.left, k);
      Ok(Cut(FixForDelete(Resize(m.(left := c.rest))), c.removed))
    else
      var g := RightTurn(h);
      if k == g.key && g.right.Leaf? then Ok(Cut(Leaf, g.value))
      else
        var m :- MoveRedRight(g);
        if k == m.key then
          var s := FindMinNode(m.right);
          var rest :- DeleteMin(m.right);
          Ok(Cut(FixForDelete(Resize(m.(key := s.key, value := s.value, right := rest))), m.value))
        else
          var c :- FindAndDelete(m.right, k);
          Ok(Cut(FixForDelete(Resize(m.(right := c.rest))), c.removed))
  }

  /**
   * RedBlackTree.java `delete`: an empty tree or an absent key changes
   * nothing and returns `null`; otherwise the root is made red, the key is
   * removed, the root is made black again and the removed value is returned.
   */
  function Delete<V>(t: Tree<V>, k: int): (r: Result<Removed<V>>)
  {
    if t.Leaf? || !ContainsKey(t, k) then Ok(Removed(t, None))
    else
      var c :- FindAndDelete(Redden(t), k);
      Ok(Removed(Blacken(c.rest), Some(c.removed)))
  }
}
