/**
 * Why the top-down deletion in `Deletion` is correct: the colour shapes the
 * recursion is entered with, the shape the repair on the way up restores,
 * and the resulting guarantees for `delete` — no null dereference, the map
 * loses exactly the deleted key, and the tree stays valid.
 */
module DeletionProofs {
  import opened Outcomes
  import opened Trees
  import opened Rotations
  import opened Lookup
  import opened Deletion

  // ----- colour shapes -----

  /** A node whose two subtrees are balanced alike and obey the colour rules. */
  ghost predicate KidsValid<V>(h: Tree<V>) {
    h.Node? && Balanced(h) && RedRule(h.left) && RedRule(h.right)
  }

  /**
   * The usual way a node is entered: the node or its left child is red and
   * its right child is black.
   */
  ghost predicate RedOnEntry<V>(h: Tree<V>) {
    KidsValid(h) && !IsRed(h.right) && (h.red || IsRed(h.left))
  }

  /**
   * The shapes `findAndDelete` is entered with: one of the usual ones, or,
   * after a right rotation on the way right, a black node with black left
   * and red right child whose key is at most the one being deleted.
   */
  ghost predicate DeleteEntry<V>(h: Tree<V>, k: int) {
    || RedOnEntry(h)
    || (KidsValid(h) && !h.red && !IsRed(h.left) && IsRed(h.right) && h.key <= k)
  }

  /**
   * What a removal from `h` hands back up: balanced with `h`'s black height,
   * leaning left, black when `h` was entered black, and obeying the colour
   * rules unless `h` was a red node with a red left child.
   */
  ghost predicate RepairedFrom<V>(h: Tree<V>, r: Tree<V>)
    requires h.Node?
  {
    && Balanced(r) && BlackHeight(r) == BlackHeight(h) && LeansLeft(r)
    && (!h.red ==> !IsRed(r))
    && (!(h.red && IsRed(h.left)) ==> RedRule(r))
  }

  /**
   * `fixForDelete` on a node whose subtrees are valid and which is not red
   * with two red children: it keeps the black height; a black node comes
   * back obeying the colour rules, red only if both children were red; a red
   * node comes back red and leaning left, obeying the rules when neither
   * child was red.
   */
  lemma FixForDeleteShape<V>(x: Tree<V>)
    requires KidsValid(x) && !(x.red && IsRed(x.left) && IsRed(x.right))
    ensures Balanced(FixForDelete(x)) && BlackHeight(FixForDelete(x)) == BlackHeight(x)
    ensures !x.red ==> RedRule(FixForDelete(x))
    ensures !x.red && IsRed(FixForDelete(x)) ==> IsRed(x.left) && IsRed(x.right)
    ensures x.red ==> FixForDelete(x).red && LeansLeft(FixForDelete(x))
    ensures x.red && !IsRed(x.left) && !IsRed(x.right) ==> RedRule(FixForDelete(x))
  {
    var h1 := if IsRed(x.left) && IsRed(x.right) then ColorFlip(x) else x;
    if IsRed(x.left) && IsRed(x.right) {
      ColorFlipBalanced(x);
    }
    var h2 := if IsRed(h1.right) && !IsRed(h1.left) then RotateLeft(h1) else h1;
    if IsRed(h1.right) && !IsRed(h1.left) {
      RotateLeftBalanced(h1);
    }
    // Under these preconditions two stacked red left links never arise here.
    assert !(IsRed(h2.left) && IsRed(h2.left.left));
    if IsRed(h2.left) && IsRed(h2.right) {
      ColorFlipBalanced(h2);
    }
  }

  // ----- descending left -----

  /**
   * What the step before descending left guarantees about the node `m` it
   * produces from `h`: the same black height, a left child entered in a
   * usual shape, and colours that let the repair hand back what `h` promises.
   */
  ghost predicate LeftFrame<V>(h: Tree<V>, m: Tree<V>)
    requires h.Node?
  {
    && m.Node? && Balanced(m) && BlackHeight(m) == BlackHeight(h) && RedRule(m.right)
    && RedOnEntry(m.left) && !(m.left.red && IsRed(m.left.left))
    && (m.red ==> !IsRed(m.right))
    && (!h.red ==> !m.red && !IsRed(m.right))
    && (m.red && !(h.red && IsRed(h.left)) ==> !IsRed(m.left))
  }

  /** From a usual entry shape with a left child, the step before descending left succeeds and sets up the frame. */
  lemma MoveRedLeftShape<V>(h: Tree<V>)
    requires RedOnEntry(h) && h.left.Node?
    ensures MoveRedLeft(h).Ok? && LeftFrame(h, MoveRedLeft(h).value)
    ensures Ordered(h) ==> h.key <= MoveRedLeft(h).value.key
  {
    if !IsRed(h.left) && !IsRed(h.left.left) {
      var f := ColorFlip(h);
      ColorFlipBalanced(h);
      if IsRed(f.right.left) {
        var f2 := f.(right := RotateRight(f.right));
        RotateRightBalanced(f.right);
        RotateLeftBalanced(f2);
        ColorFlipBalanced(RotateLeft(f2));
        var m := ColorFlip(RotateLeft(f2));
        var rl := h.right.left;
        assert RedRule(rl) && RedRule(rl.left) && RedRule(rl.right);
        assert m.left.left == h.left.(red := true) && m.left.right == rl.left;
        assert RedRule(h.left.(red := true));
        assert m.key == rl.key;
        assert Ordered(h) ==> rl.key in Contents(h.right);
        assert !IsRed(m.left.right);
      }
    }
  }

  /** Replacing the left child of a framed node by a repaired one and running the repair gives what `h` promises. */
  lemma RepairLeft<V>(h: Tree<V>, m: Tree<V>, c: Tree<V>)
    requires h.Node? && LeftFrame(h, m) && RepairedFrom(m.left, c)
    ensures RepairedFrom(h, FixForDelete(Resize(m.(left := c))))
  {
    FixForDeleteShape(Resize(m.(left := c)));
  }

  // ----- removing entries below a node -----

  /** Removing a key from the left subtree removes it from the node's map and keeps the order. */
  lemma RemovedOnLeft<V>(m: Tree<V>, l: Tree<V>, j: int)
    requires m.Node? && Ordered(m) && j in Contents(m.left)
    requires Ordered(l) && Contents(l) == Contents(m.left) - {j}
    ensures Contents(m.(left := l)) == Contents(m) - {j}
    ensures Ordered(m.(left := l))
  {
    assert j < m.key;
    assert j !in Contents(m.right);
  }

  /** Removing a key from the right subtree removes it from the node's map and keeps the order. */
  lemma RemovedOnRight<V>(m: Tree<V>, r: Tree<V>, j: int)
    requires m.Node? && Ordered(m) && j in Contents(m.right)
    requires Ordered(r) && Contents(r) == Contents(m.right) - {j}
    ensures Contents(m.(right := r)) == Contents(m) - {j}
    ensures Ordered(m.(right := r))
  {
    assert m.key < j;
  }

  /** A black node heads a subtree of black height at least one. */
  lemma BlackNodeHeight<V>(t: Tree<V>)
    requires t.Node? && !t.red
    ensures BlackHeight(t) >= 1
  {
  }

  /**
   * What removing the minimum from `h` must give: no null dereference,
   * exactly the least key gone, order and exact sizes kept, and what the
   * entry shape promises.
   */
  ghost predicate RemovedMin<V>(h: Tree<V>, r: Result<Tree<V>>)
    requires h.Node?
  {
    && r.Ok?
    && Contents(r.value) == Contents(h) - {FindMinNode(h).key}
    && Ordered(r.value) && Sized(r.value)
    && RepairedFrom(h, r.value)
  }

  /**
   * Removing the minimum from a subtree entered in a usual shape never
   * dereferences null, removes exactly the least key, keeps order and exact
   * sizes, and hands back what the entry shape promises.
   */
  lemma {:induction false} DeleteMinCorrect<V>(h: Tree<V>)
    requires Ordered(h) && Sized(h) && RedOnEntry(h)
    decreases |Keys(h)|, 1
    ensures DeleteMin(h).Ok?
    ensures Contents(DeleteMin(h).value) == Contents(h) - {FindMinNode(h).key}
    ensures Ordered(DeleteMin(h).value) && Sized(DeleteMin(h).value)
    ensures RepairedFrom(h, DeleteMin(h).value)
  {
    if h.left.Leaf? {
      MinAtBottom(h);
    } else {
      MinOnLeft(h);
    }
  }

  /** The least key sits at a node with no left child: that node is replaced by null. */
  lemma MinAtBottom<V>(h: Tree<V>)
    requires Ordered(h) && Sized(h) && RedOnEntry(h) && h.left.Leaf?
    ensures RemovedMin(h, DeleteMin(h))
  {
    if h.right.Node? {
      BlackNodeHeight(h.right);
    }
    assert Contents(h) == map[h.key := h.value];
  }

  /** The least key lies in the left subtree: push red left, recurse, repair. */
  lemma {:induction false} MinOnLeft<V>(h: Tree<V>)
    requires Ordered(h) && Sized(h) && RedOnEntry(h) && h.left.Node?
    decreases |Keys(h)|, 0
    ensures RemovedMin(h, DeleteMin(h))
  {
    MoveRedLeftShape(h);
    var m := MoveRedLeft(h).value;
    DeleteMinCorrect(m.left);
    var l := DeleteMin(m.left).value;
    assert Keys(m)[0] == Keys(m.left)[0];
    RemovedOnLeft(m, l, FindMinNode(m.left).key);
    RepairLeft(h, m, l);
    assert DeleteMin(h).value == FixForDelete(Resize(m.(left := l)));
  }

  // ----- descending right -----

  /**
   * What the step before descending right guarantees about the node `m` it
   * produces: the same black height, a right child entered in a shape
   * `findAndDelete` (or, for the successor, `deleteMinNode`) accepts, and
   * colours that let the repair hand back what `h` promises.
   */
  ghost predicate RightFrame<V>(h: Tree<V>, m: Tree<V>, k: int)
    requires h.Node?
  {
    && m.Node? && m.right.Node? && m.key <= k
    && Balanced(m) && BlackHeight(m) == BlackHeight(h) && RedRule(m.left)
    && (k == m.key ==> RedOnEntry(m.right))
    && (k != m.key ==> DeleteEntry(m.right, k))
    && !(m.right.red && IsRed(m.right.left))
    && (m.red ==> !IsRed(m.left))
    && (!h.red ==> !m.red && !IsRed(m.left))
    && (m.red && !(h.red && IsRed(h.left)) ==> !IsRed(m.right))
  }

  /**
   * Going right from an entry shape, unless the key sits in a node with no
   * right child, the step before descending right succeeds and sets up the frame.
   */
  lemma MoveRedRightShape<V>(h: Tree<V>, k: int)
    requires DeleteEntry(h, k) && Ordered(h) && k in Contents(h) && h.key <= k
    requires !(k == RightTurn(h).key && RightTurn(h).right.Leaf?)
    ensures MoveRedRight(RightTurn(h)).Ok? && RightFrame(h, MoveRedRight(RightTurn(h)).value, k)
  {
    if IsRed(h.left) {
      RotateRightBalanced(h);
      assert h.left.key in Contents(h.left);
    } else if !IsRed(h.right) {
      if !IsRed(h.right.left) {
        BlackNodeHeight(h.right);
        ColorFlipBalanced(h);
        var f := ColorFlip(h);
        if IsRed(f.left.left) {
          RotateRightBalanced(f);
          ColorFlipBalanced(RotateRight(f));
          assert h.left.key in Contents(h.left);
          var ll := h.left.left;
          assert RedRule(ll) && ColorFlip(RotateRight(f)).left == ll.(red := false);
        }
      }
    }
  }

  /** Replacing the right child (and possibly the entry) of a framed node by a repaired one and running the repair gives what `h` promises. */
  lemma RepairRight<V>(h: Tree<V>, m: Tree<V>, k: int, c: Tree<V>, key: int, value: V)
    requires h.Node? && RightFrame(h, m, k) && RepairedFrom(m.right, c)
    ensures RepairedFrom(h, FixForDelete(Resize(m.(key := key, value := value, right := c))))
  {
    FixForDeleteShape(Resize(m.(key := key, value := value, right := c)));
  }

  // ----- removing an arbitrary key -----

  /**
   * Overwriting a node's entry with its in-order successor and removing the
   * successor from the right subtree removes exactly the node's own key.
   */
  lemma SuccessorReplaces<V>(m: Tree<V>, rest: Tree<V>)
    requires m.Node? && m.right.Node? && Ordered(m)
    requires Ordered(rest) && Contents(rest) == Contents(m.right) - {FindMinNode(m.right).key}
    ensures Contents(m.(key := FindMinNode(m.right).key, value := FindMinNode(m.right).value, right := rest))
         == Contents(m) - {m.key}
    ensures Ordered(m.(key := FindMinNode(m.right).key, value := FindMinNode(m.right).value, right := rest))
  {
    var s := FindMinNode(m.right);
    assert m.key < s.key;
    assert m.key !in Contents(m.left);
    assert Contents(m.right) == Contents(rest)[s.key := s.value];
  }

  /**
   * The key found in a node with no right child: in a valid entry shape that
   * node is a red leaf, so dropping it removes exactly the key.
   */
  lemma RemoveRedLeaf<V>(h: Tree<V>, k: int)
    requires DeleteEntry(h, k) && RightTurn(h).right.Leaf? && k == RightTurn(h).key
    ensures RightTurn(h) == h && Contents(h) == map[k := h.value]
    ensures RepairedFrom(h, Leaf)
  {
    if h.left.Node? {
      BlackNodeHeight(h.left);
    }
  }

  /**
   * A removal of `k` from `h` that succeeded as intended: exactly `k` is
   * gone, its value is reported, order and exact sizes are kept, and the
   * subtree comes back as the entry shape of `h` promises.
   */
  ghost predicate RemovedKey<V>(h: Tree<V>, k: int, r: Result<Cut<V>>)
    requires h.Node? && k in Contents(h)
  {
    && r.Ok?
    && Contents(r.value.rest) == Contents(h) - {k}
    && r.value.removed == Contents(h)[k]
    && Ordered(r.value.rest) && Sized(r.value.rest)
    && RepairedFrom(h, r.value.rest)
  }

  /**
   * Removing a stored key from a subtree entered in an accepted shape never
   * dereferences null, removes exactly that key, returns the value it was
   * mapped to, keeps order and exact sizes, and hands back what the entry
   * shape promises.
   */
  lemma {:induction false} FindAndDeleteCorrect<V>(h: Tree<V>, k: int)
    requires Ordered(h) && Sized(h) && k in Contents(h) && DeleteEntry(h, k)
    decreases |Keys(h)|, 1
    ensures RemovedKey(h, k, FindAndDelete(h, k))
  {
    if k < h.key {
      RemoveOnLeft(h, k);
    } else {
      var g := RightTurn(h);
      if k == g.key && g.right.Leaf? {
        RemoveRedLeaf(h, k);
      } else {
        MoveRedRightShape(h, k);
        if k == MoveRedRight(g).value.key {
          RemoveBySuccessor(h, k);
        } else {
          RemoveOnRight(h, k);
        }
      }
    }
  }

  /** The case of a key below the node: push redness left and recurse. */
  lemma {:induction false} RemoveOnLeft<V>(h: Tree<V>, k: int)
    requires Ordered(h) && Sized(h) && k in Contents(h) && DeleteEntry(h, k) && k < h.key
    decreases |Keys(h)|, 0
    ensures RemovedKey(h, k, FindAndDelete(h, k))
  {
    MoveRedLeftShape(h);
    var m := MoveRedLeft(h).value;
    KeyBelowRoot(m, k);
    FindAndDeleteCorrect(m.left, k);
    var c := FindAndDelete(m.left, k).value;
    RemovedOnLeft(m, c.rest, k);
    RepairLeft(h, m, c.rest);
    assert FindAndDelete(h, k).value == Cut(FixForDelete(Resize(m.(left := c.rest))), c.removed);
  }

  /** The case of a key found in a node with a right subtree: replace it by its successor. */
  lemma RemoveBySuccessor<V>(h: Tree<V>, k: int)
    requires Ordered(h) && Sized(h) && k in Contents(h) && DeleteEntry(h, k) && h.key <= k
    requires !(k == RightTurn(h).key && RightTurn(h).right.Leaf?)
    requires MoveRedRight(RightTurn(h)).Ok? && k == MoveRedRight(RightTurn(h)).value.key
    ensures RemovedKey(h, k, FindAndDelete(h, k))
  {
    MoveRedRightShape(h, k);
    var m := MoveRedRight(RightTurn(h)).value;
    SuccessorCut(h, k, m);
    var s := FindMinNode(m.right);
    assert FindAndDelete(h, k)
        == Ok(Cut(FixForDelete(Resize(m.(key := s.key, value := s.value, right := DeleteMin(m.right).value))), m.value));
  }

  /** The successor step on a framed node whose own key is the one removed. */
  lemma SuccessorCut<V>(h: Tree<V>, k: int, m: Tree<V>)
    requires h.Node? && k in Contents(h) && RightFrame(h, m, k) && k == m.key
    requires Ordered(m) && Sized(m) && Contents(m) == Contents(h)
    ensures DeleteMin(m.right).Ok?
    ensures RemovedKey(h, k, Ok(Cut(FixForDelete(Resize(m.(key := FindMinNode(m.right).key,
                                                               value := FindMinNode(m.right).value,
                                                               right := DeleteMin(m.right).value))),
                                   m.value)))
  {
    var s := FindMinNode(m.right);
    DeleteMinCorrect(m.right);
    var rest := DeleteMin(m.right).value;
    SuccessorReplaces(m, rest);
    RepairRight(h, m, k, rest, s.key, s.value);
    KeyAtRoot(m);
  }

  /** The case of a key above the node: push redness right and recurse. */
  lemma {:induction false} RemoveOnRight<V>(h: Tree<V>, k: int)
    requires Ordered(h) && Sized(h) && k in Contents(h) && DeleteEntry(h, k) && h.key <= k
    requires !(k == RightTurn(h).key && RightTurn(h).right.Leaf?)
    requires MoveRedRight(RightTurn(h)).Ok? && k != MoveRedRight(RightTurn(h)).value.key
    decreases |Keys(h)|, 0
    ensures RemovedKey(h, k, FindAndDelete(h, k))
  {
    var g := RightTurn(h);
    MoveRedRightShape(h, k);
    var m := MoveRedRight(g).value;
    KeyAboveRoot(m, k);
    FindAndDeleteCorrect(m.right, k);
    var c := FindAndDelete(m.right, k).value;
    RemovedOnRight(m, c.rest, k);
    RepairRight(h, m, k, c.rest, m.key, m.value);
    assert m.(key := m.key, value := m.value, right := c.rest) == m.(right := c.rest);
    assert FindAndDelete(h, k).value == Cut(FixForDelete(Resize(m.(right := c.rest))), c.removed);
  }

  // ----- the public operation -----

  /** A map loses one entry exactly when the removed key was present. */
  lemma RemoveCount<V>(m: map<int, V>, k: int)
    ensures |m - {k}| == |m| - (if k in m then 1 else 0)
  {
    if k in m {
      assert (m - {k}).Keys + {k} == m.Keys;
    } else {
      assert (m - {k}).Keys == m.Keys;
    }
  }

  /**
   * `delete` on a valid tree never throws, keeps the tree valid, removes
   * exactly `k`, returns the value `k` was mapped to (null when absent),
   * shrinks the size by one exactly when `k` was present, and leaves the
   * tree untouched when it was not.
   */
  lemma DeleteCorrect<V>(t: Tree<V>, k: int)
    requires Valid(t)
    ensures Delete(t, k).Ok?
    ensures Valid(Delete(t, k).value.tree)
    ensures Contents(Delete(t, k).value.tree) == Contents(t) - {k}
    ensures Delete(t, k).value.value == (if k in Contents(t) then Some(Contents(t)[k]) else None)
    ensures Size(Delete(t, k).value.tree) == Size(t) - (if k in Contents(t) then 1 else 0)
    ensures k !in Contents(t) ==> Delete(t, k).value.tree == t
  {
    SizeCountsEntries(t);
    RemoveCount(Contents(t), k);
    if t.Node? && ContainsKey(t, k) {
      var h := t.(red := true);
      Recolor(t, true);
      FindAndDeleteCorrect(h, k);
      var rest := FindAndDelete(h, k).value.rest;
      if rest.Node? {
        Recolor(rest, false);
      }
      SizeCountsEntries(Blacken(rest));
    }
  }

  /** After `delete(k)`, `get(k)` finds nothing and every other key finds what it found before. */
  lemma GetAfterDelete<V>(t: Tree<V>, k: int, j: int)
    requires Valid(t)
    ensures Delete(t, k).Ok?
    ensures Get(Delete(t, k).value.tree, k) == None
    ensures j != k ==> Get(Delete(t, k).value.tree, j) == Get(t, j)
  {
    DeleteCorrect(t, k);
  }
}
