/**
 * Deletion exactly as RedBlackTree.java writes it, where it departs from
 * `Deletion`:
 *
 *  - `deleteMinNode` pushes redness left with a colour flip only. The
 *    rotation that should follow is guarded by a test of the left child's
 *    left child, which the flip does not touch and which the outer test has
 *    just found black, so it never runs (`InnerRotationNeverRuns`). The red
 *    link that should have been moved over from the right is left where it
 *    is, and the colour rules can break.
 *  - `delete` returns `deletedNode.value`, but when the node had a right
 *    subtree `findAndDelete` has just overwritten that node object with its
 *    successor's entry, so the successor's value is returned.
 *
 * What survives for every input is proved (`DeleteKeeps`): order, exact
 * sizes, and the removal of the key. The lemmas on concrete trees exhibit
 * what breaks.
 */
module DeletionAsWritten {
  import opened Outcomes
  import opened Trees
  import opened Rotations
  import opened Lookup
  import Deletion
  import DeletionProofs
  import Insertion

  /**
   * The never-taken rotation in `deleteMinNode`: after its colour flip the
   * left child's left child is the one its outer guard has just found black.
   */
  lemma InnerRotationNeverRuns<V>(h: Tree<V>)
    requires h.Node? && h.left.Node? && h.right.Node? && !IsRed(h.left.left)
    ensures !IsRed(ColorFlip(h).left.left)
  {
  }

  /**
   * The step `deleteMinNode` takes before descending left: flip when
   * neither the left child nor its left child is red (the rotation that
   * follows never runs, see `InnerRotationNeverRuns`).
   */
  function FlipLeft<V>(h: Tree<V>): (r: Result<Tree<V>>)
    requires h.Node?
    ensures r.Ok? ==> r.value.Node? && r.value.left.Node?
    ensures r.Ok? ==> Keys(r.value) == Keys(h) && Contents(r.value) == Contents(h)
    ensures r.Ok? && Ordered(h) ==> Ordered(r.value)
    ensures r.Ok? && Sized(h) ==> Sized(r.value)
  {
    if IsRed(h.left) then Ok(h)
    else if h.left.Leaf? then Err(NullPointer)
    else if IsRed(h.left.left) then Ok(h)
    else if h.right.Leaf? then Err(NullPointer)
    else Ok(ColorFlip(h))
  }

  /** RedBlackTree.java `deleteMinNode` as written. */
  function DeleteMin<V>(h: Tree<V>): (r: Result<Tree<V>>)
    decreases |Keys(h)|
  {
    if h.Leaf? then Err(NullPointer)
    else if h.left.Leaf? then Ok(Leaf)
    else
      var m :- FlipLeft(h);
      var l :- DeleteMin(m.left);
      Ok(Deletion.FixForDelete(Resize(m.(left := l))))
  }

  /**
   * RedBlackTree.java `findAndDelete` as written: the successor is removed
   * with the as-written `deleteMinNode`, and the value reported for a node
   * replaced by its successor is the successor's.
   */
  function FindAndDelete<V>(h: Tree<V>, k: int): (r: Result<Deletion.Cut<V>>)
    decreases |Keys(h)|
  {
    if h.Leaf? then Err(NullPointer)
    else if k < h.key then
      var m :- Deletion.MoveRedLeft(h);
      var c :- FindAndDelete(m.left, k);
      Ok(Deletion.Cut(Deletion.FixForDelete(Resize(m.(left := c.rest))), c.removed))
    else
      var g := Deletion.RightTurn(h);
      if k == g.key && g.right.Leaf? then Ok(Deletion.Cut(Leaf, g.value))
      else
        var m :- Deletion.MoveRedRight(g);
        if k == m.key then
          var s := FindMinNode(m.right);
          var rest :- DeleteMin(m.right);
          Ok(Deletion.Cut(Deletion.FixForDelete(Resize(m.(key := s.key, value := s.value, right := rest))), s.value))
        else
          var c :- FindAndDelete(m.right, k);
          Ok(Deletion.Cut(Deletion.FixForDelete(Resize(m.(right := c.rest))), c.removed))
  }

  /** RedBlackTree.java `delete` as written. */
  function Delete<V>(t: Tree<V>, k: int): (r: Result<Deletion.Removed<V>>)
  {
    if t.Leaf? || !ContainsKey(t, k) then Ok(Deletion.Removed(t, None))
    else
      var c :- FindAndDelete(Redden(t), k);
      Ok(Deletion.Removed(Blacken(c.rest), Some(c.removed)))
  }

  // ----- what the as-written deletion still keeps -----

  /** Every entry of `a` is an entry of `b`. */
  ghost predicate SubMap<V>(a: map<int, V>, b: map<int, V>) {
    forall x :: x in a ==> x in b && a[x] == b[x]
  }

  /**
   * What a removal of `k` from `h` that returns normally keeps even as
   * written: order and exact sizes, no entry that was not in `h`, and no `k`.
   */
  ghost predicate Shrunk<V>(h: Tree<V>, r: Tree<V>, k: int) {
    Ordered(r) && Sized(r) && SubMap(Contents(r), Contents(h)) && k !in Contents(r)
  }

  /** Shrinking the left subtree of an ordered node and repairing it shrinks the node. */
  lemma ShrunkOnLeft<V>(m: Tree<V>, l: Tree<V>, j: int)
    requires m.Node? && Ordered(m) && Sized(m) && j in Contents(m.left) && Shrunk(m.left, l, j)
    ensures Shrunk(m, Deletion.FixForDelete(Resize(m.(left := l))), j)
  {
    var n := m.(left := l);
    assert j < m.key && j !in Contents(m.right);
    forall x | x in Contents(l)
      ensures x < m.key && x !in Contents(m.right)
    {
      assert x in Contents(m.left);
    }
    assert Ordered(n);
    forall x | x in Contents(n)
      ensures x in Contents(m) && Contents(n)[x] == Contents(m)[x]
    {
      if x != m.key && x !in Contents(m.right) {
        assert x in Contents(l) && x in Contents(m.left);
      }
    }
  }

  /** Shrinking the right subtree of an ordered node and repairing it shrinks the node. */
  lemma ShrunkOnRight<V>(m: Tree<V>, r: Tree<V>, j: int)
    requires m.Node? && Ordered(m) && Sized(m) && j in Contents(m.right) && Shrunk(m.right, r, j)
    ensures Shrunk(m, Deletion.FixForDelete(Resize(m.(right := r))), j)
  {
    var n := m.(right := r);
    assert m.key < j && j !in Contents(m.left);
    forall x | x in Contents(r)
      ensures m.key < x && x !in Contents(m.left)
    {
      assert x in Contents(m.right);
    }
    assert Ordered(n);
    forall x | x in Contents(n)
      ensures x in Contents(m) && Contents(n)[x] == Contents(m)[x]
    {
      if x in Contents(r) {
        assert x in Contents(m.right);
      }
    }
  }

  /**
   * Overwriting a node with its in-order successor and shrinking the right
   * subtree by that successor removes the node's own key and keeps order.
   */
  lemma ShrunkBySuccessor<V>(m: Tree<V>, rest: Tree<V>)
    requires m.Node? && m.right.Node? && Ordered(m) && Sized(m)
    requires Shrunk(m.right, rest, FindMinNode(m.right).key)
    ensures Shrunk(m, Deletion.FixForDelete(Resize(m.(key := FindMinNode(m.right).key,
                                                      value := FindMinNode(m.right).value,
                                                      right := rest))), m.key)
  {
    var s := FindMinNode(m.right);
    var n := m.(key := s.key, value := s.value, right := rest);
    SuccessorOrdered(m, rest);
    SuccessorSubMap(m, rest);
    assert Sized(Resize(n));
  }

  /** The successor's key lies above the left subtree and below what remains on the right. */
  lemma SuccessorOrdered<V>(m: Tree<V>, rest: Tree<V>)
    requires m.Node? && m.right.Node? && Ordered(m)
    requires Shrunk(m.right, rest, FindMinNode(m.right).key)
    ensures Ordered(m.(key := FindMinNode(m.right).key, value := FindMinNode(m.right).value, right := rest))
  {
    var s := FindMinNode(m.right);
    var n := m.(key := s.key, value := s.value, right := rest);
    assert s.key in Contents(m.right);
    assert m.key < s.key;
    forall x | x in Contents(m.left)
      ensures x < s.key
    {
    }
    forall x | x in Contents(rest)
      ensures s.key < x
    {
      assert x in Contents(m.right) && x != s.key;
    }
    assert Ordered(n.left) && Ordered(n.right);
  }

  /** Overwriting with the successor adds no entry and leaves out the node's own key. */
  lemma SuccessorSubMap<V>(m: Tree<V>, rest: Tree<V>)
    requires m.Node? && m.right.Node? && Ordered(m)
    requires Shrunk(m.right, rest, FindMinNode(m.right).key)
    ensures var n := m.(key := FindMinNode(m.right).key, value := FindMinNode(m.right).value, right := rest);
      SubMap(Contents(n), Contents(m)) && m.key !in Contents(n)
  {
    var s := FindMinNode(m.right);
    var n := m.(key := s.key, value := s.value, right := rest);
    assert m.key < s.key && m.key !in Contents(m.left);
    forall x | x in Contents(rest)
      ensures m.key < x && x !in Contents(m.left)
    {
      assert x in Contents(m.right);
    }
    forall x | x in Contents(n)
      ensures x in Contents(m) && Contents(n)[x] == Contents(m)[x]
    {
      if x in Contents(rest) {
        assert x in Contents(m.right);
      } else if x == s.key {
        assert x in Contents(m.right) && x !in Contents(m.left);
      }
    }
  }

  /**
   * The as-written `deleteMinNode`, whenever it returns normally on an
   * ordered, exactly sized subtree, keeps order and exact sizes, drops the
   * least key, and adds nothing.
   */
  lemma {:induction false} DeleteMinKeeps<V>(h: Tree<V>)
    requires Ordered(h) && Sized(h)
    ensures DeleteMin(h).Ok? ==> h.Node? && Shrunk(h, DeleteMin(h).value, FindMinNode(h).key)
    decreases |Keys(h)|
  {
    if h.Node? && h.left.Node? && DeleteMin(h).Ok? {
      var m := FlipLeft(h).value;
      DeleteMinKeeps(m.left);
      var l := DeleteMin(m.left).value;
      assert Keys(m)[0] == Keys(m.left)[0];
      ShrunkOnLeft(m, l, FindMinNode(m.left).key);
      assert DeleteMin(h).value == Deletion.FixForDelete(Resize(m.(left := l)));
    }
  }

  /**
   * The as-written `findAndDelete`, whenever it returns normally on an
   * ordered, exactly sized subtree, found `k` there, and the subtree it hands
   * back keeps order and exact sizes, lacks `k`, and adds nothing.
   */
  lemma {:induction false} FindAndDeleteKeeps<V>(h: Tree<V>, k: int)
    requires Ordered(h) && Sized(h)
    ensures FindAndDelete(h, k).Ok? ==> k in Contents(h) && Shrunk(h, FindAndDelete(h, k).value.rest, k)
    decreases |Keys(h)|
  {
    if h.Node? && FindAndDelete(h, k).Ok? {
      if k < h.key {
        var m := Deletion.MoveRedLeft(h).value;
        FindAndDeleteKeeps(m.left, k);
        var c := FindAndDelete(m.left, k).value;
        ShrunkOnLeft(m, c.rest, k);
        assert FindAndDelete(h, k).value.rest == Deletion.FixForDelete(Resize(m.(left := c.rest)));
      } else {
        var g := Deletion.RightTurn(h);
        if k == g.key && g.right.Leaf? {
          KeyAtRoot(g);
        } else {
          var m := Deletion.MoveRedRight(g).value;
          if k == m.key {
            DeleteMinKeeps(m.right);
            var s := FindMinNode(m.right);
            var rest := DeleteMin(m.right).value;
            ShrunkBySuccessor(m, rest);
            KeyAtRoot(m);
            assert FindAndDelete(h, k).value.rest
                == Deletion.FixForDelete(Resize(m.(key := s.key, value := s.value, right := rest)));
          } else {
            FindAndDeleteKeeps(m.right, k);
            var c := FindAndDelete(m.right, k).value;
            ShrunkOnRight(m, c.rest, k);
            assert FindAndDelete(h, k).value.rest == Deletion.FixForDelete(Resize(m.(right := c.rest)));
          }
        }
      }
    }
  }

  /**
   * What the as-written `delete` does keep on an ordered, exactly sized
   * tree: an absent key changes nothing and returns null; otherwise, when it
   * returns normally, the root is black, the tree is still ordered and
   * exactly sized, `k` is gone, a value is returned, and every remaining
   * entry was there before. Unlike `Deletion.Delete` it may lose other
   * entries (`SecondDeleteLosesKey`) and report a value other than `k`'s
   * (`DeleteReturnsSuccessorValue`).
   */
  lemma DeleteKeeps<V>(t: Tree<V>, k: int)
    requires Ordered(t) && Sized(t)
    ensures k !in Contents(t) ==> Delete(t, k) == Ok(Deletion.Removed(t, None))
    ensures Delete(t, k).Ok? ==> Shrunk(t, Delete(t, k).value.tree, k)
    ensures Delete(t, k).Ok? && k in Contents(t) ==>
      Delete(t, k).value.value.Some? && !IsRed(Delete(t, k).value.tree)
  {
    if t.Node? && ContainsKey(t, k) && Delete(t, k).Ok? {
      Recolor(t, true);
      FindAndDeleteKeeps(Redden(t), k);
      var rest := FindAndDelete(Redden(t), k).value.rest;
      if rest.Node? {
        Recolor(rest, false);
      }
    }
  }

  // ----- the value the as-written deletion reports -----

  /** `j` is the least stored key above `k`: the in-order successor of `k`. */
  ghost predicate NextKey<V>(c: map<int, V>, k: int, j: int) {
    j in c && k < j && forall x :: x in c && k < x ==> j <= x
  }

  /** `v` is the value stored under `k`, or the value stored under the next key above `k`. */
  ghost predicate OwnOrNextValue<V>(c: map<int, V>, k: int, v: V) {
    (k in c && v == c[k]) || exists j :: NextKey(c, k, j) && v == c[j]
  }

  /** The next key above a key stored on the left of an ordered node, found on the left, is the node's next key too. */
  lemma NextKeyOnLeft<V>(m: Tree<V>, k: int, j: int)
    requires m.Node? && Ordered(m) && NextKey(Contents(m.left), k, j)
    ensures NextKey(Contents(m), k, j) && Contents(m)[j] == Contents(m.left)[j]
  {
    assert j < m.key && j !in Contents(m.right);
    forall x | x in Contents(m) && k < x
      ensures j <= x
    {
      if x !in Contents(m.left) {
        assert x == m.key || x in Contents(m.right);
      }
    }
  }

  /** The next key above a key stored on the right of an ordered node is the node's next key too. */
  lemma NextKeyOnRight<V>(m: Tree<V>, k: int, j: int)
    requires m.Node? && Ordered(m) && m.key < k && NextKey(Contents(m.right), k, j)
    ensures NextKey(Contents(m), k, j) && Contents(m)[j] == Contents(m.right)[j]
  {
    forall x | x in Contents(m) && k < x
      ensures j <= x
    {
      assert x in Contents(m.right);
    }
  }

  /**
   * Whenever the as-written `findAndDelete` returns normally on an ordered
   * subtree, the value it reports is `k`'s own or, when the node holding `k`
   * was overwritten with its successor, the value of the next key above `k`.
   */
  lemma {:induction false} FindAndDeleteReports<V>(h: Tree<V>, k: int)
    requires Ordered(h) && Sized(h)
    ensures FindAndDelete(h, k).Ok? ==> OwnOrNextValue(Contents(h), k, FindAndDelete(h, k).value.removed)
    decreases |Keys(h)|, 1
  {
    if h.Node? && FindAndDelete(h, k).Ok? {
      if k < h.key {
        ReportsOnLeft(h, k);
      } else {
        var g := Deletion.RightTurn(h);
        if k == g.key && g.right.Leaf? {
          KeyAtRoot(g);
        } else if k == Deletion.MoveRedRight(g).value.key {
          ReportsBySuccessor(h, k);
        } else {
          ReportsOnRight(h, k);
        }
      }
    }
  }

  /** The case of a key below the node: what the left subtree reports, the node reports. */
  lemma {:induction false} ReportsOnLeft<V>(h: Tree<V>, k: int)
    requires Ordered(h) && Sized(h) && h.Node? && k < h.key && FindAndDelete(h, k).Ok?
    ensures OwnOrNextValue(Contents(h), k, FindAndDelete(h, k).value.removed)
    decreases |Keys(h)|, 0
  {
    var m := Deletion.MoveRedLeft(h).value;
    FindAndDeleteReports(m.left, k);
    FindAndDeleteKeeps(m.left, k);
    var v := FindAndDelete(m.left, k).value.removed;
    assert FindAndDelete(h, k).value.removed == v;
    if k in Contents(m.left) && v == Contents(m.left)[k] {
      KeyBelowRoot(m, k);
    } else {
      var j :| NextKey(Contents(m.left), k, j) && v == Contents(m.left)[j];
      NextKeyOnLeft(m, k, j);
    }
  }

  /** The case of a key above the node: what the right subtree reports, the node reports. */
  lemma {:induction false} ReportsOnRight<V>(h: Tree<V>, k: int)
    requires Ordered(h) && Sized(h) && h.Node? && h.key <= k && FindAndDelete(h, k).Ok?
    requires !(k == Deletion.RightTurn(h).key && Deletion.RightTurn(h).right.Leaf?)
    requires k != Deletion.MoveRedRight(Deletion.RightTurn(h)).value.key
    ensures OwnOrNextValue(Contents(h), k, FindAndDelete(h, k).value.removed)
    decreases |Keys(h)|, 0
  {
    var m := Deletion.MoveRedRight(Deletion.RightTurn(h)).value;
    FindAndDeleteReports(m.right, k);
    FindAndDeleteKeeps(m.right, k);
    var v := FindAndDelete(m.right, k).value.removed;
    assert FindAndDelete(h, k).value.removed == v;
    assert m.key < k by {
      assert k in Contents(m.right);
    }
    if k in Contents(m.right) && v == Contents(m.right)[k] {
      KeyAboveRoot(m, k);
    } else {
      var j :| NextKey(Contents(m.right), k, j) && v == Contents(m.right)[j];
      NextKeyOnRight(m, k, j);
    }
  }

  /** The case of a key found in a node with a right subtree: the successor's value is reported. */
  lemma ReportsBySuccessor<V>(h: Tree<V>, k: int)
    requires Ordered(h) && Sized(h) && h.Node? && h.key <= k && FindAndDelete(h, k).Ok?
    requires !(k == Deletion.RightTurn(h).key && Deletion.RightTurn(h).right.Leaf?)
    requires k == Deletion.MoveRedRight(Deletion.RightTurn(h)).value.key
    ensures OwnOrNextValue(Contents(h), k, FindAndDelete(h, k).value.removed)
  {
    var m := Deletion.MoveRedRight(Deletion.RightTurn(h)).value;
    var s := FindMinNode(m.right);
    assert FindAndDelete(h, k).value.removed == s.value;
    forall x | x in Contents(m) && k < x
      ensures s.key <= x
    {
      assert x in Contents(m.right);
    }
    assert NextKey(Contents(m), k, s.key);
  }

  // ----- the as-written deletion on a valid tree -----

  /**
   * On a subtree entered in a usual shape the as-written `deleteMinNode`
   * returns normally and removes exactly the least key: the missing rotation
   * spoils only the colours it hands back.
   */
  lemma {:induction false} DeleteMinExact<V>(h: Tree<V>)
    requires Ordered(h) && Sized(h) && DeletionProofs.RedOnEntry(h)
    ensures DeleteMin(h).Ok?
    ensures Contents(DeleteMin(h).value) == Contents(h) - {FindMinNode(h).key}
    decreases |Keys(h)|
  {
    if h.left.Leaf? {
      if h.right.Node? {
        DeletionProofs.BlackNodeHeight(h.right);
      }
      assert Contents(h) == map[h.key := h.value];
    } else {
      if !IsRed(h.left) && !IsRed(h.left.left) {
        DeletionProofs.BlackNodeHeight(h.left);
        Recolor(h.left, true);
        assert FlipLeft(h).value.left == h.left.(red := true);
      }
      var m := FlipLeft(h).value;
      DeleteMinExact(m.left);
      DeleteMinKeeps(m.left);
      var l := DeleteMin(m.left).value;
      assert Keys(m)[0] == Keys(m.left)[0];
      DeletionProofs.RemovedOnLeft(m, l, FindMinNode(m.left).key);
      assert DeleteMin(h).value == Deletion.FixForDelete(Resize(m.(left := l)));
    }
  }

  /**
   * On a subtree entered in a shape the corrected deletion accepts, the
   * as-written `findAndDelete` of a stored key returns normally and removes
   * exactly that key: it descends through the same shapes, and only the
   * successor's removal differs.
   */
  lemma {:induction false} FindAndDeleteExact<V>(h: Tree<V>, k: int)
    requires Ordered(h) && Sized(h) && k in Contents(h) && DeletionProofs.DeleteEntry(h, k)
    ensures FindAndDelete(h, k).Ok?
    ensures Contents(FindAndDelete(h, k).value.rest) == Contents(h) - {k}
    decreases |Keys(h)|
  {
    if k < h.key {
      DeletionProofs.MoveRedLeftShape(h);
      var m := Deletion.MoveRedLeft(h).value;
      KeyBelowRoot(m, k);
      FindAndDeleteExact(m.left, k);
      FindAndDeleteKeeps(m.left, k);
      var c := FindAndDelete(m.left, k).value;
      DeletionProofs.RemovedOnLeft(m, c.rest, k);
      assert FindAndDelete(h, k).value.rest == Deletion.FixForDelete(Resize(m.(left := c.rest)));
    } else {
      var g := Deletion.RightTurn(h);
      if k == g.key && g.right.Leaf? {
        DeletionProofs.RemoveRedLeaf(h, k);
      } else {
        DeletionProofs.MoveRedRightShape(h, k);
        var m := Deletion.MoveRedRight(g).value;
        if k == m.key {
          DeleteMinExact(m.right);
          DeleteMinKeeps(m.right);
          var s := FindMinNode(m.right);
          var rest := DeleteMin(m.right).value;
          DeletionProofs.SuccessorReplaces(m, rest);
          assert FindAndDelete(h, k).value.rest
              == Deletion.FixForDelete(Resize(m.(key := s.key, value := s.value, right := rest)));
        } else {
          KeyAboveRoot(m, k);
          FindAndDeleteExact(m.right, k);
          FindAndDeleteKeeps(m.right, k);
          var c := FindAndDelete(m.right, k).value;
          DeletionProofs.RemovedOnRight(m, c.rest, k);
          assert FindAndDelete(h, k).value.rest == Deletion.FixForDelete(Resize(m.(right := c.rest)));
        }
      }
    }
  }

  /**
   * On a valid tree the as-written `delete` never throws and removes exactly
   * `k`: `size()` drops by one exactly when `k` was stored, and the value
   * returned is `k`'s own or its successor's. What it can break is the
   * colour rules (`DeleteBreaksColourRule`), and only a later call on the
   * broken tree can lose other keys (`SecondDeleteLosesKey`).
   */
  lemma DeleteOnValid<V>(t: Tree<V>, k: int)
    requires Valid(t)
    ensures Delete(t, k).Ok?
    ensures Contents(Delete(t, k).value.tree) == Contents(t) - {k}
    ensures Size(Delete(t, k).value.tree) == Size(t) - (if k in Contents(t) then 1 else 0)
    ensures Delete(t, k).value.value.None? <==> k !in Contents(t)
    ensures Delete(t, k).value.value.Some? ==> OwnOrNextValue(Contents(t), k, Delete(t, k).value.value.value)
  {
    SizeCountsEntries(t);
    DeletionProofs.RemoveCount(Contents(t), k);
    DeleteKeeps(t, k);
    if t.Node? && ContainsKey(t, k) {
      var h := Redden(t);
      Recolor(t, true);
      FindAndDeleteExact(h, k);
      FindAndDeleteReports(h, k);
      SizeCountsEntries(Delete(t, k).value.tree);
    }
  }

  // ----- concrete trees; each key k is mapped to 10 * k -----

  /** The tree `put` builds from 10, 20, 30 (`Ascending3`): a black 20 with black children 10 and 30. */
  function ThreeKeys(): Tree<int> {
    Node(false, Node(false, Leaf, 10, 100, 1, Leaf), 20, 200, 3, Node(false, Leaf, 30, 300, 1, Leaf))
  }

  /** The tree `put` builds from 10, 20, ..., 80 in increasing order (`Ascending8`). */
  function EightKeys(): Tree<int> {
    Node(false,
      Node(false, Node(false, Leaf, 10, 100, 1, Leaf), 20, 200, 3, Node(false, Leaf, 30, 300, 1, Leaf)),
      40, 400, 8,
      Node(false,
        Node(false, Leaf, 50, 500, 1, Leaf),
        60, 600, 4,
        Node(false, Node(true, Leaf, 70, 700, 1, Leaf), 80, 800, 2, Leaf)))
  }

  /** What the as-written `delete(40)` leaves of `EightKeys()`: node 60 now has a red right child 70. */
  function EightKeysWithout40(): Tree<int> {
    Node(false,
      Node(true, Node(false, Leaf, 10, 100, 1, Leaf), 20, 200, 3, Node(false, Leaf, 30, 300, 1, Leaf)),
      50, 500, 7,
      Node(false, Node(true, Leaf, 60, 600, 2, Node(true, Leaf, 70, 700, 1, Leaf)), 80, 800, 3, Leaf))
  }

  /** The tree `put` builds from 10, 20, ..., 10 * n in increasing order, each key mapped to ten times itself. */
  function Ascending(n: nat): Tree<int> {
    if n == 0 then Leaf else Insertion.Put(Ascending(n - 1), 10 * n, 100 * n)
  }

  /** The first step of `Ascending`. */
  lemma Ascending1()
    ensures Ascending(1) == Node(false, Leaf, 10, 100, 1, Leaf)
  {
  }

  /** The second step of `Ascending`. */
  lemma Ascending2()
    ensures Ascending(2) == Node(false, Node(true, Leaf, 10, 100, 1, Leaf), 20, 200, 2, Leaf)
  {
    Ascending1();
  }

  /** The third step of `Ascending`. */
  lemma Ascending3()
    ensures Ascending(3) == ThreeKeys()
  {
    Ascending2();
  }

  /** The fourth step of `Ascending`. */
  lemma Ascending4()
    ensures Ascending(4) == Node(false, Node(false, Leaf, 10, 100, 1, Leaf), 20, 200, 4, Node(false, Node(true, Leaf, 30, 300, 1, Leaf), 40, 400, 2, Leaf))
  {
    Ascending3();
    FourthBelow30();
  }

  /** Inside the fourth step: 40 hangs right of 30 and is rotated up. */
  lemma FourthBelow30()
    ensures Insertion.FindAndAdd(Node(false, Leaf, 30, 300, 1, Leaf), 40, 400)
         == Node(false, Node(true, Leaf, 30, 300, 1, Leaf), 40, 400, 2, Leaf)
  {
    assert Insertion.FindAndAdd(Leaf, 40, 400) == Node(true, Leaf, 40, 400, 1, Leaf);
  }

  /** The fifth step of `Ascending`. */
  lemma Ascending5()
    ensures Ascending(5) == Node(false, Node(true, Node(false, Leaf, 10, 100, 1, Leaf), 20, 200, 3, Node(false, Leaf, 30, 300, 1, Leaf)), 40, 400, 5, Node(false, Leaf, 50, 500, 1, Leaf))
  {
    Ascending4();
    FifthBelow40();
  }

  /** Inside the fifth step: 50 joins red 30 under 40 and the flip sends red up. */
  lemma FifthBelow40()
    ensures Insertion.FindAndAdd(Node(false, Node(true, Leaf, 30, 300, 1, Leaf), 40, 400, 2, Leaf), 50, 500)
         == Node(true, Node(false, Leaf, 30, 300, 1, Leaf), 40, 400, 3, Node(false, Leaf, 50, 500, 1, Leaf))
  {
    assert Insertion.FindAndAdd(Leaf, 50, 500) == Node(true, Leaf, 50, 500, 1, Leaf);
  }

  /** The sixth step of `Ascending`. */
  lemma Ascending6()
    ensures Ascending(6) == Node(false, Node(true, Node(false, Leaf, 10, 100, 1, Leaf), 20, 200, 3, Node(false, Leaf, 30, 300, 1, Leaf)), 40, 400, 6, Node(false, Node(true, Leaf, 50, 500, 1, Leaf), 60, 600, 2, Leaf))
  {
    Ascending5();
    SixthBelow50();
  }

  /** Inside the sixth step: 60 hangs right of 50 and is rotated up. */
  lemma SixthBelow50()
    ensures Insertion.FindAndAdd(Node(false, Leaf, 50, 500, 1, Leaf), 60, 600)
         == Node(false, Node(true, Leaf, 50, 500, 1, Leaf), 60, 600, 2, Leaf)
  {
    assert Insertion.FindAndAdd(Leaf, 60, 600) == Node(true, Leaf, 60, 600, 1, Leaf);
  }

  /** The seventh step of `Ascending`. */
  lemma Ascending7()
    ensures Ascending(7) == Node(false, Node(false, Node(false, Leaf, 10, 100, 1, Leaf), 20, 200, 3, Node(false, Leaf, 30, 300, 1, Leaf)), 40, 400, 7, Node(false, Node(false, Leaf, 50, 500, 1, Leaf), 60, 600, 3, Node(false, Leaf, 70, 700, 1, Leaf)))
  {
    Ascending6();
    SeventhBelow60();
  }

  /** Inside the seventh step: 70 joins red 50 under 60 and the flip sends red up. */
  lemma SeventhBelow60()
    ensures Insertion.FindAndAdd(Node(false, Node(true, Leaf, 50, 500, 1, Leaf), 60, 600, 2, Leaf), 70, 700)
         == Node(true, Node(false, Leaf, 50, 500, 1, Leaf), 60, 600, 3, Node(false, Leaf, 70, 700, 1, Leaf))
  {
    assert Insertion.FindAndAdd(Leaf, 70, 700) == Node(true, Leaf, 70, 700, 1, Leaf);
  }

  /** The eighth step of `Ascending`. */
  lemma Ascending8()
    ensures Ascending(8) == EightKeys()
  {
    Ascending7();
    EighthBelow60();
  }

  /** Inside the eighth step: 80 hangs right of 70 and is rotated up. */
  lemma EighthBelow70()
    ensures Insertion.FindAndAdd(Node(false, Leaf, 70, 700, 1, Leaf), 80, 800)
         == Node(false, Node(true, Leaf, 70, 700, 1, Leaf), 80, 800, 2, Leaf)
  {
    assert Insertion.FindAndAdd(Leaf, 80, 800) == Node(true, Leaf, 80, 800, 1, Leaf);
  }

  /** Inside the eighth step, one level up. */
  lemma EighthBelow60()
    ensures Insertion.FindAndAdd(Node(false, Node(false, Leaf, 50, 500, 1, Leaf), 60, 600, 3, Node(false, Leaf, 70, 700, 1, Leaf)), 80, 800)
         == Node(false, Node(false, Leaf, 50, 500, 1, Leaf), 60, 600, 4, Node(false, Node(true, Leaf, 70, 700, 1, Leaf), 80, 800, 2, Leaf))
  {
    EighthBelow70();
  }

  /** `ThreeKeys()` is a valid tree mapping 10, 20, 30 to 100, 200, 300. */
  lemma ThreeKeysValid()
    ensures Valid(ThreeKeys())
    ensures Contents(ThreeKeys()) == map[10 := 100, 20 := 200, 30 := 300]
  {
    ThreeKeysOrdered();
    ThreeKeysSized();
    ThreeKeysColoured();
  }

  /** The order and the map of `ThreeKeys()`. */
  lemma ThreeKeysOrdered()
    ensures Ordered(ThreeKeys()) && Contents(ThreeKeys()) == map[10 := 100, 20 := 200, 30 := 300]
  {
  }

  /** The cached sizes of `ThreeKeys()`. */
  lemma ThreeKeysSized()
    ensures Sized(ThreeKeys())
  {
  }

  /** The colours of `ThreeKeys()`. */
  lemma ThreeKeysColoured()
    ensures Balanced(ThreeKeys()) && RedRule(ThreeKeys())
  {
  }

  /** `EightKeys()` is a valid tree mapping each key to ten times itself. */
  lemma EightKeysValid()
    ensures Valid(EightKeys())
    ensures Contents(EightKeys())
         == map[10 := 100, 20 := 200, 30 := 300, 40 := 400, 50 := 500, 60 := 600, 70 := 700, 80 := 800]
  {
    EightKeysOrdered();
    EightKeysSized();
    EightKeysColoured();
  }

  /** The order and the map of `EightKeys()`. */
  lemma EightKeysOrdered()
    ensures Ordered(EightKeys())
    ensures Contents(EightKeys())
         == map[10 := 100, 20 := 200, 30 := 300, 40 := 400, 50 := 500, 60 := 600, 70 := 700, 80 := 800]
  {
    var t := EightKeys();
    assert t.left == ThreeKeys();
    ThreeKeysOrdered();
    UpperFourOrdered();
    assert forall x :: x in Contents(t.left) ==> x < 40;
    assert forall x :: x in Contents(t.right) ==> 40 < x;
    assert Ordered(t);
    EightKeysContents();
  }

  /** The map of `EightKeys()` from the maps of its two halves. */
  lemma EightKeysContents()
    requires Contents(EightKeys().left) == map[10 := 100, 20 := 200, 30 := 300]
    requires Contents(EightKeys().right) == map[50 := 500, 60 := 600, 70 := 700, 80 := 800]
    ensures Contents(EightKeys())
         == map[10 := 100, 20 := 200, 30 := 300, 40 := 400, 50 := 500, 60 := 600, 70 := 700, 80 := 800]
  {
  }

  /** The order and the map of the right subtree of `EightKeys()`, the keys above 40. */
  lemma UpperFourOrdered()
    ensures Ordered(EightKeys().right)
    ensures Contents(EightKeys().right) == map[50 := 500, 60 := 600, 70 := 700, 80 := 800]
  {
    var u := EightKeys().right;
    assert Ordered(u.right) && Contents(u.right) == map[70 := 700, 80 := 800];
  }

  /** The cached sizes of `EightKeys()`. */
  lemma EightKeysSized()
    ensures Sized(EightKeys())
  {
    var t := EightKeys();
    assert Sized(t.left);
    assert Sized(t.right.right);
    assert Sized(t.right);
  }

  /** The colours of `EightKeys()`. */
  lemma EightKeysColoured()
    ensures Balanced(EightKeys()) && RedRule(EightKeys())
  {
  }

  /**
   * `delete(20)` on the tree of 10, 20, 30 returns 300, the value of the
   * successor 30, although 20 was mapped to 200.
   */
  lemma DeleteReturnsSuccessorValue()
    ensures Valid(ThreeKeys()) && Contents(ThreeKeys())[20] == 200
    ensures Delete(ThreeKeys(), 20).Ok? && Delete(ThreeKeys(), 20).value.value == Some(300)
  {
    ThreeKeysValid();
    var t := ThreeKeys();
    assert ContainsKey(t, 20);
    var h := t.(red := true);
    assert Deletion.RightTurn(h) == h;
    var f := ColorFlip(h);
    assert Deletion.MoveRedRight(h) == Ok(f);
    assert FindMinNode(f.right) == f.right;
    assert DeleteMin(f.right) == Ok(Leaf);
  }

  /**
   * `delete(40)` on the valid tree of 10..80 leaves a red right link (the
   * colour rules are broken) and also reports 500, the successor's value.
   */
  lemma DeleteBreaksColourRule()
    ensures Valid(EightKeys()) && Contents(EightKeys())[40] == 400
    ensures Delete(EightKeys(), 40) == Ok(Deletion.Removed(EightKeysWithout40(), Some(500)))
    ensures !RedRule(EightKeysWithout40())
  {
    EightKeysValid();
    var t := EightKeys();
    assert ContainsKey(t, 40);
    FortyCut();
  }

  /** The descent of `delete(40)` from the reddened root: flip, then replace 40 by its successor 50. */
  lemma FortyCut()
    ensures FindAndDelete(Redden(EightKeys()), 40) == Ok(Deletion.Cut(EightKeysWithout40(), 500))
  {
    var h := Redden(EightKeys());
    assert Deletion.RightTurn(h) == h;
    var f := ColorFlip(h);
    assert Deletion.MoveRedRight(h) == Ok(f);
    FiftyRemoved();
  }

  /**
   * Removing the minimum 50 from the flipped subtree of 50..80 as written:
   * the flip leaves 60 with a red right child 70.
   */
  lemma FiftyRemoved()
    ensures FindMinNode(Node(true, Node(false, Leaf, 50, 500, 1, Leaf), 60, 600, 4,
              Node(false, Node(true, Leaf, 70, 700, 1, Leaf), 80, 800, 2, Leaf)))
         == Node(false, Leaf, 50, 500, 1, Leaf)
    ensures DeleteMin(Node(true, Node(false, Leaf, 50, 500, 1, Leaf), 60, 600, 4,
              Node(false, Node(true, Leaf, 70, 700, 1, Leaf), 80, 800, 2, Leaf)))
         == Ok(Node(false, Node(true, Leaf, 60, 600, 2, Node(true, Leaf, 70, 700, 1, Leaf)), 80, 800, 3, Leaf))
  {
    var r60 := Node(true, Node(false, Leaf, 50, 500, 1, Leaf), 60, 600, 4,
                    Node(false, Node(true, Leaf, 70, 700, 1, Leaf), 80, 800, 2, Leaf));
    var m := ColorFlip(r60);
    assert FlipLeft(r60) == Ok(m);
    assert DeleteMin(m.left) == Ok(Leaf);
  }

  /** What the as-written `delete(50)` leaves of `EightKeysWithout40()`: 70 is gone. */
  function EightKeysWithout40And50(): Tree<int> {
    Node(false,
      Node(true, Node(false, Leaf, 10, 100, 1, Leaf), 20, 200, 3, Node(false, Leaf, 30, 300, 1, Leaf)),
      60, 600, 5,
      Node(false, Leaf, 80, 800, 1, Leaf))
  }

  /** A following `delete(50)` on that tree loses the unrelated key 70. */
  lemma SecondDeleteLosesKey()
    ensures 70 in Contents(EightKeysWithout40())
    ensures Delete(EightKeysWithout40(), 50).Ok?
    ensures Delete(EightKeysWithout40(), 50).value.tree == EightKeysWithout40And50()
    ensures Contents(EightKeysWithout40And50()) == map[10 := 100, 20 := 200, 30 := 300, 60 := 600, 80 := 800]
  {
    var t := EightKeysWithout40();
    assert 70 in Contents(t.right.left.right);
    assert ContainsKey(t, 50);
    SecondDeleteSteps();
    RemainingContents();
  }

  /** The descent of the second deletion: a right rotation at the root, then `RightOf20Loses70`. */
  lemma SecondDeleteSteps()
    ensures FindAndDelete(Redden(EightKeysWithout40()), 50)
         == Ok(Deletion.Cut(Redden(EightKeysWithout40And50()), 600))
  {
    var h := Redden(EightKeysWithout40());
    var g := Deletion.RightTurn(h);
    assert g == Node(true, Node(false, Leaf, 10, 100, 1, Leaf), 20, 200, 7, RightOf20());
    assert Deletion.MoveRedRight(g) == Ok(g);
    RightOf20Loses70();
  }

  /** The map left after the second deletion. */
  lemma RemainingContents()
    ensures Contents(EightKeysWithout40And50()) == map[10 := 100, 20 := 200, 30 := 300, 60 := 600, 80 := 800]
  {
  }

  /** The subtree the second deletion descends into once the root has been rotated right. */
  function RightOf20(): Tree<int> {
    Node(true,
      Node(false, Leaf, 30, 300, 1, Leaf),
      50, 500, 5,
      Node(false, Node(true, Leaf, 60, 600, 2, Node(true, Leaf, 70, 700, 1, Leaf)), 80, 800, 3, Leaf))
  }

  /**
   * Replacing 50 by its successor 60 removes 60 with the as-written
   * `deleteMinNode`, which drops 60's red right child 70 along with it.
   */
  lemma RightOf20Loses70()
    ensures FindAndDelete(RightOf20(), 50)
         == Ok(Deletion.Cut(Node(true, Node(false, Leaf, 30, 300, 1, Leaf), 60, 600, 3, Node(false, Leaf, 80, 800, 1, Leaf)), 600))
  {
    var h2 := RightOf20();
    assert Deletion.RightTurn(h2) == h2;
    assert Deletion.MoveRedRight(h2) == Ok(h2);
    SixtyRemoved();
  }

  /**
   * Removing the minimum 60 from the subtree of 60..80 as written: 60 has
   * no left child, so it is replaced by null and its right child 70 goes too.
   */
  lemma SixtyRemoved()
    ensures FindMinNode(Node(false, Node(true, Leaf, 60, 600, 2, Node(true, Leaf, 70, 700, 1, Leaf)), 80, 800, 3, Leaf))
         == Node(true, Leaf, 60, 600, 2, Node(true, Leaf, 70, 700, 1, Leaf))
    ensures DeleteMin(Node(false, Node(true, Leaf, 60, 600, 2, Node(true, Leaf, 70, 700, 1, Leaf)), 80, 800, 3, Leaf))
         == Ok(Node(false, Leaf, 80, 800, 1, Leaf))
  {
    var b80 := Node(false, Node(true, Leaf, 60, 600, 2, Node(true, Leaf, 70, 700, 1, Leaf)), 80, 800, 3, Leaf);
    assert FlipLeft(b80) == Ok(b80);
    assert DeleteMin(b80.left) == Ok(Leaf);
  }
}
