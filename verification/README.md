# Left-leaning red-black tree with order statistics, in Dafny

This project models the engine of `RedBlackTree.java`, a sorted key-value map.
The map is stored as Sedgewick's left-leaning red-black tree (LLRB), and every
node caches the size of its subtree. Those sizes drive `findRank` and `select`.

The model is functional. A subtree is the immutable datatype
`Tree = Leaf | Node(red, left, key, value, size, right)`. `Leaf` stands for
Java's `null` child. `size` is the cached `subtreeSize` field, which may be
stale partway through an operation, just as in Java. Keys are `int`, because
`Comparable` is modelled as the order on integers. Values are of a generic
type `V`.

Every recursive Java helper that returns the new subtree root becomes a pure
function. Every Java `while` loop becomes a tail-recursive function whose
parameters are the loop's variables. A Java exception becomes an `Err` of a
`Result`: a `NullPointerException` is raised at exactly the point where the
code would dereference `null`, and `select` raises an
`IllegalArgumentException`. The `deletedNode` field becomes an explicit
returned pair of the new subtree and the removed value.

The ghost views used in contracts:
- `Keys`, the in-order key sequence.
- `Contents`, the key-to-value map.
- The invariants `Ordered` (search-tree order) and `Sized` (every cached size is exact).
- `Balanced` with `BlackHeight` (every path meets the same number of black nodes).
- `RedRule` (no red right link, no two red links in a row).
- `Valid`, which combines all of these with a black root.

Modules, one per part of the engine:
- `Outcomes` (`outcomes.dfy`): `Option`, `Result`, and the two Java exceptions.
- `Trees` (`trees.dfy`): the node record, `isRed`, `size`, the views and the invariants.
- `Rotations` (`rotations.dfy`): `rotateLeft`, `rotateRight`, `colorFlip`, and the size recomputation.
- `Lookup` (`lookup.dfy`): `get`, `containsKey`, `isEmpty`, the minimum, maximum and root key, predecessor and successor.
- `Insertion` (`insertion.dfy`): `put` and `findAndAdd`.
- `Deletion` (`deletion.dfy`): `delete`, `findAndDelete`, `deleteMinNode` and `fixForDelete`, with the two defects under "## Findings" corrected. `DeletionProofs` (`deletion_proofs.dfy`) proves them.
- `DeletionAsWritten` (`deletion_as_written.dfy`): deletion exactly as the source writes it. On a valid tree it never throws and removes exactly `k`, reporting `k`'s value or its successor's. On any ordered, exactly sized tree, whenever it returns normally, it keeps order and exact sizes, removes `k` and adds no entry. Concrete trees exhibit the two defects.
- `OrderStatistics` (`order_statistics.dfy`): `findRank` and `select`.
- `Metrics` (`metrics.dfy`): `countRedNodes`, `calcHeight`, `calcBlackHeight` and `calcTotalDepth`.

The code and its doc-comments disagree in several places. The model follows the code:
- `select` throws on a rank outside `[0, size())`, but its doc-comment says it returns null.
- `findFirstKey` dereferences null on an empty tree, but its doc-comment says "Or null if none".
- `delete` returns the successor's value in some cases; see "## Findings".

## Model

| member | source | states |
|---|---|---|
| Trees.SizeCountsKeys | RedBlackTree.java:12-28 | When every cached `subtreeSize` is exact, `size` counts the nodes of the subtree. |
| Trees.Blacken | RedBlackTree.java:130 | Blackening the root gives a non-red root and changes neither the key sequence nor the map. |
| Rotations.Resize | RedBlackTree.java:84 | Recomputing a node's size from exact child sizes makes that node exact; nothing else changes. |
| Rotations.RotateLeft | RedBlackTree.java:660-684 | Keeps the in-order keys and the map. The new top takes the old top's colour and cached size. The old top becomes red with an exact recomputed size. Order and exact sizes are kept. |
| Rotations.RotateRight | RedBlackTree.java:693-706 | The mirror image of `rotateLeft`, with the same guarantees. |
| Rotations.ColorFlip | RedBlackTree.java:713-717 | Inverts the colours of the node and both children. Keys, values, order and sizes are untouched. |
| Rotations.ColorFlipInvolutive | RedBlackTree.java:713-717 | Flipping twice restores the node. |
| Rotations.RotateRightUndoesRotateLeft | RedBlackTree.java:660-706 | With exact sizes, rotating a red right link left and then right restores the subtree exactly. |
| Rotations.RotateLeftUndoesRotateRight | RedBlackTree.java:660-706 | With exact sizes, rotating a red left link right and then left restores the subtree exactly. |
| Rotations.RotationsKeepSizes | RedBlackTree.java:676-680 | A rotation keeps the size of the rotated position and leaves every cached size exact. |
| Rotations.RotateLeftBalanced | RedBlackTree.java:660-684 | Rotating a red right link keeps every path's black count. |
| Rotations.RotateRightBalanced | RedBlackTree.java:693-706 | Rotating a red left link keeps every path's black count. |
| Rotations.ColorFlipBalanced | RedBlackTree.java:713-717 | A flip between a node and two children of the other colour keeps every path's black count. |
| Lookup.Get | RedBlackTree.java:100-117 | In an ordered tree, `get` returns the value mapped to the key, or null when the key is absent. |
| Lookup.ContainsKeyFrom | RedBlackTree.java:228-238 | The search loop ends with its flag set exactly when the flag was already set or the key is in the subtree. |
| Lookup.ContainsKey | RedBlackTree.java:224-241 | In an ordered tree, true exactly when the key is stored. |
| Lookup.IsEmpty | RedBlackTree.java:275-278 | True exactly when the map is empty. |
| Lookup.SizeCountsEntries | RedBlackTree.java:285-291 | In an ordered tree with exact sizes, `size()` is the number of stored entries. |
| Lookup.FindMinNode | RedBlackTree.java:334-341 | Null exactly for an empty tree. Otherwise returns the leftmost node, which holds the first in-order key and, in an ordered tree, the least key with its own value. |
| Lookup.FindFirstKey | RedBlackTree.java:324-326 | On an empty tree the call is a `NullPointerException`. Otherwise it returns a stored key that is the least one in an ordered tree. |
| Lookup.FirstKey | RedBlackTree.java:318-326 | The least key, or null exactly when the tree is empty. This is the behaviour the doc-comment promises. |
| Lookup.FindLastKey | RedBlackTree.java:349-359 | Null exactly for an empty tree. Otherwise returns the last in-order key, which is the greatest key in an ordered tree. |
| Lookup.GetRootKey | RedBlackTree.java:368-371 | Null exactly for an empty tree, otherwise a stored key. |
| Lookup.PredecessorFromPosition | RedBlackTree.java:392-423 | From a subtree holding `k` at in-order position `i`, the loop returns the key at `i - 1`, or the last ancestor left by going right when `i` is 0. |
| Lookup.FindPredecessorCorrect | RedBlackTree.java:384-425 | Null for an absent key. Otherwise the key just before `k` in sorted order, or null when `k` is the least key. |
| Lookup.SuccessorFromPosition | RedBlackTree.java:444-475 | The mirror image of the predecessor loop. |
| Lookup.FindSuccessorCorrect | RedBlackTree.java:436-478 | Null for an absent key. Otherwise the key just after `k` in sorted order, or null when `k` is the greatest key. |
| Insertion.AddFixUp | RedBlackTree.java:76-84 | The repair after a recursive add keeps the keys and the map. It keeps order, and it makes the node's size exact when its children's sizes are. |
| Insertion.FindAndAddContents | RedBlackTree.java:60-87 | On an ordered subtree, adding maps `k` to `v` (inserting or overwriting), leaves every other entry alone, and keeps order. |
| Insertion.FindAndAddSized | RedBlackTree.java:83-84 | Adding keeps every cached size exact. |
| Insertion.FindAndAddSize | RedBlackTree.java:60-72 | The subtree grows by one exactly when `k` is new. Overwriting an existing key keeps the size. |
| Insertion.AddFixUpShape | RedBlackTree.java:76-81 | The three fix-ups keep the black height. They restore the colour rules at a black node and leave a red node leaning left. |
| Insertion.FindAndAddShape | RedBlackTree.java:60-87 | Adding keeps the black height. Below a black node the colour rules hold; a red subtree stays red and leans left. |
| Insertion.Put | RedBlackTree.java:47-50 | After `put` the tree is non-empty and its root is black. |
| Insertion.PutCorrect | RedBlackTree.java:47-87 | `put` keeps a valid tree valid and maps `k` to `v`. `size()` grows by one exactly when `k` was absent. |
| Insertion.GetAfterPut | RedBlackTree.java:47-117 | On any ordered tree, including one left by the as-written `delete`, after `put(k, v)` `get(k)` is `v` and `get` of every other key is unchanged. |
| Insertion.PutKeepsMap | RedBlackTree.java:47-87 | On any ordered, exactly sized tree, valid or not, `put` keeps order and exact sizes, maps `k` to `v`, and grows `size()` exactly when `k` was new. |
| Insertion.PutIdempotent | RedBlackTree.java:47-72 | On any ordered, exactly sized tree, repeating the same `put` changes neither the map nor `size()`. |
| Deletion.FixForDelete | RedBlackTree.java:638-649 | Keeps the keys and the map, keeps order, and keeps sizes exact. |
| Deletion.MoveRedLeft | RedBlackTree.java:145-153 | When it succeeds, pushing red to the left keeps the keys, the map, order and exact sizes. |
| Deletion.MoveRedRight | RedBlackTree.java:169-176 | When it succeeds, pushing red to the right keeps the keys, the map, order and exact sizes, and leaves a right child to descend into. |
| Deletion.RightTurn | RedBlackTree.java:160 | Rotating a red left link right keeps the keys, the map, order and sizes, and never raises the key at the top. |
| DeletionProofs.FixForDeleteShape | RedBlackTree.java:638-649 | The repair keeps the black height. It restores the colour rules at a black node and leaves a red node red and leaning left. |
| DeletionProofs.MoveRedLeftShape | RedBlackTree.java:145-153 | On a node entered with a red link on its left, pushing red left never fails. It keeps the black height, and the left child it descends into is again entered with a red link, so the repair can hand back what the node promises. It never lowers the key at the top. |
| DeletionProofs.MoveRedRightShape | RedBlackTree.java:160-176 | Going right from an entry shape, unless the key sits in a node with no right subtree, the right turn and the push to the right never fail. They keep the black height, and the right child is entered in a shape the recursion (or the successor's removal) accepts. |
| DeletionProofs.DeleteMinCorrect | RedBlackTree.java:196-211 | The corrected `deleteMinNode` never fails. It removes exactly the least key, keeps order and exact sizes, and restores the colour rules with the black height unchanged. |
| DeletionProofs.RemoveRedLeaf | RedBlackTree.java:164-167 | The key found at a node with no right subtree is the only entry of that subtree, and replacing the subtree by null hands back what the node promised. |
| DeletionProofs.SuccessorReplaces | RedBlackTree.java:179-186 | Overwriting a node with its in-order successor and removing the successor from the right subtree removes exactly the node's key and keeps order. |
| DeletionProofs.FindAndDeleteCorrect | RedBlackTree.java:138-194 | For the corrected `findAndDelete` (successor's removal by the corrected `deleteMinNode`, `k`'s own value reported): on an ordered, exactly sized subtree entered in a deletion shape and holding `k`, removal never fails. It removes exactly `k`, returns `k`'s value, keeps order and exact sizes, keeps the black height, and restores the colour rules. |
| DeletionProofs.DeleteCorrect | RedBlackTree.java:126-135 | The corrected `delete` keeps a valid tree valid and removes exactly `k`. It returns `k`'s value, or null when `k` is absent. `size()` drops by one exactly when `k` was present, and an absent key leaves the tree unchanged. |
| DeletionProofs.GetAfterDelete | RedBlackTree.java:126-135 | After the corrected `delete(k)`, `get(k)` is null and `get` of every other key is unchanged. |
| DeletionAsWritten.InnerRotationNeverRuns | RedBlackTree.java:199-205 | After the flip at line 200, the left grandchild tested at line 201 is still black, so the rotation never runs. |
| DeletionAsWritten.FlipLeft | RedBlackTree.java:199-205 | The as-written step before descending left keeps the in-order keys and the map, keeps order and exact sizes, and leaves a left child to descend into. |
| DeletionAsWritten.DeleteMinKeeps | RedBlackTree.java:196-211 | Whenever the as-written `deleteMinNode` returns normally on an ordered, exactly sized subtree, the result is ordered and exactly sized, lacks the least key, and holds only entries of the original. |
| DeletionAsWritten.FindAndDeleteKeeps | RedBlackTree.java:138-194 | Whenever the as-written `findAndDelete` returns normally on an ordered, exactly sized subtree, `k` was stored there, and the result is ordered and exactly sized, lacks `k`, and holds only entries of the original. |
| DeletionAsWritten.DeleteKeeps | RedBlackTree.java:126-135 | On an ordered, exactly sized tree the as-written `delete` of an absent key changes nothing and returns null. Whenever it returns normally the tree stays ordered and exactly sized, `k` is gone, no entry is added, and for a stored key a value is returned and the root is black. |
| DeletionAsWritten.FindAndDeleteReports | RedBlackTree.java:138-194 | Whenever the as-written `findAndDelete` returns normally on an ordered subtree, the value it reports is `k`'s own, or the value of the next key above `k` when that node was overwritten with its successor (lines 179-186). |
| DeletionAsWritten.DeleteMinExact | RedBlackTree.java:196-211 | On a subtree entered with a red link on its left, the as-written `deleteMinNode` never throws and removes exactly the least key. |
| DeletionAsWritten.FindAndDeleteExact | RedBlackTree.java:138-194 | On a subtree entered in a deletion shape and holding `k`, the as-written `findAndDelete` never throws and removes exactly `k`. |
| DeletionAsWritten.DeleteOnValid | RedBlackTree.java:126-135 | On a valid tree the as-written `delete` never throws and removes exactly `k`. `size()` drops by one exactly when `k` was stored, null is returned exactly when `k` was absent, and otherwise the value is `k`'s own or its successor's. |
| DeletionAsWritten.Ascending8 | RedBlackTree.java:47-87 | `put` of 10, 20, ..., 80 in increasing order builds the valid eight-key tree used below. |
| DeletionAsWritten.DeleteReturnsSuccessorValue | RedBlackTree.java:180-183 | On the tree `put` builds from 10, 20, 30, `delete(20)` returns 300, the successor's value, although 20 maps to 200. |
| DeletionAsWritten.DeleteBreaksColourRule | RedBlackTree.java:199-205 | On the valid tree of 10..80, `delete(40)` leaves a red right link, so the colour rules are broken. |
| DeletionAsWritten.SecondDeleteLosesKey | RedBlackTree.java:196-211 | A following `delete(50)` also removes the unrelated key 70. |
| OrderStatistics.FindRank | RedBlackTree.java:487-488 | An absent key has rank -1. |
| OrderStatistics.RankFromPosition | RedBlackTree.java:492-507 | From a subtree holding `k` at in-order position `i`, the loop adds exactly `i` to its running rank. |
| OrderStatistics.FindRankCorrect | RedBlackTree.java:487-510 | -1 exactly for absent keys. For a stored key, its sorted position, which is the number of stored keys smaller than it. |
| OrderStatistics.Select | RedBlackTree.java:521-526 | A rank outside `[0, size())` is an `IllegalArgumentException`, and any other rank is answered. |
| OrderStatistics.SelectFromPosition | RedBlackTree.java:529-541 | With exact sizes the loop finds a key exactly when the rank is in range, and it finds the key at that sorted position. |
| OrderStatistics.SelectCorrect | RedBlackTree.java:521-541 | `select(i)` succeeds exactly for `0 <= i < size()` and returns the i-th least key. |
| OrderStatistics.SelectOfRank | RedBlackTree.java:487-541 | `select(findRank(k)) == k` for every stored key. |
| OrderStatistics.RankOfSelect | RedBlackTree.java:487-541 | `findRank(select(i)) == i` for every rank in range. |
| OrderStatistics.SelectMonotone | RedBlackTree.java:521-541 | A smaller rank selects a strictly smaller key. |
| Metrics.CountRedNodes | RedBlackTree.java:548-560 | The red count is at most the node count, and at least one when the root is red. |
| Metrics.RedNodesBounded | RedBlackTree.java:548-560 | Under the colour rules, red nodes are at most as many as black ones, plus one for a red root. |
| Metrics.ValidRedNodes | RedBlackTree.java:548-560 | In a valid tree at most half the nodes are red. |
| Metrics.CalcHeight | RedBlackTree.java:570-582 | 0 exactly for an empty tree, and never more than the number of nodes. |
| Metrics.HeightBounded | RedBlackTree.java:570-582 | In a balanced tree obeying the colour rules, the height is at most twice the black height, plus one for a red root. |
| Metrics.ValidHeight | RedBlackTree.java:570-603 | In a valid tree, height <= 2 * blackHeight and 2^blackHeight <= size() + 1, so 2^height <= (size() + 1)^2. |
| Metrics.BlackHeightFrom | RedBlackTree.java:595-600 | The loop counts the black nodes on the left spine. |
| Metrics.BalancedAllPaths | RedBlackTree.java:590-603 | In a balanced tree, the left-spine count `calcBlackHeight` returns is the black count of every path. |
| Metrics.AllPathsBalanced | RedBlackTree.java:590-603 | Conversely, if every path has the same black count, the tree is balanced and `calcBlackHeight` returns that count. |
| Metrics.TotalDepthShift | RedBlackTree.java:620-628 | Starting the depth count `d` levels lower adds `d` for every node. |
| Metrics.TotalDepthCountsAncestors | RedBlackTree.java:620-628 | The total depth counts each node once per proper ancestor: the sum of all subtree sizes less the node count. |
| Metrics.TotalDepthBounded | RedBlackTree.java:620-628 | The total depth is non-negative and at most the node count times (starting depth + height - 1). |

## Left out

- `calcAverageDepth` (RedBlackTree.java:611-618) is left out because it is floating-point division, with NaN for an empty tree. Its integer part, `calcTotalDepth`, is modelled, and `Metrics.TotalDepthBounded` bounds the quotient by height - 1.
- `containsValue`/`containsV` and `reverseLookup` (RedBlackTree.java:251-316) are left out. They compare values with Java `equals` and with reference identity `==` on an opaque value type, which has no counterpart here.
- `WordFreqs2.java` is not part of this model. It is a console driver: file and standard-input reading, tokenising, formatted output.
- `extra.java` is not part of this model: it is entirely commented out.
- Java `int` arithmetic is left out. Sizes, ranks, heights and depths are unbounded integers, and 32-bit overflow (more than 2^31 - 1 nodes) is not modelled.
- The tree left behind after an exception is not modelled: an `Err` result carries no tree. In Java the nodes changed before the exception stay changed.
- The state of the `deletedNode` field between calls is not modelled. It is replaced by the returned value. Because `delete` only descends when `containsKey` holds, a stale `deletedNode` from an earlier call can never be returned.
- Generic keys are left out: the `Comparable` key type is modelled as `int` with its usual order.
- DeletionAsWritten.FlipLeft: this omits the rotation of RedBlackTree.java:201-204 rather than modelling it, because `DeletionAsWritten.InnerRotationNeverRuns` proves its guard is always false at that point.
- DeletionAsWritten.DeleteKeeps: on an ordered, exactly sized tree that is not valid, it promises only that the remaining entries are a sub-map of the old ones, and only when the call returns normally. Once an earlier as-written `delete` has broken the colour rules, a later one can drop another key (`DeletionAsWritten.SecondDeleteLosesKey`); whether it can also throw there is not settled. On a valid tree `DeletionAsWritten.DeleteOnValid` proves exact removal with no exception.
- Insertion.FindAndAdd: its own contract states only that the result is a node. Its meaning is in `Insertion.FindAndAddContents`, `FindAndAddSized`, `FindAndAddSize` and `FindAndAddShape`.
- Metrics.CalcBlackHeight: its own contract states only the empty case. `Metrics.BalancedAllPaths` and `Metrics.AllPathsBalanced` give its meaning.

## Findings

| source | as written | input that shows it | evidently intended | confidence | as-written member | corrected member |
|---|---|---|---|---|---|---|
| RedBlackTree.java:180-183 | `delete` returns `deletedNode.value`, but that node has just been overwritten with its successor's key and value. | `put` 10→100, 20→200, 30→300, then `delete(20)` returns 300. | Return the value the deleted key was mapped to (200), as the doc-comment at line 120 says. | not executed | DeletionAsWritten.DeleteReturnsSuccessorValue | DeletionProofs.DeleteCorrect |
| RedBlackTree.java:199-205 | `deleteMinNode` only flips colours before descending left. The rotation that should move a red link over from the right tests `node.left.left`, which the flip never changes, so it never runs. | `put` 10..80 in increasing order, then `delete(40)` leaves a red right link. A further `delete(50)` also loses key 70. | Push red to the left as `findAndDelete` does at lines 145-153, so that `deleteMinNode` removes exactly the least key and keeps the colour rules. | not executed | DeletionAsWritten.DeleteBreaksColourRule | DeletionProofs.DeleteMinCorrect |
| RedBlackTree.java:324-326 | `findFirstKey` reads `.key` of `findMinNode(root)`, which is null on an empty tree. | `findFirstKey()` on an empty tree throws `NullPointerException`. | Return null on an empty tree, as the doc-comment at line 320 says. | not executed | Lookup.FindFirstKey | Lookup.FirstKey |
