/**
 * The shape statistics the tree reports: `countRedNodes`, `calcHeight`,
 * `calcBlackHeight`, and `calcTotalDepth`, the integer sum behind
 * `calcAverageDepth`. The lemmas give each one its meaning: in a valid tree
 * at most half the nodes are red, the height is at most twice the black
 * height and logarithmic in the size, and the one-path black count holds on
 * every path; the total depth counts each node once per proper ancestor and
 * is at most size * (height - 1).
 */
module Metrics {
  import opened Trees

  /** Nodes whose colour bit is red. */
  function CountRedNodes<V>(t: Tree<V>): (r: nat)
    ensures r <= |Keys(t)|
    ensures IsRed(t) ==> r >= 1
  {
    if t.Leaf? then 0
    else (if IsRed(t) then 1 else 0) + CountRedNodes(t.left) + CountRedNodes(t.right)
  }

  /** Nodes on the longest downward path; 0 for an empty tree. */
  function CalcHeight<V>(t: Tree<V>): (r: nat)
    ensures r == 0 <==> t.Leaf?
    ensures r <= |Keys(t)|
  {
    if t.Leaf? then 0
    else
      var left := CalcHeight(t.left);
      var right := CalcHeight(t.right);
      Max(left, right) + 1
  }

  function Max(a: int, b: int): int {
    if a >= b then a else b
  }

  /** The loop of `calcBlackHeight`: black nodes down the left spine. */
  function BlackHeightFrom<V>(node: Tree<V>, count: nat): (r: nat)
    ensures r == count + BlackHeight(node)
  {
    if node.Leaf? then count
    else BlackHeightFrom(node.left, if !IsRed(node) then count + 1 else count)
  }

  /** Black nodes on the leftmost path; 0 for an empty tree. */
  function CalcBlackHeight<V>(t: Tree<V>): (r: nat)
    ensures t.Leaf? ==> r == 0
  {
    if t.Leaf? then 0 else BlackHeightFrom(t, 0)
  }

  /** The private `calcTotalDepth(node, currentDepth)`: the depths of all nodes below, counted from `depth`. */
  function CalcTotalDepth<V>(t: Tree<V>, depth: int): int {
    if t.Leaf? then 0
    else
      var left := CalcTotalDepth(t.left, depth + 1);
      var right := CalcTotalDepth(t.right, depth + 1);
      depth + left + right
  }

  // ----- reference definitions -----

  /** Every path from `t` down to an absent child meets exactly `n` black nodes. */
  ghost predicate AllPathsBlack<V>(t: Tree<V>, n: int) {
    match t
    case Leaf => n == 0
    case Node(c, l, _, _, _, r) =>
      var below := if c then n else n - 1;
      AllPathsBlack(l, below) && AllPathsBlack(r, below)
  }

  /** The sum, over all nodes, of the number of nodes in the subtree each one roots. */
  ghost function SubtreeSizeSum<V>(t: Tree<V>): nat {
    match t
    case Leaf => 0
    case Node(_, l, _, _, _, r) => |Keys(t)| + SubtreeSizeSum(l) + SubtreeSizeSum(r)
  }

  function Pow2(n: nat): (r: nat)
    ensures r >= 1
  {
    if n == 0 then 1 else 2 * Pow2(n - 1)
  }

  // ----- red nodes -----

  /**
   * Under the colour rules every red node is the left child of a black
   * node, so the red nodes are at most as many as the black ones (one more
   * when the root itself is red).
   */
  lemma {:induction false} RedNodesBounded<V>(t: Tree<V>)
    requires RedRule(t)
    ensures 2 * CountRedNodes(t) <= |Keys(t)| + (if IsRed(t) then 1 else 0)
  {
    match t
    case Leaf =>
    case Node(_, l, _, _, _, r) =>
      RedNodesBounded(l);
      RedNodesBounded(r);
  }

  /** In a valid tree at most half of the nodes are red. */
  lemma ValidRedNodes<V>(t: Tree<V>)
    requires Valid(t)
    ensures 2 * CountRedNodes(t) <= Size(t)
  {
    RedNodesBounded(t);
    SizeCountsKeys(t);
  }

  // ----- height -----

  /** Red nodes never follow red nodes, so a path is at most twice as long as its black count. */
  lemma {:induction false} HeightBounded<V>(t: Tree<V>)
    requires Balanced(t) && RedRule(t)
    ensures CalcHeight(t) <= 2 * BlackHeight(t) + (if IsRed(t) then 1 else 0)
  {
    match t
    case Leaf =>
    case Node(_, l, _, _, _, r) =>
      HeightBounded(l);
      HeightBounded(r);
  }

  /** A balanced subtree of black height `b` holds at least 2^b - 1 nodes. */
  lemma {:induction false} BlackHeightBounded<V>(t: Tree<V>)
    requires Balanced(t)
    ensures Pow2(BlackHeight(t)) <= |Keys(t)| + 1
  {
    match t
    case Leaf =>
    case Node(_, l, _, _, _, r) =>
      BlackHeightBounded(l);
      BlackHeightBounded(r);
  }

  lemma {:induction false} Pow2Monotone(a: nat, b: nat)
    requires a <= b
    ensures Pow2(a) <= Pow2(b)
    decreases b
  {
    if a < b {
      Pow2Monotone(a, b - 1);
    }
  }

  lemma {:induction false} Pow2Double(b: nat)
    ensures Pow2(2 * b) == Pow2(b) * Pow2(b)
  {
    if b > 0 {
      Pow2Double(b - 1);
      assert Pow2(2 * b) == 4 * Pow2(2 * (b - 1));
      assert Pow2(b) == 2 * Pow2(b - 1);
    }
  }

  /**
   * The height of a valid tree is logarithmic in its size: 2^height is at
   * most (size + 1)^2, that is, height <= 2 log2(size + 1).
   */
  lemma ValidHeight<V>(t: Tree<V>)
    requires Valid(t)
    ensures CalcHeight(t) <= 2 * CalcBlackHeight(t)
    ensures Pow2(CalcBlackHeight(t)) <= Size(t) + 1
    ensures Pow2(CalcHeight(t)) <= (Size(t) + 1) * (Size(t) + 1)
  {
    HeightBounded(t);
    BlackHeightBounded(t);
    SizeCountsKeys(t);
    var b := BlackHeight(t);
    Pow2Monotone(CalcHeight(t), 2 * b);
    Pow2Double(b);
    var p, n := Pow2(b), Size(t) + 1;
    MulLe(p, n, p);
    MulLe(p, n, n);
  }

  // ----- black height -----

  /**
   * In a balanced subtree the count along the left spine is the count along
   * every path, which is what `calcBlackHeight` relies on.
   */
  lemma {:induction false} BalancedAllPaths<V>(t: Tree<V>)
    requires Balanced(t)
    ensures AllPathsBlack(t, CalcBlackHeight(t))
  {
    match t
    case Leaf =>
    case Node(_, l, _, _, _, r) =>
      BalancedAllPaths(l);
      BalancedAllPaths(r);
  }

  /** Conversely, a subtree whose paths all meet the same number of black nodes is balanced at that height. */
  lemma {:induction false} AllPathsBalanced<V>(t: Tree<V>, n: int)
    requires AllPathsBlack(t, n)
    ensures Balanced(t) && CalcBlackHeight(t) == n
  {
    match t
    case Leaf =>
    case Node(c, l, _, _, _, r) =>
      var below := if c then n else n - 1;
      AllPathsBalanced(l, below);
      AllPathsBalanced(r, below);
  }

  // ----- depth -----

  /** Starting the count `d` levels lower adds `d` for every node. */
  lemma {:induction false} TotalDepthShift<V>(t: Tree<V>, d: int)
    ensures CalcTotalDepth(t, d) == CalcTotalDepth(t, 0) + d * |Keys(t)|
  {
    match t
    case Leaf =>
    case Node(_, l, _, _, _, r) =>
      var nl, nr := |Keys(l)|, |Keys(r)|;
      assert |Keys(t)| == nl + 1 + nr;
      TotalDepthShift(l, d + 1);
      TotalDepthShift(l, 1);
      TotalDepthShift(r, d + 1);
      TotalDepthShift(r, 1);
      MulSucc(d, nl);
      MulSucc(d, nr);
      MulSum(d, nl, nr);
  }

  /**
   * The total depth counts each node once for every proper ancestor, so it
   * is the sum of all subtree sizes less the number of nodes.
   */
  lemma {:induction false} TotalDepthCountsAncestors<V>(t: Tree<V>)
    ensures CalcTotalDepth(t, 0) + |Keys(t)| == SubtreeSizeSum(t)
  {
    match t
    case Leaf =>
    case Node(_, l, _, _, _, r) =>
      TotalDepthShift(l, 1);
      TotalDepthShift(r, 1);
      TotalDepthCountsAncestors(l);
      TotalDepthCountsAncestors(r);
  }

  /** No node lies deeper than one less than the height, counted from `d`. */
  lemma {:induction false} TotalDepthBounded<V>(t: Tree<V>, d: nat)
    ensures 0 <= CalcTotalDepth(t, d) <= |Keys(t)| * (d + CalcHeight(t) - 1)
  {
    match t
    case Leaf =>
    case Node(_, l, _, _, _, r) =>
      TotalDepthBounded(l, d + 1);
      TotalDepthBounded(r, d + 1);
      assert |Keys(t)| == |Keys(l)| + 1 + |Keys(r)|;
      DepthStep(d, CalcTotalDepth(l, d + 1), CalcTotalDepth(r, d + 1),
                |Keys(l)|, |Keys(r)|, CalcHeight(l), CalcHeight(r), CalcHeight(t));
  }

  // ----- arithmetic steps -----

  /** One node at depth `d` above two subtrees whose depths are bounded by their heights. */
  lemma DepthStep(d: nat, tl: int, tr: int, nl: nat, nr: nat, hl: nat, hr: nat, h: nat)
    requires 0 <= tl <= nl * (d + 1 + hl - 1) && 0 <= tr <= nr * (d + 1 + hr - 1)
    requires h == Max(hl, hr) + 1
    ensures 0 <= d + tl + tr <= (nl + 1 + nr) * (d + h - 1)
  {
    var m := d + h - 1;
    MulLe(d + hl, m, nl);
    MulLe(d + hr, m, nr);
    MulSum(m, nl, nr);
  }

  lemma MulLe(a: int, b: int, c: nat)
    requires a <= b
    ensures c * a <= c * b
  {
  }

  lemma MulSucc(a: int, b: int)
    ensures (a + 1) * b == a * b + b
  {
  }

  lemma MulSum(a: int, b: int, c: int)
    ensures (b + 1 + c) * a == b * a + a + c * a
  {
  }
}
