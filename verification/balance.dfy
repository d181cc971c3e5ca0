/**
 * `height`, `isBalanced` and `rebalance`. The source's `height(value)`
 * finds the node holding `value`, walks its subtree in level order and
 * counts how often the depth of the visited value, measured by `depth` from
 * the root of the whole tree, exceeds the deepest one seen so far.
 * `isBalanced` compares the heights of the two children of every node,
 * each obtained through `height(child.data)`, so it too measures from the
 * root of the whole tree; here that tree is the parameter `whole`.
 */
module Balance {
  import opened Options
  import opened BinaryTree
  import opened SortedSeq
  import opened Traversal
  import opened Lookup
  import opened Build

  /**
   * `depth(value)` where the source compares it with a number: `null`
   * compares as 0. A found value lies on the level compared, and in a
   * search tree a value it does not hold compares as the root's level.
   */
  function DepthOrZero(t: Tree, v: int): (d: nat)
    ensures Depth(t, v).Some? ==> v in Level(t, d)
    ensures Bst(t) && v !in Contents(t) ==> d == 0
  {
    AbsentHasNoDepth(t, v);
    match Depth(t, v)
    case None => 0
    case Some(d) => d
  }

  /** Proof step: in a search tree, `depth` of a value the tree does not hold is `null`. */
  lemma AbsentHasNoDepth(t: Tree, v: int)
    ensures Bst(t) && v !in Contents(t) ==> Depth(t, v).None?
  {
    if Bst(t) {
      FindFindsContents(t, v);
    }
  }

  /**
   * The loop of `height` over the values `xs`, visited in order: one step
   * each time a value lies deeper in `t` than `deepest`, the deepest level
   * met so far.
   */
  function Rises(t: Tree, xs: seq<int>, deepest: nat): (n: nat)
    ensures n <= |xs|
  {
    if |xs| == 0 then 0
    else
      var d := DepthOrZero(t, xs[0]);
      if d > deepest then 1 + Rises(t, xs[1..], d) else Rises(t, xs[1..], deepest)
  }

  /**
   * `height(value)`: `None` (the source's `null`) when `find` fails,
   * otherwise the count of depth increases along the level-order walk of
   * the found node's subtree, starting from that node's own depth.
   */
  function HeightOf(t: Tree, v: int): (r: Option<nat>)
    ensures r.Some? <==> Find(t, v).Node?
  {
    var n := Find(t, v);
    if n.Leaf? then None
    else Some(Rises(t, Bfs([n]), DepthOrZero(t, n.data)))
  }

  /** Values that all lie at the depth already reached do not count. */
  lemma {:induction false} RisesFlat(t: Tree, xs: seq<int>, rest: seq<int>, c: nat)
    requires forall i :: 0 <= i < |xs| ==> DepthOrZero(t, xs[i]) == c
    ensures Rises(t, xs + rest, c) == Rises(t, rest, c)
    decreases |xs|
  {
    if |xs| > 0 {
      assert (xs + rest)[0] == xs[0];
      assert (xs + rest)[1..] == xs[1..] + rest;
      RisesFlat(t, xs[1..], rest, c);
    } else {
      assert xs + rest == rest;
    }
  }

  /** A non-empty run of values one level deeper counts once. */
  lemma RisesStep(t: Tree, xs: seq<int>, rest: seq<int>, c: nat)
    requires |xs| > 0
    requires forall i :: 0 <= i < |xs| ==> DepthOrZero(t, xs[i]) == c + 1
    ensures Rises(t, xs + rest, c) == 1 + Rises(t, rest, c + 1)
  {
    assert (xs + rest)[0] == xs[0];
    assert (xs + rest)[1..] == xs[1..] + rest;
    RisesFlat(t, xs[1..], rest, c + 1);
  }

  /** Every value `k` levels below node `n` lies at depth `d + k` in `t`. */
  ghost predicate DepthsBelow(t: Tree, n: Tree, d: nat) {
    forall k: nat, x :: x in Level(n, k) ==> DepthOrZero(t, x) == d + k
  }

  lemma SearchTreeDepthsBelow(t: Tree, v: int)
    requires Bst(t) && v in Contents(t)
    ensures Depth(t, v).Some?
    ensures DepthsBelow(t, Find(t, v), Depth(t, v).value)
  {
    FindFindsContents(t, v);
    forall k: nat, x | x in Level(Find(t, v), k)
      ensures DepthOrZero(t, x) == Depth(t, v).value + k
    {
      DepthBelow(t, v, x, k);
    }
  }

  /**
   * Levels `lo` to `hi - 1` of `n`, each one deeper than the last, count
   * one step each when the deepest level met so far is `c`, one above `lo`.
   */
  lemma {:induction false} RisesLevels(t: Tree, n: Tree, d: nat, lo: nat, hi: nat, c: nat)
    requires DepthsBelow(t, n, d)
    requires n.Node? && 1 <= lo <= hi <= Height(n) + 1 && c + 1 == d + lo
    ensures Rises(t, Levels([n], lo, hi), c) == hi - lo
    decreases hi - lo
  {
    if lo < hi {
      RisesLevel(t, n, d, lo, hi, c);
      RisesLevels(t, n, d, lo + 1, hi, c + 1);
      CountUp(Rises(t, Levels([n], lo, hi), c), Rises(t, Levels([n], lo + 1, hi), c + 1), lo, hi);
    } else {
      RisesNone(t, Levels([n], lo, hi), c);
    }
  }

  /** Proof step: the count's arithmetic, over plain numbers. */
  lemma CountUp(a: nat, b: nat, lo: nat, hi: nat)
    requires a == 1 + b && b == hi - (lo + 1)
    ensures a == hi - lo
  {
  }

  /**
   * Proof step: an empty run of levels counts nothing, stated over a fresh
   * sequence so the base case does not unfold `Levels`.
   */
  lemma RisesNone(t: Tree, xs: seq<int>, c: nat)
    requires xs == []
    ensures Rises(t, xs, c) == 0
  {
  }

  /** The first of the levels `lo` to `hi - 1` counts one step. */
  lemma RisesLevel(t: Tree, n: Tree, d: nat, lo: nat, hi: nat, c: nat)
    requires DepthsBelow(t, n, d)
    requires n.Node? && 1 <= lo < hi <= Height(n) + 1 && c + 1 == d + lo
    ensures Rises(t, Levels([n], lo, hi), c) == 1 + Rises(t, Levels([n], lo + 1, hi), c + 1)
  {
    var xs, rest := ForestLevel([n], lo), Levels([n], lo + 1, hi);
    assert Levels([n], lo, hi) == xs + rest;
    LevelAtDepth(t, n, d, lo, c);
    RisesStep(t, xs, rest, c);
  }

  /** Level `k` of node `n`, down to its height, is non-empty and lies at depth `d + k`. */
  lemma LevelAtDepth(t: Tree, n: Tree, d: nat, k: nat, c: nat)
    requires DepthsBelow(t, n, d)
    requires n.Node? && 1 <= k <= Height(n) && c + 1 == d + k
    ensures |ForestLevel([n], k)| > 0
    ensures forall i :: 0 <= i < |ForestLevel([n], k)| ==> DepthOrZero(t, ForestLevel([n], k)[i]) == c + 1
  {
    SingletonForest(n, k);
    LevelExtent(n, k);
    forall i | 0 <= i < |Level(n, k)| ensures DepthOrZero(t, Level(n, k)[i]) == d + k {
      assert Level(n, k)[i] in Level(n, k);
    }
  }

  /**
   * On a search tree, `height(value)` is `null` exactly for the values the
   * tree does not hold, and otherwise the number of edges on the longest
   * downward path from the node holding `value`.
   */
  lemma HeightOfIsHeight(t: Tree, v: int)
    requires Bst(t)
    ensures HeightOf(t, v) == if v in Contents(t) then Some(Height(Find(t, v))) else None
  {
    FindFindsContents(t, v);
    if v in Contents(t) {
      var n := Find(t, v);
      SearchTreeDepthsBelow(t, v);
      WalkRises(t, n, Depth(t, v).value);
    }
  }

  /**
   * The count over the level-order walk of node `n`, starting from its own
   * depth `d`, steps once per level below `n`: its height.
   */
  lemma WalkRises(t: Tree, n: Tree, d: nat)
    requires n.Node? && DepthsBelow(t, n, d)
    ensures Rises(t, Bfs([n]), d) == Height(n)
  {
    TreeBfs(n);
    var rest := Levels([n], 1, Height(n) + 1);
    assert Levels([n], 0, Height(n) + 1) == ForestLevel([n], 0) + rest;
    SingletonForest(n, 0);
    assert n.data in Level(n, 0);
    assert ForestLevel([n], 0) == [n.data];
    RisesFlat(t, [n.data], rest, d);
    RisesLevels(t, n, d, 1, Height(n) + 1, d);
  }

  /**
   * `#checkBalance` measures a child by `height(child.data)`; an absent
   * child, and a `null` height, count as 0. In a search tree the measure is
   * the child's height.
   */
  function ChildHeight(whole: Tree, c: Tree): (h: nat)
    ensures c.Leaf? ==> h == 0
    ensures Bst(whole) && IsSubtree(c, whole) ==> h == Height(c)
  {
    if c.Leaf? then 0
    else
      MeasuredHeight(whole, c);
      match HeightOf(whole, c.data)
      case None => 0
      case Some(h) => h
  }

  /** A node of a search tree is found by its value, and `height` gives its height. */
  lemma MeasuredHeight(whole: Tree, c: Tree)
    ensures Bst(whole) && IsSubtree(c, whole) && c.Node? ==> HeightOf(whole, c.data) == Some(Height(c))
  {
    if Bst(whole) && IsSubtree(c, whole) && c.Node? {
      SubtreeContents(c, whole);
      FindSubtree(whole, c);
      HeightOfIsHeight(whole, c.data);
    }
  }

  /**
   * `#checkBalance(leftTree, rightTree)`: the measured heights differ by at
   * most one. For two subtrees of a search tree, that is their heights.
   */
  predicate CheckBalance(whole: Tree, l: Tree, r: Tree)
    ensures Bst(whole) && IsSubtree(l, whole) && IsSubtree(r, whole) ==>
      (CheckBalance(whole, l, r) <==> -1 <= Height(l) - Height(r) <= 1)
  {
    -1 <= ChildHeight(whole, l) - ChildHeight(whole, r) <= 1
  }

  /**
   * `isBalanced(root)` on the subtree `t` of the tree `whole`. On a subtree
   * of a search tree it holds exactly when `t` is `Balanced`: at every node
   * the children's heights differ by at most one, an absent child counting
   * as height 0.
   */
  predicate IsBalancedIn(whole: Tree, t: Tree)
    ensures Bst(whole) && IsSubtree(t, whole) ==> (IsBalancedIn(whole, t) <==> Balanced(t))
  {
    match t
    case Leaf => true
    case Node(l, _, r) =>
      ChildrenOfSubtree(t, whole);
      CheckBalance(whole, l, r) && IsBalancedIn(whole, l) && IsBalancedIn(whole, r)
  }

  lemma ChildrenOfSubtree(t: Tree, whole: Tree)
    ensures IsSubtree(t, whole) && t.Node? ==> IsSubtree(t.left, whole) && IsSubtree(t.right, whole)
  {
    if IsSubtree(t, whole) && t.Node? {
      ChildOfSubtree(t.left, t, whole);
      ChildOfSubtree(t.right, t, whole);
    }
  }

  lemma {:induction false} ChildOfSubtree(c: Tree, t: Tree, whole: Tree)
    requires IsSubtree(t, whole) && t.Node? && (c == t.left || c == t.right)
    ensures IsSubtree(c, whole)
    decreases whole
  {
    if t != whole {
      if IsSubtree(t, whole.left) {
        ChildOfSubtree(c, t, whole.left);
      } else {
        ChildOfSubtree(c, t, whole.right);
      }
    }
  }

  /** `isBalanced()` on the whole tree; on a search tree, whether it is `Balanced`. */
  predicate IsBalanced(t: Tree)
    ensures Bst(t) ==> (IsBalanced(t) <==> Balanced(t))
  {
    assert IsSubtree(t, t);
    IsBalancedIn(t, t)
  }

  /** A tree fresh from `buildTree` passes `isBalanced()`. */
  lemma BuildTreeIsBalanced(a: seq<int>)
    ensures IsBalanced(BuildTree(a))
  {
  }

  /**
   * `rebalance()`: rebuild from the values in pre-order. The result holds
   * the same values, is a balanced search tree that passes `isBalanced()`,
   * and when the input was a search tree the in-order walk is unchanged.
   */
  function Rebalance(t: Tree): (r: Tree)
    ensures forall x :: x in Contents(r) <==> x in Contents(t)
    ensures Bst(r) && Balanced(r) && IsBalanced(r)
    ensures r.Node? ==> Pow2(Height(r)) <= Size(r)
    ensures Bst(t) ==> InOrder(r) == InOrder(t)
  {
    RebuiltFacts(t);
    BuildTree(PreOrder(t))
  }

  lemma RebuiltFacts(t: Tree)
    ensures forall x :: x in Contents(BuildTree(PreOrder(t))) <==> x in Contents(t)
    ensures IsBalanced(BuildTree(PreOrder(t)))
    ensures Bst(t) ==> InOrder(BuildTree(PreOrder(t))) == InOrder(t)
  {
    PreOrderContents(t);
    BuildTreeIsBalanced(PreOrder(t));
    if Bst(t) {
      SameWalk(BuildTree(PreOrder(t)), t);
    }
  }

  lemma PreOrderContents(t: Tree)
    ensures forall x :: x in PreOrder(t) <==> x in Contents(t)
  {
    forall x ensures x in PreOrder(t) <==> x in Contents(t) {
      assert x in PreOrder(t) <==> x in multiset(PreOrder(t));
      BagContents(t, x);
    }
  }

  /** Two search trees holding the same values have the same in-order walk. */
  lemma SameWalk(a: Tree, b: Tree)
    requires Bst(a) && Bst(b)
    requires forall x :: x in Contents(a) <==> x in Contents(b)
    ensures InOrder(a) == InOrder(b)
  {
    InOrderIncreasingIffBst(a);
    InOrderIncreasingIffBst(b);
    forall x ensures x in InOrder(a) <==> x in InOrder(b) {
      InOrderContents(a, x);
      InOrderContents(b, x);
    }
    IncreasingUnique(InOrder(a), InOrder(b));
  }

  /** Rebalancing a rebalanced tree changes nothing. */
  lemma RebalanceIdempotent(t: Tree)
    ensures Rebalance(Rebalance(t)) == Rebalance(t)
  {
    var r := Rebalance(t);
    PreOrderContents(t);
    PreOrderContents(r);
    BuildTreeSameValues(PreOrder(r), PreOrder(t));
  }

  /**
   * Because an absent child counts as height 0, the same as a childless
   * node, a chain of three nodes hanging to one side passes `isBalanced()`
   * although its two sides differ by two levels of nodes.
   */
  lemma ChainOfThreeIsBalanced(x: int, y: int, z: int)
    requires x < y < z
    ensures IsBalanced(Node(Leaf, x, Node(Leaf, y, Node(Leaf, z, Leaf))))
    ensures Height(Node(Leaf, x, Node(Leaf, y, Node(Leaf, z, Leaf)))) == 2
  {
    var c := Node(Leaf, z, Leaf);
    var b := Node(Leaf, y, c);
    var t := Node(Leaf, x, b);
    assert Contents(c) == {z};
    assert Contents(b) == {y, z};
    assert Bst(c);
    assert Bst(b);
    assert Bst(t);
    assert Height(c) == 0 && Height(b) == 1;
    assert Balanced(c);
    assert Balanced(b);
    assert Balanced(t);
  }
}
