/**
 * The nodes a `Tree` owns, as an immutable inductive datatype, and the
 * vocabulary the rest of the model is stated in: the values a tree holds,
 * the search-tree ordering, heights, depth levels and balance.
 */
module BinaryTree {

  /** `Leaf` is an absent subtree (`null`); a `Node` owns its two children. */
  datatype Tree = Leaf | Node(left: Tree, data: int, right: Tree)

  function Max(a: int, b: int): int {
    if a < b then b else a
  }

  /** Number of nodes. */
  function Size(t: Tree): nat {
    match t
    case Leaf => 0
    case Node(l, _, r) => Size(l) + 1 + Size(r)
  }

  /** The set of values held by the nodes of `t`. */
  function Contents(t: Tree): set<int> {
    match t
    case Leaf => {}
    case Node(l, x, r) => Contents(l) + {x} + Contents(r)
  }

  /** The values of `t`, once per node. */
  function Bag(t: Tree): multiset<int> {
    match t
    case Leaf => multiset{}
    case Node(l, x, r) => Bag(l) + multiset{x} + Bag(r)
  }

  lemma {:induction false} BagContents(t: Tree, v: int)
    ensures v in Bag(t) <==> v in Contents(t)
  {
    match t
    case Leaf =>
    case Node(l, _, r) =>
      BagContents(l, v);
      BagContents(r, v);
  }

  lemma {:induction false} BagSize(t: Tree)
    ensures |Bag(t)| == Size(t)
  {
    match t
    case Leaf =>
    case Node(l, _, r) =>
      BagSize(l);
      BagSize(r);
  }

  /**
   * The search-tree ordering: every value in a left subtree is smaller than
   * its node's value and every value in a right subtree is larger. It
   * implies that no value is stored twice.
   */
  predicate Bst(t: Tree) {
    match t
    case Leaf => true
    case Node(l, x, r) =>
      && Bst(l) && Bst(r)
      && (forall y :: y in Contents(l) ==> y < x)
      && (forall y :: y in Contents(r) ==> x < y)
  }

  /** `s` is `t` itself or a subtree reachable from it through child links. */
  predicate IsSubtree(s: Tree, t: Tree) {
    s == t || (t.Node? && (IsSubtree(s, t.left) || IsSubtree(s, t.right)))
  }

  lemma SubtreeContents(s: Tree, t: Tree)
    requires IsSubtree(s, t)
    ensures Contents(s) <= Contents(t)
    ensures Bst(t) ==> Bst(s)
  {
  }

  /**
   * Number of edges on the longest downward path from the root of `t`: 0 for
   * a node without children. An absent subtree also counts as 0, the
   * convention the balance check uses for a missing child.
   */
  function Height(t: Tree): nat {
    match t
    case Leaf => 0
    case Node(l, _, r) =>
      if l.Leaf? && r.Leaf? then 0 else 1 + Max(Height(l), Height(r))
  }

  /**
   * Every node's two children differ in height by at most one, with an
   * absent child counted as height 0.
   */
  predicate Balanced(t: Tree) {
    match t
    case Leaf => true
    case Node(l, _, r) =>
      && Balanced(l) && Balanced(r)
      && -1 <= Height(l) - Height(r) <= 1
  }

  /** The values of the nodes `k` edges below the root, left to right. */
  function Level(t: Tree, k: nat): seq<int> {
    match t
    case Leaf => []
    case Node(l, x, r) => if k == 0 then [x] else Level(l, k - 1) + Level(r, k - 1)
  }

  /** A node has a non-empty level at every depth up to its height, and none below. */
  lemma {:induction false} LevelExtent(t: Tree, k: nat)
    ensures t.Node? && k <= Height(t) ==> |Level(t, k)| > 0
    ensures Height(t) < k ==> Level(t, k) == []
  {
    match t
    case Leaf =>
    case Node(l, x, r) =>
      if k > 0 {
        LevelExtent(l, k - 1);
        LevelExtent(r, k - 1);
      }
  }

  /** Every value on a level is a value of the tree. */
  lemma {:induction false} LevelContents(t: Tree, k: nat, v: int)
    requires v in Level(t, k)
    ensures v in Contents(t)
  {
    match t
    case Leaf =>
    case Node(l, x, r) =>
      if k > 0 {
        if v in Level(l, k - 1) {
          LevelContents(l, k - 1, v);
        } else {
          LevelContents(r, k - 1, v);
        }
      }
  }
}
