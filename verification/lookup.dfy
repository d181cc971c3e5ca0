/**
 * Lookups by descent from the root, comparing the wanted value with each
 * node's value: `find` returns the node holding it and `depth` counts the
 * edges walked to reach it. Both report absence rather than fail.
 */
module Lookup {
  import opened Options
  import opened BinaryTree

  /** The node holding `v` on the search path for `v`, or `Leaf` (the source's `null`). */
  function Find(t: Tree, v: int): (r: Tree)
    ensures r.Node? ==> r.data == v && IsSubtree(r, t)
  {
    match t
    case Leaf => Leaf
    case Node(l, x, rt) =>
      if v == x then t
      else if v < x then Find(l, v)
      else Find(rt, v)
  }

  /** On a search tree, `Find` succeeds exactly for the values the tree holds. */
  lemma {:induction false} FindFindsContents(t: Tree, v: int)
    requires Bst(t)
    ensures Find(t, v).Node? <==> v in Contents(t)
  {
    match t
    case Leaf =>
    case Node(l, x, r) =>
      if v < x {
        FindFindsContents(l, v);
      } else if x < v {
        FindFindsContents(r, v);
      }
      if Find(t, v).Node? {
        SubtreeContents(Find(t, v), t);
      }
  }

  /** On a search tree, looking up the value of any of its nodes finds that very node. */
  lemma {:induction false} FindSubtree(t: Tree, s: Tree)
    requires Bst(t) && IsSubtree(s, t) && s.Node?
    ensures Find(t, s.data) == s
  {
    if s != t {
      if IsSubtree(s, t.left) {
        SubtreeContents(s, t.left);
        FindSubtree(t.left, s);
      } else {
        SubtreeContents(s, t.right);
        FindSubtree(t.right, s);
      }
    }
  }

  /**
   * Number of edges from the root to the node holding `v`, found by the same
   * descent as `Find`, or `None` when the descent falls off the tree.
   */
  function Depth(t: Tree, v: int): (r: Option<nat>)
    ensures r.Some? <==> Find(t, v).Node?
    ensures r.Some? ==> v in Level(t, r.value)
  {
    match t
    case Leaf => None
    case Node(l, x, rt) =>
      if x == v then Some(0)
      else
        var d := if v < x then Depth(l, v) else Depth(rt, v);
        if d.None? then None else Some(d.value + 1)
  }

  /** On a search tree, the depth of `v` is `k` exactly when `v` sits on level `k`. */
  lemma {:induction false} DepthIsLevel(t: Tree, v: int, k: nat)
    requires Bst(t)
    ensures Depth(t, v) == Some(k) <==> v in Level(t, k)
  {
    match t
    case Leaf =>
    case Node(l, x, r) =>
      if v in Level(t, k) && k > 0 {
        if v in Level(l, k - 1) {
          LevelContents(l, k - 1, v);
          DepthIsLevel(l, v, k - 1);
        } else {
          LevelContents(r, k - 1, v);
          DepthIsLevel(r, v, k - 1);
        }
      }
      if Depth(t, v) == Some(k) && k == 0 {
        assert v == x;
      }
  }

  /**
   * Depths measured from the root of a search tree add up: a value `k` levels
   * below the node holding `v` lies `k` levels deeper than `v`.
   */
  lemma {:induction false} DepthBelow(t: Tree, v: int, x: int, k: nat)
    requires Bst(t) && v in Contents(t)
    requires x in Level(Find(t, v), k)
    ensures Depth(t, v).Some? && Depth(t, x) == Some(Depth(t, v).value + k)
  {
    FindFindsContents(t, v);
    var n := Find(t, v);
    match t
    case Node(l, y, r) =>
      if v == y {
        DepthIsLevel(t, x, k);
      } else if v < y {
        LevelContents(n, k, x);
        SubtreeContents(n, l);
        DepthBelow(l, v, x, k);
      } else {
        LevelContents(n, k, x);
        SubtreeContents(n, r);
        DepthBelow(r, v, x, k);
      }
  }
}
