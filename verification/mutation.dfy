/**
 * Insertion and deletion. The source mutates nodes in place and rewires
 * parent links through return values; here each operation returns the new
 * tree.
 */
module Mutation {
  import opened BinaryTree
  import opened Lookup

  /**
   * `insert`: an empty tree becomes a single node; otherwise descend left
   * for a smaller value and right for a larger one, and put a new node in
   * the empty slot reached. Meeting the value on the way stops the descent
   * without a change.
   */
  function Insert(t: Tree, v: int): (r: Tree)
    ensures Contents(r) == Contents(t) + {v}
    ensures Bst(t) ==> Bst(r)
    ensures Find(t, v).Node? ==> r == t
    ensures Find(t, v).Leaf? ==> Size(r) == Size(t) + 1
  {
    match t
    case Leaf => Node(Leaf, v, Leaf)
    case Node(l, x, rt) =>
      if x == v then t
      else if v < x then Node(Insert(l, v), x, rt)
      else Node(l, x, Insert(rt, v))
  }

  /** Inserting a value twice is the same as inserting it once. */
  lemma {:induction false} InsertIdempotent(t: Tree, v: int)
    ensures Insert(Insert(t, v), v) == Insert(t, v)
  {
    match t
    case Leaf =>
    case Node(l, x, r) =>
      if v < x {
        InsertIdempotent(l, v);
      } else if x < v {
        InsertIdempotent(r, v);
      }
  }

  /** On a search tree, inserting a value already held leaves the tree as it was. */
  lemma InsertPresent(t: Tree, v: int)
    requires Bst(t) && v in Contents(t)
    ensures Insert(t, v) == t
  {
    FindFindsContents(t, v);
  }

  /** The node reached by following left links from `t`: the loop of `#getNextLargestNode`. */
  function Leftmost(t: Tree): (r: Tree)
    requires t.Node?
    ensures r.Node? && r.left.Leaf? && IsSubtree(r, t)
    ensures Bst(t) ==> forall y :: y in Contents(t) ==> r.data <= y
  {
    if t.left.Node? then Leftmost(t.left) else t
  }

  /**
   * `#getNextLargestNode`: the in-order successor of the node `t` within its
   * own subtree, the leftmost node of its right subtree, or `Leaf` when it
   * has no right subtree.
   */
  function NextLargest(t: Tree): (r: Tree)
    requires t.Node?
    ensures r.Node? <==> t.right.Node?
    ensures r.Node? ==> r.left.Leaf? && r.data in Contents(t.right)
    ensures r.Node? && Bst(t) ==>
      && t.data < r.data
      && forall y :: y in Contents(t.right) ==> r.data <= y
  {
    if t.right.Leaf? then Leaf
    else
      var m := Leftmost(t.right);
      SubtreeContents(m, t.right);
      m
  }

  /**
   * `deleteItem`: descend to the node holding `v`. A node with at most one
   * child is replaced by that child (or by nothing); a node with two
   * children takes the value of its in-order successor, which is then
   * deleted from the right subtree. A value not found leaves the tree as it
   * was.
   */
  function Delete(t: Tree, v: int): (r: Tree)
    ensures v !in Contents(t) ==> r == t
    ensures Contents(r) <= Contents(t)
    ensures Bst(t) ==> Bst(r) && Contents(r) == Contents(t) - {v}
    ensures Bst(t) && v in Contents(t) ==> Size(r) == Size(t) - 1
  {
    match t
    case Leaf => Leaf
    case Node(l, x, rt) =>
      if v < x then Node(Delete(l, v), x, rt)
      else if v > x then Node(l, x, Delete(rt, v))
      else if l.Leaf? then rt
      else if rt.Leaf? then l
      else
        var s := NextLargest(t).data;
        var d := Delete(rt, s);
        SuccessorReplaces(t, s, d);
        Node(l, s, d)
  }

  /**
   * The two-children case of `deleteItem`: the successor's value `s` moves
   * up, and `d` is the right subtree with `s` deleted.
   */
  lemma SuccessorReplaces(t: Tree, s: int, d: Tree)
    requires t.Node? && t.left.Node? && t.right.Node? && s == NextLargest(t).data
    requires Contents(d) <= Contents(t.right)
    requires Bst(t.right) ==> Bst(d) && Contents(d) == Contents(t.right) - {s} && Size(d) == Size(t.right) - 1
    ensures Contents(Node(t.left, s, d)) <= Contents(t)
    ensures Bst(t) ==> Bst(Node(t.left, s, d)) && Contents(Node(t.left, s, d)) == Contents(t) - {t.data}
    ensures Bst(t) ==> Size(Node(t.left, s, d)) == Size(t) - 1
  {
    var l, x, r := t.left, t.data, t.right;
    assert s in Contents(r);
    if Bst(t) {
      assert x < s;
      assert forall y :: y in Contents(l) ==> y < s;
      assert forall y :: y in Contents(d) ==> s < y by {
        assert forall y :: y in Contents(r) ==> s <= y;
      }
      assert Contents(t) - {x} == Contents(l) + {s} + Contents(d);
    }
  }

  /** The right subtree with its leftmost node replaced by that node's right child. */
  function WithoutLeftmost(t: Tree): (r: Tree)
    requires t.Node?
  {
    if t.left.Leaf? then t.right else Node(WithoutLeftmost(t.left), t.data, t.right)
  }

  /**
   * Deleting the minimum of a search tree never meets a node with two
   * children: it only unlinks the leftmost node, so the recursive delete in
   * the two-children case ends in the zero-or-one-child case.
   */
  lemma {:induction false} DeleteMinimumUnlinksLeftmost(t: Tree)
    requires Bst(t) && t.Node?
    ensures Delete(t, Leftmost(t).data) == WithoutLeftmost(t)
  {
    if t.left.Node? {
      var m := Leftmost(t.left);
      SubtreeContents(m, t.left);
      DeleteMinimumUnlinksLeftmost(t.left);
    }
  }
}
