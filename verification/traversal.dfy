/**
 * The four traversal orders of a tree. The source hands each visited node
 * to a callback; here a traversal returns the sequence of visited values.
 * The depth-first orders recurse only into present children, so an absent
 * subtree contributes nothing; the level order walks a FIFO queue.
 */
module Traversal {
  import opened BinaryTree
  import opened SortedSeq

  /** Node, then left subtree, then right subtree. */
  function PreOrder(t: Tree): (r: seq<int>)
    ensures multiset(r) == Bag(t)
    ensures t.Node? ==> |r| > 0 && r[0] == t.data
  {
    match t
    case Leaf => []
    case Node(l, x, rt) => [x] + PreOrder(l) + PreOrder(rt)
  }

  /** Left subtree, then node, then right subtree. */
  function InOrder(t: Tree): (r: seq<int>)
    ensures multiset(r) == Bag(t)
  {
    match t
    case Leaf => []
    case Node(l, x, rt) => InOrder(l) + [x] + InOrder(rt)
  }

  /** Left subtree, then right subtree, then node. */
  function PostOrder(t: Tree): (r: seq<int>)
    ensures multiset(r) == Bag(t)
    ensures t.Node? ==> |r| > 0 && r[|r| - 1] == t.data
  {
    match t
    case Leaf => []
    case Node(l, x, rt) => PostOrder(l) + PostOrder(rt) + [x]
  }

  /** A value is visited by the in-order walk exactly when the tree holds it. */
  lemma InOrderContents(t: Tree, v: int)
    ensures v in InOrder(t) <==> v in Contents(t)
  {
    assert v in InOrder(t) <==> v in multiset(InOrder(t));
    BagContents(t, v);
  }

  /**
   * The in-order walk is strictly ascending exactly when the tree satisfies
   * the search-tree ordering.
   */
  lemma {:induction false} InOrderIncreasingIffBst(t: Tree)
    ensures Bst(t) <==> Increasing(InOrder(t))
  {
    match t
    case Leaf =>
    case Node(l, x, r) =>
      InOrderIncreasingIffBst(l);
      InOrderIncreasingIffBst(r);
      IncreasingSplit(InOrder(l), x, InOrder(r));
      forall y ensures y in InOrder(l) <==> y in Contents(l) {
        InOrderContents(l, y);
      }
      forall y ensures y in InOrder(r) <==> y in Contents(r) {
        InOrderContents(r, y);
      }
  }

  /** The tree with every node's children swapped. */
  function Mirror(t: Tree): (m: Tree)
    ensures m.Node? <==> t.Node?
    ensures Bag(m) == Bag(t)
  {
    match t
    case Leaf => Leaf
    case Node(l, x, r) => Node(Mirror(r), x, Mirror(l))
  }

  function Reverse(s: seq<int>): (r: seq<int>)
    ensures |r| == |s|
  {
    if |s| == 0 then [] else Reverse(s[1..]) + [s[0]]
  }

  lemma {:induction false} ReverseAppend(a: seq<int>, b: seq<int>)
    ensures Reverse(a + b) == Reverse(b) + Reverse(a)
    decreases |a|
  {
    if |a| == 0 {
      assert a + b == b;
    } else {
      assert (a + b)[1..] == a[1..] + b;
      ReverseAppend(a[1..], b);
    }
  }

  /**
   * Post-order is pre-order of the mirror image, read backwards: the two
   * orders visit a node on opposite sides of its subtrees.
   */
  lemma {:induction false} PostOrderIsReversedMirrorPreOrder(t: Tree)
    ensures PostOrder(t) == Reverse(PreOrder(Mirror(t)))
  {
    match t
    case Leaf =>
    case Node(l, x, r) =>
      PostOrderIsReversedMirrorPreOrder(l);
      PostOrderIsReversedMirrorPreOrder(r);
      var ml, mr := PreOrder(Mirror(l)), PreOrder(Mirror(r));
      assert Mirror(t) == Node(Mirror(r), x, Mirror(l));
      assert PreOrder(Mirror(t)) == [x] + mr + ml;
      ReverseThree(x, mr, ml);
  }

  lemma ReverseThree(x: int, a: seq<int>, b: seq<int>)
    ensures Reverse([x] + a + b) == Reverse(b) + Reverse(a) + [x]
  {
    ReverseAppend([x] + a, b);
    ReverseAppend([x], a);
    assert Reverse([x]) == [x];
  }

  // ---- Left before right ---------------------------------------------------

  /**
   * In pre-order on a search tree, every value below the root comes before
   * every value above it: the left subtree is walked before the right one.
   */
  lemma PreOrderLeftFirst(t: Tree)
    ensures t.Node? && Bst(t) ==>
      forall i, j :: 1 <= i < j < |PreOrder(t)| && PreOrder(t)[j] < t.data ==> PreOrder(t)[i] < t.data
  {
    if t.Node? && Bst(t) {
      var a, b := PreOrder(t.left), PreOrder(t.right);
      WalkBelow(t.left, a, t.data);
      WalkAbove(t.right, b, t.data);
      BelowThenAbove(a, b, t.data);
      ShiftOne(t.data, a, b);
    }
  }

  /**
   * In post-order on a search tree, among the values before the root every
   * value below the root comes before every value above it: the left subtree
   * is walked before the right one.
   */
  lemma PostOrderLeftFirst(t: Tree)
    ensures t.Node? && Bst(t) ==>
      forall i, j :: 0 <= i < j < |PostOrder(t)| - 1 && PostOrder(t)[j] < t.data ==> PostOrder(t)[i] < t.data
  {
    if t.Node? && Bst(t) {
      var a, b := PostOrder(t.left), PostOrder(t.right);
      WalkBelow(t.left, a, t.data);
      WalkAbove(t.right, b, t.data);
      BelowThenAbove(a, b, t.data);
      DropLast(t.data, a, b);
    }
  }

  /** Proof step: a walk with the node multiset of a subtree whose values lie below `x`. */
  lemma WalkBelow(l: Tree, a: seq<int>, x: int)
    requires multiset(a) == Bag(l)
    requires forall y :: y in Contents(l) ==> y < x
    ensures forall k :: 0 <= k < |a| ==> a[k] < x
  {
    forall k | 0 <= k < |a| ensures a[k] < x {
      assert a[k] in multiset(a);
      BagContents(l, a[k]);
    }
  }

  /** Proof step: a walk with the node multiset of a subtree whose values lie above `x`. */
  lemma WalkAbove(r: Tree, b: seq<int>, x: int)
    requires multiset(b) == Bag(r)
    requires forall y :: y in Contents(r) ==> x < y
    ensures forall k :: 0 <= k < |b| ==> x < b[k]
  {
    forall k | 0 <= k < |b| ensures x < b[k] {
      assert b[k] in multiset(b);
      BagContents(r, b[k]);
    }
  }

  /** Proof step: values below `x` followed by values above it. */
  lemma BelowThenAbove(a: seq<int>, b: seq<int>, x: int)
    requires forall k :: 0 <= k < |a| ==> a[k] < x
    requires forall k :: 0 <= k < |b| ==> x < b[k]
    ensures forall i, j :: 0 <= i < j < |a + b| && (a + b)[j] < x ==> (a + b)[i] < x
  {
    forall i, j | 0 <= i < j < |a + b| && (a + b)[j] < x ensures (a + b)[i] < x {
      if j >= |a| {
        assert (a + b)[j] == b[j - |a|];
      }
    }
  }

  /** Proof step: past its first element, `[x] + a + b` is `a + b` shifted by one. */
  lemma ShiftOne(x: int, a: seq<int>, b: seq<int>)
    ensures forall i :: 1 <= i < |[x] + a + b| ==> ([x] + a + b)[i] == (a + b)[i - 1]
  {
  }

  /** Proof step: before its last element, `a + b + [x]` is `a + b`. */
  lemma DropLast(x: int, a: seq<int>, b: seq<int>)
    ensures forall i :: 0 <= i < |a + b| ==> (a + b + [x])[i] == (a + b)[i]
  {
  }

  // ---- Breadth-first walk -------------------------------------------------

  /** The children the level-order walk enqueues for a node: the present ones, left first. */
  function Children(t: Tree): seq<Tree> {
    match t
    case Leaf => []
    case Node(l, _, r) => (if l.Node? then [l] else []) + (if r.Node? then [r] else [])
  }

  function ForestChildren(f: seq<Tree>): seq<Tree> {
    if |f| == 0 then [] else Children(f[0]) + ForestChildren(f[1..])
  }

  function ForestSize(f: seq<Tree>): nat {
    if |f| == 0 then 0 else Size(f[0]) + ForestSize(f[1..])
  }

  function ForestBag(f: seq<Tree>): multiset<int> {
    if |f| == 0 then multiset{} else Bag(f[0]) + ForestBag(f[1..])
  }

  /** The values `k` edges below the roots of the trees of `f`, tree after tree. */
  function ForestLevel(f: seq<Tree>, k: nat): seq<int> {
    if |f| == 0 then [] else Level(f[0], k) + ForestLevel(f[1..], k)
  }

  /** Levels `lo` up to but excluding `hi` of the forest `f`, shallowest first. */
  function Levels(f: seq<Tree>, lo: nat, hi: nat): seq<int>
    decreases hi - lo
  {
    if hi <= lo then [] else ForestLevel(f, lo) + Levels(f, lo + 1, hi)
  }

  lemma {:induction false} ForestSizeAppend(a: seq<Tree>, b: seq<Tree>)
    ensures ForestSize(a + b) == ForestSize(a) + ForestSize(b)
    decreases |a|
  {
    if |a| == 0 {
      assert a + b == b;
    } else {
      assert (a + b)[0] == a[0];
      assert (a + b)[1..] == a[1..] + b;
      ForestSizeAppend(a[1..], b);
    }
  }

  lemma {:induction false} ForestBagAppend(a: seq<Tree>, b: seq<Tree>)
    ensures ForestBag(a + b) == ForestBag(a) + ForestBag(b)
    decreases |a|
  {
    if |a| == 0 {
      assert a + b == b;
    } else {
      assert (a + b)[0] == a[0];
      assert (a + b)[1..] == a[1..] + b;
      ForestBagAppend(a[1..], b);
    }
  }

  lemma {:induction false} ForestLevelAppend(a: seq<Tree>, b: seq<Tree>, k: nat)
    ensures ForestLevel(a + b, k) == ForestLevel(a, k) + ForestLevel(b, k)
    decreases |a|
  {
    if |a| == 0 {
      assert a + b == b;
    } else {
      assert (a + b)[0] == a[0];
      assert (a + b)[1..] == a[1..] + b;
      ForestLevelAppend(a[1..], b, k);
    }
  }

  lemma SingletonForest(t: Tree, k: nat)
    ensures ForestSize([t]) == Size(t)
    ensures ForestBag([t]) == Bag(t)
    ensures ForestLevel([t], k) == Level(t, k)
  {
    assert [t][1..] == [];
  }

  /** A node's enqueued children hold one node fewer than the node's subtree ... */
  lemma ChildrenSize(t: Tree)
    requires t.Node?
    ensures ForestSize(Children(t)) == Size(t) - 1
  {
    var cl := if t.left.Node? then [t.left] else [];
    var cr := if t.right.Node? then [t.right] else [];
    ForestSizeAppend(cl, cr);
    SingletonForest(t.left, 0);
    SingletonForest(t.right, 0);
  }

  /** ... namely the values of its two subtrees ... */
  lemma ChildrenBag(t: Tree)
    requires t.Node?
    ensures ForestBag(Children(t)) == Bag(t.left) + Bag(t.right)
  {
    var cl := if t.left.Node? then [t.left] else [];
    var cr := if t.right.Node? then [t.right] else [];
    ForestBagAppend(cl, cr);
    SingletonForest(t.left, 0);
    SingletonForest(t.right, 0);
  }

  /** ... with the node's levels shifted up by one. */
  lemma ChildrenLevelOf(t: Tree, k: nat)
    ensures ForestLevel(Children(t), k) == Level(t, k + 1)
  {
    if t.Node? {
      var cl := if t.left.Node? then [t.left] else [];
      var cr := if t.right.Node? then [t.right] else [];
      ForestLevelAppend(cl, cr, k);
      SingletonForest(t.left, k);
      SingletonForest(t.right, k);
    }
  }

  /**
   * The breadth-first walk the source performs with a FIFO queue: take the
   * front tree, visit its root, enqueue its present children at the back.
   */
  function Bfs(q: seq<Tree>): seq<int>
    decreases ForestSize(q), |q|
  {
    if |q| == 0 then []
    else if q[0].Leaf? then Bfs(q[1..])
    else
      QueueShrinks(q);
      [q[0].data] + Bfs(q[1..] + Children(q[0]))
  }

  /** Replacing the front node of a queue by its children leaves one node fewer. */
  lemma QueueShrinks(q: seq<Tree>)
    requires |q| > 0 && q[0].Node?
    ensures ForestSize(q[1..] + Children(q[0])) < ForestSize(q)
  {
    ForestSizeAppend(q[1..], Children(q[0]));
    ChildrenSize(q[0]);
  }

  /** Every node in the queue is visited exactly once. */
  lemma {:induction false} BfsBag(q: seq<Tree>)
    ensures multiset(Bfs(q)) == ForestBag(q)
    decreases ForestSize(q), |q|
  {
    if |q| > 0 {
      if q[0].Leaf? {
        BfsBag(q[1..]);
      } else {
        QueueShrinks(q);
        BfsBag(q[1..] + Children(q[0]));
        ForestBagAppend(q[1..], Children(q[0]));
        ChildrenBag(q[0]);
      }
    }
  }

  /**
   * Walking the queue `a + b` visits the roots of `a`, then continues as a
   * walk of `b` followed by the children of `a`.
   */
  lemma {:induction false} BfsAppend(a: seq<Tree>, b: seq<Tree>)
    ensures Bfs(a + b) == ForestLevel(a, 0) + Bfs(b + ForestChildren(a))
    decreases |a|
  {
    if |a| == 0 {
      assert a + b == b;
      assert b + ForestChildren(a) == b;
    } else if a[0].Leaf? {
      BfsAppend(a[1..], b);
      BfsAppendLeaf(a, b);
    } else {
      BfsAppend(a[1..], b + Children(a[0]));
      BfsAppendNode(a, b);
    }
  }

  /** The step of `BfsAppend` for an absent tree at the front: it is dropped. */
  lemma BfsAppendLeaf(a: seq<Tree>, b: seq<Tree>)
    requires |a| > 0 && a[0].Leaf?
    requires Bfs(a[1..] + b) == ForestLevel(a[1..], 0) + Bfs(b + ForestChildren(a[1..]))
    ensures Bfs(a + b) == ForestLevel(a, 0) + Bfs(b + ForestChildren(a))
  {
    FrontOfAppend(a, b);
    BfsSkip(a + b);
    FrontLeaf(a);
  }

  /** The step of `BfsAppend` for a node at the front: visited, its children queued behind `b`. */
  lemma BfsAppendNode(a: seq<Tree>, b: seq<Tree>)
    requires |a| > 0 && a[0].Node?
    requires Bfs(a[1..] + (b + Children(a[0])))
      == ForestLevel(a[1..], 0) + Bfs((b + Children(a[0])) + ForestChildren(a[1..]))
    ensures Bfs(a + b) == ForestLevel(a, 0) + Bfs(b + ForestChildren(a))
  {
    BfsFrontNode(a, b);
    FrontNode(a, b);
    AppendAssoc([a[0].data], ForestLevel(a[1..], 0), Bfs(b + ForestChildren(a)));
  }

  /**
   * Proof step: regrouping a concatenation, stated over fresh names so the
   * solver does not have to find it among the `Bfs` terms of the caller.
   */
  lemma AppendAssoc(x: seq<int>, y: seq<int>, z: seq<int>)
    ensures x + (y + z) == (x + y) + z
  {
  }

  lemma BfsFrontNode(a: seq<Tree>, b: seq<Tree>)
    requires |a| > 0 && a[0].Node?
    ensures Bfs(a + b) == [a[0].data] + Bfs(a[1..] + (b + Children(a[0])))
  {
    assert (a + b)[0] == a[0] && (a + b)[1..] == a[1..] + b;
    assert (a + b)[1..] + Children(a[0]) == a[1..] + (b + Children(a[0]));
  }

  /** Proof step: the front and the rest of a concatenation, over fresh names. */
  lemma FrontOfAppend(a: seq<Tree>, b: seq<Tree>)
    requires |a| > 0
    ensures |a + b| > 0 && (a + b)[0] == a[0] && (a + b)[1..] == a[1..] + b
  {
  }

  /** Proof step: an absent tree at the front of the queue is dropped without a visit. */
  lemma BfsSkip(q: seq<Tree>)
    requires |q| > 0 && q[0].Leaf?
    ensures Bfs(q) == Bfs(q[1..])
  {
  }

  lemma FrontLeaf(f: seq<Tree>)
    requires |f| > 0 && f[0].Leaf?
    ensures ForestLevel(f, 0) == ForestLevel(f[1..], 0)
    ensures ForestChildren(f) == ForestChildren(f[1..])
  {
    assert Level(f[0], 0) == [] && Children(f[0]) == [];
  }

  lemma FrontNode(f: seq<Tree>, b: seq<Tree>)
    requires |f| > 0 && f[0].Node?
    ensures ForestLevel(f, 0) == [f[0].data] + ForestLevel(f[1..], 0)
    ensures Bfs(b + Children(f[0]) + ForestChildren(f[1..])) == Bfs(b + ForestChildren(f))
  {
    assert b + Children(f[0]) + ForestChildren(f[1..]) == b + ForestChildren(f);
  }

  lemma {:induction false} ChildrenShrink(f: seq<Tree>)
    ensures ForestSize(ForestChildren(f)) + |ForestLevel(f, 0)| == ForestSize(f)
    ensures |ForestLevel(f, 0)| == 0 ==> ForestChildren(f) == []
    decreases |f|
  {
    if |f| > 0 {
      ChildrenShrink(f[1..]);
      ForestSizeAppend(Children(f[0]), ForestChildren(f[1..]));
      if f[0].Node? {
        ChildrenSize(f[0]);
      }
    }
  }

  /** Level `k + 1` of a forest is level `k` of the children it enqueues. */
  lemma {:induction false} ChildrenLevel(f: seq<Tree>, k: nat)
    ensures ForestLevel(ForestChildren(f), k) == ForestLevel(f, k + 1)
    decreases |f|
  {
    if |f| > 0 {
      ChildrenLevel(f[1..], k);
      ForestLevelAppend(Children(f[0]), ForestChildren(f[1..]), k);
      ChildrenLevelOf(f[0], k);
    }
  }

  lemma {:induction false} ChildrenLevels(f: seq<Tree>, lo: nat, hi: nat)
    ensures Levels(ForestChildren(f), lo, hi) == Levels(f, lo + 1, hi + 1)
    decreases hi - lo
  {
    if lo < hi {
      ChildrenLevel(f, lo);
      ChildrenLevels(f, lo + 1, hi);
    }
  }

  lemma {:induction false} LevelsEmpty(f: seq<Tree>, lo: nat, hi: nat)
    requires forall j :: lo <= j < hi ==> ForestLevel(f, j) == []
    ensures Levels(f, lo, hi) == []
    decreases hi - lo
  {
    if lo < hi {
      LevelsEmpty(f, lo + 1, hi);
    }
  }

  /**
   * The FIFO walk visits the forest level by level: all values at depth 0,
   * then all at depth 1, and so on, each level left to right.
   */
  lemma {:induction false} BfsIsLevelByLevel(f: seq<Tree>, m: nat)
    requires forall j :: m <= j ==> ForestLevel(f, j) == []
    ensures Bfs(f) == Levels(f, 0, m)
    decreases ForestSize(f)
  {
    if |ForestLevel(f, 0)| == 0 {
      NoRoots(f, 0);
      forall j: nat | j < m ensures ForestLevel(f, j) == [] {
        NoRoots(f, j);
      }
      LevelsEmpty(f, 0, m);
    } else {
      BfsByGenerations(f);
      ChildrenShrink(f);
      forall j: nat | m - 1 <= j ensures ForestLevel(ForestChildren(f), j) == [] {
        ChildrenLevel(f, j);
      }
      BfsIsLevelByLevel(ForestChildren(f), m - 1);
      ChildrenLevels(f, 0, m - 1);
    }
  }

  /** A queue of absent trees visits nothing and has nothing at any level. */
  lemma {:induction false} NoRoots(f: seq<Tree>, k: nat)
    requires |ForestLevel(f, 0)| == 0
    ensures Bfs(f) == [] && ForestLevel(f, k) == []
    decreases |f|
  {
    if |f| > 0 {
      assert f[0].Leaf?;
      NoRoots(f[1..], k);
    }
  }

  /** The walk visits the roots of the whole queue before any of their children. */
  lemma BfsByGenerations(f: seq<Tree>)
    ensures Bfs(f) == ForestLevel(f, 0) + Bfs(ForestChildren(f))
  {
    BfsAppend(f, []);
    assert f + [] == f;
    assert [] + ForestChildren(f) == ForestChildren(f);
  }

  /** `Bfs` at a node in front: its value first, then the rest with its children queued last. */
  lemma BfsStep(q: seq<Tree>)
    requires |q| > 0 && q[0].Node?
    ensures Bfs(q) == [q[0].data] + Bfs(q[1..] + Children(q[0]))
    ensures ForestSize(q[1..] + Children(q[0])) < ForestSize(q)
  {
    QueueShrinks(q);
  }

  /** The walk from a single root, level by level, visiting each node once. */
  lemma TreeBfs(t: Tree)
    ensures Bfs([t]) == Levels([t], 0, Height(t) + 1)
    ensures multiset(Bfs([t])) == Bag(t)
  {
    forall j: nat | Height(t) + 1 <= j ensures ForestLevel([t], j) == [] {
      SingletonForest(t, j);
      LevelExtent(t, j);
    }
    BfsIsLevelByLevel([t], Height(t) + 1);
    BfsBag([t]);
    SingletonForest(t, 0);
  }

  /**
   * The invariant of `LevelOrder` survives one turn of its loop: what was
   * visited plus what the queue will visit stays the whole walk, and the
   * queue holds fewer nodes.
   */
  lemma QueueTurn(visited: seq<int>, q: seq<Tree>, q': seq<Tree>)
    requires |q| > 0 && q[0].Node?
    requires q' == q[1..] + Children(q[0])
    ensures (visited + [q[0].data]) + Bfs(q') == visited + Bfs(q)
    ensures ForestSize(q') < ForestSize(q)
  {
    BfsStep(q);
    assert visited + ([q[0].data] + Bfs(q')) == (visited + [q[0].data]) + Bfs(q');
  }

  /**
   * Level order of `t`, as the source's `levelOrderForEach`: nothing for an
   * empty tree, otherwise a FIFO queue seeded with the root, each dequeued
   * node visited and its left then right child enqueued when present.
   */
  method LevelOrder(t: Tree) returns (visited: seq<int>)
    ensures visited == Levels([t], 0, Height(t) + 1)
    ensures multiset(visited) == Bag(t)
  {
    visited := [];
    if t.Leaf? {
      TreeBfs(t);
      return;
    }
    var queue := [t];
    while |queue| > 0
      invariant forall i :: 0 <= i < |queue| ==> queue[i].Node?
      invariant visited + Bfs(queue) == Bfs([t])
      decreases ForestSize(queue)
    {
      var node := queue[0];
      ghost var before, seen := queue, visited;
      queue := queue[1..];
      visited := visited + [node.data];
      if node.left.Node? {
        queue := queue + [node.left];
      }
      if node.right.Node? {
        queue := queue + [node.right];
      }
      assert queue == before[1..] + Children(node);
      QueueTurn(seen, before, queue);
    }
    assert visited + [] == visited;
    TreeBfs(t);
  }
}
