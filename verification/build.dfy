/**
 * `buildTree`: drop duplicate values, sort ascending, and build a tree of
 * minimal height by making the middle element of each sorted range the root
 * of that range's subtree.
 */
module Build {
  import opened BinaryTree
  import opened SortedSeq
  import opened Traversal

  /** `[...new Set(array)]`: each value once, at the position of its first occurrence. */
  function Dedup(a: seq<int>): (r: seq<int>)
    ensures Distinct(r)
    ensures forall x :: x in r <==> x in a
  {
    if |a| == 0 then []
    else
      var d := Dedup(a[..|a| - 1]);
      var x := a[|a| - 1];
      assert a == a[..|a| - 1] + [x];
      if x in d then d else d + [x]
  }

  function InsertSorted(s: seq<int>, x: int): (r: seq<int>)
    requires Sorted(s)
    ensures Sorted(r)
    ensures multiset(r) == multiset(s) + multiset{x}
  {
    if |s| == 0 then [x]
    else if x <= s[0] then
      SortedCons(x, s);
      [x] + s
    else
      assert s == [s[0]] + s[1..];
      var rest := InsertSorted(s[1..], x);
      InsertSortedBound(s, x, rest);
      [s[0]] + rest
  }

  /** Every element of `rest`, the insertion into `s[1..]`, is at least `s[0]`. */
  lemma InsertSortedBound(s: seq<int>, x: int, rest: seq<int>)
    requires Sorted(s) && |s| > 0 && s[0] < x
    requires Sorted(rest) && multiset(rest) == multiset(s[1..]) + multiset{x}
    ensures Sorted([s[0]] + rest)
  {
    forall y | y in rest ensures s[0] <= y {
      assert y in multiset(rest);
      if y != x {
        assert y in multiset(s[1..]);
        assert y in s[1..];
      }
    }
    SortedCons(s[0], rest);
  }

  /** `array.sort((a, b) => a - b)`: the values in ascending numeric order. */
  function Sort(a: seq<int>): (r: seq<int>)
    ensures Sorted(r)
    ensures multiset(r) == multiset(a)
  {
    if |a| == 0 then []
    else
      assert a == a[..|a| - 1] + [a[|a| - 1]];
      InsertSorted(Sort(a[..|a| - 1]), a[|a| - 1])
  }

  lemma {:induction false} InsertSortedIncreasing(s: seq<int>, x: int)
    requires Increasing(s) && x !in s
    ensures Increasing(InsertSorted(s, x))
    decreases |s|
  {
    if |s| > 0 {
      if x < s[0] {
        IncreasingCons(x, s);
      } else {
        assert s == [s[0]] + s[1..];
        InsertSortedIncreasing(s[1..], x);
        InsertSortedAbove(s, x, InsertSorted(s[1..], x));
      }
    }
  }

  lemma InsertSortedAbove(s: seq<int>, x: int, rest: seq<int>)
    requires Increasing(s) && |s| > 0 && s[0] < x
    requires Increasing(rest) && multiset(rest) == multiset(s[1..]) + multiset{x}
    ensures Increasing([s[0]] + rest)
  {
    forall y | y in rest ensures s[0] < y {
      assert y in multiset(rest);
      if y != x {
        assert y in multiset(s[1..]);
        assert y in s[1..];
      }
    }
    IncreasingCons(s[0], rest);
  }

  /** Sorting a sequence without repeated values gives a strictly ascending one. */
  lemma {:induction false} SortDistinctIncreasing(a: seq<int>)
    requires Distinct(a)
    ensures Increasing(Sort(a))
    decreases |a|
  {
    if |a| > 0 {
      var init, x := a[..|a| - 1], a[|a| - 1];
      SortDistinctIncreasing(init);
      assert x !in init;
      assert x !in Sort(init) by {
        assert x !in multiset(Sort(init));
      }
      InsertSortedIncreasing(Sort(init), x);
    }
  }

  /**
   * `#buildTreeRecursive(array, start, end)`: `Leaf` for an empty range,
   * otherwise the element at `floor((start + end) / 2)` with subtrees built
   * from the elements before and after it.
   */
  function BuildRange(s: seq<int>, lo: int, hi: int): (r: Tree)
    requires 0 <= lo <= hi + 1 <= |s|
    ensures r.Leaf? <==> hi < lo
    ensures Size(r) == hi - lo + 1
    decreases hi - lo + 1
  {
    if lo > hi then Leaf
    else
      // Dafny's division rounds down for a positive divisor, as Math.floor does
      var mid := (lo + hi) / 2;
      MiddleSplit(lo, hi, (lo + hi) / 2);
      Node(BuildRange(s, lo, mid - 1), s[mid], BuildRange(s, mid + 1, hi))
  }

  /** One unfolding of `BuildRange` on a non-empty range. */
  lemma BuildRangeUnfold(s: seq<int>, lo: int, hi: int, mid: int)
    requires 0 <= lo <= hi < |s| && mid == (lo + hi) / 2
    ensures lo <= mid <= hi
    ensures BuildRange(s, lo, hi) == Node(BuildRange(s, lo, mid - 1), s[mid], BuildRange(s, mid + 1, hi))
  {
    MiddleSplit(lo, hi, mid);
  }

  /** The in-order walk of the subtree built from a range is that range, in order. */
  lemma {:induction false} BuildRangeInOrder(s: seq<int>, lo: int, hi: int)
    requires 0 <= lo <= hi + 1 <= |s|
    ensures InOrder(BuildRange(s, lo, hi)) == s[lo..hi + 1]
    decreases hi - lo + 1
  {
    if lo <= hi {
      var mid := (lo + hi) / 2;
      BuildRangeUnfold(s, lo, hi, mid);
      BuildRangeInOrder(s, lo, mid - 1);
      BuildRangeInOrder(s, mid + 1, hi);
      InOrderJoin(s, lo, hi, mid);
    } else {
      InOrderEmptyRange(s, lo, hi);
    }
  }

  /**
   * Proof step: the empty range, kept apart so its slice is not unfolded in
   * the inductive step's context.
   */
  lemma InOrderEmptyRange(s: seq<int>, lo: int, hi: int)
    requires 0 <= lo == hi + 1 <= |s|
    ensures InOrder(BuildRange(s, lo, hi)) == s[lo..hi + 1]
  {
  }

  /** The in-order walk of a built node joins the slices its two subtrees were built from. */
  lemma InOrderJoin(s: seq<int>, lo: int, hi: int, mid: int)
    requires 0 <= lo <= mid <= hi < |s|
    requires BuildRange(s, lo, hi) == Node(BuildRange(s, lo, mid - 1), s[mid], BuildRange(s, mid + 1, hi))
    requires InOrder(BuildRange(s, lo, mid - 1)) == s[lo..mid - 1 + 1]
    requires InOrder(BuildRange(s, mid + 1, hi)) == s[mid + 1..hi + 1]
    ensures InOrder(BuildRange(s, lo, hi)) == s[lo..hi + 1]
  {
    assert mid - 1 + 1 == mid;
    JoinSlices(s, lo, mid, hi + 1, InOrder(BuildRange(s, lo, mid - 1)), InOrder(BuildRange(s, mid + 1, hi)));
  }

  /**
   * Proof step: joining the slices before and after `mid` around `s[mid]`,
   * stated over fresh names so the solver meets no tree terms.
   */
  lemma JoinSlices(s: seq<int>, lo: int, mid: int, hi: int, a: seq<int>, b: seq<int>)
    requires 0 <= lo <= mid < hi <= |s|
    requires a == s[lo..mid] && b == s[mid + 1..hi]
    ensures a + [s[mid]] + b == s[lo..hi]
  {
  }

  function Pow2(k: nat): (p: nat)
    ensures p >= 1
  {
    if k == 0 then 1 else 2 * Pow2(k - 1)
  }

  lemma {:induction false} Pow2Monotone(i: nat, j: nat)
    requires i < j
    ensures 2 * Pow2(i) <= Pow2(j)
    decreases j
  {
    if i + 1 < j {
      Pow2Monotone(i, j - 1);
    }
  }

  /** Powers of two compare as their exponents do. */
  lemma Pow2Order(i: nat, j: nat)
    ensures Pow2(i) <= Pow2(j) <==> i <= j
    ensures Pow2(i) < Pow2(j) <==> i < j
  {
    if i < j {
      Pow2Monotone(i, j);
    } else if j < i {
      Pow2Monotone(j, i);
    }
  }

  /** A node of height `h` heads at most `2^(h+1) - 1` nodes. */
  lemma {:induction false} SizeBelowPow2(t: Tree)
    requires t.Node?
    ensures Size(t) < 2 * Pow2(Height(t))
    decreases t, 0
  {
    var l, r := t.left, t.right;
    if l.Node? || r.Node? {
      var h := Height(t);
      assert h == 1 + Max(Height(l), Height(r));
      ChildBelowPow2(l, h);
      ChildBelowPow2(r, h);
    }
  }

  lemma {:induction false} ChildBelowPow2(c: Tree, h: nat)
    requires c.Leaf? || Height(c) < h
    ensures Size(c) < Pow2(h)
    decreases c, 1
  {
    if c.Node? {
      SizeBelowPow2(c);
      Pow2Order(Height(c) + 1, h);
      assert Pow2(Height(c) + 1) == 2 * Pow2(Height(c));
    }
  }

  /**
   * Every node's right subtree has as many nodes as its left one, or one
   * more: the shape that splitting each range at its middle produces.
   */
  predicate EvenSplit(t: Tree) {
    match t
    case Leaf => true
    case Node(l, _, r) =>
      && EvenSplit(l) && EvenSplit(r)
      && (Size(r) == Size(l) || Size(r) == Size(l) + 1)
  }

  /**
   * Splitting at `floor((start + end) / 2)` leaves `floor((n - 1) / 2)`
   * elements on the left and `floor(n / 2)` on the right.
   */
  lemma {:induction false} BuildRangeEvenSplit(s: seq<int>, lo: int, hi: int)
    requires 0 <= lo <= hi + 1 <= |s|
    ensures EvenSplit(BuildRange(s, lo, hi))
    decreases hi - lo + 1
  {
    if lo <= hi {
      var mid := (lo + hi) / 2;
      BuildRangeUnfold(s, lo, hi, mid);
      MiddleSplit(lo, hi, mid);
      BuildRangeEvenSplit(s, lo, mid - 1);
      BuildRangeEvenSplit(s, mid + 1, hi);
    }
  }

  /** The middle index leaves `floor((n - 1) / 2)` elements before it and `floor(n / 2)` after. */
  lemma MiddleSplit(lo: int, hi: int, mid: int)
    requires lo <= hi && mid == (lo + hi) / 2
    ensures lo <= mid <= hi
    ensures hi - mid == mid - lo || hi - mid == mid - lo + 1
  {
  }

  /**
   * A tree split evenly at every node is as low as a tree with its number
   * of nodes can be: `2^height <= n`, the other half of the bound
   * `SizeBelowPow2` gives every tree. Its subtrees' heights differ by at
   * most one everywhere.
   */
  lemma {:induction false} EvenSplitShape(t: Tree)
    requires EvenSplit(t) && t.Node?
    ensures Pow2(Height(t)) <= Size(t)
    ensures Balanced(t)
  {
    var l, r := t.left, t.right;
    if r.Node? {
      EvenSplitShape(r);
      if l.Node? {
        EvenSplitShape(l);
      }
      HeightsClose(l, r, Size(l), Size(r));
      var hr := Height(r);
      assert Height(t) == 1 + Max(Height(l), hr);
      assert Pow2(1 + hr) == 2 * Pow2(hr);
    }
  }

  /** Subtrees of `a` and `b` nodes built as low as possible differ in height by at most one. */
  lemma HeightsClose(l: Tree, r: Tree, a: nat, b: nat)
    requires b == a || b == a + 1
    requires Size(l) == a && Size(r) == b && b > 0
    requires l.Leaf? <==> a == 0
    requires r.Node?
    requires a > 0 ==> Pow2(Height(l)) <= a
    requires Pow2(Height(r)) <= b
    ensures Height(l) <= Height(r) <= Height(l) + 1
  {
    SizeBelowPow2(r);
    if a > 0 {
      SizeBelowPow2(l);
      ExponentsClose(Height(l), Height(r), a, b);
    } else {
      Pow2Order(Height(r), 0);
    }
  }

  lemma ExponentsClose(i: nat, j: nat, a: nat, b: nat)
    requires b == a || b == a + 1
    requires Pow2(i) <= a < 2 * Pow2(i)
    requires Pow2(j) <= b < 2 * Pow2(j)
    ensures i <= j <= i + 1
  {
    Pow2Order(i, j + 1);
    Pow2Order(j, i + 1);
    assert Pow2(i + 1) == 2 * Pow2(i);
    assert Pow2(j + 1) == 2 * Pow2(j);
  }

  /**
   * `buildTree`: the tree holds exactly the values of `a`, its in-order walk
   * lists them strictly ascending, it is a search tree, it is balanced, and
   * its height is `floor(log2(n))` for its `n` nodes, the least any tree
   * with that many nodes can have (`BuildTreeMinimalHeight`). An empty input
   * gives an empty tree.
   */
  function BuildTree(a: seq<int>): (r: Tree)
    ensures r.Leaf? <==> |a| == 0
    ensures forall x :: x in Contents(r) <==> x in a
    ensures Increasing(InOrder(r)) && Bst(r)
    ensures Balanced(r)
    ensures r.Node? ==> Pow2(Height(r)) <= Size(r)
  {
    var s := Sort(Dedup(a));
    var t := BuildRange(s, 0, |s| - 1);
    SortedValues(a);
    BuiltInOrder(s, t);
    BuiltSearchTree(s, t);
    BuiltShape(s, t);
    t
  }

  /** What `buildTree` sorts: the distinct values of `a`, strictly ascending. */
  lemma SortedValues(a: seq<int>)
    ensures Increasing(Sort(Dedup(a)))
    ensures forall x :: x in Sort(Dedup(a)) <==> x in a
    ensures |Sort(Dedup(a))| == 0 <==> |a| == 0
  {
    var d := Dedup(a);
    var s := Sort(d);
    SortDistinctIncreasing(d);
    forall x ensures x in s <==> x in a {
      assert x in s <==> x in multiset(s);
      assert x in d <==> x in multiset(d);
    }
    if |a| > 0 {
      assert a[0] in s;
    }
  }

  lemma BuiltInOrder(s: seq<int>, t: Tree)
    requires t == BuildRange(s, 0, |s| - 1)
    ensures InOrder(t) == s
  {
    var hi := |s| - 1;
    BuildRangeInOrder(s, 0, hi);
    assert hi + 1 == |s|;
    assert s[0..hi + 1] == s;
  }

  /** A tree whose in-order walk is strictly ascending is a search tree holding that walk's values. */
  lemma BuiltSearchTree(s: seq<int>, t: Tree)
    requires Increasing(s) && InOrder(t) == s
    ensures Bst(t)
    ensures forall x :: x in Contents(t) <==> x in s
  {
    InOrderIncreasingIffBst(t);
    forall x ensures x in Contents(t) <==> x in s {
      InOrderContents(t, x);
    }
  }

  lemma BuiltShape(s: seq<int>, t: Tree)
    requires t == BuildRange(s, 0, |s| - 1)
    ensures t.Leaf? <==> |s| == 0
    ensures Balanced(t)
    ensures t.Node? ==> Pow2(Height(t)) <= Size(t)
  {
    BuildRangeEvenSplit(s, 0, |s| - 1);
    if |s| > 0 {
      EvenSplitShape(t);
    }
  }

  /** No tree with as many nodes as `BuildTree(a)` is lower. */
  lemma BuildTreeMinimalHeight(a: seq<int>, u: Tree)
    requires u.Node? && Size(u) == Size(BuildTree(a))
    ensures Height(BuildTree(a)) <= Height(u)
  {
    var t := BuildTree(a);
    assert Size(u) > 0;
    assert t.Node?;
    LowestAmong(t, u);
  }

  /** A tree with `2^height <= n` is no higher than any other tree with `n` nodes. */
  lemma LowestAmong(t: Tree, u: Tree)
    requires t.Node? && Pow2(Height(t)) <= Size(t)
    requires u.Node? && Size(u) == Size(t)
    ensures Height(t) <= Height(u)
  {
    SizeBelowPow2(u);
    ExponentBelow(Height(t), Height(u), Size(t));
  }

  lemma ExponentBelow(i: nat, j: nat, n: nat)
    requires Pow2(i) <= n < 2 * Pow2(j)
    ensures i <= j
  {
    Pow2Order(i, j + 1);
    assert Pow2(j + 1) == 2 * Pow2(j);
  }

  /**
   * The tree `buildTree` makes depends only on which values the input
   * holds, not on their order or how often they repeat.
   */
  lemma BuildTreeSameValues(a: seq<int>, b: seq<int>)
    requires forall x :: x in a <==> x in b
    ensures BuildTree(a) == BuildTree(b)
  {
    SameSorted(a, b);
    var s := Sort(Dedup(a));
    assert BuildTree(a) == BuildRange(s, 0, |s| - 1);
  }

  lemma SameSorted(a: seq<int>, b: seq<int>)
    requires forall x :: x in a <==> x in b
    ensures Sort(Dedup(a)) == Sort(Dedup(b))
  {
    SortedValues(a);
    SortedValues(b);
    IncreasingUnique(Sort(Dedup(a)), Sort(Dedup(b)));
  }
}
