/** Worked examples on small concrete trees. */
module Scenarios {
  import opened Options
  import opened BinaryTree
  import opened Traversal
  import opened Lookup
  import opened Mutation
  import opened Build
  import opened Balance

  /** `buildTree([5, 3, 8, 3, 1])`: duplicates go, the rest is sorted and split at the middle. */
  lemma BuildExample()
    ensures BuildTree([5, 3, 8, 3, 1]) == Node(Node(Leaf, 1, Leaf), 3, Node(Leaf, 5, Node(Leaf, 8, Leaf)))
  {
    DedupExample();
    SortExample();
    BuildRangeExample();
  }

  /** The values left after removing duplicates, sorted ascending. */
  lemma SortExample()
    ensures Sort([5, 3, 8, 1]) == [1, 3, 5, 8]
  {
    SortTriple();
    assert [5, 3, 8, 1][..3] == [5, 3, 8];
    InsertAtFront();
  }

  lemma SortPair()
    ensures Sort([5, 3]) == [3, 5]
  {
    assert [5, 3][..1] == [5];
    assert [5][..0] == [];
    assert Sort([5]) == [5];
    assert InsertSorted([5], 3) == [3, 5];
  }

  lemma SortTriple()
    ensures Sort([5, 3, 8]) == [3, 5, 8]
  {
    SortPair();
    assert [5, 3, 8][..2] == [5, 3];
    InsertAtEnd();
  }

  /** A value larger than all others goes to the back. */
  lemma InsertAtEnd()
    ensures InsertSorted([3, 5], 8) == [3, 5, 8]
  {
    assert [3, 5][1..] == [5];
    assert [5][1..] == [];
    assert InsertSorted([5], 8) == [5, 8];
  }

  /** A value no larger than the first goes to the front. */
  lemma InsertAtFront()
    ensures InsertSorted([3, 5, 8], 1) == [1, 3, 5, 8]
  {
  }

  /** Only the first occurrence of each value is kept, in order. */
  lemma DedupExample()
    ensures Dedup([5, 3, 8, 3, 1]) == [5, 3, 8, 1]
  {
    DedupRepeat();
    assert [5, 3, 8, 3, 1][..4] == [5, 3, 8, 3];
  }

  /** A repeated 3 is dropped. */
  lemma DedupRepeat()
    ensures Dedup([5, 3, 8, 3]) == [5, 3, 8]
  {
    DedupDistinct();
    assert [5, 3, 8, 3][..3] == [5, 3, 8];
  }

  /** Distinct values are all kept. */
  lemma DedupDistinct()
    ensures Dedup([5, 3, 8]) == [5, 3, 8]
  {
    assert [5, 3, 8][..2] == [5, 3];
    assert [5, 3][..1] == [5];
    assert Dedup([5]) == [5];
    assert Dedup([5, 3]) == [5, 3];
  }

  /**
   * The sorted values 1, 3, 5, 8 are split at index `floor((0 + 3) / 2) = 1`:
   * 3 becomes the root, 1 its left child and 5 its right child, with 8 below 5.
   */
  lemma BuildRangeExample()
    ensures BuildRange([1, 3, 5, 8], 0, 3) == Node(Node(Leaf, 1, Leaf), 3, Node(Leaf, 5, Node(Leaf, 8, Leaf)))
  {
  }

  /** The level-order queue walk of the example tree visits 3, then 1 and 5, then 8. */
  lemma LevelOrderExample()
    ensures Bfs([Node(Node(Leaf, 1, Leaf), 3, Node(Leaf, 5, Node(Leaf, 8, Leaf)))]) == [3, 1, 5, 8]
  {
    var t := Node(Node(Leaf, 1, Leaf), 3, Node(Leaf, 5, Node(Leaf, 8, Leaf)));
    TreeBfs(t);
    assert Height(t) == 2;
    assert ForestLevel([t], 0) == [3];
    assert ForestLevel([t], 1) == [1, 5];
    assert ForestLevel([t], 2) == [8];
  }

  /** Deleting a value with two children moves the next larger value into its place. */
  lemma DeleteExample()
    ensures Delete(Node(Node(Leaf, 1, Leaf), 3, Node(Leaf, 5, Node(Leaf, 8, Leaf))), 3)
      == Node(Node(Leaf, 1, Leaf), 5, Node(Leaf, 8, Leaf))
  {
  }

  /** Depth and height of values in the example tree; absent values give `None`. */
  lemma MeasureExample()
    ensures Depth(Node(Node(Leaf, 1, Leaf), 3, Node(Leaf, 5, Node(Leaf, 8, Leaf))), 8) == Some(2)
    ensures Depth(Node(Node(Leaf, 1, Leaf), 3, Node(Leaf, 5, Node(Leaf, 8, Leaf))), 4) == None
    ensures HeightOf(Node(Node(Leaf, 1, Leaf), 3, Node(Leaf, 5, Node(Leaf, 8, Leaf))), 3) == Some(2)
    ensures HeightOf(Node(Node(Leaf, 1, Leaf), 3, Node(Leaf, 5, Node(Leaf, 8, Leaf))), 4) == None
  {
    var t := Node(Node(Leaf, 1, Leaf), 3, Node(Leaf, 5, Node(Leaf, 8, Leaf)));
    assert Bst(t);
    HeightOfIsHeight(t, 3);
    HeightOfIsHeight(t, 4);
  }
}
