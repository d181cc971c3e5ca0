# Binary search tree

A model of `Tree.js`, the binary search tree class of the repository. A
`Tree` is built from an array of integers by removing duplicates, sorting,
and repeatedly making the middle element of a range the root. It supports:

- `insert` and `deleteItem`, with the in-order successor used to delete a
  node with two children
- lookups: `find`, `depth` and `height`
- the four traversals: level order, in-order, pre-order and post-order
- `isBalanced` and `rebalance`

The model is immutable. `Tree` is the datatype `Leaf | Node(left, data,
right)`. `Leaf` stands for the source's `null`. Each mutating operation
returns the new tree instead of rewiring nodes in place.

Modules, following the source's structure:

- `Options` holds `Option<T>`. `Depth` and `HeightOf` give `None` where
  `depth` and `height` return `null`; `Find` returns a `Tree` and gives
  `Leaf` where `find` returns `null`.
- `SortedSeq` holds the orderings of sequences: `Sorted`, `Increasing` and
  `Distinct`.
- `BinaryTree` holds the datatype and the vocabulary the contracts use:
  - `Contents`, `Bag` and `Size`
  - `Bst`, the search-tree ordering
  - `Height`, which counts edges, with an absent subtree counting as 0
    exactly as `#checkBalance` counts it
  - `Balanced`
  - `Level`, the values `k` edges below the root
- `Traversal` holds the walks. Its `Bfs` is the level-order queue written
  as a function, and the method `LevelOrder` runs the same queue in a loop.
- `Lookup` holds `find` and `depth`.
- `Mutation` holds `insert`, `deleteItem` and `#getNextLargestNode`.
- `Build` holds `buildTree`, `#buildTreeRecursive`, deduplication and
  sorting.
- `Balance` holds `height`, `isBalanced`, `#checkBalance` and `rebalance`.
- `Scenarios` holds worked examples on small trees.

### How `height` and `isBalanced` are modelled

`height(value)` finds the node holding `value` and walks that node's
subtree in level order. It counts how often `depth` of the visited value
exceeds the deepest level met so far. `depth` always measures from the root
of the whole tree, whatever subtree is being looked at. So the model
carries the whole tree as a parameter:

- `HeightOf(t, v)` is the count over `Bfs([Find(t, v)])` with depths taken
  in `t`.
- `IsBalancedIn(whole, t)` is `isBalanced` on the subtree `t` of `whole`.

On a search tree, the count equals the subtree's `Height`
(`HeightOfIsHeight`). The check then agrees with `Balanced`, which the
contracts of `IsBalancedIn` and `IsBalanced` state.

An absent child and a `null` height both count as 0, because JavaScript
converts `null` to 0 when comparing or subtracting. So a leaf and a missing
child have the same measured height. As a result, a right-leaning chain of
three nodes passes `isBalanced()` (`ChainOfThreeIsBalanced`). The
repository's comment on `#checkBalance` asks for this convention, so the
model keeps it.

## Model

| member | source | states |
|---|---|---|
| Build.Dedup | Tree.js:12 | the result has no repeated value and holds exactly the values of the input |
| Build.Sort | Tree.js:14 | the result is in ascending order and is a permutation of the input |
| Build.SortDistinctIncreasing | Tree.js:12-14 | after duplicates are gone, sorting gives a strictly ascending sequence |
| Build.BuildRange | Tree.js:20-30 | an empty range gives no subtree; otherwise the subtree has one node per element of the range |
| Build.BuildRangeInOrder | Tree.js:20-30 | the in-order walk of the subtree built from a range is exactly that range of the array |
| Build.BuildRangeEvenSplit | Tree.js:23-27 | choosing the middle element with floor division makes every right subtree the same size as the left one or one node larger |
| Build.EvenSplitShape | Tree.js:23-27 | a tree split that evenly at every node is balanced and has at least 2^height nodes |
| Build.BuildTree | Tree.js:9-17 | the tree is empty exactly for an empty array; it holds exactly the array's values; it is a search tree whose in-order walk strictly ascends; it is balanced and has at least 2^height nodes |
| Build.BuildTreeMinimalHeight | Tree.js:9-30 | no non-empty tree with the same number of nodes is lower than the built tree, so the built tree has minimal height |
| Build.BuildTreeSameValues | Tree.js:9-17 | the built tree depends only on the set of values: arrays with the same values, in any order and with any repetition, give the same tree |
| Traversal.PreOrder | Tree.js:144-150 | the walk visits every node once (same multiset of values) and starts at the root |
| Traversal.InOrder | Tree.js:136-142 | the walk visits every node once (same multiset of values) |
| Traversal.PostOrder | Tree.js:152-158 | the walk visits every node once (same multiset of values) and ends at the root |
| Traversal.InOrderIncreasingIffBst | Tree.js:136-142 | the in-order walk strictly ascends if and only if the tree satisfies the search-tree ordering |
| Traversal.PreOrderLeftFirst | Tree.js:144-150 | on a search tree, every value after the root that is below it comes before every value above it, so the left subtree is walked before the right one |
| Traversal.PostOrderLeftFirst | Tree.js:152-158 | on a search tree, among the values before the root every value below it comes before every value above it, so the left subtree is walked before the right one |
| Traversal.PostOrderIsReversedMirrorPreOrder | Tree.js:144-158 | post-order is the pre-order walk of the mirrored tree, read backwards |
| Traversal.TreeBfs | Tree.js:117-134 | `Bfs`, the FIFO queue walk of lines 125-133 written as a function, visits level 0, then level 1, and so on down to the height when seeded with the root; it visits every node once |
| Traversal.BfsBag | Tree.js:125-133 | the queue walk visits every node of every queued tree exactly once |
| Traversal.LevelOrder | Tree.js:117-134 | the queue loop visits nothing for an empty tree and otherwise the tree's levels in order, every node once |
| Lookup.Find | Tree.js:104-115 | a node returned holds the wanted value and is a subtree of the tree |
| Lookup.FindFindsContents | Tree.js:104-115 | on a search tree, the lookup succeeds if and only if the tree holds the value |
| Lookup.FindSubtree | Tree.js:104-115 | on a search tree, looking up the value of any node returns that very node |
| Lookup.Depth | Tree.js:164-182 | a depth is reported exactly when the descent finds the value, and the value lies on that level |
| Lookup.DepthIsLevel | Tree.js:164-182 | on a search tree, the depth of a value is k if and only if the value lies k edges below the root |
| Lookup.DepthBelow | Tree.js:164-182 | on a search tree, a value k levels below the node holding v has depth k more than v |
| Mutation.Insert | Tree.js:32-55 | the result holds the old values plus the new one and keeps the search-tree ordering; a value already found leaves the tree unchanged, and otherwise one node is added |
| Mutation.InsertIdempotent | Tree.js:41-55 | inserting a value twice gives the same tree as inserting it once |
| Mutation.InsertPresent | Tree.js:41-43 | on a search tree, inserting a value it already holds changes nothing |
| Mutation.Leftmost | Tree.js:95-99 | the loop ends at a node with no left child, inside the subtree; on a search tree its value is the subtree's minimum |
| Mutation.NextLargest | Tree.js:92-102 | there is a successor exactly when there is a right subtree; it has no left child, and on a search tree it is the smallest value of the right subtree and larger than the node's value |
| Mutation.Delete | Tree.js:57-90 | an absent value leaves the tree as it was; no value is added; on a search tree the result is a search tree holding exactly the old values minus the deleted one, with one node fewer |
| Mutation.SuccessorReplaces | Tree.js:79-87 | in the two-children case, copying the successor's value up and deleting it below keeps the ordering and removes exactly the node's value |
| Mutation.DeleteMinimumUnlinksLeftmost | Tree.js:83-87 | deleting the successor from the right subtree only unlinks the leftmost node, so the recursive call ends in the zero-or-one-child case |
| Balance.DepthOrZero | Tree.js:191-197 | the number compared in `nodeDepth > currentDepth` is the level the value lies on when `depth` finds it; in a search tree a value it does not hold compares as 0, JavaScript's value for `null` |
| Balance.Rises | Tree.js:192-205 | the counting loop of `height` steps at most once per visited value; `RisesLevels` and `HeightOfIsHeight` show that over the level-order walk it counts one step per level below the start |
| Balance.HeightOf | Tree.js:184-206 | `null` is returned exactly when the lookup fails |
| Balance.HeightOfIsHeight | Tree.js:184-206 | on a search tree, the count of depth increases along the level-order walk is `null` for an absent value and otherwise the height of the value's node |
| Balance.WalkRises | Tree.js:188-205 | when every value k levels below the start node lies k levels deeper than it, the loop's count over the node's level-order walk, from the node's own depth, is the node's height |
| Balance.ChildHeight | Tree.js:222-223 | an absent child measures 0; in a search tree, a child's measured height `height(child.data)` is its height |
| Balance.CheckBalance | Tree.js:220-227 | for two subtrees of a search tree, the check passes exactly when their heights differ by at most one |
| Balance.IsBalancedIn | Tree.js:208-218 | on a subtree of a search tree, checking every node holds exactly when the subtree is balanced, in both directions |
| Balance.IsBalanced | Tree.js:208-218 | on a search tree, `isBalanced()` is true exactly when the tree is balanced |
| Balance.BuildTreeIsBalanced | Tree.js:9-30 | every tree fresh from `buildTree` passes `isBalanced()` |
| Balance.Rebalance | Tree.js:229-235 | the rebuilt tree holds the same values, is a balanced search tree passing `isBalanced()`, has minimal height (at least 2^height nodes), and on a search tree keeps the in-order walk |
| Balance.RebalanceIdempotent | Tree.js:229-235 | rebalancing twice gives the same tree as rebalancing once |
| Balance.ChainOfThreeIsBalanced | Tree.js:220-227 | a chain of three nodes hanging to one side, height 2, passes `isBalanced()`, because an absent child counts as height 0 |
| Scenarios.BuildExample | Tree.js:9-30 | `buildTree([5, 3, 8, 3, 1])` drops the second 3, sorts to 1, 3, 5, 8 and builds root 3 with 1 on the left and 5, then 8, on the right |
| Scenarios.SortExample | Tree.js:14 | the de-duplicated values 5, 3, 8, 1 sort to 1, 3, 5, 8 |
| Scenarios.DedupExample | Tree.js:12 | removing duplicates from 5, 3, 8, 3, 1 keeps the first 3 and the order: 5, 3, 8, 1 |
| Scenarios.BuildRangeExample | Tree.js:20-30 | building from the sorted values 1, 3, 5, 8 makes 3 the root, with 1 on the left and 5, then 8, on the right |
| Scenarios.LevelOrderExample | Tree.js:117-134 | the level-order queue walk of the tree with values 1, 3, 5, 8 built above visits 3, then 1 and 5, then 8 |
| Scenarios.DeleteExample | Tree.js:79-87 | deleting the root of the tree with values 1, 3, 5, 8 moves 5 into its place |
| Scenarios.MeasureExample | Tree.js:164-206 | in that tree, 8 has depth 2, the root has height 2, and an absent value has neither |

## Left out

- The callbacks of the four `*ForEach` traversals. Each traversal returns the sequence of visited values instead. Nothing is said about what a callback does.
- `#checkCallback` (Tree.js:160-162), the error thrown when a traversal is called without a callback. There are no callbacks to miss.
- The depth-first traversals on an empty tree. The source reads `node.left` of `null` and throws. The model returns the empty sequence.
- `Rebalance` on an empty tree. The source throws through `preOrderForEach`, while the model gives the empty tree.
- The optional starting-node parameter of the traversals and `isBalanced`. `IsBalancedIn` covers a subtree. The traversals are functions of any tree, so a subtree is just another argument.
- The unused `root` parameter of `depth`. The source always measures from `this.root`, and so does the model.
- The constructor's `if (!arr) this.root = null;` line. It is immediately overwritten by the build. `BuildTree` of an empty sequence gives the empty tree. `undefined` input is not modelled.
- Values other than integers: JavaScript's `Set` equality and `sort` comparator on `NaN`, strings or fractions. The model's values are mathematical integers.
- Build.Sort: `Array.prototype.sort` is a library call. It is modelled by its result (ascending, a permutation) through insertion sort, not its algorithm.
- In-place mutation, object identity of nodes and the running cost of `height`, which calls `depth` once per visited node.
- `driver.js`, `printElementOrders.js` and `randomIntArray.js`, the demonstration script and its helpers. They do I/O and randomness and are not part of this model.
