# Binary-tree generators, one-pass two-sum and memoized factorials

This project models four small algorithms from a set of Python lab exercises, and proves what each one computes.

- **Iterative tree generator** (`LAB4/bin_tree.py`, `gen_bin_tree`): builds a binary tree breadth-first.
  - The root is a dictionary node. A FIFO queue holds nodes that are already linked into the tree but have no children yet.
  - The outer loop runs `height` times. Each round takes every queued node and gives it a left child `left_branch(value)` and a right child `right_branch(value)`. Both children join the back of the queue.
  - A negative height gives `None`, and height 0 gives the bare root value.
- **Recursive tree generator** (`LAB3/bin_tree.py`, `gen_bin_tree`): the pure recursive version with the fixed branches `x + 2` and `x * 3`.
- **Two-sum** (`LAB2/sum_of_two.py`, `sum_of_two`): one scan that keeps a dictionary from each value seen to its last position. It returns the first completing pair of positions, or `[]`.
- **Factorials** (`LAB5/main.py`): a recursive and an iterative factorial, a `memoize` decorator that keeps a dictionary cache, and the two factorials wrapped by it.

## How the code is represented

- **Trees** (`Trees.dfy`) holds the shared `Tree` datatype (`Nil` is an absent child) and the reference tree `Complete(d, v, lb, rb)`.
  - `Complete` is the tree of depth `d` whose root holds `v` and whose every child holds its side's branch function applied to its parent's value.
  - Both generators are proved equal to it. Its shape (node count, leaf count, levels, width per depth) is proved once, here.
- **RecursiveTree** (`RecursiveTree.dfy`) is the LAB3 function written as a Dafny function.
- **IterativeTree** (`IterativeTree.dfy`) is the LAB4 function written as imperative code over the class `Arena`.
  - The arena stores every node allocated by one call: node `i` has a value and two child links, held in three sequences that the methods reassign.
  - `{"value": v, "left": None, "right": None}` is `NewNode`, and `node["left"] = child` is `SetLeft`. The deque is a sequence of node indices.
  - The queue releases nodes in creation order, so the `k`-th node taken is node `k`, and its children become nodes `2k + 1` and `2k + 2`.
  - The loop invariants say three things: after `e` nodes have been taken, there are `2e + 1` nodes; the queue holds nodes `e … 2e`, which form exactly the current depth; and every node before `e` has both children.
  - The generator is proved to leave in the arena the reference tree of depth `height`.
  - The inner loop body is the method `ExpandNode`, and one outer-loop round is the method `ExpandLevel`, so that each method's proof stays small.
  - The result `None | root value | dict` is the datatype `Generated`.
- **SumOfTwo** (`SumOfTwo.dfy`) is the LAB2 method with a `map` for `seen` and an early return.
  - Its contract is the predicate `Answer`. It describes the result returned for a pair and says `[]` is returned exactly when no pair exists.
  - `AnswerUnique` shows that `Answer` admits only one result.
- **Factorial** (`Factorial.dfy`) holds the LAB5 functions.
  - `memoize` is the class `Memoize`. Its `cache` field is a `map`, and the memoized function is a ghost constant, known only to the proof.
  - The class invariant `Sound` says every entry holds `func` of its key.
  - Dafny cannot pass a method as a value, so the wrapper logic is written out in each memoized method: return the cached value if there is one, otherwise compute and `Put`.
  - `fact_recursive_memo` is two mutually recursive methods: the wrapper, and the undecorated body whose recursive call goes back through the wrapper, as in the source.
  - `fact_iterative_memo` has the same loop as `fact_iterative`, so its body calls `FactIterative`.

Python integers are unbounded, and so are Dafny's `int`, so no wrap-around is involved.

### Height semantics follow the code

The tests `LAB4/unit_test.py:19-27` expect `None` for height 0 and a single node for height 1. The docstring (`LAB4/bin_tree.py:30-31`) and the code say otherwise, and the model follows the code:

| height | result |
|---|---|
| below 0 | `None` |
| 0 | the bare root value |
| `H >= 1` | a tree of depth `H` (`H + 1` levels and `2^(H+1) - 1` nodes) |

`UnitHeightExample` and `ZeroHeightExample` state what the code returns for the two test inputs.

## Model

| member | source | states |
|---|---|---|
| Trees.CompleteCharacterized | LAB4/bin_tree.py:56-63 | a tree is the reference tree of depth d with root v if and only if it is a node holding v, has both children above depth d and none at depth d, and every left (right) child holds the left (right) branch function of its parent's value |
| Trees.CompleteShape | LAB4/bin_tree.py:47-68 | the reference tree of depth d has 2^(d+1) - 1 nodes, 2^d leaves, d + 1 levels, 2^k nodes at each depth k <= d and none deeper |
| Trees.CompleteIsPerfect | LAB4/bin_tree.py:56-63 | the reference tree is perfect of depth d and every child follows the branch function of its side |
| RecursiveTree.GenBinTree | LAB3/bin_tree.py:6-14 | always returns a node (never None) holding `root`; terminates because the height decreases at each recursive call |
| RecursiveTree.GenIsComplete | LAB3/bin_tree.py:6-14 | the result is the reference tree of depth max(height - 1, 0) for the branches x + 2 and x * 3 |
| RecursiveTree.GenShape | LAB3/bin_tree.py:7-14 | for height h >= 1: h levels, both children at every node above the last level, none on it, 2^h - 1 nodes and 2^(h-1) leaves; for every height up to 1, zero and negatives included, the single leaf holding root |
| RecursiveTree.OuterLeaves | LAB3/bin_tree.py:12-13 | the leftmost leaf is root + 2(h - 1) and the rightmost leaf is root * 3^(h - 1) (with h - 1 read as 0 for h <= 1) |
| IterativeTree.Arena.constructor | LAB4/bin_tree.py:39-45 | a call starts from an empty set of nodes whose links are valid |
| IterativeTree.Arena.NewNode | LAB4/bin_tree.py:59-60 | allocates a childless node holding v at the next index; nothing else changes and the links stay valid |
| IterativeTree.Arena.SetLeft | LAB4/bin_tree.py:62 | only the left link of `node` changes, to `child` |
| IterativeTree.Arena.SetRight | LAB4/bin_tree.py:63 | only the right link of `node` changes, to `child` |
| IterativeTree.GenBinTree | LAB4/bin_tree.py:34-70 | negative height gives None, height 0 the bare root value; for height H >= 1 a freshly allocated arena of 2^(H+1) - 1 nodes whose root node holds the reference tree of depth H for the given branch functions |
| IterativeTree.ExpandLevel | LAB4/bin_tree.py:48-66 | one outer round takes the queued nodes e..2e, expands each, and leaves the queue holding exactly their children 2e+1..4e+2 in order; the `height == 0` branch is never taken since the decremented height stays >= 1 |
| IterativeTree.ExpandNode | LAB4/bin_tree.py:56-66 | the taken node gets two new children at indices 2e+1 and 2e+2 holding left_branch and right_branch of its value; the arena changes in exactly these three places |
| IterativeTree.ExpandStep | LAB4/bin_tree.py:56-66 | expanding node e of a state with e expanded nodes gives a state with e + 1 expanded nodes |
| IterativeTree.LevelQueue | LAB4/bin_tree.py:47-51 | at the top of outer round k the queued nodes e..2e, with e = 2^k - 1, are exactly the nodes at depth k |
| IterativeTree.DepthRange | LAB4/bin_tree.py:47-66 | a node is at depth k exactly when its creation index lies in [2^k - 1, 2^(k+1) - 1) |
| IterativeTree.ChildDepth | LAB4/bin_tree.py:56-66 | after e expansions both children of an expanded node i lie at depth NodeDepth(i) + 1, so the index depth used by the queue invariant is the depth in the tree |
| IterativeTree.ExpandedHeapTree | LAB4/bin_tree.py:51-66 | after e expansions the links describe the tree in which node i has children 2i+1 and 2i+2 for i < e and none otherwise, each child holding its branch function of its parent's value |
| IterativeTree.LevelBounds | LAB4/bin_tree.py:47-68 | after 2^H - 1 expansions, a node at depth d < H is expanded and its children are at depth d + 1, and a node at depth H is not |
| IterativeTree.HeapTreeComplete | LAB4/bin_tree.py:47-68 | in that tree, with 2^H - 1 expansions, a node at depth d roots the reference tree of depth H - d |
| IterativeTree.ExpandedIsComplete | LAB4/bin_tree.py:47-70 | after H rounds the root node holds the reference tree of depth H |
| IterativeTree.GenerateTwice | LAB4/unit_test.py:42-47 | two calls with the same arguments return the same kind of result, and for height >= 1 two distinct arenas holding equal trees |
| IterativeTree.DefaultsMatchRecursive | LAB4/bin_tree.py:47-68 | with the default branches and height H >= 1 the iterative tree equals the recursive generator's tree for height H + 1 |
| IterativeTree.UnitHeightExample | LAB4/unit_test.py:19-22 | for height 1 and root 10 the code returns 10 with the leaf children 12 and 30, not the single leaf the test expects |
| IterativeTree.ZeroHeightExample | LAB4/unit_test.py:24-27 | for height 0 and root 10 the code returns the bare value 10, not the None the test expects |
| IterativeTree.LeafValuesExample | LAB4/unit_test.py:29-33 | for height 2 and root 3 the children hold 5 and 9 |
| SumOfTwo.SumOfTwo | LAB2/sum_of_two.py:1-8 | the result is [] exactly when no two distinct positions sum to target; otherwise it is [i, j] with i < j, nums[i] + nums[j] == target, j the first position that completes a pair, and i the last position before j holding target - nums[j], so no number is paired with itself |
| SumOfTwo.AnswerUnique | LAB2/sum_of_two.py:3-8 | at most one list meets the promise above, so the result is determined by nums and target |
| SumOfTwo.FirstExample | LAB2/unit_test.py:6-7 | [2, 7, 11, 15] with target 9 gives [0, 1] |
| SumOfTwo.SecondExample | LAB2/unit_test.py:9-10 | [3, 2, 4] with target 6 gives [1, 2] |
| SumOfTwo.EqualValuesExample | LAB2/unit_test.py:12-13 | [3, 3] with target 6 gives [0, 1] |
| SumOfTwo.NoSolutionExample | LAB2/unit_test.py:15-16 | [1, 2, 3] with target 7 gives [] |
| SumOfTwo.NegativeExample | LAB2/unit_test.py:18-19 | [-1, -2, -3, -4] with target -6 gives [1, 3] |
| SumOfTwo.ZeroExample | LAB2/unit_test.py:21-22 | [0, 4, 3, 0] with target 0 gives [0, 3] |
| SumOfTwo.MixedExample | LAB2/unit_test.py:24-25 | [-2, 1, 4, 6] with target 5 gives [1, 2] |
| Factorial.FactRecursive | LAB5/main.py:14-17 | for n >= 0 the result is at least 1 |
| Factorial.RecursiveIsFact | LAB5/main.py:14-17 | the recursion with base cases 0 and 1 computes n! |
| Factorial.FactIterative | LAB5/main.py:19-24 | the countdown loop returns n! for n >= 0 and 1 for negative n |
| Factorial.RecursiveMatchesIterative | LAB5/main.py:14-24 | for every n >= 0 the recursive and the iterative factorial agree |
| Factorial.Memoize.constructor | LAB5/main.py:5-6 | a new wrapper starts with an empty, sound cache |
| Factorial.Memoize.Put | LAB5/main.py:8-9 | a key not yet cached is stored with func of it, nothing else changes, and every entry still holds func of its key |
| Factorial.ClosedBelowRange | LAB5/main.py:27-31 | a cache in which every key above 1 comes with its predecessor holds all of 1..n once it holds n >= 1 |
| Factorial.FactRecursiveMemo | LAB5/main.py:7-10 | the wrapped recursive factorial returns fact_recursive(n) and leaves n cached with that value; every entry still holds func of its key, no entry is overwritten, all of 1..n are cached, and no key outside n and 1..n is added |
| Factorial.FactRecursiveMemoBody | LAB5/main.py:28-31 | the body returns fact_recursive(n), its recursive call going through the wrapper, and adds only keys below n |
| Factorial.FactIterativeMemo | LAB5/main.py:33-39 | the wrapped iterative factorial returns fact_iterative(n); the cache is unchanged when n was cached and otherwise gains exactly the entry for n, and stays sound |

## Left out

- Floating-point roots and branch functions (`LAB4/bin_tree.py:5`, `LAB4/unit_test.py:35-40`): values are integers. The branch functions are total, pure integer functions, so a branch function that fails, or one that keeps state between calls, is not modelled; for such a function the model does not capture the order of the calls, which the source makes breadth first: left then right for each queued node, node by node, level by level (`LAB4/bin_tree.py:56-57`).
- Printing the tree as JSON (`LAB4/bin_tree.py:72`, `LAB3/bin_tree.py:16`): output only.
- The LAB5 benchmark, the plot and clearing the caches through `__closure__` (`LAB5/main.py:41-104`): timing, plotting and reflection.
- LAB6, the currency clients and their tests: network code.
- The `unittest` runner calls. `test_depth` (`LAB4/unit_test.py:49-54`) asserts nothing. The type checks of `test_return_dict` and `test_struct_keys` are covered by the `RootNode` case of `GenBinTree`.
- Nodes of the iterative generator are entries of one arena rather than separate dictionary objects. The model therefore does not capture references to a node held outside the call. Distinct calls use distinct arenas.
- IterativeTree.Arena.SetLeft: requires the child to be a later node than its parent, which Python's `node["left"] = child` does not demand. Every caller in the generator meets this, and it keeps the links acyclic.
- IterativeTree.Arena.SetRight: requires the child to be a later node than its parent, for the same reason as `SetLeft`.
- Factorial.FactRecursive: requires `n >= 0`. For a negative argument the Python recursion never reaches a base case and ends in a `RecursionError`, which is not modelled. Python's default recursion limit of about 1000 frames also raises `RecursionError` for large positive `n`, in `fact_recursive` (`LAB5/main.py:14-17`) and sooner in `fact_recursive_memo` (`LAB5/main.py:28-31`), which on an empty cache uses a wrapper frame and a body frame per level; the model returns `n!` for every `n >= 0`.
- Factorial.FactRecursiveMemo: requires `n >= 0` for the same reason. It also requires the cache to be closed below, meaning every key above 1 comes with its predecessor, which every cache built only by this function is.
- Factorial.FactRecursiveMemoBody: requires `n >= 0`, as `FactRecursive` does.
- `memoize` as a higher-order function: the wrapping logic is written out in each memoized method because Dafny cannot pass a method as a value. The function being memoized is a ghost constant of `Memoize`.
