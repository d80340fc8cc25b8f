/**
 * The recursive generator: a tree whose root holds `root` and whose left and
 * right subtrees are generated, one level lower, from `root + 2` and
 * `root * 3`.
 */
module RecursiveTree {
  import opened Trees

  /**
   * `gen_bin_tree(height, root)`. Any height up to 1, zero and negative
   * heights included, gives a single leaf; the height decreases by one at
   * each recursive call, so the recursion stops. A node is always returned.
   */
  function GenBinTree(height: int := 4, root: int := 3): (t: Tree<int>)
    ensures t.Node? && t.value == root
    decreases height
  {
    if height <= 1 then Node(root, Nil, Nil)
    else Node(root, GenBinTree(height - 1, root + 2), GenBinTree(height - 1, root * 3))
  }

  /** The number of edges below the root: `height - 1`, and 0 for every height up to 1. */
  function Depth(height: int): nat {
    if height <= 1 then 0 else height - 1
  }

  /** The generated tree is the reference tree of depth `Depth(height)` for the branches `x + 2` and `x * 3`. */
  lemma {:induction false} GenIsComplete(height: int, root: int)
    ensures GenBinTree(height, root) == Complete(Depth(height), root, PlusTwo, TimesThree)
    decreases height
  {
    if height > 1 {
      GenIsComplete(height - 1, root + 2);
      GenIsComplete(height - 1, root * 3);
    }
  }

  /**
   * For `height >= 1`: `height` levels, both children on every node above
   * the last level, nothing below it, `2^height - 1` nodes and
   * `2^(height-1)` leaves; for smaller heights a single leaf.
   */
  lemma GenShape(height: int, root: int)
    ensures var t := GenBinTree(height, root);
      Perfect(t, Depth(height)) && Follows(t, PlusTwo, TimesThree) &&
      Levels(t) == Depth(height) + 1 && Size(t) == Pow2(Depth(height) + 1) - 1 &&
      LeafCount(t) == Pow2(Depth(height))
    ensures height <= 1 ==> GenBinTree(height, root) == Node(root, Nil, Nil)
  {
    GenIsComplete(height, root);
    CompleteIsPerfect(Depth(height), root, PlusTwo, TimesThree);
    CompleteShape(Depth(height), root, PlusTwo, TimesThree);
  }

  /** The value reached by always taking the left child. */
  function LeftmostLeaf<T>(t: Tree<T>): T
    requires t.Node?
  {
    if t.left.Nil? then t.value else LeftmostLeaf(t.left)
  }

  /** The value reached by always taking the right child. */
  function RightmostLeaf<T>(t: Tree<T>): T
    requires t.Node?
  {
    if t.right.Nil? then t.value else RightmostLeaf(t.right)
  }

  function Pow(b: int, e: nat): int {
    if e == 0 then 1 else b * Pow(b, e - 1)
  }

  /** The leftmost leaf adds 2 once per edge, the rightmost multiplies by 3 once per edge. */
  lemma {:induction false} OuterLeaves(height: int, root: int)
    ensures LeftmostLeaf(GenBinTree(height, root)) == root + 2 * Depth(height)
    ensures RightmostLeaf(GenBinTree(height, root)) == root * Pow(3, Depth(height))
    decreases height
  {
    if height > 1 {
      OuterLeaves(height - 1, root + 2);
      OuterLeaves(height - 1, root * 3);
      calc {
        RightmostLeaf(GenBinTree(height, root));
        RightmostLeaf(GenBinTree(height - 1, root * 3));
        (root * 3) * Pow(3, Depth(height) - 1);
        { assert (root * 3) * Pow(3, Depth(height) - 1) == root * (3 * Pow(3, Depth(height) - 1)); }
        root * Pow(3, Depth(height));
      }
    }
  }
}
