/**
 * The iterative generator: the tree is built breadth-first, a first-in
 * first-out queue holding the nodes that are already linked into the tree
 * and still wait for their children.
 *
 * Nodes live in an arena: node `i` is the `i`-th node allocated, and its
 * value and its children are the `i`-th entries of three sequences. Because
 * the queue hands nodes out in the order they were created, the `k`-th node
 * taken from the queue is node `k`, and its children become nodes `2k + 1`
 * and `2k + 2`.
 */
module IterativeTree {
  import opened Trees
  import RecursiveTree

  /** The child index of a node that has no child on that side (`None`). */
  const NoChild: int := -1

  /** The nodes allocated by one call, each with a value and two child links. */
  class Arena {
    var values: seq<int>
    var lefts: seq<int>
    var rights: seq<int>

    /** A child link is absent or points to a node allocated later, so the links form a forest. */
    ghost predicate Valid()
      reads this
    {
      Linked(values, lefts, rights)
    }

    constructor ()
      ensures Valid() && values == [] && lefts == [] && rights == []
    {
      values, lefts, rights := [], [], [];
    }

    /** The subtree rooted at node `i`. */
    function TreeAt(i: int): (t: Tree<int>)
      reads this
      requires Valid() && 0 <= i < |values|
      ensures t.Node? && t.value == values[i]
    {
      Subtree(values, lefts, rights, i)
    }

    /** Allocates the childless node `{"value": v, "left": None, "right": None}`. */
    method NewNode(v: int) returns (k: nat)
      requires Valid()
      modifies this
      ensures Valid()
      ensures k == |old(values)|
      ensures values == old(values) + [v]
      ensures lefts == old(lefts) + [NoChild] && rights == old(rights) + [NoChild]
    {
      k := |values|;
      values, lefts, rights := values + [v], lefts + [NoChild], rights + [NoChild];
    }

    /** `node["left"] = child`. */
    method SetLeft(node: nat, child: nat)
      requires Valid() && node < child < |values|
      modifies this
      ensures Valid()
      ensures values == old(values) && rights == old(rights) && lefts == old(lefts)[node := child]
    {
      lefts := lefts[node := child];
    }

    /** `node["right"] = child`. */
    method SetRight(node: nat, child: nat)
      requires Valid() && node < child < |values|
      modifies this
      ensures Valid()
      ensures values == old(values) && lefts == old(lefts) && rights == old(rights)[node := child]
    {
      rights := rights[node := child];
    }
  }

  /** What the generator returns: `None`, the bare root value, or the root node of a tree. */
  datatype Generated = NoneResult | BareRoot(value: int) | RootNode(arena: Arena, root: nat)

  /** Three parallel sequences whose child links are absent or point to a later node. */
  ghost predicate Linked(values: seq<int>, lefts: seq<int>, rights: seq<int>) {
    |lefts| == |values| && |rights| == |values| &&
    forall i :: 0 <= i < |values| ==>
      (lefts[i] == NoChild || i < lefts[i] < |values|) &&
      (rights[i] == NoChild || i < rights[i] < |values|)
  }

  /** The tree that node `i` roots in the linked sequences. */
  function Subtree(values: seq<int>, lefts: seq<int>, rights: seq<int>, i: int): (t: Tree<int>)
    requires Linked(values, lefts, rights) && 0 <= i < |values|
    ensures t.Node? && t.value == values[i]
    decreases |values| - i
  {
    Node(values[i],
         if lefts[i] == NoChild then Nil else Subtree(values, lefts, rights, lefts[i]),
         if rights[i] == NoChild then Nil else Subtree(values, lefts, rights, rights[i]))
  }

  /**
   * The arena after `e` nodes have been taken from the queue: `2e + 1`
   * nodes, node 0 holding the root value, every node before `e` having its
   * children at `2i + 1` and `2i + 2` with the values the branch functions
   * give, and the nodes from `e` on having no children yet.
   */
  ghost predicate Expanded(a: Arena, e: nat, root: int, lb: int -> int, rb: int -> int)
    reads a
  {
    ExpandedNodes(a.values, a.lefts, a.rights, e, root, lb, rb)
  }

  ghost predicate ExpandedNodes(values: seq<int>, lefts: seq<int>, rights: seq<int>,
                                e: nat, root: int, lb: int -> int, rb: int -> int)
  {
    HeapLinks(values, lefts, rights, e) && HeapValues(values, e, root, lb, rb)
  }

  /** The links after `e` expansions: nodes before `e` have children `2i + 1` and `2i + 2`, the others none. */
  ghost predicate HeapLinks(values: seq<int>, lefts: seq<int>, rights: seq<int>, e: nat) {
    Linked(values, lefts, rights) && |values| == 2 * e + 1 &&
    (forall i :: 0 <= i < e ==> lefts[i] == 2 * i + 1 && rights[i] == 2 * i + 2) &&
    (forall i :: e <= i < 2 * e + 1 ==> lefts[i] == NoChild && rights[i] == NoChild)
  }

  /** The values after `e` expansions: the root value first, then each expanded node's two child values. */
  ghost predicate HeapValues(values: seq<int>, e: nat, root: int, lb: int -> int, rb: int -> int) {
    |values| == 2 * e + 1 && values[0] == root &&
    forall i :: 0 <= i < e ==> ChildrenFollow(values, i, lb, rb)
  }

  /** Nodes `2i + 1` and `2i + 2` hold the left and right branch functions of node `i`'s value. */
  ghost predicate ChildrenFollow(values: seq<int>, i: nat, lb: int -> int, rb: int -> int)
    requires 2 * i + 2 < |values|
  {
    values[2 * i + 1] == lb(values[i]) && values[2 * i + 2] == rb(values[i])
  }

  /**
   * The tree node `i` roots, holding `v`, when every node before `e` has
   * children `2i + 1` and `2i + 2` derived from it by the branch functions
   * and every other node has none.
   */
  function HeapTree(e: nat, v: int, lb: int -> int, rb: int -> int, i: nat): (t: Tree<int>)
    requires i <= 2 * e
    decreases 2 * e - i
  {
    if i < e then Node(v, HeapTree(e, lb(v), lb, rb, 2 * i + 1), HeapTree(e, rb(v), lb, rb, 2 * i + 2))
    else Node(v, Nil, Nil)
  }

  /** Taking node `e` from the queue and giving it two new children expands one node more. */
  lemma ExpandStep(values: seq<int>, lefts: seq<int>, rights: seq<int>,
                   e: nat, root: int, lb: int -> int, rb: int -> int)
    requires ExpandedNodes(values, lefts, rights, e, root, lb, rb)
    ensures ExpandedNodes(values + [lb(values[e])] + [rb(values[e])],
                          (lefts + [NoChild] + [NoChild])[e := 2 * e + 1],
                          (rights + [NoChild] + [NoChild])[e := 2 * e + 2],
                          e + 1, root, lb, rb)
  {
    var vs := values + [lb(values[e])] + [rb(values[e])];
    var ls := (lefts + [NoChild] + [NoChild])[e := 2 * e + 1];
    var rs := (rights + [NoChild] + [NoChild])[e := 2 * e + 2];
    forall i | 0 <= i < e + 1
      ensures ChildrenFollow(vs, i, lb, rb)
    {
      if i < e {
        assert ChildrenFollow(values, i, lb, rb);
      }
    }
    forall i | 0 <= i < e + 1
      ensures ls[i] == 2 * i + 1 && rs[i] == 2 * i + 2
    {
      if i < e {
        assert lefts[i] == 2 * i + 1;
      }
    }
    forall i | 0 <= i < |vs|
      ensures (ls[i] == NoChild || i < ls[i] < |vs|) && (rs[i] == NoChild || i < rs[i] < |vs|)
    {
      if i < e {
        assert lefts[i] == 2 * i + 1;
      }
    }
  }

  /** The depth of node `i` in the arena: its parent is node `(i - 1) / 2`. */
  function NodeDepth(i: nat): nat {
    if i == 0 then 0 else 1 + NodeDepth((i - 1) / 2)
  }

  /**
   * Under the links of `e` expansions, both children of an expanded node lie
   * one level below it, so `NodeDepth` is the depth of a node in `TreeAt(0)`.
   */
  lemma ChildDepth(values: seq<int>, lefts: seq<int>, rights: seq<int>, e: nat, i: nat)
    requires HeapLinks(values, lefts, rights, e) && i < e
    ensures lefts[i] >= 0 && NodeDepth(lefts[i]) == NodeDepth(i) + 1
    ensures rights[i] >= 0 && NodeDepth(rights[i]) == NodeDepth(i) + 1
  {
  }

  /** The queue holds the nodes `e, e + 1, ..., 2e`, oldest first. */
  ghost predicate QueueFrom(queue: seq<nat>, e: nat) {
    |queue| == e + 1 && forall t :: 0 <= t < |queue| ==> queue[t] == e + t
  }

  /** Among the first `n` nodes, those at depth `k` are exactly the nodes `lo, ..., hi - 1`. */
  ghost predicate LevelSpan(n: nat, k: nat, lo: nat, hi: nat) {
    forall i :: 0 <= i < n ==> (lo <= i < hi <==> NodeDepth(i) == k)
  }

  /**
   * At the top of round `k` the queue `e, ..., 2e` with `e = 2^k - 1` is the
   * whole depth-`k` level, in creation order (which is left-to-right order).
   */
  lemma LevelQueue(e: nat, k: nat)
    requires e == Pow2(k) - 1
    ensures LevelSpan(2 * e + 1, k, e, 2 * e + 1)
  {
    forall i | 0 <= i < 2 * e + 1 ensures e <= i < 2 * e + 1 <==> NodeDepth(i) == k {
      DepthRange(i, k);
    }
  }

  /**
   * `gen_bin_tree(height, root, left_branch, right_branch)`, with the same
   * defaults. A negative height gives `None` and height 0 the bare root
   * value. For `height >= 1` the outer loop runs `height` times and every
   * run expands every queued node, so the result is a freshly allocated tree
   * of depth `height`: `height + 1` levels and `2^(height+1) - 1` nodes.
   */
  method GenBinTree(height: int := 4, root: int := 3,
                    leftBranch: int -> int := PlusTwo, rightBranch: int -> int := TimesThree)
    returns (r: Generated)
    ensures height < 0 ==> r == NoneResult
    ensures height == 0 ==> r == BareRoot(root)
    ensures height >= 1 ==>
      && r.RootNode? && fresh(r.arena) && r.root == 0
      && r.arena.Valid() && |r.arena.values| == Pow2(height + 1) - 1
      && r.arena.TreeAt(0) == Complete(height, root, leftBranch, rightBranch)
  {
    if height < 0 {
      return NoneResult;
    } else if height == 0 {
      return BareRoot(root);
    }
    var arena := new Arena();
    var rootNode := arena.NewNode(root);
    var queue: seq<nat> := [rootNode];
    ghost var e: nat := 0;
    var h := height;
    LevelQueue(e, 0);
    for k := 0 to height
      invariant h == height - k
      invariant e == Pow2(k) - 1
      invariant Expanded(arena, e, root, leftBranch, rightBranch)
      invariant QueueFrom(queue, e)
      // the queue holds exactly the childless nodes at depth k, in creation order
      invariant LevelSpan(|arena.values|, k, e, 2 * e + 1)
    {
      queue := ExpandLevel(arena, queue, h, leftBranch, rightBranch, root, e);
      e := 2 * e + 1;
      h := h - 1;
      LevelQueue(e, k + 1);
    }
    ExpandedIsComplete(arena, height, root, leftBranch, rightBranch);
    r := RootNode(arena, rootNode);
  }

  /**
   * One run of the outer loop body: `level_size` nodes are taken from the
   * front of the queue, and each gets two children, which join the back of
   * the queue. `h` is the decremented height, which stays positive, so the
   * `height == 0` branch is never taken.
   */
  method ExpandLevel(arena: Arena, queue0: seq<nat>, h: int, leftBranch: int -> int, rightBranch: int -> int,
                     ghost root: int, ghost e0: nat)
    returns (queue: seq<nat>)
    requires h >= 1
    requires Expanded(arena, e0, root, leftBranch, rightBranch) && QueueFrom(queue0, e0)
    modifies arena
    ensures Expanded(arena, 2 * e0 + 1, root, leftBranch, rightBranch) && QueueFrom(queue, 2 * e0 + 1)
  {
    queue := queue0;
    ghost var e := e0;
    var levelSize := |queue|;
    for j := 0 to levelSize
      invariant e == e0 + j
      invariant Expanded(arena, e, root, leftBranch, rightBranch)
      invariant QueueFrom(queue, e)
    {
      var node := queue[0];
      queue := queue[1..];
      assert node == e;
      if h == 0 {
        // never taken: h >= 1 throughout
        assert false;
      }
      var leftChild, rightChild := ExpandNode(arena, node, leftBranch, rightBranch, root);
      queue := queue + [leftChild, rightChild];
      e := e + 1;
    }
  }

  /**
   * The body of the inner loop once a node is taken from the queue: compute
   * both child values, allocate both children and link them to `node`. With
   * the nodes before `node` already expanded this expands `node` as well.
   */
  method ExpandNode(arena: Arena, node: nat, leftBranch: int -> int, rightBranch: int -> int, ghost root: int)
    returns (leftChild: nat, rightChild: nat)
    requires Expanded(arena, node, root, leftBranch, rightBranch)
    modifies arena
    ensures Expanded(arena, node + 1, root, leftBranch, rightBranch)
    ensures leftChild == 2 * node + 1 && rightChild == 2 * node + 2
    ensures arena.values == old(arena.values) + [leftBranch(old(arena.values)[node])] + [rightBranch(old(arena.values)[node])]
    ensures arena.lefts == (old(arena.lefts) + [NoChild] + [NoChild])[node := leftChild]
    ensures arena.rights == (old(arena.rights) + [NoChild] + [NoChild])[node := rightChild]
  {
    ExpandStep(arena.values, arena.lefts, arena.rights, node, root, leftBranch, rightBranch);
    var leftValue := leftBranch(arena.values[node]);
    var rightValue := rightBranch(arena.values[node]);
    leftChild := arena.NewNode(leftValue);
    rightChild := arena.NewNode(rightValue);
    arena.SetLeft(node, leftChild);
    arena.SetRight(node, rightChild);
  }

  /** Node `i` is at depth `k` exactly when `2^k - 1 <= i < 2^(k+1) - 1`. */
  lemma {:induction false} DepthRange(i: nat, k: nat)
    ensures NodeDepth(i) == k <==> Pow2(k) - 1 <= i < Pow2(k + 1) - 1
  {
    if i == 0 {
      if k > 0 {
        assert Pow2(k) >= 2 by { Pow2Monotone(1, k); }
      }
    } else if k == 0 {
    } else {
      DepthRange((i - 1) / 2, k - 1);
    }
  }

  /** The sequences after `e` expansions describe the heap-shaped tree. */
  lemma {:induction false} ExpandedHeapTree(values: seq<int>, lefts: seq<int>, rights: seq<int>,
                                            e: nat, root: int, lb: int -> int, rb: int -> int, i: nat)
    requires ExpandedNodes(values, lefts, rights, e, root, lb, rb) && i < |values|
    ensures Subtree(values, lefts, rights, i) == HeapTree(e, values[i], lb, rb, i)
    decreases |values| - i
  {
    if i < e {
      assert lefts[i] == 2 * i + 1 && rights[i] == 2 * i + 2;
      assert ChildrenFollow(values, i, lb, rb);
      ExpandedHeapTree(values, lefts, rights, e, root, lb, rb, 2 * i + 1);
      ExpandedHeapTree(values, lefts, rights, e, root, lb, rb, 2 * i + 2);
    } else {
      assert lefts[i] == NoChild && rights[i] == NoChild;
    }
  }

  /**
   * A node at depth `d` of a tree with `e = 2^height - 1` expanded nodes is
   * within the arena, is expanded when `d < height`, and then has its
   * children at depth `d + 1`.
   */
  lemma LevelBounds(e: nat, height: nat, d: nat, i: nat)
    requires e == Pow2(height) - 1
    requires d <= height && Pow2(d) - 1 <= i < Pow2(d + 1) - 1
    ensures i <= 2 * e
    ensures d < height <==> i < e
    ensures d < height ==> Pow2(d + 1) - 1 <= 2 * i + 1 && 2 * i + 2 < Pow2(d + 2) - 1
  {
    Pow2Monotone(d + 1, height + 1);
    if d < height {
      Pow2Monotone(d + 1, height);
    }
  }

  /** In the heap-shaped tree of `2^height - 1` expansions, node `i` at depth `d` roots the reference tree of depth `height - d`. */
  lemma {:induction false} HeapTreeComplete(e: nat, height: nat, v: int, lb: int -> int, rb: int -> int, d: nat, i: nat)
    requires e == Pow2(height) - 1
    requires d <= height && Pow2(d) - 1 <= i < Pow2(d + 1) - 1
    ensures i <= 2 * e
    ensures HeapTree(e, v, lb, rb, i) == Complete(height - d, v, lb, rb)
    decreases height - d
  {
    LevelBounds(e, height, d, i);
    if d < height {
      HeapTreeComplete(e, height, lb(v), lb, rb, d + 1, 2 * i + 1);
      HeapTreeComplete(e, height, rb(v), lb, rb, d + 1, 2 * i + 2);
    }
  }

  /** After `2^height - 1` expansions the arena holds the reference tree of depth `height`. */
  lemma ExpandedIsComplete(a: Arena, height: nat, root: int, lb: int -> int, rb: int -> int)
    requires Expanded(a, Pow2(height) - 1, root, lb, rb)
    ensures a.TreeAt(0) == Complete(height, root, lb, rb)
  {
    ExpandedHeapTree(a.values, a.lefts, a.rights, Pow2(height) - 1, root, lb, rb, 0);
    HeapTreeComplete(Pow2(height) - 1, height, root, lb, rb, 0, 0);
  }

  /**
   * Two calls with the same arguments give equal results, and for
   * `height >= 1` two distinct trees: neither shares a node with the other.
   */
  method GenerateTwice(height: int, root: int, lb: int -> int, rb: int -> int)
    returns (r1: Generated, r2: Generated)
    ensures r1.RootNode? <==> r2.RootNode?
    ensures !r1.RootNode? ==> r1 == r2
    ensures r1.RootNode? ==>
      && r1.arena != r2.arena && r1.root == r2.root == 0
      && r1.arena.Valid() && r2.arena.Valid() && 0 < |r1.arena.values| && 0 < |r2.arena.values|
      && r1.arena.TreeAt(0) == r2.arena.TreeAt(0)
  {
    r1 := GenBinTree(height, root, lb, rb);
    r2 := GenBinTree(height, root, lb, rb);
  }

  /**
   * With the default branches and `height >= 1`, the iterative result is
   * the recursive generator's tree one level taller: `height + 1`.
   */
  lemma DefaultsMatchRecursive(height: int, root: int)
    requires height >= 1
    ensures Complete(height, root, PlusTwo, TimesThree) == RecursiveTree.GenBinTree(height + 1, root)
  {
    RecursiveTree.GenIsComplete(height + 1, root);
  }

  /**
   * `gen_bin_tree(height=1, root=10)` is the root 10 with the two leaf
   * children 12 and 30, not a single leaf.
   */
  method UnitHeightExample() returns (r: Generated)
    ensures r.RootNode? && r.arena.Valid() && 0 <= r.root < |r.arena.values|
    ensures r.arena.TreeAt(r.root) == Node(10, Node(12, Nil, Nil), Node(30, Nil, Nil))
  {
    r := GenBinTree(1, 10);
  }

  /** `gen_bin_tree(height=0, root=10)` is the bare value 10, not `None`. */
  method ZeroHeightExample() returns (r: Generated)
    ensures r == BareRoot(10)
  {
    r := GenBinTree(0, 10);
  }

  /** `gen_bin_tree(height=2, root=3)` has children 5 and 9. */
  method LeafValuesExample() returns (r: Generated)
    ensures r.RootNode? && r.arena.Valid() && 0 <= r.root < |r.arena.values|
    ensures r.arena.TreeAt(r.root).left.Node? && r.arena.TreeAt(r.root).left.value == 5
    ensures r.arena.TreeAt(r.root).right.Node? && r.arena.TreeAt(r.root).right.value == 9
  {
    r := GenBinTree(2, 3);
  }
}
