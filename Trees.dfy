/**
 * Binary trees of the shape both generators produce: every node carries a
 * value and two optional children (the `"value"`, `"left"` and `"right"`
 * entries of the dictionaries), together with structural measures and the
 * reference tree that the generators are proved against.
 */
module Trees {

  /** `Nil` stands for an absent child (`None`). */
  datatype Tree<T> = Nil | Node(value: T, left: Tree<T>, right: Tree<T>)

  /** The default left branch function, `x + 2`. */
  function PlusTwo(x: int): int { x + 2 }

  /** The default right branch function, `x * 3`. */
  function TimesThree(x: int): int { x * 3 }

  function Pow2(k: nat): (r: nat)
    ensures r >= 1
  {
    if k == 0 then 1 else 2 * Pow2(k - 1)
  }

  lemma {:induction false} Pow2Monotone(j: nat, k: nat)
    requires j <= k
    ensures Pow2(j) <= Pow2(k)
  {
    if j < k {
      Pow2Monotone(j, k - 1);
    }
  }

  function Max(a: nat, b: nat): nat { if a < b then b else a }

  /** Number of nodes. */
  function Size<T>(t: Tree<T>): nat {
    match t
    case Nil => 0
    case Node(_, l, r) => 1 + Size(l) + Size(r)
  }

  /** Number of nodes without children. */
  function LeafCount<T>(t: Tree<T>): nat {
    match t
    case Nil => 0
    case Node(_, l, r) => if l.Nil? && r.Nil? then 1 else LeafCount(l) + LeafCount(r)
  }

  /** Number of levels: 0 for an absent tree, one more than the deeper child otherwise. */
  function Levels<T>(t: Tree<T>): nat {
    match t
    case Nil => 0
    case Node(_, l, r) => 1 + Max(Levels(l), Levels(r))
  }

  /** Number of nodes at depth `k`, the root being at depth 0. */
  function Width<T>(t: Tree<T>, k: nat): nat {
    match t
    case Nil => 0
    case Node(_, l, r) => if k == 0 then 1 else Width(l, k - 1) + Width(r, k - 1)
  }

  /**
   * `t` is a node whose every descendant above depth `d` has both children
   * and whose every descendant at depth `d` has none.
   */
  predicate Perfect<T>(t: Tree<T>, d: nat) {
    t.Node? &&
    if d == 0 then t.left.Nil? && t.right.Nil?
    else Perfect(t.left, d - 1) && Perfect(t.right, d - 1)
  }

  /** Every left child holds `lb` of its parent's value and every right child `rb` of it. */
  ghost predicate Follows<T>(t: Tree<T>, lb: T -> T, rb: T -> T) {
    match t
    case Nil => true
    case Node(v, l, r) =>
      (l.Node? ==> l.value == lb(v)) && (r.Node? ==> r.value == rb(v)) &&
      Follows(l, lb, rb) && Follows(r, lb, rb)
  }

  /**
   * The reference tree: root `v`, depth `d` (so `d + 1` levels), each child
   * derived from its parent by the branch function of its side.
   */
  function Complete<T>(d: nat, v: T, lb: T -> T, rb: T -> T): Tree<T> {
    if d == 0 then Node(v, Nil, Nil)
    else Node(v, Complete(d - 1, lb(v), lb, rb), Complete(d - 1, rb(v), lb, rb))
  }

  /** The reference tree is the one and only perfect tree of depth `d`, root `v`, that follows the branch functions. */
  lemma {:induction false} CompleteCharacterized<T>(t: Tree<T>, d: nat, v: T, lb: T -> T, rb: T -> T)
    ensures t == Complete(d, v, lb, rb) <==> t.Node? && t.value == v && Perfect(t, d) && Follows(t, lb, rb)
  {
    if d > 0 && t.Node? {
      CompleteCharacterized(t.left, d - 1, lb(v), lb, rb);
      CompleteCharacterized(t.right, d - 1, rb(v), lb, rb);
    }
  }

  lemma {:induction false} PerfectSize<T>(t: Tree<T>, d: nat)
    requires Perfect(t, d)
    ensures Size(t) == Pow2(d + 1) - 1
  {
    if d > 0 {
      PerfectSize(t.left, d - 1);
      PerfectSize(t.right, d - 1);
    }
  }

  lemma {:induction false} PerfectLeafCount<T>(t: Tree<T>, d: nat)
    requires Perfect(t, d)
    ensures LeafCount(t) == Pow2(d)
  {
    if d > 0 {
      PerfectLeafCount(t.left, d - 1);
      PerfectLeafCount(t.right, d - 1);
    }
  }

  lemma {:induction false} PerfectLevels<T>(t: Tree<T>, d: nat)
    requires Perfect(t, d)
    ensures Levels(t) == d + 1
  {
    if d > 0 {
      PerfectLevels(t.left, d - 1);
      PerfectLevels(t.right, d - 1);
    }
  }

  lemma {:induction false} PerfectWidth<T>(t: Tree<T>, d: nat, k: nat)
    requires Perfect(t, d)
    ensures Width(t, k) == if k <= d then Pow2(k) else 0
  {
    if k > 0 {
      if d == 0 {
      } else {
        PerfectWidth(t.left, d - 1, k - 1);
        PerfectWidth(t.right, d - 1, k - 1);
      }
    }
  }

  /** The reference tree of depth `d` is perfect and follows its branch functions. */
  lemma CompleteIsPerfect<T>(d: nat, v: T, lb: T -> T, rb: T -> T)
    ensures Perfect(Complete(d, v, lb, rb), d) && Follows(Complete(d, v, lb, rb), lb, rb)
  {
    CompleteCharacterized(Complete(d, v, lb, rb), d, v, lb, rb);
  }

  /**
   * Shape of the reference tree: `2^(d+1) - 1` nodes, `2^d` leaves,
   * `d + 1` levels, `2^k` nodes at every depth `k <= d` and none deeper.
   */
  lemma CompleteShape<T>(d: nat, v: T, lb: T -> T, rb: T -> T)
    ensures var t := Complete(d, v, lb, rb);
      Size(t) == Pow2(d + 1) - 1 && LeafCount(t) == Pow2(d) && Levels(t) == d + 1 &&
      forall k: nat :: Width(t, k) == if k <= d then Pow2(k) else 0
  {
    var t := Complete(d, v, lb, rb);
    CompleteIsPerfect(d, v, lb, rb);
    PerfectSize(t, d);
    PerfectLeafCount(t, d);
    PerfectLevels(t, d);
    forall k: nat ensures Width(t, k) == if k <= d then Pow2(k) else 0 {
      PerfectWidth(t, d, k);
    }
  }
}
