/**
 * Four ways of computing a factorial: plain recursion, a countdown loop,
 * and each of those behind the memoizing wrapper, which keeps a dictionary
 * from arguments to results.
 */
module Factorial {

  /** The factorial, `n! = n * (n - 1)!` with `0! = 1`. */
  function Fact(n: nat): nat {
    if n == 0 then 1 else n * Fact(n - 1)
  }

  /**
   * `fact_recursive(n)`, with base cases 0 and 1. A negative argument never
   * reaches a base case, so the function asks for `n >= 0`.
   */
  function FactRecursive(n: int): (r: int)
    requires n >= 0
    ensures r >= 1
    decreases n
  {
    if n == 0 || n == 1 then 1 else n * FactRecursive(n - 1)
  }

  /** The recursion computes the factorial. */
  lemma {:induction false} RecursiveIsFact(n: nat)
    ensures FactRecursive(n) == Fact(n)
  {
    if n > 1 {
      RecursiveIsFact(n - 1);
    }
  }

  /** What `fact_iterative(n)` returns: `n!` for `n >= 0`, and 1 when the loop does not run. */
  function IterativeFact(n: int): int {
    if n >= 0 then Fact(n) else 1
  }

  /**
   * `fact_iterative(n)`: multiply `res` by `n` while counting `n` down to 1.
   * The count `m` plays the role of the parameter the loop decrements.
   */
  method FactIterative(n: int) returns (res: int)
    ensures n >= 0 ==> res == Fact(n)
    ensures n < 0 ==> res == 1
  {
    res := 1;
    var m := n;
    while m >= 1
      invariant n >= 0 ==> 0 <= m <= n && res * Fact(m) == Fact(n)
      invariant n < 0 ==> m == n && res == 1
      decreases m
    {
      assert res * Fact(m) == (res * m) * Fact(m - 1);
      res := res * m;
      m := m - 1;
    }
  }

  /** For every `n >= 0` the recursive and the iterative factorial agree. */
  lemma RecursiveMatchesIterative(n: int)
    requires n >= 0
    ensures FactRecursive(n) == IterativeFact(n)
  {
    RecursiveIsFact(n);
  }

  /**
   * The cache of one `memoize(func)` wrapper. `func` is the function being
   * memoized, known only to the proof; every entry holds `func` of its key.
   */
  class Memoize {
    ghost const func: int --> int
    var cache: map<int, int>

    /** Every cached entry is `func` of its key. */
    ghost predicate Sound()
      reads this
    {
      forall k :: k in cache ==> func.requires(k) && cache[k] == func(k)
    }

    constructor (ghost f: int --> int)
      ensures func == f && cache == map[] && Sound()
    {
      func := f;
      cache := map[];
    }

    /** `cache[n] = func(n)`, done only for a key not yet cached. */
    method Put(n: int, v: int)
      requires Sound() && n !in cache && func.requires(n) && v == func(n)
      modifies this
      ensures Sound() && cache == old(cache)[n := v]
    {
      cache := cache[n := v];
    }
  }

  /** The keys from 2 on come with their predecessor, as the recursive memoized factorial leaves them. */
  ghost predicate ClosedBelow(cache: map<int, int>) {
    forall k :: k in cache && k > 1 ==> k - 1 in cache
  }

  /** Adding key `n` keeps a cache closed below when `n - 1` is already there or `n <= 1`. */
  lemma ClosedBelowInsert(cache: map<int, int>, n: int, v: int)
    requires ClosedBelow(cache) && (n > 1 ==> n - 1 in cache)
    ensures ClosedBelow(cache[n := v])
  {
  }

  /** A cache closed below that holds `n >= 1` holds every key from 1 to `n`. */
  lemma {:induction false} ClosedBelowRange(cache: map<int, int>, n: int)
    requires ClosedBelow(cache) && n >= 1 && n in cache
    ensures forall k :: 1 <= k <= n ==> k in cache
    decreases n
  {
    if n > 1 {
      ClosedBelowRange(cache, n - 1);
    }
  }

  /**
   * `fact_recursive_memo(n)`, the memoizing wrapper around the recursive
   * body: the cached value when there is one; otherwise the body runs and
   * its result is stored under `n`. Existing entries are never overwritten,
   * and the only keys added are `n` and the keys from 1 to `n` the
   * recursion passes, so all of 1 to `n` are cached afterwards.
   */
  method FactRecursiveMemo(memo: Memoize, n: int) returns (r: int)
    requires n >= 0
    requires memo.func == FactRecursive && memo.Sound() && ClosedBelow(memo.cache)
    modifies memo
    ensures r == FactRecursive(n)
    ensures memo.Sound() && ClosedBelow(memo.cache) && n in memo.cache && memo.cache[n] == r
    ensures forall k :: 1 <= k <= n ==> k in memo.cache
    ensures forall k :: k in old(memo.cache) ==> k in memo.cache && memo.cache[k] == old(memo.cache)[k]
    ensures forall k :: k in memo.cache ==> k in old(memo.cache) || k == n || 1 <= k <= n
    decreases n, 1
  {
    if n !in memo.cache {
      var v := FactRecursiveMemoBody(memo, n);
      ClosedBelowInsert(memo.cache, n, v);
      memo.Put(n, v);
    }
    if n >= 1 {
      ClosedBelowRange(memo.cache, n);
    }
    r := memo.cache[n];
  }

  /**
   * The undecorated body of `fact_recursive_memo`: base cases 0 and 1, and
   * otherwise `n` times the value for `n - 1`, obtained through the wrapper.
   */
  method FactRecursiveMemoBody(memo: Memoize, n: int) returns (r: int)
    requires n >= 0
    requires memo.func == FactRecursive && memo.Sound() && ClosedBelow(memo.cache)
    modifies memo
    ensures r == FactRecursive(n)
    ensures memo.Sound() && ClosedBelow(memo.cache)
    ensures n >= 2 ==> n - 1 in memo.cache
    ensures forall k :: k in old(memo.cache) ==> k in memo.cache && memo.cache[k] == old(memo.cache)[k]
    ensures forall k :: k in memo.cache ==> k in old(memo.cache) || 1 <= k < n
    decreases n, 0
  {
    if n == 0 || n == 1 {
      return 1;
    }
    var sub := FactRecursiveMemo(memo, n - 1);
    r := n * sub;
  }

  /**
   * `fact_iterative_memo(n)`: the wrapper returns the cached value when
   * there is one; otherwise it runs the countdown loop and stores its
   * result under `n`, adding that key and no other.
   */
  method FactIterativeMemo(memo: Memoize, n: int) returns (r: int)
    requires memo.func == IterativeFact && memo.Sound()
    modifies memo
    ensures r == IterativeFact(n)
    ensures memo.Sound() && n in memo.cache && memo.cache[n] == r
    ensures memo.cache == if n in old(memo.cache) then old(memo.cache) else old(memo.cache)[n := r]
  {
    if n in memo.cache {
      return memo.cache[n];
    }
    var v := FactIterative(n);
    memo.Put(n, v);
    r := memo.cache[n];
  }
}
