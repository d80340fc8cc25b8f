/**
 * The one-pass two-sum: scan the numbers once, remembering for every value
 * seen so far the last position it occurred at, and stop at the first
 * position whose complement to the target has been seen.
 */
module SumOfTwo {

  /** Two distinct positions `p < q` before `n` hold numbers adding up to `target`. */
  ghost predicate PairBefore(nums: seq<int>, target: int, n: int) {
    exists p, q :: 0 <= p < q < n && q < |nums| && nums[p] + nums[q] == target
  }

  /**
   * What `sum_of_two(nums, target)` promises of its result `r`: it is `[]`
   * exactly when no two distinct positions sum to `target`; otherwise it is
   * `[i, j]` with `i < j` summing to `target`, where `j` is the first
   * position completing a pair and `i` is the last position before `j`
   * holding `target - nums[j]`.
   */
  ghost predicate Answer(nums: seq<int>, target: int, r: seq<int>) {
    (|r| == 0 || |r| == 2) &&
    (r == [] <==> !PairBefore(nums, target, |nums|)) &&
    (|r| == 2 ==>
      && 0 <= r[0] < r[1] < |nums| && nums[r[0]] + nums[r[1]] == target
      && !PairBefore(nums, target, r[1])
      && forall k :: r[0] < k < r[1] ==> nums[k] != nums[r[0]])
  }

  /**
   * `sum_of_two(nums, target)`: the lookup of the complement precedes the
   * insertion of the current number, so a number is never paired with
   * itself, and a later occurrence of a value overwrites the position of
   * an earlier one.
   */
  method SumOfTwo(nums: seq<int>, target: int) returns (r: seq<int>)
    ensures Answer(nums, target, r)
  {
    var seen: map<int, int> := map[];
    for i := 0 to |nums|
      // the keys are the values of nums[..i], each mapped to its last position
      invariant forall k :: 0 <= k < i ==> nums[k] in seen
      invariant forall v :: v in seen ==> 0 <= seen[v] < i && nums[seen[v]] == v
      invariant forall v, k :: v in seen && seen[v] < k < i ==> nums[k] != v
      invariant !PairBefore(nums, target, i)
    {
      var num := nums[i];
      var need := target - num;
      if need in seen {
        return [seen[need], i];
      }
      forall p, q | 0 <= p < q < i + 1
        ensures nums[p] + nums[q] != target
      {
        if q == i {
          assert nums[p] in seen;
        }
      }
      seen := seen[num := i];
    }
    return [];
  }

  /** The promise pins the result down: at most one list is an answer. */
  lemma AnswerUnique(nums: seq<int>, target: int, r1: seq<int>, r2: seq<int>)
    requires Answer(nums, target, r1) && Answer(nums, target, r2)
    ensures r1 == r2
  {
    if |r1| == 2 && |r2| == 2 {
      // neither answer's pair can be completed before the other's
      assert nums[r2[0]] + nums[r2[1]] == target && nums[r1[0]] + nums[r1[1]] == target;
      assert r1[1] == r2[1];
      assert r1[0] == r2[0];
    }
  }

  /** `[2, 7, 11, 15]` with target 9 gives `[0, 1]`. */
  method FirstExample() returns (r: seq<int>)
    ensures r == [0, 1]
  {
    r := SumOfTwo([2, 7, 11, 15], 9);
    assert [2, 7, 11, 15][0] + [2, 7, 11, 15][1] == 9;
    assert !PairBefore([2, 7, 11, 15], 9, 1);
  }

  /** `[3, 2, 4]` with target 6 gives `[1, 2]`: the 3 is not paired with itself. */
  method SecondExample() returns (r: seq<int>)
    ensures r == [1, 2]
  {
    var nums := [3, 2, 4];
    r := SumOfTwo(nums, 6);
    assert nums[1] + nums[2] == 6;
    assert !PairBefore(nums, 6, 2);
  }

  /** `[1, 2, 3]` with target 7 gives `[]`. */
  method NoSolutionExample() returns (r: seq<int>)
    ensures r == []
  {
    var nums := [1, 2, 3];
    r := SumOfTwo(nums, 7);
  }

  /** `[0, 4, 3, 0]` with target 0 gives `[0, 3]`. */
  method ZeroExample() returns (r: seq<int>)
    ensures r == [0, 3]
  {
    var nums := [0, 4, 3, 0];
    r := SumOfTwo(nums, 0);
    assert nums[0] + nums[3] == 0;
    assert !PairBefore(nums, 0, 3);
  }

  /** `[3, 3]` with target 6 gives `[0, 1]`. */
  method EqualValuesExample() returns (r: seq<int>)
    ensures r == [0, 1]
  {
    var nums := [3, 3];
    r := SumOfTwo(nums, 6);
    assert nums[0] + nums[1] == 6;
    assert !PairBefore(nums, 6, 1);
  }

  /** `[-1, -2, -3, -4]` with target -6 gives `[1, 3]`. */
  method NegativeExample() returns (r: seq<int>)
    ensures r == [1, 3]
  {
    var nums := [-1, -2, -3, -4];
    r := SumOfTwo(nums, -6);
    assert nums[1] + nums[3] == -6;
    assert !PairBefore(nums, -6, 3);
  }

  /** `[-2, 1, 4, 6]` with target 5 gives `[1, 2]`. */
  method MixedExample() returns (r: seq<int>)
    ensures r == [1, 2]
  {
    var nums := [-2, 1, 4, 6];
    r := SumOfTwo(nums, 5);
    assert nums[1] + nums[2] == 5;
    assert !PairBefore(nums, 5, 2);
  }
}
