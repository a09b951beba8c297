/** The exact subset-sum search: all subsets of each half, then one scan over the two sorted lists. */
module ClosestSubsetSum {
  import opened Sorting

  const MAX_INT: int := 0x7FFF_FFFF_FFFF_FFFF

  /** A number with its place in the original list. */
  datatype Item = Item(place: nat, value: int)
  type Subset = seq<Item>

  function SumIndexed(a: Subset): int {
    if a == [] then 0 else SumIndexed(a[..|a| - 1]) + a[|a| - 1].value
  }

  lemma {:induction false} SumOfConcat(a: Subset, b: Subset)
    ensures SumIndexed(a + b) == SumIndexed(a) + SumIndexed(b)
  {
    if b == [] {
      assert a + b == a;
    } else {
      assert (a + b)[..|a + b| - 1] == a + b[..|b| - 1];
      SumOfConcat(a, b[..|b| - 1]);
    }
  }

  method ComputeSum(a: Subset) returns (res: int)
    ensures res == SumIndexed(a)
  {
    res := 0;
    for i := 0 to |a|
      invariant res == SumIndexed(a[..i])
    {
      assert a[..i + 1][..i] == a[..i];
      res := res + a[i].value;
    }
    assert a[..|a|] == a;
  }

  function Sub(a: int, b: int): (d: int)
    ensures d == a - b
  {
    if a < b then -(b - a) else a - b
  }

  // ---- all subsets

  /** The items that a mask picks out. */
  function Chosen(nums: seq<Item>, mask: seq<bool>): Subset
    requires |nums| == |mask|
  {
    if nums == [] then []
    else (if mask[0] then [nums[0]] else []) + Chosen(nums[1..], mask[1..])
  }

  /** The non-empty subsets that extend chosen by items from place idx on, in the order they are listed. */
  function Extensions(nums: seq<Item>, idx: nat, chosen: Subset): seq<Subset>
    requires idx <= |nums|
    decreases |nums| - idx
  {
    if idx == |nums| then (if |chosen| > 0 then [chosen] else [])
    else Extensions(nums, idx + 1, chosen) + Extensions(nums, idx + 1, chosen + [nums[idx]])
  }

  method Extend(nums: seq<Item>, idx: nat, sumSoFar: Subset, listed: seq<Subset>) returns (res: seq<Subset>)
    requires idx <= |nums|
    ensures res == listed + Extensions(nums, idx, sumSoFar)
    decreases |nums| - idx
  {
    res := listed;
    if idx == |nums| {
      if |sumSoFar| > 0 {
        res := res + [sumSoFar];
      }
      return;
    }
    res := Extend(nums, idx + 1, sumSoFar, res);
    res := Extend(nums, idx + 1, sumSoFar + [nums[idx]], res);
  }

  method GetAllSumArr(nums: seq<Item>) returns (res: seq<Subset>)
    ensures res == Extensions(nums, 0, [])
  {
    res := Extend(nums, 0, [], []);
  }

  function Pow2(n: nat): nat {
    if n == 0 then 1 else 2 * Pow2(n - 1)
  }

  /** Each non-empty subset is listed, and nothing is listed twice: there are 2^n - 1 entries. */
  lemma {:induction false} ExtensionsCount(nums: seq<Item>, idx: nat, chosen: Subset)
    requires idx <= |nums|
    ensures |Extensions(nums, idx, chosen)| == Pow2(|nums| - idx) - if chosen == [] then 1 else 0
    decreases |nums| - idx
  {
    if idx < |nums| {
      ExtensionsCount(nums, idx + 1, chosen);
      ExtensionsCount(nums, idx + 1, chosen + [nums[idx]]);
    }
  }

  lemma {:induction false} ExtensionsComplete(nums: seq<Item>, idx: nat, chosen: Subset, mask: seq<bool>)
    requires idx <= |nums| && |mask| == |nums| - idx
    requires chosen + Chosen(nums[idx..], mask) != []
    ensures chosen + Chosen(nums[idx..], mask) in Extensions(nums, idx, chosen)
    decreases |nums| - idx
  {
    var tail := nums[idx..];
    if idx == |nums| {
      assert chosen + Chosen(tail, mask) == chosen;
    } else {
      assert tail[1..] == nums[idx + 1..] && tail[0] == nums[idx];
      var next := if mask[0] then chosen + [nums[idx]] else chosen;
      assert chosen + Chosen(tail, mask) == next + Chosen(nums[idx + 1..], mask[1..]);
      ExtensionsComplete(nums, idx + 1, next, mask[1..]);
    }
  }

  lemma {:induction false} ExtensionsSound(nums: seq<Item>, idx: nat, chosen: Subset, s: Subset) returns (mask: seq<bool>)
    requires idx <= |nums| && s in Extensions(nums, idx, chosen)
    ensures |mask| == |nums| - idx
    ensures s == chosen + Chosen(nums[idx..], mask) && s != []
    decreases |nums| - idx
  {
    var tail := nums[idx..];
    if idx == |nums| {
      mask := [];
      assert chosen + Chosen(tail, mask) == chosen;
    } else {
      assert tail[1..] == nums[idx + 1..] && tail[0] == nums[idx];
      var pick := s !in Extensions(nums, idx + 1, chosen);
      var next := if pick then chosen + [nums[idx]] else chosen;
      var rest := ExtensionsSound(nums, idx + 1, next, s);
      mask := [pick] + rest;
      assert mask[1..] == rest;
      assert chosen + Chosen(tail, mask) == next + Chosen(nums[idx + 1..], rest);
    }
  }

  // ---- the scan

  function PairSum(l: Subset, r: Subset): int {
    SumIndexed(l) + SumIndexed(r)
  }

  /** best is l + r for one pair whose excess is exactly delta. */
  ghost predicate Attained(left: seq<Subset>, right: seq<Subset>, goal: int, best: Subset, delta: int) {
    exists l, r :: l in left && r in right && PairSum(l, r) - goal == delta && best == l + r
  }

  /** No pair reaches the goal with an excess smaller than delta. */
  ghost predicate NoneCloser(left: seq<Subset>, right: seq<Subset>, goal: int, delta: int) {
    forall l, r :: l in left && r in right && PairSum(l, r) >= goal ==> PairSum(l, r) - goal >= delta
  }

  /** The pairs already passed, left of i or right of j, offer nothing closer than delta. */
  ghost predicate Passed(left: seq<Subset>, right: seq<Subset>, goal: int, i: int, j: int, delta: int) {
    forall p, q :: 0 <= p < |left| && 0 <= q < |right| && (p < i || q > j) ==>
      PairSum(left[p], right[q]) < goal || PairSum(left[p], right[q]) - goal >= delta
  }

  lemma StepLeft(left: seq<Subset>, right: seq<Subset>, goal: int, i: nat, j: nat, delta: int)
    requires SortedBy(right, SumIndexed) && i < |left| && j < |right|
    requires Passed(left, right, goal, i, j, delta) && PairSum(left[i], right[j]) < goal
    ensures Passed(left, right, goal, i + 1, j, delta)
  {
    forall q | 0 <= q <= j ensures PairSum(left[i], right[q]) < goal {
      assert SumIndexed(right[q]) <= SumIndexed(right[j]);
    }
  }

  lemma StepRight(left: seq<Subset>, right: seq<Subset>, goal: int, i: nat, j: nat, delta: int)
    requires SortedBy(left, SumIndexed) && i < |left| && j < |right|
    requires Passed(left, right, goal, i, j, delta) && PairSum(left[i], right[j]) - goal >= delta
    ensures Passed(left, right, goal, i, j - 1, delta)
  {
    forall p | i <= p < |left| ensures PairSum(left[p], right[j]) - goal >= delta {
      assert SumIndexed(left[i]) <= SumIndexed(left[p]);
    }
  }

  /**
   * One pass with two pointers finds the least non-negative excess over all pairs,
   * or returns the empty subset when every pair misses the goal.
   */
  method GetMinValArr(left: seq<Subset>, right: seq<Subset>, goal: int) returns (best: Subset, delta: int)
    requires SortedBy(left, SumIndexed) && SortedBy(right, SumIndexed)
    ensures NoneCloser(left, right, goal, delta)
    ensures if delta < MAX_INT then delta >= 0 && Attained(left, right, goal, best, delta)
            else delta == MAX_INT && best == []
  {
    best, delta := [], MAX_INT;
    var i, j := 0, |right| - 1;
    while i < |left| && j >= 0
      invariant 0 <= i <= |left| && -1 <= j < |right|
      invariant 0 <= delta <= MAX_INT
      invariant if delta < MAX_INT then Attained(left, right, goal, best, delta) else best == []
      invariant Passed(left, right, goal, i, j, delta)
      decreases |left| - i + j + 1
    {
      var leftItem := ComputeSum(left[i]);
      var rightItem := ComputeSum(right[j]);
      var sum := leftItem + rightItem;
      var d := Sub(sum, goal);
      if d >= 0 && d < delta {
        delta := d;
        best := left[i] + right[j];
        assert left[i] in left && right[j] in right && PairSum(left[i], right[j]) - goal == d;
      }
      if sum < goal {
        StepLeft(left, right, goal, i, j, delta);
        i := i + 1;
      } else if sum > goal {
        StepRight(left, right, goal, i, j, delta);
        j := j - 1;
      } else {
        break;
      }
    }
    ScanIsComplete(left, right, goal, i, j, delta);
  }

  lemma ScanIsComplete(left: seq<Subset>, right: seq<Subset>, goal: int, i: int, j: int, delta: int)
    requires Passed(left, right, goal, i, j, delta) && (delta <= 0 || i >= |left| || j < 0)
    ensures NoneCloser(left, right, goal, delta)
  {
    forall l, r | l in left && r in right && PairSum(l, r) >= goal
      ensures PairSum(l, r) - goal >= delta
    {
      var p :| 0 <= p < |left| && left[p] == l;
      var q :| 0 <= q < |right| && right[q] == r;
      if delta > 0 { assert p < i || q > j; }
    }
  }

  // ---- the search over a list of numbers

  function Numbered(numbers: seq<int>): (nums: seq<Item>)
    ensures |nums| == |numbers|
    ensures forall i :: 0 <= i < |nums| ==> nums[i] == Item(i, numbers[i])
  {
    seq(|numbers|, i requires 0 <= i < |numbers| => Item(i, numbers[i]))
  }

  function Half(numbers: seq<int>): (mid: nat)
    ensures 2 * mid <= |numbers| <= 2 * mid + 1
  {
    |numbers| / 2
  }

  /** A selection that takes something from each half of the list. */
  ghost predicate TakesFromBothHalves(numbers: seq<int>, mask: seq<bool>) {
    |mask| == |numbers| &&
    Chosen(Numbered(numbers)[..Half(numbers)], mask[..Half(numbers)]) != [] &&
    Chosen(Numbered(numbers)[Half(numbers)..], mask[Half(numbers)..]) != []
  }

  lemma {:induction false} ChosenOfConcat(a: seq<Item>, b: seq<Item>, ma: seq<bool>, mb: seq<bool>)
    requires |a| == |ma| && |b| == |mb|
    ensures Chosen(a + b, ma + mb) == Chosen(a, ma) + Chosen(b, mb)
  {
    if a == [] {
      assert a + b == b && ma + mb == mb;
    } else {
      assert (a + b)[1..] == a[1..] + b && (ma + mb)[1..] == ma[1..] + mb;
      ChosenOfConcat(a[1..], b, ma[1..], mb);
      var first: seq<Item> := if ma[0] then [a[0]] else [];
      assert first + (Chosen(a[1..], ma[1..]) + Chosen(b, mb)) == (first + Chosen(a[1..], ma[1..])) + Chosen(b, mb);
    }
  }

  function PlacesOf(s: Subset): (r: seq<nat>)
    ensures |r| == |s| && forall k :: 0 <= k < |r| ==> r[k] == s[k].place
  {
    seq(|s|, k requires 0 <= k < |s| => s[k].place)
  }

  /** Excess of the subset a mask selects over the goal. */
  ghost function Excess(numbers: seq<int>, mask: seq<bool>, goal: int): int
    requires |mask| == |numbers|
  {
    SumIndexed(Chosen(Numbered(numbers), mask)) - goal
  }

  /** Splitting a selection at the middle gives one listed subset of each half, with the same sum. */
  lemma SelectionSplits(numbers: seq<int>, mask: seq<bool>)
    requires TakesFromBothHalves(numbers, mask)
    ensures var nums, mid := Numbered(numbers), Half(numbers);
            var l, r := Chosen(nums[..mid], mask[..mid]), Chosen(nums[mid..], mask[mid..]);
            l in Extensions(nums[..mid], 0, []) && r in Extensions(nums[mid..], 0, [])
            && Chosen(nums, mask) == l + r && SumIndexed(l + r) == PairSum(l, r)
  {
    var nums, mid := Numbered(numbers), Half(numbers);
    var left, right := nums[..mid], nums[mid..];
    var l, r := Chosen(left, mask[..mid]), Chosen(right, mask[mid..]);
    assert left[0..] == left && right[0..] == right && [] + l == l && [] + r == r;
    ExtensionsComplete(left, 0, [], mask[..mid]);
    ExtensionsComplete(right, 0, [], mask[mid..]);
    assert mask == mask[..mid] + mask[mid..] && nums == left + right;
    ChosenOfConcat(left, right, mask[..mid], mask[mid..]);
    SumOfConcat(l, r);
  }

  lemma ListedIsChosen(nums: seq<Item>, s: Subset) returns (mask: seq<bool>)
    requires s in Extensions(nums, 0, [])
    ensures |mask| == |nums| && s == Chosen(nums, mask) && s != []
  {
    mask := ExtensionsSound(nums, 0, [], s);
    assert nums[0..] == nums && [] + Chosen(nums, mask) == Chosen(nums, mask);
  }

  /** Conversely, two listed subsets make up a selection that takes from both halves. */
  lemma PairIsSelection(numbers: seq<int>, l: Subset, r: Subset) returns (mask: seq<bool>)
    requires l in Extensions(Numbered(numbers)[..Half(numbers)], 0, [])
    requires r in Extensions(Numbered(numbers)[Half(numbers)..], 0, [])
    ensures TakesFromBothHalves(numbers, mask)
    ensures Chosen(Numbered(numbers), mask) == l + r && SumIndexed(l + r) == PairSum(l, r)
  {
    var nums, mid := Numbered(numbers), Half(numbers);
    var left, right := nums[..mid], nums[mid..];
    var ml := ListedIsChosen(left, l);
    var mr := ListedIsChosen(right, r);
    assert nums == left + right;
    mask := ml + mr;
    assert mask[..mid] == ml && mask[mid..] == mr;
    ChosenOfConcat(left, right, ml, mr);
    SumOfConcat(l, r);
  }

  /** A selection that takes from both halves, reaches the goal with this excess and has these places. */
  ghost predicate Reaches(numbers: seq<int>, goal: int, mask: seq<bool>, indexes: seq<nat>, delta: int) {
    TakesFromBothHalves(numbers, mask) && Excess(numbers, mask, goal) == delta
    && indexes == PlacesOf(Chosen(Numbered(numbers), mask))
  }

  ghost predicate ClosestAcross(numbers: seq<int>, goal: int, delta: int) {
    forall mask :: TakesFromBothHalves(numbers, mask) && Excess(numbers, mask, goal) >= 0
      ==> Excess(numbers, mask, goal) >= delta
  }

  /** What the search answers: the closest selection from both halves, or nothing. */
  ghost predicate Found(numbers: seq<int>, goal: int, indexes: seq<nat>, delta: int) {
    && ClosestAcross(numbers, goal, delta)
    && if delta < MAX_INT then delta >= 0 && exists mask :: Reaches(numbers, goal, mask, indexes, delta)
       else delta == MAX_INT && indexes == []
  }

  /**
   * Among the selections that take something from both halves and reach the goal, the one returned has the
   * least excess; when there is none (within the range of a machine integer) the result is empty. It is the
   * closest of all selections exactly when the halves are matched.
   */
  method FindClosest(numbers: seq<int>, goal: int) returns (indexes: seq<nat>, delta: int)
    ensures Found(numbers, goal, indexes, delta)
    ensures ClosestOverall(numbers, goal, delta) <==> HalvesMatched(numbers, goal)
  {
    var nums := Numbered(numbers);
    var mid := Half(numbers);
    var leftAll := GetAllSumArr(nums[..mid]);
    var rightAll := GetAllSumArr(nums[mid..]);
    var leftSum := SortBy(leftAll, SumIndexed);
    var rightSum := SortBy(rightAll, SumIndexed);
    var best;
    best, delta := GetMinValArr(leftSum, rightSum, goal);
    indexes := PlacesOf(best);
    assert forall s :: s in leftSum <==> s in multiset(leftSum);
    assert forall s :: s in rightSum <==> s in multiset(rightSum);
    forall mask | TakesFromBothHalves(numbers, mask) && Excess(numbers, mask, goal) >= 0
      ensures Excess(numbers, mask, goal) >= delta
    {
      SelectionSplits(numbers, mask);
    }
    if delta < MAX_INT {
      ghost var l, r :| l in leftSum && r in rightSum && PairSum(l, r) - goal == delta && best == l + r;
      ghost var mask := PairIsSelection(numbers, l, r);
      assert Reaches(numbers, goal, mask, indexes, delta);
    }
    ClosestWhenMatched(numbers, goal, indexes, delta);
  }

  /** What the search is documented to find: no selection that reaches the goal is closer than delta. */
  ghost predicate ClosestOverall(numbers: seq<int>, goal: int, delta: int) {
    forall mask :: |mask| == |numbers| && Chosen(Numbered(numbers), mask) != [] && Excess(numbers, mask, goal) >= 0
      ==> Excess(numbers, mask, goal) >= delta
  }

  /** A selection that takes something from one half only. */
  ghost predicate TakesFromOneHalf(numbers: seq<int>, mask: seq<bool>) {
    |mask| == |numbers| && Chosen(Numbered(numbers), mask) != [] && !TakesFromBothHalves(numbers, mask)
  }

  /** Some selection that takes from both halves reaches the goal with an excess of at most this. */
  ghost predicate ReachedAcross(numbers: seq<int>, goal: int, excess: int) {
    exists mask :: TakesFromBothHalves(numbers, mask) && 0 <= Excess(numbers, mask, goal) <= excess
  }

  /** Wherever one half reaches the goal, some selection from both halves is at least as close. */
  ghost predicate HalvesMatched(numbers: seq<int>, goal: int) {
    forall mask :: TakesFromOneHalf(numbers, mask) && 0 <= Excess(numbers, mask, goal) < MAX_INT
      ==> ReachedAcross(numbers, goal, Excess(numbers, mask, goal))
  }

  /** The answer is the closest of all selections if and only if the halves of the list are matched. */
  lemma ClosestWhenMatched(numbers: seq<int>, goal: int, indexes: seq<nat>, delta: int)
    requires Found(numbers, goal, indexes, delta)
    ensures ClosestOverall(numbers, goal, delta) <==> HalvesMatched(numbers, goal)
  {
    if ClosestOverall(numbers, goal, delta) {
      forall mask | TakesFromOneHalf(numbers, mask) && 0 <= Excess(numbers, mask, goal) < MAX_INT
        ensures ReachedAcross(numbers, goal, Excess(numbers, mask, goal))
      {
        var best :| Reaches(numbers, goal, best, indexes, delta);
      }
    }
    if HalvesMatched(numbers, goal) {
      forall mask | |mask| == |numbers| && Chosen(Numbered(numbers), mask) != [] && Excess(numbers, mask, goal) >= 0
        ensures Excess(numbers, mask, goal) >= delta
      {
        if TakesFromOneHalf(numbers, mask) && Excess(numbers, mask, goal) < MAX_INT {
          assert ReachedAcross(numbers, goal, Excess(numbers, mask, goal));
        }
      }
    }
  }

  /** With non-negative values a selection sums to at least zero, and to at most the total. */
  lemma {:induction false} ChosenWithinTotal(nums: seq<Item>, mask: seq<bool>)
    requires |nums| == |mask| && forall i :: 0 <= i < |nums| ==> nums[i].value >= 0
    ensures 0 <= SumIndexed(Chosen(nums, mask)) <= SumIndexed(nums)
  {
    if nums != [] {
      var first: Subset := if mask[0] then [nums[0]] else [];
      ChosenWithinTotal(nums[1..], mask[1..]);
      SumOfConcat(first, Chosen(nums[1..], mask[1..]));
      SumOfConcat([nums[0]], nums[1..]);
      assert nums == [nums[0]] + nums[1..] && [nums[0]][..0] == [];
    }
  }

  lemma OneHalfMisses(left: seq<Item>, right: seq<Item>, ml: seq<bool>, mr: seq<bool>, goal: int)
    requires |left| == |ml| && |right| == |mr|
    requires (forall i :: 0 <= i < |left| ==> left[i].value >= 0) && forall i :: 0 <= i < |right| ==> right[i].value >= 0
    requires SumIndexed(left) < goal && SumIndexed(right) < goal
    requires Chosen(left, ml) == [] || Chosen(right, mr) == []
    ensures SumIndexed(Chosen(left + right, ml + mr)) < goal
  {
    ChosenOfConcat(left, right, ml, mr);
    SumOfConcat(Chosen(left, ml), Chosen(right, mr));
    ChosenWithinTotal(left, ml);
    ChosenWithinTotal(right, mr);
  }

  /** A cheap test that is enough: the numbers are not negative, and neither half adds up to the goal. */
  lemma SmallHalvesAreMatched(numbers: seq<int>, goal: int)
    requires forall i :: 0 <= i < |numbers| ==> numbers[i] >= 0
    requires SumIndexed(Numbered(numbers)[..Half(numbers)]) < goal && SumIndexed(Numbered(numbers)[Half(numbers)..]) < goal
    ensures HalvesMatched(numbers, goal)
  {
    forall mask | TakesFromOneHalf(numbers, mask) ensures Excess(numbers, mask, goal) < 0 {
      OneHalfMisses(Numbered(numbers)[..Half(numbers)], Numbered(numbers)[Half(numbers)..],
                    mask[..Half(numbers)], mask[Half(numbers)..], goal);
      assert Numbered(numbers) == Numbered(numbers)[..Half(numbers)] + Numbered(numbers)[Half(numbers)..];
      assert mask == mask[..Half(numbers)] + mask[Half(numbers)..];
    }
  }

  lemma TwoNumbers(a: int, b: int, mask: seq<bool>, goal: int)
    requires |mask| == 2
    ensures Excess([a, b], mask, goal) == (if mask[0] then a else 0) + (if mask[1] then b else 0) - goal
    ensures Chosen(Numbered([a, b]), mask) != [] <==> mask[0] || mask[1]
    ensures TakesFromBothHalves([a, b], mask) <==> mask[0] && mask[1]
    ensures mask[0] && mask[1] ==> PlacesOf(Chosen(Numbered([a, b]), mask)) == [0, 1]
  {
    var nums := Numbered([a, b]);
    var l, r := nums[..1], nums[1..];
    assert Chosen(l, mask[..1]) == (if mask[0] then [nums[0]] else []) by {
      assert Chosen(l[1..], mask[..1][1..]) == [];
    }
    assert Chosen(r, mask[1..]) == (if mask[1] then [nums[1]] else []) by {
      assert Chosen(r[1..], mask[1..][1..]) == [];
    }
    var c := Chosen(nums, mask);
    assert c == (if mask[0] then [nums[0]] else []) + (if mask[1] then [nums[1]] else []);
    SumOfConcat(if mask[0] then [nums[0]] else [], if mask[1] then [nums[1]] else []);
    assert [nums[0]][..0] == [] && [nums[1]][..0] == [];
  }

  /** For the numbers 5 and 10 and the goal 5 the search answers both, 10 too much, although 5 alone is exact. */
  lemma OneHalfIsMissed(indexes: seq<nat>, delta: int)
    requires Found([5, 10], 5, indexes, delta)
    ensures delta == 10 && indexes == [0, 1]
    ensures !ClosestOverall([5, 10], 5, delta) && !HalvesMatched([5, 10], 5)
  {
    TwoNumbers(5, 10, [true, true], 5);
    TwoNumbers(5, 10, [true, false], 5);
    assert Excess([5, 10], [true, true], 5) >= delta;
    var mask :| Reaches([5, 10], 5, mask, indexes, delta);
    TwoNumbers(5, 10, mask, 5);
    ClosestWhenMatched([5, 10], 5, indexes, delta);
  }
}
