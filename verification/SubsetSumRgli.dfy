/** The randomised subset-sum search: greedy selection in random order, then swaps, best of fifty trials. */
module SubsetSumRgli {
  import opened Sums
  import opened Wrappers

  const RGLI_TRIALS: nat := 50
  const MAX_INT: int := 0x7FFF_FFFF_FFFF_FFFF

  function AbsInt(a: int): int {
    if a < 0 then -a else a
  }

  // ---- masks

  /** Sum of the selected values among the first n. */
  function SelectedSum(mask: seq<bool>, values: seq<int>, n: nat): int
    requires n <= |mask| == |values|
  {
    if n == 0 then 0
    else SelectedSum(mask, values, n - 1) + if mask[n - 1] then values[n - 1] else 0
  }

  function Gap(mask: seq<bool>, values: seq<int>, target: int): int
    requires |mask| == |values|
  {
    target - SelectedSum(mask, values, |mask|)
  }

  /** The places below n that hold val, in increasing order. */
  function Places(mask: seq<bool>, val: bool, n: nat): (r: seq<nat>)
    requires n <= |mask|
    ensures forall i :: i in r <==> 0 <= i < n && mask[i] == val
    ensures forall k :: 0 <= k < |r| ==> r[k] < n
    ensures forall j, k :: 0 <= j < k < |r| ==> r[j] < r[k]
  {
    if n == 0 then []
    else
      var r := Places(mask, val, n - 1);
      if mask[n - 1] == val then r + [n - 1] else r
  }

  /** Sum of the values at the first k of the places listed. */
  function SumFirst(values: seq<int>, places: seq<nat>, k: nat): int
    requires k <= |places|
    requires forall j :: 0 <= j < |places| ==> places[j] < |values|
  {
    if k == 0 then 0 else SumFirst(values, places, k - 1) + values[places[k - 1]]
  }

  function SumAt(values: seq<int>, places: seq<nat>): int
    requires forall k :: 0 <= k < |places| ==> places[k] < |values|
  {
    SumFirst(values, places, |places|)
  }

  lemma {:induction false} SumFirstSame(values: seq<int>, p: seq<nat>, q: seq<nat>, k: nat)
    requires k <= |p| && k <= |q|
    requires forall j :: 0 <= j < |p| ==> p[j] < |values|
    requires forall j :: 0 <= j < |q| ==> q[j] < |values|
    requires forall j :: 0 <= j < k ==> p[j] == q[j]
    ensures SumFirst(values, p, k) == SumFirst(values, q, k)
  {
    if k > 0 { SumFirstSame(values, p, q, k - 1); }
  }

  lemma {:induction false} SumAtPlaces(mask: seq<bool>, values: seq<int>, n: nat)
    requires n <= |mask| == |values|
    ensures SumAt(values, Places(mask, true, n)) == SelectedSum(mask, values, n)
  {
    if n > 0 {
      SumAtPlaces(mask, values, n - 1);
      var r, all := Places(mask, true, n - 1), Places(mask, true, n);
      if mask[n - 1] {
        SumFirstSame(values, r, all, |r|);
      }
    }
  }

  lemma {:induction false} SelectOne(mask: seq<bool>, values: seq<int>, i: nat, val: bool, n: nat)
    requires i < |mask| == |values| && n <= |mask|
    ensures SelectedSum(mask[i := val], values, n) ==
            SelectedSum(mask, values, n)
            + if i < n then (if val then values[i] else 0) - (if mask[i] then values[i] else 0) else 0
  {
    if n > 0 { SelectOne(mask, values, i, val, n - 1); }
  }

  lemma {:induction false} CountOne(mask: seq<bool>, i: nat, val: bool, n: nat)
    requires i < |mask| && n <= |mask|
    ensures |Places(mask[i := val], true, n)| ==
            |Places(mask, true, n)| + if i < n then (if val then 1 else 0) - (if mask[i] then 1 else 0) else 0
  {
    if n > 0 { CountOne(mask, i, val, n - 1); }
  }

  ghost predicate AllSelected(mask: seq<bool>) {
    forall i :: 0 <= i < |mask| ==> mask[i]
  }

  /** The sum of all values. */
  function Total(values: seq<int>): int {
    SelectedSum(seq(|values|, _ => true), values, |values|)
  }

  lemma {:induction false} SelectedSumOfAll(mask: seq<bool>, values: seq<int>, n: nat)
    requires n <= |mask| == |values| && AllSelected(mask)
    ensures SelectedSum(mask, values, n) == SelectedSum(seq(|values|, _ => true), values, n)
  {
    if n > 0 { SelectedSumOfAll(mask, values, n - 1); }
  }

  /** With non-negative values a selection sums to at least zero, and to at most the total. */
  lemma {:induction false} SelectedSumBounds(mask: seq<bool>, values: seq<int>, n: nat)
    requires n <= |mask| == |values|
    requires forall i :: 0 <= i < |values| ==> values[i] >= 0
    ensures 0 <= SelectedSum(mask, values, n) <= SelectedSum(seq(|values|, _ => true), values, n)
  {
    if n > 0 { SelectedSumBounds(mask, values, n - 1); }
  }

  /**
   * A selection as the first phase leaves it when the target is reached: it reaches the target, but would not
   * without the value selected last. For a target of zero nothing is selected.
   */
  ghost predicate FirstReach(mask: seq<bool>, values: seq<int>, target: int)
    requires |mask| == |values|
  {
    && Gap(mask, values, target) <= 0
    && if target <= 0 then forall i :: 0 <= i < |mask| ==> !mask[i]
       else exists last :: 0 <= last < |values| && mask[last] && Gap(mask, values, target) + values[last] > 0
  }

  /** A value not selected is larger than the one at e, by less than twice the excess over the target. */
  ghost predicate Replaceable(mask: seq<bool>, values: seq<int>, excess: int, e: int)
    requires |mask| == |values| && 0 <= e < |mask|
  {
    exists j :: 0 <= j < |mask| && !mask[j] && 0 < values[j] - values[e] < 2 * excess
  }

  ghost predicate Exchangeable(mask: seq<bool>, values: seq<int>, excess: int)
    requires |mask| == |values|
  {
    exists e :: 0 <= e < |mask| && mask[e] && Replaceable(mask, values, excess, e)
  }

  /**
   * What the second phase makes of a selection: as many values that exceed the target by more, if some selected value
   * can be exchanged, and else the same selection.
   */
  ghost predicate Exchanges(start: seq<bool>, mask: seq<bool>, values: seq<int>, target: int)
    requires |start| == |mask| == |values|
  {
    if Exchangeable(start, values, -Gap(start, values, target)) then
      && |Places(mask, true, |values|)| == |Places(start, true, |values|)|
      && Gap(mask, values, target) < Gap(start, values, target) < 0
    else mask == start
  }

  /** How a trial ends that reaches the target. */
  ghost predicate TrialEnd(mask: seq<bool>, values: seq<int>, target: int)
    requires |mask| == |values|
  {
    exists start: seq<bool> ::
      |start| == |values| && FirstReach(start, values, target) && Exchanges(start, mask, values, target)
  }

  /** Places in increasing order whose values reach the target, which they would not without one of them. */
  ghost predicate FirstPlaces(places: seq<nat>, values: seq<int>, target: int) {
    && (forall j, k :: 0 <= j < k < |places| ==> places[j] < places[k])
    && (forall k :: 0 <= k < |places| ==> places[k] < |values|)
    && SumAt(values, places) >= target
    && if target <= 0 then places == []
       else exists k :: 0 <= k < |places| && SumAt(values, places) - values[places[k]] < target
  }

  /** One of the values at these places can be exchanged for a larger one that is not among them. */
  ghost predicate ExchangeableAt(places: seq<nat>, values: seq<int>, excess: int)
    requires forall k :: 0 <= k < |places| ==> places[k] < |values|
  {
    exists k, j :: 0 <= k < |places| && 0 <= j < |values| && j !in places
      && 0 < values[j] - values[places[k]] < 2 * excess
  }

  /** The places where a trial ends, in terms of those where its first phase did. */
  ghost predicate EndPlaces(places: seq<nat>, values: seq<int>, target: int)
    requires forall k :: 0 <= k < |places| ==> places[k] < |values|
  {
    exists start :: FirstPlaces(start, values, target)
      && if ExchangeableAt(start, values, SumAt(values, start) - target)
         then |places| == |start| && target < SumAt(values, start) < SumAt(values, places)
         else places == start
  }

  lemma {:induction false} NoPlaces(mask: seq<bool>, n: nat)
    requires n <= |mask| && forall i :: 0 <= i < |mask| ==> !mask[i]
    ensures Places(mask, true, n) == []
  {
    if n > 0 { NoPlaces(mask, n - 1); }
  }

  lemma FirstReachPlaces(mask: seq<bool>, values: seq<int>, target: int)
    requires |mask| == |values| && FirstReach(mask, values, target)
    ensures FirstPlaces(Places(mask, true, |values|), values, target)
  {
    var places := Places(mask, true, |values|);
    SumAtPlaces(mask, values, |values|);
    if target <= 0 {
      NoPlaces(mask, |values|);
    } else {
      var last :| 0 <= last < |values| && mask[last] && Gap(mask, values, target) + values[last] > 0;
      assert last in places;
      var k :| 0 <= k < |places| && places[k] == last;
    }
  }

  lemma TrialEndPlaces(mask: seq<bool>, values: seq<int>, target: int)
    requires |mask| == |values| && TrialEnd(mask, values, target)
    ensures EndPlaces(Places(mask, true, |values|), values, target)
  {
    var start: seq<bool> :|
      |start| == |values| && FirstReach(start, values, target) && Exchanges(start, mask, values, target);
    FirstReachPlaces(start, values, target);
    ExchangedPlaces(start, mask, values, target, Places(start, true, |values|), Places(mask, true, |values|));
  }

  lemma ExchangedPlaces(start: seq<bool>, mask: seq<bool>, values: seq<int>, target: int, first: seq<nat>, places: seq<nat>)
    requires |start| == |mask| == |values| && Exchanges(start, mask, values, target)
    requires Same(first, Places(start, true, |values|)) && Same(places, Places(mask, true, |values|))
    requires FirstPlaces(first, values, target)
    ensures EndPlaces(places, values, target)
  {
    SumAtPlaces(start, values, |values|);
    SumAtPlaces(mask, values, |values|);
    ExchangeablePlaces(start, values, -Gap(start, values, target), first);
    EndsFrom(first, places, values, target);
  }

  lemma EndsFrom(start: seq<nat>, places: seq<nat>, values: seq<int>, target: int)
    requires FirstPlaces(start, values, target) && forall k :: 0 <= k < |places| ==> places[k] < |values|
    requires if ExchangeableAt(start, values, SumAt(values, start) - target)
             then |places| == |start| && target < SumAt(values, start) < SumAt(values, places)
             else places == start
    ensures EndPlaces(places, values, target)
  {
  }

  lemma ExchangeablePlaces(mask: seq<bool>, values: seq<int>, excess: int, places: seq<nat>)
    requires |mask| == |values| && Same(places, Places(mask, true, |values|))
    ensures ExchangeableAt(places, values, excess) <==> Exchangeable(mask, values, excess)
  {
    if Exchangeable(mask, values, excess) {
      var e :| 0 <= e < |mask| && mask[e] && Replaceable(mask, values, excess, e);
      assert e in places;
      var k :| 0 <= k < |places| && places[k] == e;
      var j :| 0 <= j < |mask| && !mask[j] && 0 < values[j] - values[places[k]] < 2 * excess;
      assert j !in places;
    }
    if ExchangeableAt(places, values, excess) { PlacesExchangeable(mask, values, excess, places); }
  }

  lemma PlacesExchangeable(mask: seq<bool>, values: seq<int>, excess: int, places: seq<nat>)
    requires |mask| == |values| && Same(places, Places(mask, true, |values|)) && ExchangeableAt(places, values, excess)
    ensures Exchangeable(mask, values, excess)
  {
    var k, j :| 0 <= k < |places| && 0 <= j < |values| && j !in places
                && 0 < values[j] - values[places[k]] < 2 * excess;
    assert places[k] in places && mask[places[k]] && !mask[j];
    assert Replaceable(mask, values, excess, places[k]);
  }

  // ---- the pieces of the search

  method Which(mask: array<bool>, val: bool) returns (res: seq<nat>)
    ensures res == Places(mask[..], val, mask.Length)
  {
    res := [];
    for i := 0 to mask.Length
      invariant res == Places(mask[..], val, i)
    {
      if mask[i] == val {
        res := res + [i];
      }
    }
  }

  /** How far the selected values fall short of the target. */
  method Delta(mask: array<bool>, values: seq<int>, target: int) returns (d: int)
    requires mask.Length == |values|
    ensures d == Gap(mask[..], values, target)
  {
    var sum := 0;
    for i := 0 to mask.Length
      invariant sum == SelectedSum(mask[..], values, i)
    {
      if mask[i] {
        sum := sum + values[i];
      }
    }
    d := target - sum;
  }

  lemma Exchanged(s: seq<nat>, i: nat, j: nat)
    requires i < |s| && j < |s|
    ensures multiset(s[i := s[j]][j := s[i]]) == multiset(s)
    ensures Distinct(s) ==> Distinct(s[i := s[j]][j := s[i]])
  {
  }

  /** Any permutation: the places swapped are arbitrary. */
  method Shuffle(a: seq<nat>) returns (dest: seq<nat>)
    ensures |dest| == |a| && multiset(dest) == multiset(a)
    ensures forall x :: x in dest <==> x in a
    ensures Distinct(a) ==> Distinct(dest)
  {
    dest := a;
    var i := |dest| - 1;
    while i > 0
      invariant |dest| == |a| && i < |dest|
      invariant multiset(dest) == multiset(a)
      invariant Distinct(a) ==> Distinct(dest)
    {
      var j: nat :| j <= i;
      Exchanged(dest, i, j);
      dest := dest[i := dest[j]][j := dest[i]];
      i := i - 1;
    }
    assert forall x :: x in dest <==> x in multiset(dest);
    assert forall x :: x in a <==> x in multiset(a);
  }

  method IncRange(n: nat) returns (res: seq<nat>)
    ensures Distinct(res) && forall i :: i in res <==> 0 <= i < n
  {
    res := [];
    for i := 0 to n
      invariant |res| == i && forall k :: 0 <= k < i ==> res[k] == k
    {
      res := res + [i];
    }
    forall i | 0 <= i < n ensures i in res { assert res[i] == i; }
  }

  method SelectIn(mask: array<bool>, values: seq<int>, v: nat, target: int)
    requires v < mask.Length == |values|
    modifies mask
    ensures mask[..] == old(mask[..])[v := true]
    ensures Gap(mask[..], values, target) == Gap(old(mask[..]), values, target) - if old(mask[v]) then 0 else values[v]
  {
    SelectOne(mask[..], values, v, true, |values|);
    mask[v] := true;
  }

  /**
   * First phase. Values are selected in random order for as long as the target is not reached. Either
   * everything is selected and the target missed, or the target is reached and the value selected last
   * was needed for it.
   */
  method SelectGreedily(values: seq<int>, target: int) returns (mask: array<bool>)
    ensures fresh(mask) && mask.Length == |values|
    ensures Gap(mask[..], values, target) > 0 ==> AllSelected(mask[..])
    ensures Gap(mask[..], values, target) <= 0 ==> FirstReach(mask[..], values, target)
  {
    mask := new bool[|values|](_ => false);
    NothingSelected(mask[..], values, |values|);
    var range := IncRange(|values|);
    var order := Shuffle(range);
    ghost var last := -1;
    assert forall p :: 0 <= p < |order| ==> order[p] in order;
    for k := 0 to |order|
      invariant mask.Length == |values| && Distinct(order) && forall p :: 0 <= p < |order| ==> order[p] < |values|
      invariant GreedyAt(mask[..], values, target, order, k, last)
    {
      var d := Delta(mask, values, target);
      if d > 0 {
        GreedySelects(mask[..], values, target, order, k, last);
        SelectIn(mask, values, order[k], target);
        last := order[k];
      }
    }
    GreedyEnds(mask[..], values, target, order, last);
  }

  /** The first phase after the first k places of the order; last is the one selected last. */
  ghost predicate GreedyAt(mask: seq<bool>, values: seq<int>, target: int, order: seq<nat>, k: nat, last: int)
    requires |mask| == |values| && k <= |order|
  {
    && SelectedLast(mask, values, target, last)
    && (forall p :: k <= p < |order| && order[p] < |mask| ==> !mask[order[p]])
    && (Gap(mask, values, target) > 0 ==> forall p :: 0 <= p < k && order[p] < |mask| ==> mask[order[p]])
  }

  lemma GreedySelects(mask: seq<bool>, values: seq<int>, target: int, order: seq<nat>, k: nat, last: int)
    requires |mask| == |values| && k < |order| && Distinct(order) && order[k] < |values|
    requires GreedyAt(mask, values, target, order, k, last) && Gap(mask, values, target) > 0
    ensures GreedyAt(mask[order[k] := true], values, target, order, k + 1, order[k])
  {
    SelectOne(mask, values, order[k], true, |values|);
  }

  lemma GreedyEnds(mask: seq<bool>, values: seq<int>, target: int, order: seq<nat>, last: int)
    requires |mask| == |values| && GreedyAt(mask, values, target, order, |order|, last)
    requires forall i :: 0 <= i < |values| ==> i in order
    ensures Gap(mask, values, target) > 0 ==> AllSelected(mask)
    ensures Gap(mask, values, target) <= 0 ==> FirstReach(mask, values, target)
  {
    forall i | 0 <= i < |values| && Gap(mask, values, target) > 0 ensures mask[i] {
      assert i in order;
    }
  }

  /** What the first phase has selected last, and that the target was not reached without it. */
  ghost predicate SelectedLast(mask: seq<bool>, values: seq<int>, target: int, last: int)
    requires |mask| == |values|
  {
    if last == -1 then Gap(mask, values, target) == target && forall i :: 0 <= i < |mask| ==> !mask[i]
    else target > 0 && 0 <= last < |values| && mask[last] && Gap(mask, values, target) + values[last] > 0
  }

  lemma {:induction false} NothingSelected(mask: seq<bool>, values: seq<int>, n: nat)
    requires n <= |mask| == |values|
    requires forall i :: 0 <= i < |mask| ==> !mask[i]
    ensures SelectedSum(mask, values, n) == 0
  {
    if n > 0 { NothingSelected(mask, values, n - 1); }
  }

  /** The last unselected place that passes the test of the source for e; -1 if none does. */
  ghost predicate Accepts(mask: seq<bool>, values: seq<int>, e: nat, gap: int, r: int)
    requires e < |mask| == |values|
  {
    && -1 <= r < |values|
    && (r >= 0 ==> !mask[r] && AbsInt(values[r] - values[e] + gap) < AbsInt(gap))
    && forall j :: r < j < |values| && !mask[j] ==> AbsInt(values[j] - values[e] + gap) >= AbsInt(gap)
  }

  /**
   * The unselected place that the source accepts in exchange for e: the last one that passes its test.
   * The test adds the change of the sum to the shortfall, so once the target is reached it only
   * accepts larger values.
   */
  method FindReplacement(mask: array<bool>, values: seq<int>, e: nat, gap: int) returns (r: int)
    requires mask.Length == |values| && e < |values|
    ensures Accepts(mask[..], values, e, gap, r)
  {
    r := -1;
    for j := 0 to |values|
      invariant -1 <= r < j
      invariant r >= 0 ==> !mask[r] && AbsInt(values[r] - values[e] + gap) < AbsInt(gap)
      invariant forall p :: r < p < j && !mask[p] ==> AbsInt(values[p] - values[e] + gap) >= AbsInt(gap)
    {
      var d := values[j] - values[e];
      if !mask[j] && AbsInt(d + gap) < AbsInt(gap) {
        r := j;
      }
    }
  }

  /**
   * Second phase. Each selected value is exchanged once, in the given order, if a replacement is accepted for it then.
   * After a greedy selection no exchange improves: if any value can be exchanged the selection moves further above the
   * target, and else the mask stays as it was.
   */
  method Swap(mask: array<bool>, values: seq<int>, target: int) returns (order: seq<nat>, ghost masks: seq<seq<bool>>)
    requires mask.Length == |values|
    requires Gap(mask[..], values, target) > 0 ==> AllSelected(mask[..])
    modifies mask
    ensures multiset(order) == multiset(Places(old(mask[..]), true, |values|))
    ensures SwapsInOrder(old(mask[..]), mask[..], values, target, order, masks)
    ensures |masks| == |order| + 1 || Gap(mask[..], values, target) == 0
    ensures |Places(mask[..], true, |values|)| == |Places(old(mask[..]), true, |values|)|
    ensures Exchanges(old(mask[..]), mask[..], values, target)
  {
    ghost var start, excess := mask[..], -Gap(mask[..], values, target);
    var selected := Which(mask, true);
    order := Shuffle(selected);
    assert forall p :: 0 <= p < |order| ==> order[p] in order;
    masks := [start];
    var k, met := 0, false;
    while k < |order| && !met
      invariant 0 <= k <= |order| && mask.Length == |values| && |masks| == k + 1
      invariant SwapsInOrder(start, mask[..], values, target, order, masks)
      invariant SwapAt(start, mask[..], values, target, order, k, excess)
      invariant met ==> Gap(mask[..], values, target) == 0
      decreases |order| - k, !met
    {
      met, masks := SwapNext(mask, values, target, order, k, start, excess, masks);
      k := if met then k else k + 1;
    }
    SwapEnds(start, mask[..], values, target, order, k, excess);
  }

  /** The exchange of one selected value, if something is accepted for it, unless the target is met. */
  method SwapNext(mask: array<bool>, values: seq<int>, target: int, order: seq<nat>, k: nat,
                  ghost start: seq<bool>, ghost excess: int, ghost masks: seq<seq<bool>>)
    returns (met: bool, ghost next: seq<seq<bool>>)
    requires mask.Length == |values| && k < |order| && |masks| == k + 1
    requires SwapsInOrder(start, mask[..], values, target, order, masks)
    requires SwapAt(start, mask[..], values, target, order, k, excess)
    modifies mask
    ensures met ==> Same(mask[..], old(mask[..])) && Gap(mask[..], values, target) == 0 && next == masks
    ensures !met ==> |next| == k + 2 && SwapsInOrder(start, mask[..], values, target, order, next)
    ensures !met ==> SwapAt(start, mask[..], values, target, order, k + 1, excess)
  {
    var gap := Delta(mask, values, target);
    met, next := gap == 0, masks;
    if !met {
      ghost var before := mask[..];
      var r := SwapPlace(mask, values, target, order, k, gap, start, excess);
      SwapsOneMore(start, before, mask[..], values, target, order, masks, r);
      next := masks + [mask[..]];
    }
  }

  method SwapPlace(mask: array<bool>, values: seq<int>, target: int, order: seq<nat>, k: nat, gap: int,
                   ghost start: seq<bool>, ghost excess: int) returns (r: int)
    requires mask.Length == |values| && k < |order| && gap == Gap(mask[..], values, target) != 0
    requires SwapAt(start, mask[..], values, target, order, k, excess)
    modifies mask
    ensures SwapAt(start, mask[..], values, target, order, k + 1, excess)
    ensures Accepts(old(mask[..]), values, order[k], gap, r) && Same(mask[..], WithExchange(old(mask[..]), order[k], r))
  {
    var e := order[k];
    r := FindReplacement(mask, values, e, gap);
    SwapAccepts(start, mask[..], values, order, k, r, gap, excess);
    if r >= 0 {
      ExchangeIn(mask, values, target, e, r);
    }
  }

  /** The mask after e was exchanged for r, if anything was accepted for it. */
  ghost function WithExchange(mask: seq<bool>, e: nat, r: int): seq<bool>
    requires e < |mask| && -1 <= r < |mask|
  {
    if r < 0 then mask else mask[r := true][e := false]
  }

  /** The masks while one value after the other is exchanged for what is accepted for it, until the target is met. */
  ghost predicate SwapsInOrder(start: seq<bool>, mask: seq<bool>, values: seq<int>, target: int, order: seq<nat>,
                               masks: seq<seq<bool>>)
  {
    && 1 <= |masks| <= |order| + 1 && masks[0] == start && masks[|masks| - 1] == mask
    && (forall k :: 0 <= k < |masks| ==> |masks[k]| == |values|) && (forall k :: 0 <= k < |order| ==> order[k] < |values|)
    && forall k :: 0 <= k < |masks| - 1 ==> SwapsOne(masks[k], masks[k + 1], values, target, order[k])
  }

  ghost predicate SwapsOne(mask: seq<bool>, after: seq<bool>, values: seq<int>, target: int, e: nat)
    requires e < |mask| == |values|
  {
    Gap(mask, values, target) != 0
    && exists r :: Accepts(mask, values, e, Gap(mask, values, target), r) && after == WithExchange(mask, e, r)
  }

  lemma SwapsOneMore(start: seq<bool>, mask: seq<bool>, after: seq<bool>, values: seq<int>, target: int, order: seq<nat>,
                     masks: seq<seq<bool>>, r: int)
    requires SwapsInOrder(start, mask, values, target, order, masks) && |masks| <= |order| && |after| == |values|
    requires Gap(mask, values, target) != 0 && Accepts(mask, values, order[|masks| - 1], Gap(mask, values, target), r)
    requires Same(after, WithExchange(mask, order[|masks| - 1], r))
    ensures SwapsInOrder(start, after, values, target, order, masks + [after])
  {
    var all := masks + [after];
    assert SwapsOne(mask, after, values, target, order[|masks| - 1]);
    forall k | 0 <= k < |all| - 1 ensures SwapsOne(all[k], all[k + 1], values, target, order[k]) {
      if k < |masks| - 1 { assert all[k] == masks[k] && all[k + 1] == masks[k + 1]; }
    }
  }

  /** The second phase before place k of the order, from the given start: the places from there on are still selected. */
  ghost predicate SwapAt(start: seq<bool>, mask: seq<bool>, values: seq<int>, target: int, order: seq<nat>, k: nat,
                         excess: int)
  {
    && |start| == |mask| == |values| && k <= |order| && Distinct(order) && excess == -Gap(start, values, target)
    && (forall p :: 0 <= p < |order| ==> order[p] < |mask|)
    && (forall p :: k <= p < |order| ==> mask[order[p]])
    && |Places(mask, true, |values|)| == |Places(start, true, |values|)|
    && (excess < 0 ==> AllSelected(start))
    && Swapped(start, mask, values, order, k, Gap(mask, values, target), excess)
  }

  /** Nothing was exchanged, as none of the values before place k could be, or the sum has grown. */
  ghost predicate Swapped(start: seq<bool>, mask: seq<bool>, values: seq<int>, order: seq<nat>, k: nat, gap: int,
                          excess: int)
    requires |start| == |mask| == |values| && k <= |order| && forall p :: 0 <= p < |order| ==> order[p] < |mask|
  {
    if gap < -excess < 0 then Exchangeable(start, values, excess)
    else gap == -excess && mask == start && forall p :: 0 <= p < k ==> !Replaceable(start, values, excess, order[p])
  }

  /** A replacement is accepted only for an exchangeable value, and increases the sum; without one there is none. */
  lemma SwapAccepts(start: seq<bool>, mask: seq<bool>, values: seq<int>, order: seq<nat>, k: nat, r: int, gap: int,
                    excess: int)
    requires |start| == |mask| == |values| && k < |order| && forall p :: 0 <= p < |order| ==> order[p] < |mask|
    requires Swapped(start, mask, values, order, k, gap, excess) && mask[order[k]] && gap != 0
    requires excess < 0 ==> AllSelected(start)
    requires Accepts(mask, values, order[k], gap, r)
    ensures r < 0 ==> Swapped(start, mask, values, order, k + 1, gap, excess)
    ensures r >= 0 ==> Exchangeable(start, values, excess) && gap - (values[r] - values[order[k]]) < -excess < 0
  {
    if r >= 0 && !(gap < -excess < 0) {
      assert !start[r] && excess > 0;
      assert Replaceable(start, values, excess, order[k]);
    }
  }

  lemma SwapEnds(start: seq<bool>, mask: seq<bool>, values: seq<int>, target: int, order: seq<nat>, k: nat, excess: int)
    requires SwapAt(start, mask, values, target, order, k, excess)
    requires k == |order| || Gap(mask, values, target) == 0
    requires forall e :: 0 <= e < |start| && start[e] ==> e in order
    ensures Exchanges(start, mask, values, target)
  {
    forall e | 0 <= e < |start| && start[e] && Gap(mask, values, target) == -excess
      ensures !Replaceable(start, values, excess, e)
    {
      assert e in order;
    }
  }

  /** Selects one place in exchange for another. */
  method ExchangeIn(mask: array<bool>, values: seq<int>, target: int, e: nat, r: nat)
    requires e < mask.Length == |values| && r < mask.Length && mask[e] && !mask[r]
    modifies mask
    ensures Gap(mask[..], values, target) == Gap(old(mask[..]), values, target) - (values[r] - values[e])
    ensures |Places(mask[..], true, |values|)| == |Places(old(mask[..]), true, |values|)|
    ensures Same(mask[..], WithExchange(old(mask[..]), e, r))
  {
    Exchange(mask[..], values, target, e, r);
    ghost var exchanged := mask[..][r := true][e := false];
    mask[r] := true;
    mask[e] := false;
    assert mask[..] == exchanged;
  }

  lemma Exchange(mask: seq<bool>, values: seq<int>, target: int, e: nat, r: nat)
    requires e < |mask| == |values| && r < |mask| && mask[e] && !mask[r]
    ensures Gap(mask[r := true][e := false], values, target) == Gap(mask, values, target) - (values[r] - values[e])
    ensures |Places(mask[r := true][e := false], true, |mask|)| == |Places(mask, true, |mask|)|
  {
    SelectOne(mask, values, r, true, |mask|);
    SelectOne(mask[r := true], values, e, false, |mask|);
    CountOne(mask, r, true, |mask|);
    CountOne(mask[r := true], e, false, |mask|);
  }

  /** One trial. It misses the target only if all values together do. */
  method Trial(values: seq<int>, target: int) returns (mask: array<bool>)
    ensures fresh(mask) && mask.Length == |values|
    ensures Gap(mask[..], values, target) > 0 ==> AllSelected(mask[..])
    ensures Total(values) >= target ==> Gap(mask[..], values, target) <= 0
    ensures Gap(mask[..], values, target) <= 0 ==> TrialEnd(mask[..], values, target)
  {
    mask := SelectGreedily(values, target);
    ghost var start := mask[..];
    var _, _ := Swap(mask, values, target);
    assert Exchanges(start, mask[..], values, target);
    if AllSelected(mask[..]) { SelectedSumOfAll(mask[..], values, |values|); }
  }

  /** Every selection is closer to the target than the largest machine integer. */
  ghost predicate Fits(values: seq<int>, target: int) {
    forall mask: seq<bool> :: |mask| == |values| ==> AbsInt(Gap(mask, values, target)) < MAX_INT
  }

  lemma FitsWhenBounded(values: seq<int>, target: int)
    requires forall i :: 0 <= i < |values| ==> values[i] >= 0
    requires 0 <= target < MAX_INT && Total(values) < MAX_INT
    ensures Fits(values, target)
  {
    forall mask: seq<bool> | |mask| == |values|
      ensures AbsInt(Gap(mask, values, target)) < MAX_INT
    {
      SelectedSumBounds(mask, values, |values|);
    }
  }

  /**
   * The best of up to fifty trials. The chosen places are distinct and their values sum to target - dlt;
   * no trial came closer; fewer trials are made only once the target is met exactly. The answer is the end
   * of a trial, so that it holds nothing for a target of zero, and nothing superfluous unless values were exchanged.
   */
  method ClosestSubsetSumRGLI(values: seq<int>, target: int) returns (indexes: seq<nat>, dlt: int, ghost deltas: seq<int>)
    ensures (forall j, k :: 0 <= j < k < |indexes| ==> indexes[j] < indexes[k])
    ensures forall k :: 0 <= k < |indexes| ==> indexes[k] < |values|
    ensures 0 < |deltas| <= 50
    ensures |deltas| < 50 ==> dlt == 0
    ensures Total(values) >= target ==> forall d <- deltas :: d <= 0
    ensures Fits(values, target) ==> dlt in deltas && forall d <- deltas :: AbsInt(dlt) <= AbsInt(d)
    ensures Fits(values, target) ==> SumAt(values, indexes) == target - dlt
    ensures Fits(values, target) && dlt > 0 ==> forall i :: 0 <= i < |values| ==> i in indexes
    ensures Fits(values, target) && dlt <= 0 ==> EndPlaces(indexes, values, target)
    ensures Fits(values, target) && (forall i :: 0 <= i < |values| ==> values[i] >= 0) && Total(values) < target
            ==> dlt == target - Total(values)
  {
    var bestMask := new bool[|values|](_ => false);
    var bestDelta := MAX_INT;
    deltas := [];
    var i := 0;
    while i < RGLI_TRIALS
      invariant 0 <= i <= RGLI_TRIALS && |deltas| == i && bestMask.Length == |values|
      invariant i > 0 ==> bestDelta != 0
      invariant Total(values) >= target ==> forall d <- deltas :: d <= 0
      invariant i == 0 ==> bestDelta == MAX_INT
      invariant Fits(values, target) && i > 0 ==> BestOf(bestMask[..], bestDelta, deltas, values, target)
    {
      var mask := Trial(values, target);
      var d := Delta(mask, values, target);
      OneMoreTrial(bestMask[..], bestDelta, deltas, mask[..], d, values, target);
      deltas := deltas + [d];
      if AbsInt(d) < AbsInt(bestDelta) {
        bestMask := mask;
        bestDelta := d;
      }
      i := i + 1;
      if bestDelta == 0 {
        break;
      }
    }
    indexes := Which(bestMask, true);
    dlt := bestDelta;
    if Fits(values, target) { BestPlaces(bestMask[..], dlt, deltas, values, target); }
  }

  /** A mask with which a trial ended, as it would if d is what it misses the target by. */
  ghost predicate Tried(mask: seq<bool>, d: int, values: seq<int>, target: int) {
    && |mask| == |values| && d == Gap(mask, values, target)
    && (d > 0 ==> AllSelected(mask)) && (d <= 0 ==> TrialEnd(mask, values, target))
  }

  /** The mask was tried, and no trial came closer. */
  ghost predicate BestOf(mask: seq<bool>, best: int, deltas: seq<int>, values: seq<int>, target: int) {
    Tried(mask, best, values, target) && best in deltas && forall d <- deltas :: AbsInt(best) <= AbsInt(d)
  }

  lemma OneMoreTrial(bestMask: seq<bool>, best: int, deltas: seq<int>, mask: seq<bool>, d: int, values: seq<int>, target: int)
    requires Tried(mask, d, values, target)
    requires Fits(values, target) && deltas != [] ==> BestOf(bestMask, best, deltas, values, target)
    requires deltas == [] ==> best == MAX_INT
    ensures forall x :: x in deltas + [d] <==> x in deltas || x == d
    ensures Fits(values, target) ==>
      if AbsInt(d) < AbsInt(best) then BestOf(mask, d, deltas + [d], values, target)
      else BestOf(bestMask, best, deltas + [d], values, target)
  {
  }

  lemma BestPlaces(mask: seq<bool>, best: int, deltas: seq<int>, values: seq<int>, target: int)
    requires BestOf(mask, best, deltas, values, target)
    ensures var places := Places(mask, true, |values|);
            && SumAt(values, places) == target - best
            && (best > 0 ==> forall i :: 0 <= i < |values| ==> i in places)
            && (best <= 0 ==> EndPlaces(places, values, target))
    ensures (forall i :: 0 <= i < |values| ==> values[i] >= 0) && Total(values) < target ==> best == target - Total(values)
  {
    PlacesOfMask(mask, values, target);
    if best <= 0 { TrialEndPlaces(mask, values, target); }
  }

  /** What a mask says of the places it selects. */
  lemma PlacesOfMask(mask: seq<bool>, values: seq<int>, target: int)
    requires |mask| == |values|
    ensures SumAt(values, Places(mask, true, |values|)) == target - Gap(mask, values, target)
    ensures AllSelected(mask) ==> Gap(mask, values, target) == target - Total(values)
    ensures (forall i :: 0 <= i < |values| ==> values[i] >= 0) ==> Gap(mask, values, target) >= target - Total(values)
  {
    SumAtPlaces(mask, values, |values|);
    if forall i :: 0 <= i < |values| ==> values[i] >= 0 { SelectedSumBounds(mask, values, |values|); }
    if AllSelected(mask) { SelectedSumOfAll(mask, values, |values|); }
  }
}
