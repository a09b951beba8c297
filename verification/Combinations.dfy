/** Choosing miners whose available hashrate together comes closest above a target. */
module Combinations {
  import opened Wrappers
  import opened Arithmetic
  import opened Sums
  import opened Fleets
  import opened AllocSnapshots
  import Rgli = SubsetSumRgli

  /** The keys in any order, as a range over a Go map gives them. */
  method KeysInAnyOrder(ids: set<string>) returns (keys: seq<string>)
    ensures Distinct(keys) && forall k :: k in keys <==> k in ids
  {
    keys := [];
    var rest := ids;
    while rest != {}
      invariant rest <= ids && Distinct(keys)
      invariant forall k :: k in keys <==> k in ids - rest
    {
      var k :| k in rest;
      assert forall i :: 0 <= i < |keys| ==> keys[i] in keys;
      keys := keys + [k];
      rest := rest - {k};
    }
  }

  ghost function Restrict<V>(m: map<string, V>, keys: set<string>): map<string, V> {
    map k | k in m && k in keys :: m[k]
  }

  ghost function GHSOf(copies: map<string, ItemCopy>): map<string, int> {
    map id | id in copies :: copies[id].AllocatedGHS()
  }

  ghost function KeysAt(keys: seq<string>, places: seq<nat>, k: nat): set<string>
    requires k <= |places| && forall j :: 0 <= j < |places| ==> places[j] < |keys|
  {
    set j | 0 <= j < k :: keys[places[j]]
  }

  /** The items at increasing places add up to the hashrate computed from the list of values. */
  lemma {:induction false} SumOfPlaces(g: map<string, int>, keys: seq<string>, values: seq<int>, places: seq<nat>, k: nat)
    requires ValuesOf(g, keys, values)
    requires k <= |places| && forall j :: 0 <= j < |places| ==> places[j] < |keys|
    requires forall i, j :: 0 <= i < j < |places| ==> places[i] < places[j]
    ensures Sum(Restrict(g, KeysAt(keys, places, k))) == Rgli.SumFirst(values, places, k)
  {
    if k == 0 {
      RestrictToNone(g, KeysAt(keys, places, 0));
    } else {
      SumOfPlaces(g, keys, values, places, k - 1);
      KeysAtOneMore(keys, places, k - 1);
      SumOfOneMore(g, KeysAt(keys, places, k - 1), keys[places[k - 1]]);
    }
  }

  lemma RestrictToNone(g: map<string, int>, keys: set<string>)
    requires keys == {}
    ensures Sum(Restrict(g, keys)) == 0
  {
    assert Restrict(g, keys) == map[];
  }

  lemma KeysAtOneMore(keys: seq<string>, places: seq<nat>, k: nat)
    requires Distinct(keys) && k < |places| && forall j :: 0 <= j < |places| ==> places[j] < |keys|
    requires forall i, j :: 0 <= i < j < |places| ==> places[i] < places[j]
    ensures Same(KeysAt(keys, places, k + 1), KeysAt(keys, places, k) + {keys[places[k]]})
    ensures keys[places[k]] !in KeysAt(keys, places, k)
  {
    assert KeysAt(keys, places, k + 1) == KeysAt(keys, places, k) + {keys[places[k]]};
  }

  lemma SumOfOneMore(g: map<string, int>, keys: set<string>, last: string)
    requires last in g && last !in keys
    ensures Sum(Restrict(g, keys + {last})) == Sum(Restrict(g, keys)) + g[last]
  {
    SumUpdate(Restrict(g, keys), last, g[last]);
    assert Restrict(g, keys + {last}) == Restrict(g, keys)[last := g[last]];
  }

  lemma {:induction false} TotalOfValues(g: map<string, int>, keys: seq<string>, values: seq<int>)
    requires ValuesOf(g, keys, values)
    requires forall k <- g :: k in keys
    ensures Rgli.Total(values) == Sum(g)
  {
    var all := seq(|values|, i => i);
    var mask := seq(|values|, _ => true);
    SumOfPlaces(g, keys, values, all, |values|);
    forall k | k in g ensures k in KeysAt(keys, all, |values|) {
      var i :| 0 <= i < |keys| && keys[i] == k;
      assert keys[all[i]] == k;
    }
    assert Restrict(g, KeysAt(keys, all, |values|)) == g;
    AllPlaces(values, mask, all, |values|);
  }

  lemma {:induction false} AllPlaces(values: seq<int>, mask: seq<bool>, all: seq<nat>, n: nat)
    requires n <= |values| == |mask| == |all|
    requires forall i :: 0 <= i < |values| ==> mask[i] && all[i] == i
    ensures Rgli.SumFirst(values, all, n) == Rgli.SelectedSum(mask, values, n)
  {
    if n > 0 { AllPlaces(values, mask, all, n - 1); }
  }

  ghost predicate ValuesOf(g: map<string, int>, keys: seq<string>, values: seq<int>) {
    Distinct(keys) && |keys| == |values| && forall i :: 0 <= i < |keys| ==> keys[i] in g && values[i] == g[keys[i]]
  }

  method HashratesOf(list: AllocCollection, keys: seq<string>) returns (hashrates: seq<int>)
    requires Distinct(keys) && forall k <- keys :: k in list.items
    ensures ValuesOf(list.GHSByID(), keys, hashrates)
  {
    assert forall i :: 0 <= i < |keys| ==> keys[i] in keys;
    hashrates := [];
    for i := 0 to |keys|
      invariant |hashrates| == i && forall j :: 0 <= j < i ==> hashrates[j] == list.GHSByID()[keys[j]]
    {
      hashrates := hashrates + [list.items[keys[i]].AllocatedGHS()];
    }
  }

  method ItemsAt(list: AllocCollection, keys: seq<string>, indexes: seq<nat>) returns (chosen: AllocCollection)
    requires forall i :: 0 <= i < |keys| ==> keys[i] in list.items
    requires forall k :: 0 <= k < |indexes| ==> indexes[k] < |keys|
    ensures chosen.items.Keys == KeysAt(keys, indexes, |indexes|)
    ensures chosen.items.Keys <= list.items.Keys && chosen.items == Restrict(list.items, chosen.items.Keys)
  {
    var items: map<string, AllocItem> := map[];
    for k := 0 to |indexes|
      invariant items.Keys == KeysAt(keys, indexes, k)
      invariant items.Keys <= list.items.Keys && forall id <- items :: items[id] == list.items[id]
    {
      var key := keys[indexes[k]];
      assert KeysAt(keys, indexes, k + 1) == KeysAt(keys, indexes, k) + {key};
      items := items[key := list.items[key]];
    }
    chosen := AllocCollection(items);
  }

  lemma AllKeysChosen(keys: seq<string>, indexes: seq<nat>)
    requires forall k :: 0 <= k < |indexes| ==> indexes[k] < |keys|
    requires forall i :: 0 <= i < |keys| ==> i in indexes
    ensures forall id <- keys :: id in KeysAt(keys, indexes, |indexes|)
  {
    forall id | id in keys ensures id in KeysAt(keys, indexes, |indexes|) {
      var i :| 0 <= i < |keys| && keys[i] == id;
      assert i in indexes;
      var j :| 0 <= j < |indexes| && indexes[j] == i;
      assert keys[indexes[j]] == id;
    }
  }

  lemma AllItemsChosen(list: AllocCollection, lst: AllocCollection, keys: seq<string>, indexes: seq<nat>)
    requires forall k :: 0 <= k < |indexes| ==> indexes[k] < |keys|
    requires forall i :: 0 <= i < |keys| ==> i in indexes
    requires forall id <- list.items :: id in keys
    requires lst.items.Keys == KeysAt(keys, indexes, |indexes|)
    requires lst.items.Keys <= list.items.Keys && lst.items == Restrict(list.items, lst.items.Keys)
    ensures lst == list
  {
    AllKeysChosen(keys, indexes);
    assert lst.items == list.items;
  }

  /** Ids whose hashrates reach the target, which they would not without one of them; none for a target of zero. */
  ghost predicate FirstReach(g: map<string, int>, ids: set<string>, target: int) {
    && ids <= g.Keys && Sum(Restrict(g, ids)) >= target
    && if target <= 0 then ids == {} else exists last <- ids :: Sum(Restrict(g, ids)) - g[last] < target
  }

  /**
   * The ids with which the search may end that reaches the target: nothing among them is superfluous, or they are
   * as many as in such a selection that misses the target by less, from which they come by exchanges.
   */
  ghost predicate EndsWith(g: map<string, int>, ids: set<string>, target: int) {
    exists first :: FirstReach(g, first, target)
      && (ids == first || (|ids| == |first| && target < Sum(Restrict(g, first)) < Sum(Restrict(g, ids))))
  }

  lemma {:induction false} CountOfPlaces(keys: seq<string>, places: seq<nat>, k: nat)
    requires Distinct(keys) && k <= |places| && forall j :: 0 <= j < |places| ==> places[j] < |keys|
    requires forall i, j :: 0 <= i < j < |places| ==> places[i] < places[j]
    ensures |KeysAt(keys, places, k)| == k
  {
    if k > 0 {
      CountOfPlaces(keys, places, k - 1);
      KeysAtOneMore(keys, places, k - 1);
    }
  }

  lemma FirstReachKeys(g: map<string, int>, keys: seq<string>, values: seq<int>, places: seq<nat>, target: int)
    requires ValuesOf(g, keys, values) && Rgli.FirstPlaces(places, values, target)
    ensures FirstReach(g, KeysAt(keys, places, |places|), target)
  {
    SumOfPlaces(g, keys, values, places, |places|);
    if target > 0 {
      var k :| 0 <= k < |places| && Rgli.SumAt(values, places) - values[places[k]] < target;
      assert keys[places[k]] in KeysAt(keys, places, |places|);
    }
  }

  lemma EndsWithKeys(g: map<string, int>, keys: seq<string>, values: seq<int>, places: seq<nat>, target: int)
    requires ValuesOf(g, keys, values)
    requires forall i, j :: 0 <= i < j < |places| ==> places[i] < places[j]
    requires forall j :: 0 <= j < |places| ==> places[j] < |keys|
    requires Rgli.EndPlaces(places, values, target)
    ensures EndsWith(g, KeysAt(keys, places, |places|), target)
  {
    var start :| Rgli.FirstPlaces(start, values, target)
      && if Rgli.ExchangeableAt(start, values, Rgli.SumAt(values, start) - target)
         then |places| == |start| && target < Rgli.SumAt(values, start) < Rgli.SumAt(values, places)
         else places == start;
    FirstReachKeys(g, keys, values, start, target);
    SumOfPlaces(g, keys, values, start, |start|);
    SumOfPlaces(g, keys, values, places, |places|);
    CountOfPlaces(keys, start, |start|);
    CountOfPlaces(keys, places, |places|);
  }

  /** Runs the search on the list of hashrates; delta is how much the chosen ones exceed the target. */
  method Search(hashrates: seq<int>, target: int) returns (indexes: seq<nat>, delta: int)
    requires forall i :: 0 <= i < |hashrates| ==> hashrates[i] >= 0
    requires 0 <= target < Rgli.MAX_INT && Rgli.Total(hashrates) < Rgli.MAX_INT
    ensures (forall j, k :: 0 <= j < k < |indexes| ==> indexes[j] < indexes[k])
    ensures forall k :: 0 <= k < |indexes| ==> indexes[k] < |hashrates|
    ensures Rgli.SumFirst(hashrates, indexes, |indexes|) == target + delta
    ensures Rgli.Total(hashrates) >= target ==> delta >= 0
    ensures Rgli.Total(hashrates) < target ==> delta < 0 && forall i :: 0 <= i < |hashrates| ==> i in indexes
    ensures delta >= 0 ==> Rgli.EndPlaces(indexes, hashrates, target)
  {
    Rgli.FitsWhenBounded(hashrates, target);
    var places, dlt, _ := Rgli.ClosestSubsetSumRGLI(hashrates, target);
    indexes, delta := places, -dlt;
  }

  /**
   * Chooses items whose hashrates add up to target + delta. If all items together reach the target then
   * delta is not negative, and the items are as a trial ends with them; if they do not, all of them are chosen.
   */
  method FindClosestMinerCombination(list: AllocCollection, target: int) returns (lst: AllocCollection, delta: int)
    requires forall id <- list.items :: list.items[id].AllocatedGHS() >= 0
    requires 0 <= target < Rgli.MAX_INT && Sum(list.GHSByID()) < Rgli.MAX_INT
    ensures lst.items == Restrict(list.items, lst.items.Keys) && lst.items.Keys <= list.items.Keys
    ensures Sum(Restrict(old(list.GHSByID()), lst.items.Keys)) == target + delta
    ensures Sum(old(list.GHSByID())) >= target ==> delta >= 0
    ensures Sum(old(list.GHSByID())) < target ==> lst == list && delta < 0
    ensures delta >= 0 ==> EndsWith(old(list.GHSByID()), lst.items.Keys, target)
  {
    ghost var g := list.GHSByID();
    var keys := KeysInAnyOrder(list.items.Keys);
    var hashrates := HashratesOf(list, keys);
    TotalOfValues(g, keys, hashrates);
    assert forall i :: 0 <= i < |keys| ==> keys[i] in keys && hashrates[i] >= 0;
    var indexes;
    indexes, delta := Search(hashrates, target);
    lst := ItemsAt(list, keys, indexes);
    SumOfPlaces(g, keys, hashrates, indexes, |indexes|);
    if delta < 0 { AllItemsChosen(list, lst, keys, indexes); } else { EndsWithKeys(g, keys, hashrates, indexes, target); }
  }

  // ---- choosing the miner to trim

  /** How far part GH/s are from one half of a miner, as a share of it. */
  function Distance(total: int, part: int): (d: real)
    requires total > 0
    ensures 2.0 * (total as real * d) == (if 2 * part < total then total - 2 * part else 2 * part - total) as real
  {
    var f := part as real / total as real - 0.5;
    FromOneHalf(total, part);
    if f < 0.0 then -f else f
  }

  lemma FromOneHalf(total: int, part: int)
    requires total > 0
    ensures var f := part as real / total as real - 0.5;
            && 2.0 * (total as real * f) == (2 * part - total) as real
            && 2.0 * (total as real * -f) == (total - 2 * part) as real
            && (f < 0.0 <==> 2 * part < total)
  {
    var t, x := total as real, part as real / total as real;
    assert t * x == part as real;
    assert t * (x - 0.5) == t * x - t * 0.5;
    assert t * -(x - 0.5) == t * 0.5 - t * x;
    QuotientOrder(part as real, t, 0.5);
  }

  /** An idle miner that can give up part GH/s and keep a share inside the window, as can the part given up. */
  ghost predicate Eligible(c: ItemCopy, part: int, w: Window) {
    c.fraction == 1.0 && c.totalGHS > 0 && w.min < part as real / c.totalGHS as real < w.max
  }

  /** The eligible miner whose split is closest to one half. */
  ghost predicate IsBest(copies: map<string, ItemCopy>, part: int, w: Window, id: string) {
    id in copies && Eligible(copies[id], part, w)
    && forall i <- copies :: Eligible(copies[i], part, w)
         ==> Distance(copies[id].totalGHS, part) <= Distance(copies[i].totalGHS, part)
  }

  method GetBestMinerToReduceHashrate(combination: AllocCollection, part: int, w: Window) returns (minerID: string, ok: bool)
    requires w.Valid()
    requires forall id <- combination.items :: id != "" && combination.items[id].minerID == id && combination.items[id].totalGHS > 0
    ensures ok ==> IsBest(combination.Copies(), part, w, minerID)
    ensures !ok ==> forall id <- combination.items :: !Eligible(combination.Copies()[id], part, w)
  {
    var best := "";
    var bestDelta := 1.0;
    var ids := combination.items.Keys;
    while ids != {}
      invariant ids <= combination.items.Keys
      invariant best == "" ==> bestDelta == 1.0
      invariant best != "" ==> best in combination.items && Eligible(combination.Copies()[best], part, w)
                               && bestDelta == Distance(combination.items[best].totalGHS, part)
      invariant forall id <- combination.items.Keys - ids ::
        Eligible(combination.Copies()[id], part, w) ==> best != "" && bestDelta <= Distance(combination.items[id].totalGHS, part)
    {
      var id :| id in ids;
      var item := combination.items[id];
      if item.fraction == 1.0 {
        var fraction := part as real / item.totalGHS as real;
        var delta := Distance(item.totalGHS, part);
        if fraction > w.min && fraction < w.max && delta < bestDelta {
          best, bestDelta := item.minerID, delta;
        }
      }
      ids := ids - {id};
    }
    minerID, ok := best, best != "";
  }

  /** The chosen items after part GH/s were taken off one of them. */
  ghost function Reduced(copies: map<string, ItemCopy>, id: string, part: int): map<string, ItemCopy>
    requires id in copies && copies[id].totalGHS != 0
  {
    copies[id := copies[id].(fraction := copies[id].fraction - part as real / copies[id].totalGHS as real)]
  }

  /** Trimming an eligible miner lowers the sum by exactly the part taken, and keeps a share inside the window. */
  lemma ReducedSum(copies: map<string, ItemCopy>, id: string, part: int, w: Window)
    requires w.Valid() && id in copies && Eligible(copies[id], part, w)
    ensures Sum(GHSOf(Reduced(copies, id, part))) == Sum(GHSOf(copies)) - part
    ensures w.min < Reduced(copies, id, part)[id].fraction < w.max
  {
    var total := copies[id].totalGHS;
    QuotientOrder(part as real, total as real, 0.0);
    QuotientOrder(part as real, total as real, 1.0);
    assert total as real * 1.0 == total as real && total as real * 0.0 == 0.0;
    assert ShareGHS(total, 1.0) == total;
    TakeFromShare(total, 1.0, part);
    SumUpdate(GHSOf(copies), id, total - part);
    assert GHSOf(Reduced(copies, id, part)) == GHSOf(copies)[id := total - part];
  }

  lemma PartsOfCycle(a: real, b: real, cycle: real)
    requires cycle > 0.0 && a + b == cycle
    ensures a / cycle + b / cycle == 1.0
  {
    QuotientOfRest(a, cycle);
    assert b == cycle - a;
  }

  lemma QuotientOfRest(a: real, cycle: real)
    requires cycle > 0.0
    ensures (cycle - a) / cycle == 1.0 - a / cycle
  {
    var x := a / cycle;
    assert cycle * x == a;
    Rest(x, cycle);
    QuotientOrder(cycle - a, cycle, 1.0 - x);
  }

  lemma Rest(x: real, cycle: real)
    ensures cycle * (1.0 - x) == cycle - cycle * x
  {
  }

  /**
   * A share strictly inside the window lasts longer than the shortest and shorter than the longest time of a
   * destination, and so does the rest of the miner.
   */
  lemma WindowInTime(min: pos, max: pos, share: real)
    requires min <= max
    ensures var w, cycle := Window(min as real / (min + max) as real, max as real / (min + max) as real), (min + max) as real;
            w.Valid()
            && (w.min < share < w.max ==> min as real < cycle * share < max as real
                                          && min as real < cycle * (1.0 - share) < max as real)
  {
    var a, b, cycle := min as real, max as real, (min + max) as real;
    PartsOfCycle(a, b, cycle);
    QuotientOrder(a, cycle, b / cycle);
    QuotientOrder(a, cycle, 0.0);
    assert cycle * (b / cycle) == b;
    QuotientOrder(a, cycle, share);
    QuotientOrder(b, cycle, share);
    Rest(share, cycle);
  }

  /** A choice before any trimming: it exceeds ghs by delta, and is as the search ends with it. */
  ghost predicate Picked(listed: map<string, ItemCopy>, before: map<string, ItemCopy>, ghs: int, delta: int) {
    && before.Keys <= listed.Keys && before == Restrict(listed, before.Keys)
    && Sum(GHSOf(before)) == ghs + delta
    && (Sum(GHSOf(listed)) >= ghs ==> delta >= 0 && EndsWith(GHSOf(listed), before.Keys, ghs))
    && (Sum(GHSOf(listed)) < ghs ==> before == listed && delta < 0)
  }

  /** Of items that are worth the same, a whole multiple of that is always picked exactly. */
  lemma EqualItemsAreExact(listed: map<string, ItemCopy>, before: map<string, ItemCopy>, ghs: int, delta: int, value: int, k: nat)
    requires Picked(listed, before, ghs, delta) && Sum(GHSOf(listed)) >= ghs == value * k && value > 0
    requires forall i <- listed :: GHSOf(listed)[i] == value
    ensures delta == 0
  {
    var g := GHSOf(listed);
    var first :| FirstReach(g, first, ghs)
      && (before.Keys == first || (|before.Keys| == |first| && ghs < Sum(Restrict(g, first)) < Sum(Restrict(g, before.Keys))));
    FirstOfEqual(g, first, ghs, value, k);
    assert GHSOf(before) == Restrict(g, before.Keys);
  }

  lemma FirstOfEqual(g: map<string, int>, first: set<string>, ghs: int, value: int, k: nat)
    requires FirstReach(g, first, ghs) && ghs == value * k && value > 0 && forall i <- g :: g[i] == value
    ensures Sum(Restrict(g, first)) == ghs
  {
    SumOfEqual(Restrict(g, first), value);
    if ghs > 0 {
      MultipleReached(value, |Restrict(g, first)|, k);
    } else {
      assert Restrict(g, first) == map[];
    }
  }

  /** What happens to a choice that exceeds what is needed by delta. */
  ghost predicate Settled(before: map<string, ItemCopy>, chosen: map<string, ItemCopy>, delta: int, w: Window, accurate: bool) {
    if delta <= 0 then accurate && chosen == before
    else if accurate then exists id :: IsBest(before, delta, w, id) && chosen == Reduced(before, id, delta)
    else chosen == before && forall id <- before :: !Eligible(before[id], delta, w)
  }

  /** How a choice of items for ghs GH/s ends, in terms of copies of the items listed and chosen. */
  ghost predicate ChosenFor(listed: map<string, ItemCopy>, chosen: map<string, ItemCopy>, ghs: int, w: Window, accurate: bool) {
    exists before, delta :: Picked(listed, before, ghs, delta) && Settled(before, chosen, delta, w, accurate)
  }

  /** An accurate choice from enough hashrate provides exactly what is needed; from too little, all there is. */
  lemma AccurateChoiceIsExact(listed: map<string, ItemCopy>, chosen: map<string, ItemCopy>, ghs: int, w: Window)
    requires w.Valid() && ChosenFor(listed, chosen, ghs, w, true)
    ensures Sum(GHSOf(listed)) >= ghs ==> Sum(GHSOf(chosen)) == ghs
    ensures Sum(GHSOf(listed)) < ghs ==> chosen == listed
  {
    var before, delta :| Picked(listed, before, ghs, delta) && Settled(before, chosen, delta, w, true);
    if delta > 0 {
      var id :| IsBest(before, delta, w, id) && chosen == Reduced(before, id, delta);
      ReducedSum(before, id, delta, w);
    }
  }

  /** All that an item lists, or a part strictly inside the window of an item that lists a whole miner. */
  ghost predicate FromItem(chosen: ItemCopy, listed: ItemCopy, w: Window) {
    chosen.minerID == listed.minerID && chosen.totalGHS == listed.totalGHS
    && (chosen.fraction == listed.fraction || (listed.fraction == 1.0 && w.min < chosen.fraction < w.max))
  }

  /** Each share chosen is all a miner has available, or a part of an idle miner strictly inside the window. */
  lemma ChosenShares(listed: map<string, ItemCopy>, chosen: map<string, ItemCopy>, ghs: int, w: Window, accurate: bool)
    requires w.Valid() && Available(listed) && ChosenFor(listed, chosen, ghs, w, accurate)
    ensures chosen.Keys <= listed.Keys
    ensures forall id <- chosen :: FromItem(chosen[id], listed[id], w)
  {
    var before, delta :| Picked(listed, before, ghs, delta) && Settled(before, chosen, delta, w, accurate);
    SettledShares(listed, before, chosen, delta, w, accurate);
  }

  lemma SettledShares(listed: map<string, ItemCopy>, before: map<string, ItemCopy>, chosen: map<string, ItemCopy>,
                      delta: int, w: Window, accurate: bool)
    requires w.Valid() && before.Keys <= listed.Keys && forall id <- before :: before[id] == listed[id]
    requires Settled(before, chosen, delta, w, accurate)
    ensures chosen.Keys <= listed.Keys
    ensures forall id <- chosen :: FromItem(chosen[id], listed[id], w)
  {
    if delta > 0 && accurate {
      var id :| IsBest(before, delta, w, id) && chosen == Reduced(before, id, delta);
      ReducedSum(before, id, delta, w);
    }
  }

  /** Items that describe what miners have available. */
  ghost predicate Available(listed: map<string, ItemCopy>) {
    forall id <- listed :: id != "" && listed[id].minerID == id && listed[id].totalGHS > 0 && 0.0 < listed[id].fraction <= 1.0
  }

  /** Takes part GH/s off one item. */
  method TrimAt(combination: AllocCollection, id: string, part: int)
    requires id in combination.items && combination.items[id].totalGHS != 0
    requires forall i <- combination.items :: combination.items[i].minerID == i
    modifies combination.items.Values
    ensures Same(combination.Copies(), Reduced(old(combination.Copies()), id, part))
  {
    combination.ReduceMinerAllocation(id, part);
    assert combination.Copies() == Reduced(old(combination.Copies()), id, part);
  }

  method GetAllocateComb(list: AllocCollection, ghs: int, w: Window) returns (combination: AllocCollection, accurate: bool)
    requires w.Valid() && Available(list.Copies())
    requires 0 <= ghs < Rgli.MAX_INT && Sum(GHSOf(list.Copies())) < Rgli.MAX_INT
    modifies list.items.Values
    ensures combination.items.Keys <= list.items.Keys
    ensures combination.items == Restrict(list.items, combination.items.Keys)
    ensures ChosenFor(old(list.Copies()), combination.Copies(), ghs, w, accurate)
    ensures !accurate ==> Same(list.Copies(), old(list.Copies()))
  {
    ghost var listed := list.Copies();
    var delta;
    combination, delta := Pick(list, ghs);
    ghost var before := combination.Copies();
    if delta > 0 {
      AvailablePart(list, combination);
      var bestMinerID, ok := GetBestMinerToReduceHashrate(combination, delta, w);
      if !ok {
        NotTrimmed(listed, before, ghs, delta, w);
        return combination, false;
      }
      TrimAt(combination, bestMinerID, delta);
      Trimmed(listed, before, ghs, delta, w, bestMinerID);
    } else {
      Untouched(listed, before, ghs, delta, w);
    }
    accurate := true;
  }

  lemma NotTrimmed(listed: map<string, ItemCopy>, before: map<string, ItemCopy>, ghs: int, delta: int, w: Window)
    requires Picked(listed, before, ghs, delta) && delta > 0
    requires forall id <- before :: !Eligible(before[id], delta, w)
    ensures ChosenFor(listed, before, ghs, w, false)
  {
    assert Settled(before, before, delta, w, false);
  }

  lemma Trimmed(listed: map<string, ItemCopy>, before: map<string, ItemCopy>, ghs: int, delta: int, w: Window, id: string)
    requires Picked(listed, before, ghs, delta) && delta > 0 && IsBest(before, delta, w, id)
    ensures ChosenFor(listed, Reduced(before, id, delta), ghs, w, true)
  {
    assert Settled(before, Reduced(before, id, delta), delta, w, true);
  }

  lemma Untouched(listed: map<string, ItemCopy>, before: map<string, ItemCopy>, ghs: int, delta: int, w: Window)
    requires Picked(listed, before, ghs, delta) && delta <= 0
    ensures ChosenFor(listed, before, ghs, w, true)
  {
    assert Settled(before, before, delta, w, true);
  }

  lemma AvailablePart(list: AllocCollection, part: AllocCollection)
    requires Available(list.Copies()) && part.items == Restrict(list.items, part.items.Keys)
    ensures forall id <- part.items :: id != "" && part.items[id].minerID == id && part.items[id].totalGHS > 0
  {
    assert forall id <- part.items :: list.Copies()[id].totalGHS > 0;
  }

  method Pick(list: AllocCollection, ghs: int) returns (combination: AllocCollection, delta: int)
    requires Available(list.Copies())
    requires 0 <= ghs < Rgli.MAX_INT && Sum(GHSOf(list.Copies())) < Rgli.MAX_INT
    ensures combination.items.Keys <= list.items.Keys
    ensures combination.items == Restrict(list.items, combination.items.Keys)
    ensures Picked(old(list.Copies()), combination.Copies(), ghs, delta)
  {
    AvailableGHS(list);
    combination, delta := FindClosestMinerCombination(list, ghs);
    PartOfCopies(list, combination);
    FoundIsPicked(list.Copies(), combination.items.Keys, ghs, delta);
  }

  lemma PartOfCopies(list: AllocCollection, part: AllocCollection)
    requires part.items.Keys <= list.items.Keys && part.items == Restrict(list.items, part.items.Keys)
    ensures Same(part.Copies(), Restrict(list.Copies(), part.items.Keys))
  {
    assert part.Copies() == Restrict(list.Copies(), part.items.Keys);
  }

  lemma FoundIsPicked(listed: map<string, ItemCopy>, ids: set<string>, ghs: int, delta: int)
    requires ids <= listed.Keys && Sum(Restrict(GHSOf(listed), ids)) == ghs + delta
    requires Sum(GHSOf(listed)) >= ghs ==> delta >= 0 && EndsWith(GHSOf(listed), ids, ghs)
    requires Sum(GHSOf(listed)) < ghs ==> ids == listed.Keys && delta < 0
    ensures Picked(listed, Restrict(listed, ids), ghs, delta)
  {
    var before := Restrict(listed, ids);
    assert before.Keys == ids;
    assert GHSOf(before) == Restrict(GHSOf(listed), ids);
    if ids == listed.Keys { assert before == listed; }
  }

  lemma AvailableGHS(list: AllocCollection)
    requires Available(list.Copies())
    ensures forall id <- list.items :: list.items[id].AllocatedGHS() >= 0
    ensures Same(list.GHSByID(), GHSOf(list.Copies()))
  {
    assert list.GHSByID() == GHSOf(list.Copies());
    forall id | id in list.items ensures list.items[id].AllocatedGHS() >= 0 {
      assert list.Copies()[id].totalGHS > 0;
      ProductSign(list.items[id].totalGHS as real, list.items[id].fraction);
    }
  }
}
