/** What raising and lowering a contract does to the fleet. */
module Updates {
  import opened Wrappers
  import opened Arithmetic
  import opened Sums
  import opened Splits
  import opened Walks
  import opened Fleets
  import opened Grants
  import opened Room
  import opened AllocSnapshots
  import opened FleetSnapshots
  import opened Combinations
  import opened Choices

  const HASHRATE_DIFF_THRESHOLD: real := 0.1

  datatype ScheduleError = NotEnoughHashrate(required: int, available: int)

  /** The list names exactly the miners that serve the contract, each once. */
  ghost predicate ListsServing(fleet: Fleet, contract: string, order: seq<string>) {
    Lists(fleet, order) && Serving(fleet, contract) == set id <- order
  }

  lemma OrderOfServing(fleet: Fleet, contract: string, order: seq<string>)
    requires Distinct(order) && forall id :: id in order <==> id in Serving(fleet, contract)
    ensures ListsServing(fleet, contract, order)
    ensures forall j :: 0 <= j < |order| ==> order[j] in Serving(fleet, contract)
  {
    assert forall j :: 0 <= j < |order| ==> order[j] in order;
  }

  // ---- lowering

  /**
   * The difference is less than a tenth of the target, up or down. For a target of zero the source divides by it: the
   * quotient is infinite or not a number, and not less than anything. For a negative target it is never positive.
   */
  predicate Near(target: int, delta: int): (near: bool)
    ensures target > 0 ==> (near <==> -target < 10 * delta < target)
    ensures target == 0 ==> !near
    ensures target < 0 ==> near
  {
    var size := if delta < 0 then -delta else delta;
    TenthOf(size, target);
    target != 0 && size as real / target as real < HASHRATE_DIFF_THRESHOLD
  }

  lemma TenthOf(size: nat, target: int)
    ensures target != 0 ==> (size as real / target as real < 0.1 <==> target < 0 || 10 * size < target)
  {
    if target > 0 {
      QuotientOrder(size as real, target as real, 0.1);
    } else if target < 0 {
      assert size as real / target as real <= 0.0;
    }
  }

  /** The miners in order provide more and more to the contract. */
  ghost predicate Ascending(fleet: Fleet, contract: string, order: seq<string>)
    requires Lists(fleet, order)
  {
    forall i, j :: 0 <= i < j < |order| ==> ServedBy(fleet[order[i]], contract) <= ServedBy(fleet[order[j]], contract)
  }

  /** The miners reported are visited ones, and include those visited that still serve the contract. */
  ghost predicate Reports(after: Fleet, contract: string, visited: seq<string>, result: Result<seq<string>, ScheduleError>) {
    && result.Ok? && (forall id <- result.value :: id in visited)
    && (forall id <- visited :: id in Serving(after, contract) ==> id in result.value)
  }

  lemma DecreaseReaches(before: Fleet, contract: string, removeGHS: int, w: Window, order: seq<string>, target: int)
    requires w.Valid() && Sane(before) && ListsServing(before, contract, order)
    requires 0 <= removeGHS && 0 <= target == Measured(before, contract) - removeGHS
    ensures var t := Trim(before, contract, order, removeGHS, w);
            && Reaches(before, t.fleet, contract, order, t.end, target, w)
            && Lowered(before, t.fleet, contract, order, t.end, w) && Sane(t.fleet)
  {
    var t := Trim(before, contract, order, removeGHS, w);
    assert forall j :: 0 <= j < |order| ==> order[j] in Serving(before, contract);
    TrimMeetsTarget(before, contract, order, removeGHS, w, t, target);
    TrimShape(before, contract, order, removeGHS, w);
  }

  lemma DecreaseReports(before: Fleet, contract: string, removeGHS: int, w: Window, order: seq<string>)
    requires w.Valid() && Sane(before) && ListsServing(before, contract, order)
    ensures var t := Trim(before, contract, order, removeGHS, w);
            Reports(t.fleet, contract, order[..t.end], Ok(t.listed))
  {
    assert forall j :: 0 <= j < |order| ==> order[j] in Serving(before, contract);
    ReportedAmongVisited(before, contract, order, removeGHS, w);
  }

  // ---- raising

  /** The shares that were granted on top of the growth, if any. */
  datatype Extra = NoExtra | Extra(shares: map<string, real>, accurate: bool)

  /** Either the shares chosen for ghs GH/s are granted, or ghs GH/s are not available and nothing changes. */
  ghost predicate Extended(before: Fleet, after: Fleet, contract: string, ghs: int, dest: string,
                           w: Window, ids: seq<string>, chosen: Extra, result: Result<seq<string>, ScheduleError>)
  {
    if Sum(GHSOf(SpareItems(before))) < ghs then Same(after, before) && result.Err?
    else
      && chosen.Extra? && Choice(before, chosen.shares, ghs, w, chosen.accurate)
      && Same(after, Grant(before, contract, chosen.shares, dest))
      && result.Ok? && ids <= result.value && (set id <- result.value) == (set id <- ids) + chosen.shares.Keys
  }

  lemma ExtendedByShares(before: Fleet, after: Fleet, contract: string, ghs: int, dest: string, w: Window,
                         ids: seq<string>, added: seq<string>, shares: map<string, real>, accurate: bool)
    requires Sum(GHSOf(SpareItems(before))) >= ghs && Choice(before, shares, ghs, w, accurate)
    requires Same(after, Grant(before, contract, shares, dest)) && forall id :: id in added <==> id in shares.Keys
    ensures Extended(before, after, contract, ghs, dest, w, ids, Extra(shares, accurate), Ok(ids + added))
  {
    IdsTogether(ids, added, shares.Keys);
  }

  lemma IdsTogether(ids: seq<string>, added: seq<string>, keys: set<string>)
    requires forall id :: id in added <==> id in keys
    ensures ids <= ids + added && Same((set id <- ids + added), (set id <- ids) + keys)
  {
    assert (set id <- ids + added) == (set id <- ids) + keys;
  }

  /** How a contract gets more hashrate: its own miners grow, and what is left to add after that is allocated. */
  ghost predicate Increased(before: Fleet, after: Fleet, contract: string, addGHS: int, dest: string, w: Window,
                            order: seq<string>, chosen: Extra, result: Result<seq<string>, ScheduleError>)
    requires Lists(before, order)
  {
    var g := Grow(before, contract, order, addGHS, w);
    if g.left == 0 then Same(after, g.fleet) && result == Ok(order)
    else Extended(g.fleet, after, contract, g.left, dest, w, order, chosen, result)
  }

  /** Growing keeps the fleet sane and all hashrates as they are. */
  lemma GrowthIsSane(fleet: Fleet, contract: string, order: seq<string>, addGHS: int, w: Window)
    requires w.Valid() && Sane(fleet) && ListsServing(fleet, contract, order) && addGHS >= 0
    ensures var g := Grow(fleet, contract, order, addGHS, w);
            Sane(g.fleet) && g.left >= 0 && TotalGHS(g.fleet) == TotalGHS(fleet)
  {
    var g := Grow(fleet, contract, order, addGHS, w);
    assert forall j :: 0 <= j < |order| ==> order[j] in Serving(fleet, contract);
    GrowKeeps(fleet, contract, order, addGHS, w);
  }

  // ---- when raising a contract keeps one share per contract

  /** Every miner that serves the contract is tight. */
  ghost predicate AllTight(fleet: Fleet, contract: string, w: Window) {
    forall id <- Serving(fleet, contract) :: Tight(fleet[id], contract, w)
  }

  /**
   * After a raise the fleet is sane if and only if growing was enough, or there was not enough to allocate, or
   * every chosen miner that serves the contract had less to spare than the share it was asked for.
   */
  lemma RaisedStaysSane(before: Fleet, after: Fleet, contract: string, addGHS: int, dest: string, w: Window,
                        order: seq<string>, chosen: Extra, result: Result<seq<string>, ScheduleError>)
    requires w.Valid() && Sane(before) && ListsServing(before, contract, order) && addGHS >= 0
    requires Increased(before, after, contract, addGHS, dest, w, order, chosen, result)
    ensures var g := Grow(before, contract, order, addGHS, w);
            Sane(after) <==> g.left == 0 || Sum(GHSOf(SpareItems(g.fleet))) < g.left
                             || NoSecondShare(g.fleet, contract, chosen.shares)
  {
    var g := Grow(before, contract, order, addGHS, w);
    GrowthIsSane(before, contract, order, addGHS, w);
    if g.left != 0 && Sum(GHSOf(SpareItems(g.fleet))) >= g.left {
      GrantStaysSane(g.fleet, contract, chosen.shares, dest);
    }
  }

  /** Every miner that serves the contract is tight for this amount. */
  ghost predicate AllTightFor(fleet: Fleet, contract: string, add: int, w: Window) {
    forall id <- Serving(fleet, contract) :: TightFor(fleet[id], contract, add, w)
  }

  /**
   * In whatever order its miners are visited, growing the contract leaves nothing to add, or something that can be
   * allocated to it and keep the fleet sane.
   */
  ghost predicate GrowsSafely(fleet: Fleet, contract: string, add: int, w: Window) {
    forall order | ListsServing(fleet, contract, order) ::
      var g := Grow(fleet, contract, order, add, w); g.left > 0 ==> SafeToAllocate(g.fleet, contract, g.left)
  }

  /** A raise keeps the fleet sane whenever the contract grows safely. */
  lemma RaisingSafelyStaysSane(before: Fleet, after: Fleet, contract: string, addGHS: int, dest: string, w: Window,
                               order: seq<string>, chosen: Extra, result: Result<seq<string>, ScheduleError>)
    requires w.Valid() && Sane(before) && ListsServing(before, contract, order) && addGHS >= 0
    requires Increased(before, after, contract, addGHS, dest, w, order, chosen, result)
    requires GrowsSafely(before, contract, addGHS, w)
    ensures Sane(after)
  {
    var g := Grow(before, contract, order, addGHS, w);
    GrowthIsSane(before, contract, order, addGHS, w);
    if g.left != 0 && Sum(GHSOf(SpareItems(g.fleet))) >= g.left {
      ChoiceKeepsSane(g.fleet, contract, chosen.shares, g.left, w, chosen.accurate, dest);
    }
  }

  /** It grows safely when all its miners are tight for what is added, or for any amount. */
  lemma TightGrowsSafely(fleet: Fleet, contract: string, add: int, w: Window)
    requires w.Valid() && Sane(fleet) && add >= 0
    requires AllTightFor(fleet, contract, add, w) || AllTight(fleet, contract, w)
    ensures GrowsSafely(fleet, contract, add, w)
  {
    forall order | ListsServing(fleet, contract, order)
      ensures var g := Grow(fleet, contract, order, add, w); g.left > 0 ==> SafeToAllocate(g.fleet, contract, g.left)
    {
      ServingInOrder(fleet, contract, order);
      if AllTight(fleet, contract, w) {
        GrowthLeavesNoRoom(fleet, contract, order, add, w);
      } else {
        GrowthByLeavesNoRoom(fleet, contract, order, add, w);
      }
    }
  }

  lemma ServingInOrder(fleet: Fleet, contract: string, order: seq<string>)
    requires ListsServing(fleet, contract, order)
    ensures forall j :: 0 <= j < |order| ==> order[j] in Serving(fleet, contract)
  {
    assert forall j :: 0 <= j < |order| ==> order[j] in order;
  }

  /** The extra shares are exact, provide exactly what growing left to add, and come from miners new to the contract. */
  ghost predicate AddsExactly(before: Fleet, contract: string, chosen: Extra) {
    chosen.Extra? && chosen.accurate
    && forall id <- chosen.shares :: Exact(chosen.shares[id]) && id !in Serving(before, contract)
  }

  /**
   * A contract that was raised measures what was asked for, give or take one GH/s for each of its miners, if
   * growing was enough or what it left to add was added exactly.
   */
  lemma RaisedMeasures(before: Fleet, after: Fleet, contract: string, addGHS: int, dest: string, w: Window,
                       order: seq<string>, chosen: Extra, result: Result<seq<string>, ScheduleError>)
    requires w.Valid() && Sane(before) && ListsServing(before, contract, order) && addGHS >= 0
    requires Increased(before, after, contract, addGHS, dest, w, order, chosen, result)
    requires var g := Grow(before, contract, order, addGHS, w);
             g.left == 0 || (Sum(GHSOf(SpareItems(g.fleet))) >= g.left && AddsExactly(before, contract, chosen))
    ensures -|order| <= Measured(after, contract) - (Measured(before, contract) + addGHS) <= |order|
  {
    var g := Grow(before, contract, order, addGHS, w);
    ServingInOrder(before, contract, order);
    GrowKeeps(before, contract, order, addGHS, w);
    if g.left != 0 {
      forall id | id in chosen.shares ensures !Has(g.fleet[id].split, contract) {
        assert g.fleet[id] == before[id] by { assert id !in order; }
      }
      AccurateAllocationMeasures(g.fleet, contract, chosen.shares, g.left, w, dest);
    }
  }

  /**
   * Raising a contract can give one of its own miners a second share of it: the miner below has a tenth of its
   * hashrate to spare, which is too little to grow its share into the window but just what is to be added.
   */
  lemma RaisingCanDuplicate(dest: string)
    ensures var w := Window(0.25, 0.75);
            var fleet: Fleet := map["m" := MinerState(100, [Split("c", 0.05, dest), Split("o", 0.85, dest)])];
            var g := Grow(fleet, "c", ["m"], 10, w);
            var chosen := map["m" := 0.1];
            && w.Valid() && Sane(fleet) && ListsServing(fleet, "c", ["m"])
            && g.fleet == fleet && g.left == 10 && Choice(fleet, chosen, 10, w, true)
            && !Sane(Grant(g.fleet, "c", chosen, dest))
  {
    var w := Window(0.25, 0.75);
    var split := [Split("c", 0.05, dest), Split("o", 0.85, dest)];
    var s := MinerState(100, split);
    var fleet: Fleet := map["m" := s];
    var chosen := map["m" := 0.1];
    TenthToSpare(s, dest);
    NothingGained(fleet, w);
    TenthIsChosen(fleet, w);
    GrantStaysSane(fleet, "c", chosen, dest);
    assert chosen["m"] == 0.1;
  }

  lemma TenthToSpare(s: MinerState, dest: string)
    requires s == MinerState(100, [Split("c", 0.05, dest), Split("o", 0.85, dest)])
    ensures Sound(s.split) && TotalShare(s.split) == 0.9 && Has(s.split, "c") && ShareOf(s.split, "c") == 0.05
    ensures ShareGHS(100, 0.1) == 10
  {
    assert s.split[1..] == [Split("o", 0.85, dest)];
    assert TotalShare(s.split[1..]) == 0.85;
  }

  lemma TenthIsChosen(fleet: Fleet, w: Window)
    requires w.Valid() && Sane(fleet) && fleet.Keys == {"m"} && fleet["m"].ghs == 100
    requires TotalShare(fleet["m"].split) == 0.9 && ShareGHS(100, 0.1) == 10
    ensures Choice(fleet, map["m" := 0.1], 10, w, true)
  {
    assert SpareItems(fleet)["m"] == ItemCopy("m", 0.1, 100);
    var chosen := SpareChosen(fleet, "m", "m", w);
    OneEntry(chosen, 0.1);
  }

  lemma OneEntry(chosen: map<string, real>, share: real)
    requires chosen.Keys == {"m", "m"} && chosen["m"] == share
    ensures Same(chosen, map["m" := share])
  {
    assert chosen == map["m" := share];
  }

  lemma NothingGained(fleet: Fleet, w: Window)
    requires fleet.Keys == {"m"} && fleet["m"].ghs == 100 && w == Window(0.25, 0.75)
    requires TotalShare(fleet["m"].split) == 0.9 && Has(fleet["m"].split, "c") && ShareOf(fleet["m"].split, "c") == 0.05
    requires ShareGHS(100, 0.1) == 10
    ensures ListsServing(fleet, "c", ["m"])
    ensures var g := Grow(fleet, "c", ["m"], 10, w); g.fleet == fleet && g.left == 10
  {
    assert GainOf(fleet["m"], "c", 10, w) == NoGain;
    WalkStep(fleet, ["m"], 0, 10, Grower("c", w));
    assert fleet["m" := fleet["m"]] == fleet;
  }
}
