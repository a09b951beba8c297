/** Runs of the scheduler: any sequence of its calls, each with any outcome that it can have. */
module SchedulerRuns {
  import opened Wrappers
  import opened Sums
  import opened Splits
  import opened Walks
  import opened Fleets
  import opened Grants
  import opened Room
  import opened FleetSnapshots
  import opened Combinations
  import opened Choices
  import opened Updates

  datatype Call =
    | Request(contract: string, ghs: nat, dest: string)
    | Retarget(contract: string, target: int, dest: string)
    | Stop(contract: string, ids: set<string>)

  /** There is not enough and nothing changes, or shares that were chosen for ghs GH/s are granted. */
  ghost predicate Allocated(before: Fleet, after: Fleet, contract: string, ghs: int, dest: string, w: Window) {
    if Sum(GHSOf(SpareItems(before))) < ghs then Same(after, before)
    else exists chosen, accurate ::
      Choice(before, chosen, ghs, w, accurate) && Same(after, Grant(before, contract, chosen, dest))
  }

  ghost predicate Raised(before: Fleet, after: Fleet, contract: string, addGHS: int, dest: string, w: Window) {
    exists order, chosen, result ::
      ListsServing(before, contract, order) && Increased(before, after, contract, addGHS, dest, w, order, chosen, result)
  }

  /** The contract was taken away from its smallest miners and the next one was reduced, down to the target. */
  ghost predicate Dropped(before: Fleet, after: Fleet, contract: string, target: int, w: Window) {
    exists order, k :: ListsServing(before, contract, order) && Ascending(before, contract, order)
                       && Lowered(before, after, contract, order, k, w) && Reaches(before, after, contract, order, k, target, w)
  }

  ghost predicate Updated(before: Fleet, after: Fleet, contract: string, target: int, dest: string, w: Window) {
    var delta := target - Measured(before, contract);
    if Near(target, delta) then Same(after, before)
    else if delta > 0 then Raised(before, after, contract, delta, dest, w)
    else Dropped(before, after, contract, target, w)
  }

  /** What a call can make of the fleet. */
  ghost predicate Outcome(before: Fleet, call: Call, after: Fleet, w: Window) {
    match call
    case Request(contract, ghs, dest) => Allocated(before, after, contract, ghs, dest, w)
    case Retarget(contract, target, dest) => Updated(before, after, contract, target, dest, w)
    case Stop(contract, ids) => Same(after, Release(before, contract, ids))
  }

  /** The miners are the same, with the same hashrates. */
  ghost predicate SameMiners(before: Fleet, after: Fleet) {
    after.Keys == before.Keys && forall id <- before :: after[id].ghs == before[id].ghs
  }

  /**
   * What is enough before a call for every outcome to keep the fleet sane. A contract that no miner serves can
   * always be allocated; a raise needs its miners to grow safely, as they do when they are tight for what is added;
   * lowering or stopping a contract needs nothing. Over all amounts the guard of a request is exact.
   */
  ghost predicate Guarded(fleet: Fleet, call: Call, w: Window) {
    match call
    case Request(contract, ghs, _) => SafeToAllocate(fleet, contract, ghs)
    case Retarget(contract, target, _) =>
      var delta := target - Measured(fleet, contract);
      delta > 0 && !Near(target, delta) ==> GrowsSafely(fleet, contract, delta, w)
    case Stop(_, _) => true
  }

  /** All miners of the contract are tight for what is to be added to reach the target, or for any amount. */
  ghost predicate TightToRaise(fleet: Fleet, contract: string, target: int, w: Window) {
    AllTightFor(fleet, contract, target - Measured(fleet, contract), w) || AllTight(fleet, contract, w)
  }

  lemma TightIsGuarded(fleet: Fleet, contract: string, target: int, dest: string, w: Window)
    requires w.Valid() && Sane(fleet) && TightToRaise(fleet, contract, target, w)
    ensures Guarded(fleet, Retarget(contract, target, dest), w)
  {
    var delta := target - Measured(fleet, contract);
    if delta > 0 { TightGrowsSafely(fleet, contract, delta, w); }
    SafeGrowthIsGuarded(fleet, contract, target, dest, w, delta);
  }

  lemma SafeGrowthIsGuarded(fleet: Fleet, contract: string, target: int, dest: string, w: Window, delta: int)
    requires delta == target - Measured(fleet, contract) && (delta > 0 ==> GrowsSafely(fleet, contract, delta, w))
    ensures Guarded(fleet, Retarget(contract, target, dest), w)
  {
  }

  // ---- each call

  lemma AllocatedStaysSane(before: Fleet, after: Fleet, contract: string, ghs: int, dest: string, w: Window)
    requires Sane(before) && SafeToAllocate(before, contract, ghs) && Allocated(before, after, contract, ghs, dest, w)
    ensures Sane(after)
  {
    if Sum(GHSOf(SpareItems(before))) >= ghs {
      var chosen, accurate :| Choice(before, chosen, ghs, w, accurate) && Same(after, Grant(before, contract, chosen, dest));
      ChoiceKeepsSane(before, contract, chosen, ghs, w, accurate, dest);
    }
  }

  lemma UpdatedStaysSane(before: Fleet, after: Fleet, contract: string, target: int, dest: string, w: Window)
    requires w.Valid() && Sane(before) && Updated(before, after, contract, target, dest, w)
    requires Guarded(before, Retarget(contract, target, dest), w)
    ensures Sane(after)
  {
    var delta := target - Measured(before, contract);
    if Near(target, delta) {
    } else if delta > 0 {
      var order, chosen, result :|
        ListsServing(before, contract, order) && Increased(before, after, contract, delta, dest, w, order, chosen, result);
      RaisingSafelyStaysSane(before, after, contract, delta, dest, w, order, chosen, result);
    } else {
      var order, k :| ListsServing(before, contract, order) && Ascending(before, contract, order)
                      && Lowered(before, after, contract, order, k, w) && Reaches(before, after, contract, order, k, target, w);
      ServingInOrder(before, contract, order);
      LoweredIsSane(before, after, contract, order, k, w);
    }
  }

  lemma UpdatingStaysSane(before: Fleet, after: Fleet, contract: string, target: int, dest: string, w: Window)
    requires w.Valid() && Sane(before) && Updated(before, after, contract, target, dest, w)
    ensures Guarded(before, Retarget(contract, target, dest), w) ==> Sane(after)
    ensures TightToRaise(before, contract, target, w) ==> Sane(after)
  {
    if TightToRaise(before, contract, target, w) { TightIsGuarded(before, contract, target, dest, w); }
    if Guarded(before, Retarget(contract, target, dest), w) {
      UpdatedStaysSane(before, after, contract, target, dest, w);
    }
  }

  lemma ReleasedStaysSane(fleet: Fleet, contract: string, ids: set<string>)
    requires Sane(fleet)
    ensures Sane(Release(fleet, contract, ids))
  {
    forall id | id in fleet ensures Sound(Release(fleet, contract, ids)[id].split) {
      ReleaseOneIsRemoval(fleet[id], contract);
      WithoutIsSound(fleet[id].split, contract);
    }
  }

  lemma OutcomeStaysSane(before: Fleet, call: Call, after: Fleet, w: Window)
    requires w.Valid() && Sane(before) && Guarded(before, call, w) && Outcome(before, call, after, w)
    ensures Sane(after)
  {
    match call
    case Request(contract, ghs, dest) => AllocatedStaysSane(before, after, contract, ghs, dest, w);
    case Retarget(contract, target, dest) => UpdatedStaysSane(before, after, contract, target, dest, w);
    case Stop(contract, ids) => ReleasedStaysSane(before, contract, ids);
  }

  /**
   * Every outcome of every request for a contract is sane if and only if no miner that serves it has a spare part
   * between 5% and 95%, or nothing is available.
   */
  lemma RequestsStaySane(fleet: Fleet, contract: string, dest: string, w: Window)
    requires w.Valid() && Sane(fleet)
    ensures NoRoom(fleet, contract) || Sum(GHSOf(SpareItems(fleet))) == 0 <==>
            forall ghs: nat, after | Outcome(fleet, Request(contract, ghs, dest), after, w) :: Sane(after)
  {
    SpareIsNonNegative(fleet);
    if NoRoom(fleet, contract) || Sum(GHSOf(SpareItems(fleet))) == 0 {
      forall ghs: nat, after | Outcome(fleet, Request(contract, ghs, dest), after, w) ensures Sane(after) {
        AllocatedStaysSane(fleet, after, contract, ghs, dest, w);
      }
    } else {
      var id :| id in Serving(fleet, contract) && !Closed(fleet[id]);
      var chosen, ghs := OpenMinerIsGranted(fleet, contract, id, w, dest);
      assert Outcome(fleet, Request(contract, ghs, dest), Grant(fleet, contract, chosen, dest), w);
    }
  }

  /** A request that succeeds and gives nothing, although five times as much is available; see AllocationCanGiveNothing. */
  lemma RequestCanGiveNothing(contract: string, dest: string, w: Window)
    requires w.Valid()
    ensures var fleet: Fleet := map["m" := MinerState(100, [Split("o", 0.5, dest)])];
            && Sum(GHSOf(SpareItems(fleet))) == 50
            && forall after | Outcome(fleet, Request(contract, 10, dest), after, w) :: Same(after, fleet)
  {
    var fleet: Fleet := map["m" := MinerState(100, [Split("o", 0.5, dest)])];
    AllocationCanGiveNothing(dest, contract, w);
    forall after | Outcome(fleet, Request(contract, 10, dest), after, w) ensures Same(after, fleet) {
      var chosen, accurate :| Choice(fleet, chosen, 10, w, accurate) && Same(after, Grant(fleet, contract, chosen, dest));
    }
  }

  /** Every miner's share of a contract is what it was, and goes where it went. */
  ghost predicate SameShares(before: Fleet, after: Fleet, contract: string) {
    after.Keys == before.Keys
    && forall id <- before :: after[id].ghs == before[id].ghs
                              && SameShare(after[id].split, before[id].split, contract)
  }

  lemma SameSharesMeasure(before: Fleet, after: Fleet, contract: string)
    requires SameShares(before, after, contract)
    ensures Measured(after, contract) == Measured(before, contract) && Serving(after, contract) == Serving(before, contract)
  {
    assert WorthMap(after, Server(contract)) == WorthMap(before, Server(contract));
  }

  lemma GrantLeavesOthers(fleet: Fleet, contract: string, chosen: map<string, real>, dest: string, other: string)
    requires other != contract
    ensures SameShares(fleet, Grant(fleet, contract, chosen, dest), other)
  {
    forall id | id in fleet && id in chosen
      ensures SameShare(GrantOne(fleet[id], contract, chosen[id], dest).split, fleet[id].split, other)
    {
      ShareOfCons(Split(contract, Adjusted(chosen[id]), dest), fleet[id].split, other);
    }
  }

  lemma GrowthLeavesOthers(fleet: Fleet, contract: string, order: seq<string>, addGHS: int, w: Window, other: string)
    requires w.Valid() && Sane(fleet) && ListsServing(fleet, contract, order) && addGHS >= 0 && other != contract
    ensures SameShares(fleet, Grow(fleet, contract, order, addGHS, w).fleet, other)
  {
    var g := Grow(fleet, contract, order, addGHS, w);
    ServingInOrder(fleet, contract, order);
    GrowKeeps(fleet, contract, order, addGHS, w);
    forall id | id in fleet && g.fleet[id] != fleet[id]
      ensures g.fleet[id].ghs == fleet[id].ghs && SameShare(g.fleet[id].split, fleet[id].split, other)
    {
      var share :| (w.Contains(share) || share == 1.0)
                   && g.fleet[id] == fleet[id].(split := WithShare(fleet[id].split, contract, share));
      WithShareFrame(fleet[id].split, contract, share, other);
    }
  }

  lemma LoweredLeavesOthers(before: Fleet, after: Fleet, contract: string, order: seq<string>, k: nat, w: Window, other: string)
    requires Lists(before, order) && Lowered(before, after, contract, order, k, w) && other != contract
    ensures SameShares(before, after, other)
  {
    forall id | id in before && after[id] != before[id]
      ensures after[id].ghs == before[id].ghs && SameShare(after[id].split, before[id].split, other)
    {
      assert id in order[..k];
      var j :| 0 <= j < k && order[j] == id;
      OtherSharesUnchanged(before[order[j]], after[order[j]], contract, w, other);
    }
  }

  lemma ReleaseLeavesOthers(fleet: Fleet, contract: string, ids: set<string>, other: string)
    requires Sane(fleet) && other != contract
    ensures SameShares(fleet, Release(fleet, contract, ids), other)
  {
    forall id | id in fleet
      ensures SameShare(ReleaseOne(fleet[id], contract).split, fleet[id].split, other)
    {
      ReleaseOneIsRemoval(fleet[id], contract);
      WithoutFrame(fleet[id].split, contract, other);
    }
  }

  lemma RaiseLeavesOthers(before: Fleet, after: Fleet, contract: string, addGHS: int, dest: string, w: Window,
                          order: seq<string>, chosen: Extra, result: Result<seq<string>, ScheduleError>, other: string)
    requires w.Valid() && Sane(before) && ListsServing(before, contract, order) && addGHS >= 0 && other != contract
    requires Increased(before, after, contract, addGHS, dest, w, order, chosen, result)
    ensures SameShares(before, after, other)
  {
    var g := Grow(before, contract, order, addGHS, w);
    GrowthLeavesOthers(before, contract, order, addGHS, w, other);
    if g.left != 0 && Sum(GHSOf(SpareItems(g.fleet))) >= g.left {
      GrantLeavesOthers(g.fleet, contract, chosen.shares, dest, other);
    }
  }

  lemma UpdateLeavesOthers(before: Fleet, after: Fleet, contract: string, target: int, dest: string, w: Window, other: string)
    requires w.Valid() && Sane(before) && Updated(before, after, contract, target, dest, w) && other != contract
    ensures SameShares(before, after, other)
  {
    var delta := target - Measured(before, contract);
    if Near(target, delta) {
    } else if delta > 0 {
      var order, chosen, result :|
        ListsServing(before, contract, order) && Increased(before, after, contract, delta, dest, w, order, chosen, result);
      RaiseLeavesOthers(before, after, contract, delta, dest, w, order, chosen, result, other);
    } else {
      var order, k :| ListsServing(before, contract, order) && Ascending(before, contract, order)
                      && Lowered(before, after, contract, order, k, w) && Reaches(before, after, contract, order, k, target, w);
      LoweredLeavesOthers(before, after, contract, order, k, w, other);
    }
  }

  /** Whatever a call does for its contract, every miner's share of any other contract is as it was, with its destination. */
  lemma OutcomeLeavesOthers(before: Fleet, call: Call, after: Fleet, w: Window, other: string)
    requires w.Valid() && Sane(before) && Outcome(before, call, after, w) && other != call.contract
    ensures SameShares(before, after, other)
  {
    match call
    case Request(contract, ghs, dest) =>
      if Sum(GHSOf(SpareItems(before))) >= ghs {
        var chosen, accurate :| Choice(before, chosen, ghs, w, accurate) && Same(after, Grant(before, contract, chosen, dest));
        GrantLeavesOthers(before, contract, chosen, dest, other);
      }
    case Retarget(contract, target, dest) =>
      UpdateLeavesOthers(before, after, contract, target, dest, w, other);
    case Stop(contract, ids) =>
      ReleaseLeavesOthers(before, contract, ids, other);
  }

  // ---- what a new target does, in whole numbers

  /**
   * A contract that is off its target by less than a tenth of it is left alone. One that is served too much by at least
   * a tenth is lowered and measures no more than the target, one that is served too little by at least a tenth is raised.
   */
  lemma RetargetActs(before: Fleet, after: Fleet, contract: string, target: int, dest: string, w: Window)
    requires Outcome(before, Retarget(contract, target, dest), after, w)
    ensures var had := Measured(before, contract);
            && (target < 0 || -target < 10 * (target - had) < target ==> after == before)
            && (0 < target <= 10 * (target - had) ==> Raised(before, after, contract, target - had, dest, w))
            && (0 <= target <= 10 * (had - target) ==>
                  Dropped(before, after, contract, target, w) && Measured(after, contract) <= target)
  {
    if 0 <= target <= 10 * (Measured(before, contract) - target) { DroppedMeasures(before, after, contract, target, w); }
  }

  /** The contract falls short by under half of a miner, on which taking l GH/s would leave it a share outside the window. */
  ghost predicate FallsShort(before: Fleet, after: Fleet, contract: string, target: int, w: Window, id: string, l: int) {
    && id in Serving(before, contract) && id in after && Keeps(before[id], after[id], contract, l, w)
    && 0 < l < ServedBy(before[id], contract) && 2 * (target - Measured(after, contract)) < before[id].ghs
    && !w.Contains(ShareOf(before[id].split, contract) - l as real / before[id].ghs as real)
  }

  lemma EndsNearTarget(before: Fleet, after: Fleet, contract: string, id: string, l: int, target: int, w: Window)
    requires id in Serving(before, contract) && id in after && EndsAt(before, after, contract, id, l, target, w)
    ensures Measured(after, contract) <= target
    ensures Measured(after, contract) < target ==> FallsShort(before, after, contract, target, w, id, l)
  {
  }

  lemma ReachedMeasures(before: Fleet, after: Fleet, contract: string, target: int, w: Window, order: seq<string>, k: nat)
    requires ListsServing(before, contract, order) && Reaches(before, after, contract, order, k, target, w)
    ensures Measured(after, contract) <= target
    ensures Measured(after, contract) < target ==> exists id, l :: FallsShort(before, after, contract, target, w, id, l)
  {
    if k > 0 {
      var l := WorthFrom(before, order, k - 1, Server(contract)) - target;
      ServingInOrder(before, contract, order);
      EndsNearTarget(before, after, contract, order[k - 1], l, target, w);
    }
  }

  /**
   * A lowered contract measures its target, or less by under half of one of its miners, and that only if it could not
   * keep what was to be left of this miner.
   */
  lemma DroppedMeasures(before: Fleet, after: Fleet, contract: string, target: int, w: Window)
    requires Dropped(before, after, contract, target, w)
    ensures Measured(after, contract) <= target
    ensures Measured(after, contract) < target ==> exists id, l :: FallsShort(before, after, contract, target, w, id, l)
  {
    var order, k :| ListsServing(before, contract, order) && Ascending(before, contract, order)
                    && Lowered(before, after, contract, order, k, w) && Reaches(before, after, contract, order, k, target, w);
    ReachedMeasures(before, after, contract, target, w, order, k);
  }

  // ---- where the hashrate of a contract goes

  /** Shares of the call's contract that were there before go where they went; new ones go where the call says. */
  ghost predicate Directed(before: Fleet, call: Call, after: Fleet) {
    after.Keys == before.Keys
    && forall id <- before :: Has(after[id].split, call.contract) ==>
      if Has(before[id].split, call.contract)
      then DestOf(after[id].split, call.contract) == DestOf(before[id].split, call.contract)
      else !call.Stop? && DestOf(after[id].split, call.contract) == call.dest
  }

  /** A share that is granted goes to the destination asked for; it is the only one if the contract has no two shares. */
  lemma GrantOneDirects(s: MinerState, contract: string, share: real, dest: string)
    ensures var after := GrantOne(s, contract, share, dest);
            && (after == s || (Has(after.split, contract) && DestOf(after.split, contract) == dest))
            && (after != s && Unique(after.split) ==> !Has(s.split, contract))
  {
    var first, after := Split(contract, Adjusted(share), dest), GrantOne(s, contract, share, dest);
    ShareOfCons(first, s.split, contract);
    if after != s && Unique(after.split) {
      assert after.split == [first] + s.split;
      assert forall i :: 0 <= i < |s.split| ==> s.split[i] == after.split[i + 1] && s.split[i].id != contract;
    }
  }

  lemma GrantDirects(before: Fleet, fleet: Fleet, call: Call, chosen: map<string, real>, after: Fleet)
    requires !call.Stop? && Directed(before, call, fleet)
    requires Same(after, Grant(fleet, call.contract, chosen, call.dest)) && Sane(after)
    requires forall id <- before :: Has(fleet[id].split, call.contract) == Has(before[id].split, call.contract)
    ensures Directed(before, call, after)
  {
    forall id | id in before && id in chosen && Has(after[id].split, call.contract)
      ensures DestOf(after[id].split, call.contract) ==
              if Has(before[id].split, call.contract) then DestOf(before[id].split, call.contract) else call.dest
    {
      GrantOneDirects(fleet[id], call.contract, chosen[id], call.dest);
    }
  }

  lemma GrowthDirects(fleet: Fleet, call: Call, order: seq<string>, addGHS: int, w: Window)
    requires w.Valid() && Sane(fleet) && ListsServing(fleet, call.contract, order) && addGHS >= 0
    ensures var g := Grow(fleet, call.contract, order, addGHS, w).fleet;
            Directed(fleet, call, g)
            && forall id <- fleet :: Has(g[id].split, call.contract) == Has(fleet[id].split, call.contract)
  {
    var g, c := Grow(fleet, call.contract, order, addGHS, w), call.contract;
    ServingInOrder(fleet, c, order);
    GrowKeeps(fleet, c, order, addGHS, w);
    forall id | id in fleet
      ensures Has(g.fleet[id].split, c) == Has(fleet[id].split, c)
      ensures DestOf(g.fleet[id].split, c) == DestOf(fleet[id].split, c)
    {
      if g.fleet[id] != fleet[id] {
        var share :| (w.Contains(share) || share == 1.0)
                     && g.fleet[id] == fleet[id].(split := WithShare(fleet[id].split, c, share));
        WithShareFrame(fleet[id].split, c, share, c);
      }
    }
  }

  lemma LoweredDirects(before: Fleet, after: Fleet, call: Call, order: seq<string>, k: nat, w: Window)
    requires Sane(before) && Lists(before, order) && Lowered(before, after, call.contract, order, k, w)
    ensures Directed(before, call, after)
  {
    var c := call.contract;
    forall id | id in before && after[id] != before[id] && Has(after[id].split, c)
      ensures Has(before[id].split, c) && DestOf(after[id].split, c) == DestOf(before[id].split, c)
    {
      assert id in order[..k];
      WithoutUnique(before[id].split, c);
      var share :| w.Contains(share) && share < ShareOf(before[id].split, c)
                   && after[id] == before[id].(split := WithShare(before[id].split, c, share));
      WithShareFrame(before[id].split, c, share, c);
    }
  }

  lemma ReleaseDirects(fleet: Fleet, contract: string, ids: set<string>)
    requires Sane(fleet)
    ensures Directed(fleet, Stop(contract, ids), Release(fleet, contract, ids))
  {
    forall id | id in fleet ensures !Has(ReleaseOne(fleet[id], contract).split, contract) {
      ReleaseOneIsRemoval(fleet[id], contract);
      WithoutUnique(fleet[id].split, contract);
    }
  }

  lemma UpdateDirects(before: Fleet, call: Call, after: Fleet, w: Window)
    requires w.Valid() && Sane(before) && Sane(after) && call.Retarget?
    requires Updated(before, after, call.contract, call.target, call.dest, w)
    ensures Directed(before, call, after)
  {
    var c, delta := call.contract, call.target - Measured(before, call.contract);
    if Near(call.target, delta) {
    } else if delta > 0 {
      var order, chosen, result :|
        ListsServing(before, c, order) && Increased(before, after, c, delta, call.dest, w, order, chosen, result);
      var g := Grow(before, c, order, delta, w);
      GrowthDirects(before, call, order, delta, w);
      if g.left != 0 && Sum(GHSOf(SpareItems(g.fleet))) >= g.left {
        GrantDirects(before, g.fleet, call, chosen.shares, after);
      }
    } else {
      var order, k :| ListsServing(before, c, order) && Ascending(before, c, order)
                      && Lowered(before, after, c, order, k, w) && Reaches(before, after, c, order, k, call.target, w);
      LoweredDirects(before, after, call, order, k, w);
    }
  }

  /** A call that keeps the fleet sane never redirects a share, and sends new ones where it was told to. */
  lemma OutcomeDirects(before: Fleet, call: Call, after: Fleet, w: Window)
    requires w.Valid() && Sane(before) && Sane(after) && Outcome(before, call, after, w)
    ensures Directed(before, call, after)
  {
    match call
    case Request(contract, ghs, dest) =>
      if Sum(GHSOf(SpareItems(before))) >= ghs {
        var chosen, accurate :| Choice(before, chosen, ghs, w, accurate) && Same(after, Grant(before, contract, chosen, dest));
        GrantDirects(before, before, call, chosen, after);
      }
    case Retarget(_, _, _) => UpdateDirects(before, call, after, w);
    case Stop(contract, ids) => ReleaseDirects(before, contract, ids);
  }

  /** All hashrate of a contract goes to one destination. */
  ghost predicate AllTo(fleet: Fleet, contract: string, dest: string) {
    forall id <- Serving(fleet, contract) :: DestOf(fleet[id].split, contract) == dest
  }

  lemma OutcomeServes(before: Fleet, call: Call, after: Fleet, w: Window, contract: string, dest: string)
    requires w.Valid() && Sane(before) && Sane(after) && Outcome(before, call, after, w)
    requires AllTo(before, contract, dest) && (call.contract == contract && !call.Stop? ==> call.dest == dest)
    ensures AllTo(after, contract, dest)
  {
    if call.contract == contract {
      OutcomeDirects(before, call, after, w);
    } else {
      OutcomeLeavesOthers(before, call, after, w, contract);
    }
    forall id | id in Serving(after, contract) ensures DestOf(after[id].split, contract) == dest {
      assert Has(before[id].split, contract) ==> id in Serving(before, contract);
    }
  }

  // ---- runs

  /** The fleets before, between and after the calls of a run. */
  ghost predicate IsRun(fleets: seq<Fleet>, calls: seq<Call>, w: Window) {
    |fleets| == |calls| + 1
    && forall i :: 0 <= i < |calls| ==> Outcome(fleets[i], calls[i], fleets[i + 1], w)
  }

  ghost predicate AllGuarded(fleets: seq<Fleet>, calls: seq<Call>, w: Window)
    requires |fleets| == |calls| + 1
  {
    forall i :: 0 <= i < |calls| ==> Guarded(fleets[i], calls[i], w)
  }

  lemma AnyOtherName(name: string) returns (other: string)
    ensures other != name
  {
    other := name + "+";
    assert |other| != |name|;
  }

  lemma OutcomeKeepsMiners(before: Fleet, call: Call, after: Fleet, w: Window)
    requires w.Valid() && Sane(before) && Outcome(before, call, after, w)
    ensures SameMiners(before, after)
  {
    var other := AnyOtherName(call.contract);
    OutcomeLeavesOthers(before, call, after, w, other);
  }

  lemma SameSharesThen(a: Fleet, b: Fleet, c: Fleet, other: string)
    requires SameShares(a, b, other) && SameShares(b, c, other)
    ensures SameShares(a, c, other)
  {
  }

  lemma SameMinersThen(a: Fleet, b: Fleet, c: Fleet)
    requires SameMiners(a, b) && SameMiners(b, c)
    ensures SameMiners(a, c)
  {
  }

  /** A call after which the fleet is as a run needs it, in comparison with the first fleet of the run. */
  lemma OneMoreCall(first: Fleet, before: Fleet, call: Call, after: Fleet, w: Window)
    requires w.Valid() && Sane(before) && Guarded(before, call, w) && Outcome(before, call, after, w)
    requires SameMiners(first, before)
    ensures Sane(after) && SameMiners(first, after)
    ensures forall other :: other != call.contract && SameShares(first, before, other) ==> SameShares(first, after, other)
  {
    OutcomeStaysSane(before, call, after, w);
    OutcomeKeepsMiners(before, call, after, w);
    SameMinersThen(first, before, after);
    forall other | other != call.contract && SameShares(first, before, other) ensures SameShares(first, after, other) {
      OutcomeLeavesOthers(before, call, after, w, other);
      SameSharesThen(first, before, after, other);
    }
  }

  lemma {:induction false} RunKeeps(fleets: seq<Fleet>, calls: seq<Call>, w: Window, n: nat)
    requires w.Valid() && IsRun(fleets, calls, w) && AllGuarded(fleets, calls, w)
    requires Sane(fleets[0]) && n <= |calls|
    ensures Sane(fleets[n]) && SameMiners(fleets[0], fleets[n])
    ensures forall other :: (forall i :: 0 <= i < n ==> calls[i].contract != other) ==> SameShares(fleets[0], fleets[n], other)
  {
    if n > 0 {
      RunKeeps(fleets, calls, w, n - 1);
      var i := n - 1;
      assert Guarded(fleets[i], calls[i], w) && Outcome(fleets[i], calls[i], fleets[i + 1], w);
      OneMoreCall(fleets[0], fleets[i], calls[i], fleets[n], w);
    }
  }

  /**
   * Over every run whose calls are guarded, whatever is chosen and in whatever order miners are visited: no miner is
   * ever given away more than once over, no contract ever has two shares of one miner, and the miners
   * keep their hashrates.
   */
  lemma RunStaysSane(fleets: seq<Fleet>, calls: seq<Call>, w: Window)
    requires w.Valid() && IsRun(fleets, calls, w) && AllGuarded(fleets, calls, w) && Sane(fleets[0])
    ensures forall n :: 0 <= n < |fleets| ==> Sane(fleets[n]) && SameMiners(fleets[0], fleets[n])
  {
    forall n | 0 <= n < |fleets| ensures Sane(fleets[n]) && SameMiners(fleets[0], fleets[n]) {
      RunKeeps(fleets, calls, w, n);
    }
  }

  /**
   * A contract that none of the calls is about keeps its share of every miner, where it goes, and its measured hashrate,
   * throughout.
   */
  lemma RunLeavesOthers(fleets: seq<Fleet>, calls: seq<Call>, w: Window, other: string, n: nat)
    requires w.Valid() && IsRun(fleets, calls, w) && AllGuarded(fleets, calls, w) && Sane(fleets[0])
    requires n <= |calls| && forall i :: 0 <= i < |calls| ==> calls[i].contract != other
    ensures SameShares(fleets[0], fleets[n], other)
    ensures Measured(fleets[n], other) == Measured(fleets[0], other)
    ensures Serving(fleets[n], other) == Serving(fleets[0], other)
  {
    RunKeeps(fleets, calls, w, n);
    SameSharesMeasure(fleets[0], fleets[n], other);
  }

  /** As long as every call for a contract asks for the same destination, all its hashrate goes there. */
  lemma {:induction false} RunServesDestination(fleets: seq<Fleet>, calls: seq<Call>, w: Window, contract: string,
                                                dest: string, n: nat)
    requires w.Valid() && IsRun(fleets, calls, w) && AllGuarded(fleets, calls, w) && Sane(fleets[0]) && n <= |calls|
    requires AllTo(fleets[0], contract, dest)
    requires forall i :: 0 <= i < |calls| && calls[i].contract == contract && !calls[i].Stop? ==> calls[i].dest == dest
    ensures AllTo(fleets[n], contract, dest)
  {
    if n > 0 {
      RunServesDestination(fleets, calls, w, contract, dest, n - 1);
      RunStaysSane(fleets, calls, w);
      OutcomeServes(fleets[n - 1], calls[n - 1], fleets[n], w, contract, dest);
    }
  }
}
