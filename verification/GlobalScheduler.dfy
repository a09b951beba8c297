/** The scheduler that spreads contracts over the miners of the system. */
module GlobalSchedulers {
  import opened Wrappers
  import opened Arithmetic
  import opened Sums
  import opened Splits
  import opened DestSplits
  import opened MinerScheduler
  import opened Sorting
  import opened Walks
  import opened Fleets
  import opened Grants
  import opened AllocSnapshots
  import opened FleetSnapshots
  import opened Combinations
  import opened Choices
  import opened Updates
  import opened SchedulerRuns
  import Rgli = SubsetSumRgli

  class GlobalScheduler {
    const miners: map<string, OnDemandMinerScheduler>
    const poolMinDuration: pos
    const poolMaxDuration: pos
    const window: Window
    /** Which miner a list of shares belongs to. */
    ghost const owner: map<DestSplit, string>

    constructor (miners: map<string, OnDemandMinerScheduler>, min: pos, max: pos)
      requires min <= max && Keyed(miners)
      ensures this.miners == miners && Valid()
      ensures poolMinDuration == min && poolMaxDuration == max
      ensures window == Window(min as real / (min + max) as real, max as real / (min + max) as real)
    {
      this.miners := miners;
      owner := map id | id in miners :: miners[id].destSplit := id;
      poolMinDuration, poolMaxDuration := min, max;
      window := Window(min as real / (min + max) as real, max as real / (min + max) as real);
      new;
      WindowInTime(min, max, 0.5);
    }

    ghost predicate Valid() {
      window.Valid() && forall id <- miners :: Owned(miners[id], id, owner)
    }

    ghost function DestSplits(): set<DestSplit> {
      set id | id in miners :: miners[id].destSplit
    }

    /** The vetted miners with their current shares. */
    ghost function View(): Fleet
      reads DestSplits()
    {
      map id | id in miners && miners[id].vetted :: MinerState(miners[id].hashrateGHS, miners[id].destSplit.split)
    }

    /** What the lists of shares do not change in, the view does not. */
    twostate lemma ViewIsKept()
      requires unchanged(DestSplits())
      ensures Same(View(), old(View()))
    {
      assert View() == old(View());
    }

    // ---- the operations on a single miner

    method AllocateOn(id: string, contract: string, share: real, dest: string) returns (ok: bool)
      requires Valid() && id in View()
      modifies miners[id].destSplit
      ensures View() == old(View())[id := GrantOne(old(View())[id], contract, share, dest)]
    {
      var result := miners[id].Allocate(contract, share, dest);
      ok := result.Ok?;
    }

    method DeallocateOn(id: string, contract: string) returns (ok: Option<bool>)
      requires Valid() && id in View()
      modifies miners[id].destSplit
      ensures View() == old(View())[id := ReleaseOne(old(View())[id], contract)]
      ensures ok.None? <==> DeallocationCrashes(old(View())[id].split, contract)
    {
      ok := miners[id].Deallocate(contract);
    }

    /** Removes up to remaining GH/s from one miner's share; reports how many count as removed. */
    method CutOn(id: string, contract: string, item: ItemCopy, remaining: int) returns (removed: int)
      requires Valid() && id in View() && Unique(View()[id].split)
      requires item == ItemCopy(id, ShareOf(View()[id].split, contract), View()[id].ghs)
      modifies miners[id].destSplit
      ensures var visit := Cutter(contract, window)(old(View())[id], remaining);
              && View() == old(View())[id := visit.state] && visit.left == remaining - removed
              && visit.listed == (remaining < item.AllocatedGHS())
    {
      removed := CutSplit(miners[id].destSplit, contract, item, remaining, window);
    }

    /** Adds up to remaining GH/s to one miner's share; reports how many are left to add. */
    method GrowOn(snap: AllocSnap, ghost fleet: Fleet, id: string, contract: string, share: real, spare: real, remaining: int)
      returns (left: int)
      requires Valid() && id in View()
      requires share == ShareOf(View()[id].split, contract) && spare == 1.0 - TotalShare(View()[id].split)
      modifies miners[id].destSplit
      ensures Shows(snap, fleet) == old(Shows(snap, fleet))
      ensures var visit := Grower(contract, window)(old(View())[id], remaining);
              View() == old(View())[id := visit.state] && left == visit.left
    {
      left := GrowSplit(miners[id].destSplit, contract, miners[id].hashrateGHS, share, spare, remaining, window);
    }

    // ---- the snapshot

    /** The snapshot lists exactly the vetted miners, with the hashrates they report. */
    method GetMinerSnapshot() returns (snap: AllocSnap)
      requires Valid() && Sane(View())
      ensures Same(View(), old(View()))
      ensures fresh(snap) && Shows(snap, View())
      ensures forall id :: id in snap.byMiner <==> id in miners && miners[id].vetted
      ensures forall id <- snap.byMiner :: id in snap.minerHashrate && snap.minerHashrate[id] == miners[id].hashrateGHS
    {
      ghost var fleet, done: Fleet := View(), map[];
      snap := new AllocSnap();
      var ids := miners.Keys;
      while ids != {}
        invariant ids <= miners.Keys
        invariant fresh(snap) && Shows(snap, done)
        invariant View() == fleet && Same(done, Restrict(fleet, miners.Keys - ids))
      {
        var id :| id in ids;
        if miners[id].vetted {
          RecordMiner(snap, done, id);
          done := done[id := fleet[id]];
        }
        RestrictOneMore(fleet, miners.Keys, ids, id);
        ids := ids - {id};
      }
      RestrictToAll(fleet, miners.Keys);
      assert View() == old(View());
    }

    method RecordMiner(snap: AllocSnap, ghost done: Fleet, id: string)
      requires Valid() && id in View() && Unique(View()[id].split)
      requires Shows(snap, done) && id !in done
      modifies snap
      ensures View() == old(View())
      ensures Shows(snap, done[id := View()[id]])
    {
      AddMiner(snap, done, id, miners[id].hashrateGHS, miners[id].destSplit.split);
    }

    // ---- removing hashrate

    /** Takes removeGHS off a contract, miner by miner in increasing order of what they provide. */
    method DecrAllocation(snap: AllocSnap, removeGHS: int, contract: string) returns (ids: seq<string>, ghost order: seq<string>)
      requires Valid() && Sane(View()) && Shows(snap, View())
      modifies DestSplits()
      ensures Lists(old(View()), order) && Serving(old(View()), contract) == set id <- order
      ensures Ascending(old(View()), contract, order)
      ensures var t := Trim(old(View()), contract, order, removeGHS, window);
              View() == t.fleet && ids == t.listed
    {
      ghost var fleet := View();
      ColumnShows(snap, fleet, contract);
      ids, order := [], [];
      if contract !in snap.byContract {
        return;
      }
      var sorted := snap.byContract[contract].SortByAllocatedGHS();
      order := MinerIDs(sorted);
      SortedServing(fleet, contract, sorted);
      ids := CutInOrder(sorted, removeGHS, contract, order);
    }

    /**
     * One visit of the removal that started with removeGHS to take off the given fleet. Once nothing remains
     * to be removed, every further miner is left alone.
     */
    method CutNext(sorted: seq<ItemCopy>, k: nat, remaining: int, ids: seq<string>, contract: string,
                   ghost fleet: Fleet, ghost order: seq<string>, ghost removeGHS: int)
      returns (left: int, reported: seq<string>, ghost w: Walked<MinerState>)
      requires Valid() && Sane(fleet) && Lists(fleet, order) && k < |order|
      requires Describes(sorted, fleet, order, contract)
      requires var w := WalkTo(fleet, order, k, removeGHS, Cutter(contract, window));
               Same(w.fleet, View()) && w.left == remaining && Same(w.listed, ids)
      modifies DestSplits()
      ensures Same(w, WalkTo(fleet, order, k + 1, removeGHS, Cutter(contract, window)))
      ensures Same(w.fleet, View()) && w.left == left && Same(w.listed, reported)
    {
      WalkToLeavesRest(fleet, order, k, removeGHS, Cutter(contract, window));
      w := WalkTo(fleet, order, k + 1, removeGHS, Cutter(contract, window));
      left, reported := remaining, ids;
      if remaining <= 0 {
        return;
      }
      var item := sorted[k];
      var removed := CutOn(item.minerID, contract, item, remaining);
      reported := ids + if remaining < item.AllocatedGHS() then [item.minerID] else [];
      left := remaining - removed;
    }

    /** The removal itself, once the items of the contract are sorted. */
    method CutInOrder(sorted: seq<ItemCopy>, removeGHS: int, contract: string, ghost order: seq<string>)
      returns (ids: seq<string>)
      requires Valid() && Sane(View()) && Lists(View(), order) && Describes(sorted, View(), order, contract)
      modifies DestSplits()
      ensures var t := Trim(old(View()), contract, order, removeGHS, window);
              View() == t.fleet && ids == t.listed
    {
      ids := [];
      var remaining, k := removeGHS, 0;
      ghost var fleet, visit := View(), Cutter(contract, window);
      ghost var w := WalkTo(fleet, order, 0, removeGHS, visit);
      while k < |sorted|
        invariant 0 <= k <= |sorted|
        invariant Same(w, WalkTo(fleet, order, k, removeGHS, visit))
        invariant Same(w.fleet, View()) && w.left == remaining && Same(w.listed, ids)
      {
        remaining, ids, w := CutNext(sorted, k, remaining, ids, contract, fleet, order, removeGHS);
        k := k + 1;
      }
      WalkToEnd(fleet, order, |order|, removeGHS, visit);
    }

    // ---- adding hashrate

    /** What the snapshot says of one miner that serves the contract: its share, and what it has to spare. */
    method ReadRoom(snap: AllocSnap, contract: string, id: string, ghost fleet: Fleet) returns (share: real, spare: real)
      requires Sane(fleet) && Shows(snap, fleet) && id in Serving(fleet, contract)
      ensures View() == old(View()) && Shows(snap, fleet)
      ensures share == ShareOf(fleet[id].split, contract) && spare == 1.0 - TotalShare(fleet[id].split)
    {
      ColumnCell(snap, fleet, contract, id);
      RowSpare(snap.byMiner[id], fleet[id]);
      var _, item := snap.byMiner[id].GetUnallocatedGHS();
      share, spare := snap.byMiner[id].items[contract].fraction, item.fraction;
    }

    /** One visit of the growth that started with addGHS to add to the given fleet. */
    method GrowNext(snap: AllocSnap, remaining: int, contract: string,
                    ghost fleet: Fleet, order: seq<string>, k: nat, ghost addGHS: int)
      returns (left: int, ghost w: Walked<MinerState>)
      requires Valid() && Sane(fleet) && Shows(snap, fleet)
      requires Lists(fleet, order) && k < |order| && order[k] in Serving(fleet, contract)
      requires var w := WalkTo(fleet, order, k, addGHS, Grower(contract, window));
               Same(w.fleet, View()) && w.left == remaining
      modifies DestSplits()
      ensures Shows(snap, fleet)
      ensures Same(w, WalkTo(fleet, order, k + 1, addGHS, Grower(contract, window)))
      ensures Same(w.fleet, View()) && w.left == left
    {
      WalkToLeavesRest(fleet, order, k, addGHS, Grower(contract, window));
      w := WalkTo(fleet, order, k + 1, addGHS, Grower(contract, window));
      left := remaining;
      if remaining <= 0 {
        return;
      }
      var share, spare := ReadRoom(snap, contract, order[k], fleet);
      left := GrowOn(snap, fleet, order[k], contract, share, spare, remaining);
    }

    /** Grows the shares of the miners in order. */
    method GrowInOrder(snap: AllocSnap, addGHS: int, contract: string, order: seq<string>) returns (remaining: int)
      requires Valid() && Sane(View()) && Shows(snap, View())
      requires Lists(View(), order) && forall j :: 0 <= j < |order| ==> order[j] in Serving(View(), contract)
      modifies DestSplits()
      ensures var g := Grow(old(View()), contract, order, addGHS, window);
              View() == g.fleet && remaining == g.left
    {
      remaining := addGHS;
      ghost var fleet, visit := View(), Grower(contract, window);
      ghost var w := WalkTo(fleet, order, 0, addGHS, visit);
      var k := 0;
      while k < |order|
        invariant 0 <= k <= |order|
        invariant Shows(snap, fleet)
        invariant Same(w, WalkTo(fleet, order, k, addGHS, visit)) && Same(w.fleet, View()) && w.left == remaining
      {
        remaining, w := GrowNext(snap, remaining, contract, fleet, order, k, addGHS);
        k := k + 1;
      }
      WalkToEnd(fleet, order, |order|, addGHS, visit);
    }

    // ---- allocation of new miners

    /** Hashrate that all vetted miners together have. */
    ghost predicate Representable() 
      reads DestSplits()
    {
      Sum(TotalGHS(View())) < Rgli.MAX_INT
    }

    /** A new snapshot, of which only what the miners have to spare matters. */
    method GetSpareSnapshot() returns (snap: AllocSnap)
      requires Valid() && Sane(View())
      ensures Same(View(), old(View()))
      ensures fresh(snap) && snap.minerHashrate.Keys == snap.byMiner.Keys
      ensures Same(snap.SpareCopies(), SpareItems(View()))
    {
      snap := GetMinerSnapshot();
      SpareShows(snap, View());
    }

    method GetAvailable() returns (available: int, list: AllocCollection)
      requires Valid() && Sane(View())
      ensures Same(View(), old(View()))
      ensures forall id <- list.items :: fresh(list.items[id]) && list.items[id].minerID == id
      ensures Same(list.Copies(), SpareItems(View())) && available == Sum(GHSOf(list.Copies()))
    {
      var snap := GetSpareSnapshot();
      available, list := snap.GetUnallocatedGHS();
      assert View() == old(View());
      GHSOfCopies(list);
    }

    method ChooseFrom(list: AllocCollection, ghs: int, ghost fleet: Fleet)
      returns (chosen: map<string, real>, ghost accurate: bool)
      requires Valid() && Sane(fleet) && Same(list.Copies(), SpareItems(fleet))
      requires forall id <- list.items :: list.items[id].minerID == id
      requires 0 <= ghs < Rgli.MAX_INT && Sum(TotalGHS(fleet)) < Rgli.MAX_INT
      requires ghs <= Sum(GHSOf(SpareItems(fleet)))
      modifies list.items.Values
      ensures Same(View(), old(View()))
      ensures Choice(fleet, chosen, ghs, window, accurate)
    {
      chosen, accurate := SharesFrom(list, ghs, window, fleet);
      ViewIsKept();
    }

    /** Chooses miners, and a share of each, to provide ghs GH/s. Nothing is changed yet. */
    method ChooseShares(ghs: int) returns (result: Result<map<string, real>, ScheduleError>, ghost accurate: bool)
      requires Valid() && Sane(View()) && Representable() && ghs >= 0
      ensures Same(View(), old(View()))
      ensures result.Err? <==> Sum(GHSOf(SpareItems(old(View())))) < ghs
      ensures result.Ok? ==> Choice(old(View()), result.value, ghs, window, accurate)
    {
      ghost var fleet := View();
      var available, list := GetAvailable();
      accurate := false;
      if available < ghs {
        return Err(NotEnoughHashrate(ghs, available)), accurate;
      }
      SpareIsAvailable(fleet);
      var chosen;
      chosen, accurate := ChooseFrom(list, ghs, fleet);
      result := Ok(chosen);
    }

    /** One of the grants: a miner that refuses its share is skipped. */
    method GrantNext(id: string, contract: string, share: real, dest: string, ghost fleet: Fleet,
                     ghost done: map<string, real>, ghost next: map<string, real>)
      requires Valid() && id in fleet && id !in done && Same(View(), Grant(fleet, contract, done, dest))
      requires next == done[id := share]
      modifies DestSplits()
      ensures Same(View(), Grant(fleet, contract, next, dest))
    {
      GrantOneMore(fleet, contract, done, id, share, dest);
      var _ := AllocateOn(id, contract, share, dest);
    }

    /** Grants the chosen shares, in any order. */
    method GrantEach(contract: string, chosen: map<string, real>, dest: string)
      requires Valid() && chosen.Keys <= View().Keys
      modifies DestSplits()
      ensures Same(View(), Grant(old(View()), contract, chosen, dest))
    {
      var ids := chosen.Keys;
      ghost var fleet, done := View(), Restrict(chosen, {});
      GrantNothing(fleet, contract, done, dest);
      while ids != {}
        invariant ids <= chosen.Keys && done == Restrict(chosen, chosen.Keys - ids)
        invariant Same(View(), Grant(fleet, contract, done, dest))
      {
        var id :| id in ids;
        RestrictOneMore(chosen, chosen.Keys, ids, id);
        ghost var next := done[id := chosen[id]];
        GrantNext(id, contract, chosen[id], dest, fleet, done, next);
        done, ids := next, ids - {id};
      }
      RestrictToAll(chosen, chosen.Keys);
    }

    /**
     * Gives a contract ghs GH/s of what is available. Fails without any change if there is not enough. Otherwise
     * the chosen miners are asked for the chosen shares, and nothing else changes.
     */
    method Allocate(contract: string, ghs: int, dest: string)
      returns (result: Result<map<string, real>, ScheduleError>, ghost accurate: bool)
      requires Valid() && Sane(View()) && Representable() && ghs >= 0
      modifies DestSplits()
      ensures result.Err? <==> Sum(GHSOf(SpareItems(old(View())))) < ghs
      ensures result.Err? ==> Same(View(), old(View()))
      ensures result.Ok? ==> Choice(old(View()), result.value, ghs, window, accurate)
      ensures result.Ok? ==> Same(View(), Grant(old(View()), contract, result.value, dest))
      ensures result.Ok? ==> forall id <- result.value :: id in miners && miners[id].vetted
      ensures Outcome(old(View()), Request(contract, ghs, dest), View(), window)
      ensures SafeToAllocate(old(View()), contract, ghs) ==> Sane(View())
    {
      ghost var fleet := View();
      result, accurate := ChooseShares(ghs);
      if result.Ok? {
        GrantEach(contract, result.value, dest);
      }
      AllocateOutcome(fleet, View(), contract, ghs, dest, window, result, accurate);
    }

    // ---- adjusting a contract to its target

    /** Grows the shares of all miners that serve the contract, visited in any order. */
    method GrowServing(snap: AllocSnap, addGHS: int, contract: string) returns (order: seq<string>, remaining: int)
      requires Valid() && Sane(View()) && Shows(snap, View())
      modifies DestSplits()
      ensures ListsServing(old(View()), contract, order)
      ensures var g := Grow(old(View()), contract, order, addGHS, window);
              Same(View(), g.fleet) && remaining == g.left
    {
      ColumnShows(snap, View(), contract);
      order, remaining := [], addGHS;
      if contract in snap.byContract {
        order := KeysInAnyOrder(snap.byContract[contract].items.Keys);
        OrderOfServing(View(), contract, order);
        remaining := GrowInOrder(snap, addGHS, contract, order);
      }
    }

    /** Allocates what growing could not add. The ids of the miners chosen follow those given. */
    method AllocateExtra(contract: string, ghs: int, dest: string, ids: seq<string>)
      returns (result: Result<seq<string>, ScheduleError>, ghost chosen: Extra)
      requires Valid() && Sane(View()) && Representable() && ghs >= 0
      modifies DestSplits()
      ensures Extended(old(View()), View(), contract, ghs, dest, window, ids, chosen, result)
    {
      ghost var fleet := View();
      var allocation, accurate := Allocate(contract, ghs, dest);
      chosen := NoExtra;
      if allocation.Err? {
        return Err(allocation.error), chosen;
      }
      chosen := Extra(allocation.value, accurate);
      var added := KeysInAnyOrder(allocation.value.Keys);
      result := Ok(ids + added);
      ExtendedByShares(fleet, View(), contract, ghs, dest, window, ids, added, allocation.value, accurate);
    }

    /** Adds hashrate to a contract: from the miners that serve it, and what is still missing from others. */
    method IncAllocation(snap: AllocSnap, addGHS: int, dest: string, contract: string)
      returns (result: Result<seq<string>, ScheduleError>, ghost order: seq<string>, ghost chosen: Extra)
      requires Valid() && Sane(View()) && Representable() && Shows(snap, View()) && addGHS > 0
      modifies DestSplits()
      ensures ListsServing(old(View()), contract, order)
      ensures Increased(old(View()), View(), contract, addGHS, dest, window, order, chosen, result)
      ensures GrowsSafely(old(View()), contract, addGHS, window) ==> Sane(View())
    {
      ghost var fleet := View();
      var ids, remaining := GrowServing(snap, addGHS, contract);
      order, chosen := ids, NoExtra;
      GrowthIsSane(fleet, contract, ids, addGHS, window);
      if remaining == 0 {
        result := Ok(ids);
      } else {
        result, chosen := AllocateExtra(contract, remaining, dest, ids);
      }
      if GrowsSafely(fleet, contract, addGHS, window) {
        RaisingSafelyStaysSane(fleet, View(), contract, addGHS, dest, window, order, chosen, result);
      }
    }

    method ActualGHS(snap: AllocSnap, contract: string) returns (actual: int)
      requires Sane(View()) && Shows(snap, View())
      ensures Same(View(), old(View())) && Shows(snap, old(View()))
      ensures actual == Measured(old(View()), contract)
    {
      ColumnMeasures(snap, View(), contract);
      actual := ColumnGHS(snap.byContract, contract);
      assert View() == old(View());
    }

    /** Takes removeGHS off a contract. The result names the miners that were reduced. */
    method Decrease(snap: AllocSnap, removeGHS: int, contract: string, ghost target: int)
      returns (result: Result<seq<string>, ScheduleError>, ghost order: seq<string>, ghost k: nat)
      requires Valid() && Sane(View()) && Shows(snap, View())
      requires 0 <= target == Measured(View(), contract) - removeGHS && removeGHS >= 0
      modifies DestSplits()
      ensures ListsServing(old(View()), contract, order)
      ensures Ascending(old(View()), contract, order)
      ensures Lowered(old(View()), View(), contract, order, k, window) && Reports(View(), contract, order[..k], result)
      ensures Reaches(old(View()), View(), contract, order, k, target, window) && Sane(View())
    {
      ghost var fleet := View();
      var ids;
      ids, order := DecrAllocation(snap, removeGHS, contract);
      result := Ok(ids);
      k := Trim(fleet, contract, order, removeGHS, window).end;
      DecreaseReaches(fleet, contract, removeGHS, window, order, target);
      DecreaseReports(fleet, contract, removeGHS, window, order);
    }

    /** Moves a contract by delta GH/s, up or down. */
    method Adjust(snap: AllocSnap, delta: int, dest: string, contract: string, ghost target: int)
      returns (result: Result<seq<string>, ScheduleError>, ghost order: seq<string>, ghost chosen: Extra, ghost k: nat)
      requires Valid() && Sane(View()) && Representable() && Shows(snap, View())
      requires target >= 0 && delta == target - Measured(View(), contract)
      modifies DestSplits()
      ensures ListsServing(old(View()), contract, order)
      ensures delta > 0 ==> Increased(old(View()), View(), contract, delta, dest, window, order, chosen, result)
      ensures delta <= 0 ==> Ascending(old(View()), contract, order)
      ensures delta <= 0 ==> Lowered(old(View()), View(), contract, order, k, window)
      ensures delta <= 0 ==> Reports(View(), contract, order[..k], result)
      ensures delta <= 0 ==> Reaches(old(View()), View(), contract, order, k, target, window)
      ensures delta <= 0 || GrowsSafely(old(View()), contract, delta, window) ==> Sane(View())
    {
      chosen, k := NoExtra, 0;
      if delta > 0 {
        result, order, chosen := IncAllocation(snap, delta, dest, contract);
      } else {
        result, order, k := Decrease(snap, -delta, contract, target);
      }
    }

    /** A new snapshot, and what the contract measures in it. */
    method MeasureContract(contract: string) returns (snap: AllocSnap, actual: int)
      requires Valid() && Sane(View())
      ensures fresh(snap) && Same(View(), old(View())) && Shows(snap, View())
      ensures actual == Measured(old(View()), contract)
    {
      snap := GetMinerSnapshot();
      actual := ActualGHS(snap, contract);
      assert View() == old(View());
    }

    /** The adjustment of a contract that is off its target in the given fleet, as an outcome of the call. */
    method AdjustTo(snap: AllocSnap, delta: int, dest: string, contract: string, ghost target: int, ghost fleet: Fleet)
      returns (result: Result<seq<string>, ScheduleError>, ghost order: seq<string>, ghost chosen: Extra, ghost k: nat)
      requires Valid() && Same(View(), fleet) && Sane(fleet) && Shows(snap, fleet) && Representable()
      requires delta == target - Measured(fleet, contract) && !Near(target, delta)
      modifies DestSplits()
      ensures ListsServing(fleet, contract, order)
      ensures delta > 0 ==> Increased(fleet, View(), contract, delta, dest, window, order, chosen, result)
      ensures delta <= 0 ==> Ascending(fleet, contract, order)
      ensures delta <= 0 ==> Lowered(fleet, View(), contract, order, k, window)
      ensures delta <= 0 ==> Reports(View(), contract, order[..k], result)
      ensures delta <= 0 ==> Reaches(fleet, View(), contract, order, k, target, window)
      ensures Outcome(fleet, Retarget(contract, target, dest), View(), window)
      ensures Guarded(fleet, Retarget(contract, target, dest), window) ==> Sane(View())
      ensures TightToRaise(fleet, contract, target, window) ==> Sane(View())
    {
      result, order, chosen, k := Adjust(snap, delta, dest, contract, target);
      UpdateOutcome(fleet, View(), contract, target, dest, window, order, chosen, k, result);
    }

    /**
     * Brings a contract back to its target. Nothing changes while the difference is less than a tenth of the target. A
     * contract that is served too much ends at the target, or below it by less than half of one of its miners when that
     * miner could not keep what was to be left of its share.
     */
    method UpdateCombination(minerIDs: seq<string>, target: int, dest: string, contract: string)
      returns (result: Result<seq<string>, ScheduleError>, ghost order: seq<string>, ghost chosen: Extra, ghost k: nat)
      requires Valid() && Sane(View()) && Representable()
      modifies DestSplits()
      ensures var delta := target - Measured(old(View()), contract);
              target < 0 || -target < 10 * delta < target ==> Same(View(), old(View())) && result == Ok(minerIDs)
      ensures var delta := target - Measured(old(View()), contract);
              0 < target <= 10 * delta ==>
                ListsServing(old(View()), contract, order)
                && Increased(old(View()), View(), contract, delta, dest, window, order, chosen, result)
      ensures var delta := target - Measured(old(View()), contract);
              0 <= target <= -10 * delta ==>
                && ListsServing(old(View()), contract, order) && Ascending(old(View()), contract, order)
                && Lowered(old(View()), View(), contract, order, k, window)
                && Reports(View(), contract, order[..k], result)
                && Reaches(old(View()), View(), contract, order, k, target, window)
      ensures Outcome(old(View()), Retarget(contract, target, dest), View(), window)
      ensures Guarded(old(View()), Retarget(contract, target, dest), window) ==> Sane(View())
      ensures TightToRaise(old(View()), contract, target, window) ==> Sane(View())
    {
      ghost var fleet := View();
      var snap, actual := MeasureContract(contract);
      var delta := target - actual;
      order, chosen, k := [], NoExtra, 0;
      if Near(target, delta) {
        return Ok(minerIDs), order, chosen, k;
      }
      result, order, chosen, k := AdjustTo(snap, delta, dest, contract, target, fleet);
    }

    // ---- the end of a contract

    method DeallocateFrom(id: string, contract: string)
      requires Valid() && id in miners
      modifies miners[id].destSplit
      ensures id in View() ==> View() == old(View())[id := ReleaseOne(old(View())[id], contract)]
      ensures id !in View() ==> View() == old(View())
    {
      if miners[id].vetted {
        var _ := DeallocateOn(id, contract);
      } else {
        var _ := miners[id].Deallocate(contract);
      }
    }

    method DeallocateNext(id: string, contract: string, ghost fleet: Fleet, ghost done: set<string>)
      requires Valid() && Sane(fleet) && Same(View(), Release(fleet, contract, done))
      modifies DestSplits()
      ensures Same(View(), Release(fleet, contract, done + {id}))
    {
      ReleaseOneMore(fleet, contract, done, id);
      if id in miners {
        DeallocateFrom(id, contract);
      } else {
        assert id !in View();
      }
    }

    /** Takes a contract away from the listed miners; ids of unknown miners are skipped. */
    method DeallocateContract(minerIDs: seq<string>, contract: string)
      requires Valid() && Sane(View())
      modifies DestSplits()
      ensures Same(View(), Release(old(View()), contract, set id <- minerIDs))
      ensures Outcome(old(View()), Stop(contract, set id <- minerIDs), View(), window) && Sane(View())
    {
      ghost var fleet, done: set<string> := View(), {};
      ReleaseNothing(fleet, contract);
      var k := 0;
      while k < |minerIDs|
        invariant 0 <= k <= |minerIDs| && done == set id <- minerIDs[..k]
        invariant Same(View(), Release(fleet, contract, done))
      {
        DeallocateNext(minerIDs[k], contract, fleet, done);
        assert minerIDs[..k + 1] == minerIDs[..k] + [minerIDs[k]];
        done, k := done + {minerIDs[k]}, k + 1;
      }
      assert minerIDs[..k] == minerIDs;
      ReleasedStaysSane(fleet, contract, done);
    }
  }

  /** What allocating does to the fleet is an outcome of a request. */
  lemma AllocateOutcome(before: Fleet, after: Fleet, contract: string, ghs: nat, dest: string, w: Window,
                        result: Result<map<string, real>, ScheduleError>, accurate: bool)
    requires Sane(before) && (result.Err? <==> Sum(GHSOf(SpareItems(before))) < ghs)
    requires result.Err? ==> Same(after, before)
    requires result.Ok? ==> Choice(before, result.value, ghs, w, accurate) && Same(after, Grant(before, contract, result.value, dest))
    ensures Outcome(before, Request(contract, ghs, dest), after, w)
    ensures SafeToAllocate(before, contract, ghs) ==> Sane(after)
  {
    if SafeToAllocate(before, contract, ghs) { AllocatedStaysSane(before, after, contract, ghs, dest, w); }
  }

  /** What adjusting does to the fleet is an outcome of a new target. */
  lemma UpdateOutcome(before: Fleet, after: Fleet, contract: string, target: int, dest: string, w: Window,
                      order: seq<string>, chosen: Extra, k: nat, result: Result<seq<string>, ScheduleError>)
    requires w.Valid() && Sane(before)
    requires ListsServing(before, contract, order) && !Near(target, target - Measured(before, contract))
    requires target > Measured(before, contract) ==>
      Increased(before, after, contract, target - Measured(before, contract), dest, w, order, chosen, result)
    requires target <= Measured(before, contract) ==>
      && Ascending(before, contract, order) && Lowered(before, after, contract, order, k, w)
      && Reaches(before, after, contract, order, k, target, w)
    ensures Outcome(before, Retarget(contract, target, dest), after, w)
    ensures Guarded(before, Retarget(contract, target, dest), w) ==> Sane(after)
    ensures TightToRaise(before, contract, target, w) ==> Sane(after)
  {
    AdjustedIsUpdated(before, after, contract, target, dest, w, order, chosen, k, result);
    UpdatingStaysSane(before, after, contract, target, dest, w);
  }

  lemma AdjustedIsUpdated(before: Fleet, after: Fleet, contract: string, target: int, dest: string, w: Window,
                          order: seq<string>, chosen: Extra, k: nat, result: Result<seq<string>, ScheduleError>)
    requires ListsServing(before, contract, order) && !Near(target, target - Measured(before, contract))
    requires target > Measured(before, contract) ==>
      Increased(before, after, contract, target - Measured(before, contract), dest, w, order, chosen, result)
    requires target <= Measured(before, contract) ==>
      && Ascending(before, contract, order) && Lowered(before, after, contract, order, k, w)
      && Reaches(before, after, contract, order, k, target, w)
    ensures Updated(before, after, contract, target, dest, w)
  {
  }

  lemma GHSOfCopies(list: AllocCollection)
    ensures Same(list.GHSByID(), GHSOf(list.Copies()))
  {
    assert list.GHSByID() == GHSOf(list.Copies());
  }

  /** Adds up to remaining GH/s to one list of shares. */
  method GrowSplit(split: DestSplit, contract: string, total: pos, share: real, spare: real, remaining: int, w: Window)
    returns (left: int)
    requires share == ShareOf(split.split, contract) && spare == 1.0 - TotalShare(split.split)
    modifies split
    ensures var visit := Grower(contract, w)(MinerState(total, old(split.split)), remaining);
            split.split == visit.state.split && left == visit.left
  {
    left := remaining;
    var toAllocateGHS := Min(remaining, ShareGHS(total, spare));
    if toAllocateGHS == 0 {
      return;
    }
    var fractionToAdd := toAllocateGHS as real / total as real;
    var newFraction := share + fractionToAdd;
    if newFraction < w.min {
      return;
    }
    if newFraction > w.max && newFraction < 1.0 {
      fractionToAdd := w.max - share;
    }
    var _ := split.IncreaseAllocation(contract, fractionToAdd);
    left := left - ShareGHS(total, fractionToAdd);
  }

  /** The hashrate of all items of one contract; none if the contract is not listed. */
  method ColumnGHS(index: Index, contract: string) returns (total: int)
    ensures total == Sum(Listed(index, contract).GHSByID())
  {
    total := 0;
    if contract in index {
      total := index[contract].TotalGHS();
    }
  }

  lemma ColumnMeasures(snap: AllocSnap, fleet: Fleet, contract: string)
    requires Sane(fleet) && Shows(snap, fleet)
    ensures Sum(Listed(snap.byContract, contract).GHSByID()) == Measured(fleet, contract)
  {
    ColumnShows(snap, fleet, contract);
    MeasuredOverServing(fleet, contract);
  }

  lemma ReleaseOneMore(fleet: Fleet, contract: string, done: set<string>, id: string)
    requires Sane(fleet)
    ensures id in fleet ==>
      Same(Release(fleet, contract, done + {id}),
           Release(fleet, contract, done)[id := ReleaseOne(Release(fleet, contract, done)[id], contract)])
    ensures id !in fleet ==> Same(Release(fleet, contract, done + {id}), Release(fleet, contract, done))
  {
    if id in fleet {
      ReleaseTwice(fleet[id], contract);
      assert Release(fleet, contract, done + {id})
          == Release(fleet, contract, done)[id := ReleaseOne(Release(fleet, contract, done)[id], contract)];
    } else {
      assert Release(fleet, contract, done + {id}) == Release(fleet, contract, done);
    }
  }

  lemma ReleaseTwice(s: MinerState, contract: string)
    requires Unique(s.split)
    ensures ReleaseOne(ReleaseOne(s, contract), contract) == ReleaseOne(s, contract)
  {
    ReleaseOneIsRemoval(s, contract);
    WithoutUnique(s.split, contract);
    ReleaseOneIsRemoval(ReleaseOne(s, contract), contract);
  }

  lemma ReleaseNothing(fleet: Fleet, contract: string)
    ensures Same(Release(fleet, contract, {}), fleet)
  {
    assert Release(fleet, contract, {}) == fleet;
  }

  lemma GrantOneMore(fleet: Fleet, contract: string, done: map<string, real>, id: string, share: real, dest: string)
    requires id in fleet && id !in done
    ensures Grant(fleet, contract, done, dest)[id] == fleet[id]
    ensures Same(Grant(fleet, contract, done[id := share], dest),
                 Grant(fleet, contract, done, dest)[id := GrantOne(fleet[id], contract, share, dest)])
  {
    assert Grant(fleet, contract, done[id := share], dest)
        == Grant(fleet, contract, done, dest)[id := GrantOne(fleet[id], contract, share, dest)];
  }

  lemma GrantNothing(fleet: Fleet, contract: string, none: map<string, real>, dest: string)
    requires none == map[]
    ensures Same(Grant(fleet, contract, none, dest), fleet)
  {
    assert Grant(fleet, contract, none, dest) == fleet;
  }

  lemma RestrictOneMore<V>(m: map<string, V>, keys: set<string>, rest: set<string>, id: string)
    requires id in rest && rest <= keys
    ensures Same(Restrict(m, keys - (rest - {id})),
                 if id in m then Restrict(m, keys - rest)[id := m[id]] else Restrict(m, keys - rest))
  {
    assert Restrict(m, keys - (rest - {id}))
        == if id in m then Restrict(m, keys - rest)[id := m[id]] else Restrict(m, keys - rest);
  }

  lemma RestrictToAll<V>(m: map<string, V>, keys: set<string>)
    requires m.Keys <= keys
    ensures Same(Restrict(m, keys - {}), m)
  {
    assert Restrict(m, keys - {}) == m;
  }

  ghost function ItemFor(fleet: Fleet, id: string, contract: string): ItemCopy
    requires id in fleet
  {
    ItemCopy(id, ShareOf(fleet[id].split, contract), fleet[id].ghs)
  }

  /** The items of a contract, in the given order of miners. */
  ghost predicate Describes(items: seq<ItemCopy>, fleet: Fleet, order: seq<string>, contract: string)
    requires Lists(fleet, order)
  {
    |order| == |items| && forall k :: 0 <= k < |items| ==> items[k] == ItemFor(fleet, order[k], contract)
  }

  /** The sorted copies of a contract's items list the miners that serve it, by increasing hashrate. */
  lemma SortedServing(fleet: Fleet, contract: string, sorted: seq<ItemCopy>)
    requires SortedBy(sorted, (i: ItemCopy) => i.AllocatedGHS())
    requires Distinct(MinerIDs(sorted)) && Serving(fleet, contract) == set id <- MinerIDs(sorted)
    requires forall k :: 0 <= k < |sorted| ==> sorted[k].minerID in Serving(fleet, contract)
    requires forall k :: 0 <= k < |sorted| ==> sorted[k] == ServingItems(fleet, contract)[sorted[k].minerID]
    ensures Lists(fleet, MinerIDs(sorted))
    ensures forall i, j :: 0 <= i < j < |sorted| ==>
      ServedBy(fleet[MinerIDs(sorted)[i]], contract) <= ServedBy(fleet[MinerIDs(sorted)[j]], contract)
  {
    var key := (i: ItemCopy) => i.AllocatedGHS();
    forall i, j | 0 <= i < j < |sorted|
      ensures ServedBy(fleet[MinerIDs(sorted)[i]], contract) <= ServedBy(fleet[MinerIDs(sorted)[j]], contract)
    {
      assert key(sorted[i]) <= key(sorted[j]);
    }
  }

  /** Removes up to remaining GH/s from one list of shares. */
  method CutSplit(split: DestSplit, contract: string, item: ItemCopy, remaining: int, w: Window) returns (removed: int)
    requires w.Valid() && Unique(split.split) && item.totalGHS > 0
    requires item.fraction == ShareOf(split.split, contract)
    modifies split
    ensures var s := MinerState(item.totalGHS, old(split.split));
            var cut := CutOf(s, contract, remaining, w);
            split.split == AfterCut(s, contract, cut).split && removed == cut.counted
  {
    WithoutUnique(split.split, contract);
    removed := 0;
    if remaining >= item.AllocatedGHS() {
      var _ := split.RemoveByID(contract);
      removed := item.AllocatedGHS();
    } else {
      var newFraction := item.fraction - remaining as real / item.totalGHS as real;
      removed := remaining;
      if newFraction < w.min {
        var _ := split.RemoveByID(contract);
        removed := item.AllocatedGHS();
      }
      if newFraction > w.max {
        newFraction := 0.5;
        removed := ShareGHS(item.totalGHS, newFraction);
      }
      var _ := split.SetFractionByID(contract, newFraction);
    }
  }

  ghost predicate Owned(miner: OnDemandMinerScheduler, id: string, owner: map<DestSplit, string>) {
    id != "" && miner.id == id && miner.destSplit in owner && owner[miner.destSplit] == id
  }

  /** Every miner is stored under its own, non-empty id and has its own list of shares. */
  ghost predicate Keyed(miners: map<string, OnDemandMinerScheduler>) {
    && (forall id <- miners :: id != "" && miners[id].id == id)
    && (forall a, b :: a in miners && b in miners && a != b ==> miners[a].destSplit != miners[b].destSplit)
  }
}
