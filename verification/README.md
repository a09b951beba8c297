# Proofs about the hashrate router and its rental contracts

This project models the parts of the router that decide who mines for whom, and the contracts through which
hashrate is rented, and proves what they keep, meet and conserve. Run `dafny verify dfyconfig.toml` to check it.

## What is modelled

- **Shares of a miner** (`Splits.dfy`, `MinerScheduler.dfy`): the list of shares of one miner, its changes in place,
  the deallocation loop that shifts the storage it ranges over, and the dispatch cycle.
- **Choosing miners** (`SubsetSumRgli.dfy`, `ClosestSubsetSum.dfy`, `Combinations.dfy`): the randomised and the exact
  subset-sum search, and the choice and trimming of miners for a requested hashrate.
- **Snapshots** (`AllocSnap.dfy`, `FleetSnapshot.dfy`): shared items indexed by miner and by contract.
- **The scheduler** (`Walks.dfy`, `Fleets.dfy`, `Grants.dfy`, `Room.dfy`, `Choices.dfy`, `Updates.dfy`, `SchedulerRuns.dfy`,
  `OrdinaryRun.dfy`, `GlobalScheduler.dfy`): all miners as a value (a fleet), what removal, growth, grants and releases do to it, when there
  is room for a second share, runs of any calls, and the scheduler class whose methods change the live lists of shares
  and are proved to have just these effects. Visiting miners one after the other is a walk; its general laws are in
  `Walks.dfy`.
- **Merkle root** (`MerkleRoot.dfy`), **moving average** (`EmaCounter.dfy`), **pool message cache** (`PoolCache.dfy`).
- **The market** (`Erc20.dfy`, `Rental.dfy`, `Marketplace.dfy`): token, rental and factory, as functions in which a
  revert is `None`, as classes that update their storage in place and undo what a failed call has written, and as runs of
  arbitrary calls.

`Arithmetic.dfy`, `Sums.dfy`, `Sorting.dfy` and `Wrappers.dfy` hold what these share.

Numbers that Go keeps as float64 are reals, and conversion to int truncates toward zero. uint256 is a natural number with
the checks for overflow written out. The scheduler's durations satisfy 0 < poolMin <= poolMax, hashrates are positive, and
each miner has its own, non-empty id and its own list of shares. A fleet is called sane when no miner is over its capacity
and no contract has two shares of one miner. The source checks the first but not the second (`RaisingCanDuplicate`).
`GrantStaysSane` and `RaisedStaysSane` say for the shares chosen when it is kept. What can be checked before a call:

- An allocation of one amount is safe when no miner that serves the contract has room for it (`SafeToAllocate`). Over all
  amounts the exact condition is that no such miner has a spare part between 5% and 95%, or that nothing is available
  (`AllocatingStaysSane`).
- A raise is safe when the contract's miners grow safely (`GrowsSafely`), as they do when each is tight for the amount
  added, with a share not above the window, or tight for every amount (`TightGrowsSafely`). `TightUpTo` is exact for each
  miner and each amount (`TightUpToVisits`). For a whole call these conditions are enough but not necessary, since what is
  left to add may not be available in a way that an open miner is chosen.

## Main results

- Scheduler: `SchedulerRuns.RunStaysSane`, `RunLeavesOthers` and `RunServesDestination` over all runs, of which `OrdinaryRun.TrimThenRaise` is one,
  with `Choices.AllocatingStaysSane`, `Room.TightUpToVisits` and `Updates.RaisedStaysSane` as exact conditions;
  `Fleets.TrimMeetsTarget`, `Fleets.GrowKeeps`, `Updates.RaisedMeasures` and `Choices.AccurateAllocationMeasures` for what a
  contract measures afterwards; `UpdateCombination`, `Allocate` and `DeallocateContract` of the class have exactly these
  outcomes on the live lists.
- Lists: `MinerScheduler.ScanFromMeaning`, `Splits.DeallocatedLeavesNone`, `Splits.AnyRunKeepsBounds`.
- Searches: `ClosestSubsetSum.FindClosest`, `SubsetSumRgli.ClosestSubsetSumRGLI`, `SubsetSumRgli.Swap`.
- Hashing, averaging and caching: `MerkleRoots.ConvertMerkleBranchesToRoot`, `EmaCounters.Counter.Add`, `EmaCounters.BoundedRate`,
  `PoolCaches.ReplayEqualsStream`.
- Market: `Marketplaces.PayoutsAreFunded`, `PaidAtMostEarned`, `BuyerKeepsRental` and `LedgerBalances` over all runs,
  `PurchaseSucceeds`, `PurchaseSells`, `EndsEarly`, `PaysSeller` and `EndsAtTerm` for what each call needs and does, and
  `EarlyEndNeedsTheCut`.

## Where the code departs from what it says

The model follows the code in each case.

- The swap phase of the subset-sum search adds the change of the sum to the shortfall where the distance after the swap
  would subtract it. Accepted swaps only move further above the target (`SubsetSumRgli.Swap`).
- The second choice of `Allocate` does not check capacity and can report success with a shortfall; `ShortfallExactly`
  gives the exact condition, `IdleMinersSuffice` a test before the call, `AllocationCanGiveNothing` a case.
- An offered share can be refused by its miner because of the rounding to 5% (`OfferIsGranted`, `OfferCanBeRefused`).
- Deallocation can run out of bounds, or leave a share, when a contract has several shares of a miner
  (`DeallocatedLeavesNone`, `DeallocationCanCrash`).
- The list returned by `decrAllocation` leaves out miners that still serve the contract; `ReportedCoversServing` gives the
  exact condition under which it does not, `ReportedCanMiss` a case in which it does.
- Growing a contract can make a share smaller (`GrowingShrinks`, `GrowingCanShrink`).
- The exact subset-sum search drops the empty subset of each half and so misses subsets of one half (`OneHalfIsMissed`);
  `FindClosest` gives the exact condition on the numbers and the goal under which that does not matter.
- The pool cache ignores mining.set_extranonce (`ReplayCanDiffer`); `ReplayEqualsStream` gives the exact condition under
  which that is harmless.
- A result whose handler returns nothing is still handed on, although the handlers are written as if it were not.
- With the titan cut on, a rental can lack the tokens for an early end; `FundedAfterPurchase` and
  `EarlyEndNeedsTheCut` give the exact conditions, `EarlyEndCanRevert` a case.
- An unknown closeout type succeeds and does nothing.

## Model

| member | source | states |
|---|---|---|
| `GlobalSchedulers.GlobalScheduler.UpdateCombination` | contractmanager/global_scheduler_service.go:166-196 | In whole numbers: nothing changes, and the ids given are returned, while ten times the difference is less than the target, up or down (never so for target 0). At least a tenth below the target the contract is raised as `IncAllocation` says. At least a tenth above it, the first miners in ascending order lose it and no miner after the last one visited changes; that one keeps exactly the share that is left of it when the share fits the window, half the miner when it is above, nothing when it is below, and the contract ends at the target unless one of the last two cases makes it less, by under half of that miner. The fleet stays sane, for a raise when the contract grows safely by the difference, in particular when its miners are tight for it. Every case is an `Outcome` of the call |
| `SchedulerRuns.RetargetActs` | contractmanager/global_scheduler_service.go:166-196 | The same over the outcomes of a new target: within a tenth of the target the fleet is as it was; served too much by a tenth or more, the contract ends at the target or below; served too little by a tenth or more, it is raised |
| `SchedulerRuns.DroppedMeasures` | contractmanager/global_scheduler_service.go:279-343 | A lowered contract measures its target, or less by under half of one of its miners, and less only if the share that was to be left on that miner lies outside the window |
| `Updates.Near` | contractmanager/global_scheduler_service.go:184-187 | The test on the quotient, in whole numbers: ten times the difference is less than a positive target, up or down; never for a target of zero, always for a negative one |
| `GlobalSchedulers.GlobalScheduler.DecrAllocation` | contractmanager/global_scheduler_service.go:279-343 | The loop over the sorted items leaves exactly the fleet and the reported miners that the removal walk `Trim` gives, in an ascending order of all miners that serve the contract |
| `Fleets.TrimMeetsTarget` | contractmanager/global_scheduler_service.go:279-343 | Removal takes the measured hashrate down to the target, or below it by just what is taken too much from the miner visited last: nothing if its remaining share fits the window, and always less than half of it. What is taken from that miner is what it and those after it provide above the target |
| `Fleets.TrimShape` | contractmanager/global_scheduler_service.go:290-334 | The contract is removed from a prefix of its miners and at most one more is changed, the last touched; that one loses the contract or keeps a smaller share inside the window; no other miner changes, and every miner stays within its capacity |
| `Fleets.LoweredIsSane` | contractmanager/global_scheduler_service.go:290-334 | Whatever has this shape keeps every miner within its capacity with one share per contract, and all hashrates |
| `Fleets.OtherSharesUnchanged` | miner/dest_split.go:102-124 | Removing or resizing one contract changes no other share of the miner, nor where it goes |
| `Fleets.CutReduces` | contractmanager/global_scheduler_service.go:301-333 | One visit takes a whole share, or ends the walk at the target or below it by less than half of that miner |
| `Fleets.CutKeeps` | contractmanager/global_scheduler_service.go:301-333 | One visit with l GH/s left to remove, of a miner with share f that serves more than l: the share afterwards is exactly f - l/ghs if that is in the window, one half if it is above, and it is removed only if it is below; the miner then provides exactly l less, or less by what is taken too much. A share that stays keeps its destination |
| `Fleets.ReportedCoversServing` | contractmanager/global_scheduler_service.go:289-342 | The list returned after a removal names every miner still serving the contract if and only if more was to be removed than all its miners but the last provide |
| `Grants.ReportedCanMiss` | contractmanager/global_scheduler_service.go:289-342 | Two miners of which the removal touches only the first: the second still serves, is not reported, and is not freed by deallocating what was reported |
| `Grants.ReleaseAfterTrim` | contractmanager/global_scheduler_service.go:198-212 | Deallocating the contract from the miners that list names frees all its miners under exactly that condition |
| `GlobalSchedulers.GlobalScheduler.IncAllocation` | contractmanager/global_scheduler_service.go:214-277 | The contract's own miners grow in any order; what is left is allocated to others, or reported missing with the growth kept; the ids returned are the own miners followed by the chosen ones; the fleet stays sane when the contract grows safely by the amount added. `OutcomeDirects` says where its shares go |
| `Fleets.GrowKeeps` | contractmanager/global_scheduler_service.go:224-263 | For every order: no miner exceeds its capacity, each changed share is in the window or the whole miner, what remains is never negative, and what was counted as added is what the contract gained to within one GH/s per miner |
| `Fleets.GainGives` | contractmanager/global_scheduler_service.go:239-262 | One visit with l GH/s left to add: the share grows by exactly what the miner has to spare of them; it stays as it is if it would still be below the window, and ends at the window's upper end if it would be above without filling the miner. The amount left goes down by what was added, and the share keeps its destination |
| `Fleets.GrowingShrinks` | contractmanager/global_scheduler_service.go:247-260 | Growing makes a share smaller exactly when it was above the window and the addition would not fill the miner |
| `Fleets.GrowingCanShrink` | contractmanager/global_scheduler_service.go:247-260 | Nine tenths of a miner to which a twentieth is to be added become three quarters, and four times as much remains to be added |
| `Updates.RaisingCanDuplicate` | contractmanager/global_scheduler_service.go:265-275 | A concrete fleet on which raising a contract gives one of its miners a second share of it |
| `SchedulerRuns.RunStaysSane` | contractmanager/global_scheduler_service.go:53-343 | Over every run of allocations, new targets and stops that are `Guarded` when they are made (an amount safe to allocate; a contract that grows safely by the difference; nothing for lowering or stopping), with any choice and any order of visits: no miner is given away more than once over, no contract has two shares of one miner, and hashrates do not change |
| `SchedulerRuns.RunLeavesOthers` | contractmanager/global_scheduler_service.go:53-343 | In such a run a contract that no call is about keeps its share of every miner, where it goes, and its measured hashrate throughout |
| `SchedulerRuns.RunServesDestination` | contractmanager/global_scheduler_service.go:53-343 | In such a run, as long as every call for a contract asks for the same destination, all its hashrate goes there |
| `SchedulerRuns.OutcomeDirects` | contractmanager/global_scheduler_service.go:53-343 | A call that keeps the fleet sane leaves the destination of every share of its contract that stays, also of one that was resized or has grown, and gives every new share the destination asked for |
| `SchedulerRuns.GrantOneDirects` | miner/dest_split.go:60-80 | Whatever the miner gives away already, a share that is granted goes to the destination asked for |
| `SchedulerRuns.OutcomeLeavesOthers` | contractmanager/global_scheduler_service.go:53-343 | Whatever a call does for its contract, every other contract has the same share of every miner afterwards, with the same destination |
| `SchedulerRuns.RequestsStaySane` | contractmanager/global_scheduler_service.go:53-88 | All outcomes of all requests for a contract are sane if and only if no miner that serves it has a spare part between 5% and 95%, or nothing is available |
| `SchedulerRuns.TightIsGuarded` | contractmanager/global_scheduler_service.go:166-277 | A new target is guarded when every miner of the contract is tight for the difference, or for every amount |
| `OrdinaryRun.TrimThenRaise` | contractmanager/global_scheduler_service.go:53-277 | A guarded run that trims an idle miner for 30 GH/s and then raises the contract to 50 on the same miner, which is tight for the 20 added but not for every amount |
| `Room.GrantStaysSane` | miner/dest_split.go:76-78 | Granting keeps one share per contract and the capacity of every miner if and only if every chosen miner that serves the contract has less to spare than the share it would be given, rounded to at least 5% |
| `Choices.AllocatingStaysSane` | contractmanager/global_scheduler_service.go:53-88 | Every choice for every amount keeps the fleet sane if and only if no miner that serves the contract has a spare part between 5% and 95% (`NoRoom`), or nothing is available |
| `Choices.ChoiceKeepsSane` | contractmanager/global_scheduler_service.go:53-117 | For one amount it is enough that each miner that serves the contract is closed to it or, partly taken, has more to spare than is asked for; nothing is chosen when nothing is asked for |
| `Choices.TooMuchIsNotChosen` | contractmanager/global_scheduler_service.go:90-117 | A miner that is partly taken is chosen only if its spare part is worth no more than is asked for |
| `Room.TightUpToVisits` | contractmanager/global_scheduler_service.go:239-260 | A test on a miner's share, spare part and hashrate that holds for an amount if and only if no visit with at most that much left to add leaves both something to add and the miner with a spare part between 5% and 95% |
| `Room.TightVisits` | contractmanager/global_scheduler_service.go:239-260 | `Tight` is that test for every amount |
| `Room.GrowthLeavesNoRoom` | contractmanager/global_scheduler_service.go:214-263 | When all miners of a contract are tight for every amount, growing them in any order leaves nothing to add or no room for a second share |
| `Room.GrowthByLeavesNoRoom` | contractmanager/global_scheduler_service.go:214-263 | So does growing them by an amount that they are tight for, when no share is above the window |
| `Room.LittleToSpareIsTight` | contractmanager/global_scheduler_service.go:239-260 | A miner with less than 5% to spare and a share not above the window is tight |
| `Room.EnoughRoomIsTight` | contractmanager/global_scheduler_service.go:239-260 | A miner is tight for an amount that fits its spare part and keeps its share inside the window |
| `Room.TightForButNotTight` | contractmanager/global_scheduler_service.go:239-260 | Three tenths of 100 GH/s are tight for 20 more, which are all added, but not for every amount |
| `Updates.RaisedStaysSane` | contractmanager/global_scheduler_service.go:214-277 | After a raise the fleet is sane if and only if growing was enough, or the rest was not available, or every chosen miner that serves the contract had less to spare than it was asked for |
| `Updates.RaisingSafelyStaysSane` | contractmanager/global_scheduler_service.go:214-277 | A raise keeps the fleet sane when, whatever the order of visits, growing leaves nothing to add or what is safe to allocate |
| `Updates.TightGrowsSafely` | contractmanager/global_scheduler_service.go:214-277 | That is so when all miners of the contract are tight for what is added, or for every amount |
| `Updates.RaisedMeasures` | contractmanager/global_scheduler_service.go:214-277 | A raised contract measures what was asked for to within one GH/s per own miner when growing was enough, or the rest was chosen accurately, in exact shares, from miners new to it |
| `GlobalSchedulers.GlobalScheduler.Allocate` | contractmanager/global_scheduler_service.go:53-88 | Fails without any change exactly when the spare hashrate is below the request; otherwise the shares of a `Choice` are asked of their miners, all of them vetted, and nothing else changes; this is an `Outcome` of the request, and keeps the fleet sane when `SafeToAllocate` holds for the amount |
| `Choices.SharesFrom` | contractmanager/global_scheduler_service.go:61-70 | An accurate first choice is one from all that is available and provides exactly the request. Otherwise a pick without superfluous miners, or one exchanged from such a pick, exceeds the request and has no miner that can be trimmed by the excess, and a second choice comes from idle miners: it falls short if and only if all idle miners do, and then it is reported as accurate all the same |
| `Choices.ShortfallExactly` | contractmanager/global_scheduler_service.go:61-70 | A choice falls short if and only if the first one was refused and all idle miners together provide less than the request |
| `Choices.IdleMinersSuffice` | contractmanager/global_scheduler_service.go:61-70 | No choice falls short when the idle miners alone provide the request |
| `Choices.EqualSparesAreExact` | contractmanager/global_scheduler_service.go:53-117 | When all spare parts are worth the same, a whole multiple of that is always provided exactly |
| `Choices.NothingForNothing` | contractmanager/global_scheduler_service.go:53-117 | Nothing is chosen when nothing is asked for |
| `Choices.AllocationCanGiveNothing` | contractmanager/global_scheduler_service.go:61-88 | With one miner of 100 GH/s, half of it given to another contract, every choice for 10 GH/s is empty although 50 are available |
| `SchedulerRuns.RequestCanGiveNothing` | contractmanager/global_scheduler_service.go:53-88 | So every outcome of that request leaves the fleet as it is |
| `Choices.AccurateAllocationMeasures` | contractmanager/global_scheduler_service.go:53-88 | After an accurate allocation from miners that do not serve the contract yet, with shares between 5% and 95% or whole miners, every miner is within capacity and the contract measures exactly the request more than before |
| `Grants.OfferIsGranted` | miner/dest_split.go:49-80 | An offered share is granted as asked if and only if it is between 5% and 95% or the whole miner |
| `Grants.OfferCanBeRefused` | miner/dest_split.go:49-80 | A miner with 3% to spare offers them and refuses the grant |
| `Grants.GrantAdds` | contractmanager/global_scheduler_service.go:72-85 | Granting exact shares of miners that do not serve the contract yet adds just the chosen hashrate to what it measures |
| `Grants.GrantKeepsCapacity` | miner/dest_split.go:28-31 | Whatever share is asked for, a miner is never given away more than once over |
| `Grants.ReleaseUndoesGrant` | contractmanager/global_scheduler_service.go:72-85 | Deallocating a contract from the miners chosen for it restores the fleet, whatever was granted |
| `GlobalSchedulers.GlobalScheduler.DeallocateContract` | contractmanager/global_scheduler_service.go:198-212 | Takes the contract away from exactly the known miners listed, however often they are listed, and keeps the fleet sane |
| `GlobalSchedulers.GlobalScheduler.GetMinerSnapshot` | contractmanager/global_scheduler_service.go:141-143 | The snapshot shows exactly the vetted miners, each with its hashrate and all its shares |
| `Combinations.GetAllocateComb` | contractmanager/global_scheduler_service.go:90-117 | The choice is part of the list and as the search ends; it is untouched, or trimmed at the best eligible item; when it is not accurate no listed item has changed |
| `Combinations.GetBestMinerToReduceHashrate` | contractmanager/global_scheduler_service.go:119-139 | The item returned is an idle miner whose split is inside the window and closest to one half; none is returned only if there is none |
| `Combinations.Distance` | contractmanager/global_scheduler_service.go:119-139 | What is compared there: twice the hashrate of a miner times its distance is what twice the part differs from the hashrate, so it is zero at exactly one half |
| `Combinations.AccurateChoiceIsExact` | contractmanager/global_scheduler_service.go:90-117 | An accurate choice from enough hashrate provides exactly the target; from too little, everything listed |
| `Combinations.WindowInTime` | contractmanager/global_scheduler_service.go:47-51 | A share strictly inside the window, and the rest of its miner, both last longer than the shortest and shorter than the longest time of a destination |
| `Combinations.FindClosestMinerCombination` | contractmanager/combinations.go:17-39 | The chosen items provide target plus delta; when all items reach the target delta is not negative, and the items are none for a target of 0, and none superfluous, or as many as in such a selection that exceeded the target by less; all are chosen when they do not reach it |
| `AllocSnapshots.AllocSnap.Set` | contractmanager/alloc_snap.go:147-167 | Records one new item in both indexes, which stay transposes of each other with the same miners as the hashrate map |
| `AllocSnapshots.TransposesUpdate` | contractmanager/alloc_snap.go:147-167 | Adding the same item under its miner and its contract keeps the two indexes transposes |
| `AllocSnapshots.AllocSnap.Get` | contractmanager/alloc_snap.go:177-187 | Finds an item through the miner index exactly when the contract index has it, with the same contents |
| `AllocSnapshots.SameByMinerAndByContract` | contractmanager/alloc_snap.go:129-167 | Summing the hashrate by miner then contract, or by contract then miner, gives the same |
| `AllocSnapshots.AllocSnap.GetUnallocatedGHS` | contractmanager/alloc_snap.go:199-219 | Lists exactly the miners with a spare part, each with all of it, and returns the sum of their hashrates |
| `AllocSnapshots.AllocCollection.GetUnallocatedGHS` | contractmanager/alloc_snap.go:106-127 | The item stands for what the listed shares leave of the miner; its miner and hashrate are those of a listed item, or empty and zero when none is listed |
| `AllocSnapshots.AllocCollection.SortByAllocatedGHS` | contractmanager/alloc_snap.go:60-71 | Copies of all items, each once, by increasing hashrate |
| `FleetSnapshots.SpareShows` | contractmanager/alloc_snap.go:199-219 | For a snapshot of a fleet, what it lists as available is what each miner's shares leave |
| `FleetSnapshots.ColumnShows` | contractmanager/alloc_snap.go:194-197 | A snapshot lists for a contract exactly the miners that serve it, with their shares and hashrates |
| `FleetSnapshots.SharesAddUp` | contractmanager/alloc_snap.go:112-116 | Adding up a row in any order gives the total share of the miner |
| `Grants.RoundingLoss` | contractmanager/alloc_snap.go:23-25 | A miner's shares and spare part account for its hashrate, less at most one GH/s per share |
| `FleetSnapshots.SnapshotAccounts` | contractmanager/alloc_snap.go:199-219 | All shares in the snapshot and all it lists as available add up to the hashrate of all miners, less at most one GH/s for every share |
| `SubsetSumRgli.ClosestSubsetSumRGLI` | contractmanager/closest_subset_sum_rgli.go:21-44 | For every shuffle, the best of at most fifty trials: the places are distinct, in range and sum to target - dlt; dlt is the closest of all trials and not positive when the values reach the target; the answer is then the end of a trial; otherwise all values are chosen; fewer than fifty trials only after an exact hit |
| `SubsetSumRgli.SelectGreedily` | contractmanager/closest_subset_sum_rgli.go:50-56 | Either everything is selected and the target missed, or the target is reached and the value selected last was needed; nothing is selected for a target of 0 |
| `SubsetSumRgli.FindReplacement` | contractmanager/closest_subset_sum_rgli.go:65-72 | The last unselected place that passes the test of the source, or none |
| `SubsetSumRgli.Swap` | contractmanager/closest_subset_sum_rgli.go:59-79 | Each value selected is visited once, in random order, and exchanged for the last unselected value that the test of the source accepts then, if any, until the target is met. From a selection above the target the sum moves further above if some selected value has a larger unselected one within twice the excess, and else nothing changes: the swap phase never improves on the first, and leaves an exact hit alone. The number selected stays the same |
| `SubsetSumRgli.Trial` | contractmanager/closest_subset_sum_rgli.go:46-82 | A trial misses the target only if all values together do. One that reaches it ends with the selection of the first phase, or, exactly when some value of that can be exchanged, with as many values that exceed the target by more |
| `SubsetSumRgli.Exchange` | contractmanager/closest_subset_sum_rgli.go:74-77 | An exchange changes the shortfall by the difference of the two values and keeps the number selected |
| `SubsetSumRgli.Shuffle` | contractmanager/closest_subset_sum_rgli.go:105-110 | Any rearrangement: every member as often as before |
| `SubsetSumRgli.FitsWhenBounded` | contractmanager/closest_subset_sum_rgli.go:21-26 | Non-negative values with a total below the largest integer keep every selection comparable with the initial best |
| `ClosestSubsetSum.FindClosest` | contractmanager/closest_subset_sum.go:15-43 | Of the selections that take something from both halves (the first has half of the numbers, rounded down) and reach the goal, the one returned has the least excess; empty when there is none. It is the closest of all selections if and only if every selection from one half that reaches the goal is matched by one from both halves with no more excess (`HalvesMatched`, a condition on numbers and goal) |
| `ClosestSubsetSum.GetMinValArr` | contractmanager/closest_subset_sum.go:45-80 | The two-pointer scan over two sorted lists finds the least non-negative excess over all pairs, or the empty subset |
| `ClosestSubsetSum.ExtensionsComplete` | contractmanager/closest_subset_sum.go:82-103 | Every non-empty subset is listed |
| `ClosestSubsetSum.ExtensionsSound` | contractmanager/closest_subset_sum.go:82-103 | Only non-empty subsets are listed |
| `ClosestSubsetSum.ExtensionsCount` | contractmanager/closest_subset_sum.go:82-103 | There are 2^n - 1 entries, so nothing is listed twice |
| `ClosestSubsetSum.SmallHalvesAreMatched` | contractmanager/closest_subset_sum.go:15-43 | The halves are matched when the numbers are not negative and neither half adds up to the goal |
| `ClosestSubsetSum.OneHalfIsMissed` | contractmanager/closest_subset_sum.go:15-43 | For 5 and 10 with goal 5 the only possible answer is both numbers, 10 too much, although 5 alone is exact |
| `Splits.AnyRunKeepsBounds` | miner/dest_split.go:28-80 | Over every run of allocations, removals and deallocations a miner's shares total at most 1 and number at most 20 |
| `Splits.RemoveUndoesGrant` | miner/dest_split.go:60-80 | Removing a contract just allocated gives back the same list |
| `Splits.SpareShareIsGranted` | miner/dest_split.go:49-80 | Asking for the whole spare part grants it as asked if and only if it is between 5% and 95% or the whole miner |
| `Splits.DeallocatedLeavesNone` | miner/on_demand_miner_scheduler.go:116-131 | After the scan no share of the contract is left, and the others are there in order, if and only if no two shares of it were neighbours |
| `Splits.DeallocatedUnique` | miner/on_demand_miner_scheduler.go:116-131 | With one share per contract the scan removes exactly that share, keeps the order of the rest and stays in bounds |
| `Splits.DeallocationCanCrash` | miner/on_demand_miner_scheduler.go:116-131 | Three grants lead to a list on which the scan runs out of bounds; on a list with two shares of the contract in a row it leaves one |
| `Splits.WithoutFrame` | miner/dest_split.go:116-124 | Removing one contract keeps the shares of the others and where they go |
| `Splits.WithShareFrame` | miner/dest_split.go:33-114 | Setting or increasing a share changes no other share, and no destination, neither of the others nor of the share itself |
| `Splits.TotalWithout` | miner/dest_split.go:116-124 | Removing a contract frees exactly its share |
| `Splits.TotalWithShare` | miner/dest_split.go:102-114 | Setting a share changes the total by the change of that share |
| `DestSplits.DestSplit.Allocate` | miner/dest_split.go:28-31 | Adjusts the share, and adds it in front or changes nothing |
| `DestSplits.DestSplit.RemoveByID` | miner/dest_split.go:116-124 | Removes the first share of the contract and tells whether there is one |
| `DestSplits.DestSplit.Copy` | miner/dest_split.go:145-158 | The copy keeps shares and destinations but drops the contract ids |
| `MinerScheduler.DeallocateInPlace` | miner/on_demand_miner_scheduler.go:116-131 | The loop that shifts the storage it ranges over gives what the scan on values gives, or leaves the bounds exactly when that does, with the same shares left |
| `MinerScheduler.ScanFromMeaning` | miner/on_demand_miner_scheduler.go:116-131 | The scan over shifting storage leaves the deallocated list, reports whether the contract was there, and crashes exactly on lists whose last share and an earlier one both match |
| `MinerScheduler.OnDemandMinerScheduler.Deallocate` | miner/on_demand_miner_scheduler.go:116-131 | The list after the call, the reported flag and the out-of-bounds case, for every list; also after a crash the list is the deallocated one |
| `MinerScheduler.CycleIsWhole` | miner/on_demand_miner_scheduler.go:147-152 | The destinations of a cycle share out exactly the whole miner |
| `MinerScheduler.CycleServesShares` | miner/on_demand_miner_scheduler.go:147-152 | The contracts' shares and destinations appear unchanged and in order after the default |
| `MinerScheduler.CycleLength` | miner/on_demand_miner_scheduler.go:46-79 | A full cycle of n destinations lasts poolMin + poolMax less a loss of fewer than n nanoseconds |
| `MinerScheduler.OnDemandMinerScheduler.RunCycle` | miner/on_demand_miner_scheduler.go:42-75 | A cycle cut short after any number of waits has taken the time of its first destinations and points at the last of them |
| `MerkleRoots.ConvertMerkleBranchesToRoot` | hashrate/utils.go:10-53 | The flat-array loop returns the recursive root for every hash function; an error exactly when a leaf does not parse; nothing for no leaves |
| `MerkleRoots.FillParents` | hashrate/utils.go:30-48 | The moving offset fills the array with all levels one after the other |
| `MerkleRoots.SlotsAreParents` | hashrate/utils.go:30-48 | Slot size + j is the parent of slots 2j and 2j + 1, on every level |
| `MerkleRoots.LastSlotIsRoot` | hashrate/utils.go:52-52 | The last slot holds the root when the leaves fill more than half of their level |
| `MerkleRoots.FilledSlots` | hashrate/utils.go:30-48 | The filled slots of level k are exactly its first LevelSize(n, k) |
| `MerkleRoots.LevelSizeRoundsUp` | hashrate/utils.go:30-48 | LevelSize(n, k) is n / 2^k rounded up |
| `MerkleRoots.NextPowerOfTwoIsLeast` | hashrate/utils.go:55-64 | The size is the smallest power of two at or above n |
| `MerkleRoots.AndTellsPowers` | hashrate/utils.go:57-59 | n & (n - 1) is zero exactly for powers of two |
| `MerkleRoots.RepeatedLastNode` | hashrate/utils.go:37-41 | Repeating the last leaf of an odd list does not change the root |
| `EmaCounters.Counter.Add` | hashrate/ema.go:62-69 | After any history of calls the stored value is the sum of all amounts, each weighted by its decay; ticks between the two clock readings of a later call do not count |
| `EmaCounters.Counter.Value` | hashrate/ema.go:38-43 | At any later time the counter shows that weighted sum |
| `EmaCounters.WeightedSnoc` | hashrate/ema.go:62-69 | The incremental update is the weighted sum of the longer history |
| `EmaCounters.AgeSinceAdd` | hashrate/ema.go:62-84 | When each call reads the clock once, an amount decays for exactly the time since it was added |
| `EmaCounters.NeverGrowsAlone` | hashrate/ema.go:78-84 | A counter of non-negative amounts never grows without an Add |
| `EmaCounters.BoundedRate` | hashrate/ema.go:62-84 | At most v added per tick keeps the value at or below v / (1 - q) |
| `EmaCounters.TickByTick` | hashrate/ema.go:62-84 | The value at a tick is what is added there plus the decayed value of the tick before |
| `PoolCaches.ReplayEqualsStream` | protocol/stratum_v1_pool_conn.go:192-209 | From any miner state the replay has the effect of the full stream if and only if the last extranonce sent is the one of the handshake |
| `PoolCaches.StreamLeavesLastExtranonce` | protocol/stratum_v1_pool_conn.go:192-209 | A stream leaves a miner with the extranonce of its last mining.set_extranonce, or the one it had |
| `PoolCaches.ReplayCanDiffer` | protocol/stratum_v1_pool_conn.go:192-209 | After one mining.set_extranonce the replay gives the miner the old extranonce back |
| `PoolCaches.ReplayWithoutSetExtranonce` | protocol/stratum_v1_pool_conn.go:192-209 | In particular for every stream without mining.set_extranonce |
| `PoolCaches.ReplayErasesThePast` | protocol/stratum_v1_pool_conn.go:192-209 | The replay brings a miner from whatever state to the one of a miner that followed the pool from the start if and only if the stream held a clean_jobs notify and a difficulty |
| `PoolCaches.CacheHoldsState` | protocol/stratum_v1_pool_conn.go:257-268 | The cache holds the difficulty and the live jobs that the stream leaves a blank miner with |
| `PoolCaches.ReplaySettlesFirst` | protocol/stratum_v1_pool_conn.go:192-209 | The replay begins with the extranonce of the handshake and ends with the live jobs in the order in which they came; before the first of them a miner has that extranonce and the last difficulty of the stream |
| `PoolCaches.OnlyHandledIsReplaced` | protocol/stratum_v1_pool_conn.go:269-281 | Only the first result with an id is replaced, and only by what the handler of that id returns for it |
| `PoolCaches.RunFromAnyState` | protocol/stratum_v1_pool_conn.go:257-281 | A stream has the same effect from any state, up to what it leaves alone |
| `PoolCaches.PoolConn.ReadInterceptor` | protocol/stratum_v1_pool_conn.go:257-281 | Keeps the cache up to date, uses each result handler once and lets it replace the result |
| `PoolCaches.PoolConn.Receive` | protocol/stratum_v1_pool_conn.go:90-104 | A message is cached always and handed on only while emitting is not on hold |
| `PoolCaches.PoolConn.ResendRelevantNotifications` | protocol/stratum_v1_pool_conn.go:185-209 | Sends extranonce, difficulty and notifies in this order, skips empty slots, and resumes emitting |
| `Erc20.MoveSucceeds` | lumerinlib/abigen/contracts/ERC20.sol:220-240 | A transfer succeeds iff neither side is the zero address, the token is not paused and the balance is enough; it moves the amount, and is neutral to oneself; a credit never overflows |
| `Erc20.MoveFromSucceeds` | lumerinlib/abigen/contracts/ERC20.sol:149-163 | A transfer on behalf of another needs and uses up that much allowance |
| `Erc20.AllowanceCalls` | lumerinlib/abigen/contracts/ERC20.sol:131-204 | When approving, increasing and decreasing an allowance go through, what they set it to, and that nothing else changes |
| `Erc20.BurnSucceeds` | lumerinlib/abigen/contracts/ERC20.sol:274-289 | Burning succeeds iff a balance covers it; the supply is always enough. It takes the amount from the balance and the supply, and from nothing else |
| `Erc20.BurnFromSucceeds` | lumerinlib/abigen/contracts/ERC20Burnable.sol:34-41 | Burning on behalf of another needs, and uses up, that much allowance as well |
| `Erc20.PerformKeepsSound` | lumerinlib/abigen/contracts/ERC20.sol:149-314 | Every operation keeps the balances adding up to the supply, and each balance what the Transfer events say came in less what went out |
| `Erc20.MintKeepsSound` | lumerinlib/abigen/contracts/ERC20.sol:251-261 | So does minting |
| `Erc20.OthersCannotTake` | lumerinlib/abigen/contracts/ERC20.sol:149-314 | An address that never sends a call does not lose tokens, whatever others do with the token |
| `Erc20.Lumerin.TransferFrom` | lumerinlib/abigen/contracts/ERC20.sol:149-163 | The transfer comes first and is undone when the allowance is too small |
| `Erc20.Lumerin.MoveTokens` | lumerinlib/abigen/contracts/ERC20.sol:220-240 | The in-place update is the transfer on values, or a revert that changes nothing |
| `Erc20.Lumerin.BurnTokensFrom` | lumerinlib/abigen/contracts/ERC20Burnable.sol:34-41 | The allowance is taken first and given back when the burn fails |
| `Erc20.Lumerin.constructor` | lumerinlib/abigen/contracts/LumerinToken.sol:10-12 | The deployer holds the whole supply of 10^17 and the token is sound |
| `Rentals.RefundIsOwed` | lumerinlib/abigen/contracts/Implementation.sol:161-169 | The refund is the price for the time not served, rounded down, or cannot be computed: before the end of the term when the product overflows or the length is zero |
| `Rentals.OwedShrinks` | lumerinlib/abigen/contracts/Implementation.sol:161-169 | Less and less is owed as time passes, and all of the price at the start |
| `Rentals.OwedAndEarned` | lumerinlib/abigen/contracts/Implementation.sol:161-169 | What is owed and the price for the time served, rounded up, make up the price |
| `Rentals.EarlyCloseSucceeds` | lumerinlib/abigen/contracts/Implementation.sol:171-184 | Closeout 0 goes through iff the buyer or the validator calls, the refund can be computed and, if it is not zero, the rental holds it and both sides can be paid. The buyer gets the refund and the seller the rest, or nothing moves; the rental is available again, back with its seller, without a pool |
| `Rentals.TakingEarnedSucceeds` | lumerinlib/abigen/contracts/Implementation.sol:185-192 | Closeout 1 goes through iff the seller calls, the refund can be computed and is held, and the token is not paused. The seller gets all but the refund, and the rental is as it was |
| `Rentals.TermEndSucceeds` | lumerinlib/abigen/contracts/Implementation.sol:193-203 | Closeouts 2 and 3 go through for anyone iff the term is over, closeout 3 also only while the seller can be paid. The rental is available again; closeout 3 has paid the seller all it held, closeout 2 nothing |
| `Rentals.NewTermsSucceed` | lumerinlib/abigen/contracts/Implementation.sol:120-150 | New terms are taken iff the seller gives them after the term of a running rental, with closeout 2 or 3, which has its effect first |
| `Rentals.SellingSucceeds` | lumerinlib/abigen/contracts/Implementation.sol:82-100 | A rental is sold iff it is available and its factory calls; then it runs for the buyer from that time, with the pool given and an escrow for this buyer, its seller and its price |
| `Rentals.CloseOutKeeps` | lumerinlib/abigen/contracts/Implementation.sol:171-204 | However a rental is closed out and by whom, no other contract loses tokens and a running rental stays funded |
| `Rentals.CloseOutKeepsSound` | lumerinlib/abigen/contracts/Implementation.sol:171-204 | Every way of closing out keeps the token sound |
| `Rentals.FundedAtStart` | lumerinlib/abigen/contracts/Implementation.sol:82-100 | A rental that starts is funded iff it holds the price or has no length |
| `Rentals.RentalContract.SetContractCloseOut` | lumerinlib/abigen/contracts/Implementation.sol:171-204 | The calls and writes of each closeout number change the storage to what `EarlyCloseSucceeds`, `TakingEarnedSucceeds` and `TermEndSucceeds` say of that number, or not at all |
| `Rentals.RentalContract.PayOut` | lumerinlib/abigen/contracts/Escrow.sol:48-56 | Two transfers, of which the first is undone when the second fails |
| `Rentals.RentalContract.SetUpdatePurchaseInformation` | lumerinlib/abigen/contracts/Implementation.sol:120-150 | Closes out at the end of the term and only then takes the new terms |
| `Marketplaces.PayoutsAreFunded` | lumerinlib/abigen/contracts/Implementation.sol:161-204 | After every run with the cut off, at any time, a running rental holds what it owes; closeout 0 by its buyer fails only if the refund cannot be computed or the token is paused with something to refund, closeout 1 by its seller only if it cannot be computed or the token is paused |
| `Marketplaces.PurchaseSucceeds` | lumerinlib/abigen/contracts/CloneFactory.sol:69-107 | A purchase goes through iff the rental is known and available, the buyer exists, holds the price and has allowed it to the factory, the token is not paused, and a cut that is on has a recipient and can be computed |
| `Marketplaces.PurchaseSells` | lumerinlib/abigen/contracts/CloneFactory.sol:69-107 | Then every balance is as it was but for the price, which has left the buyer for the rental and, for the cut, the fund; the allowance is used up by the price; the rental is running for the buyer from now on, with the pool given, its terms and owners as they were, and an escrow for this sale; nothing else has changed |
| `Marketplaces.BuyerKeepsRental` | lumerinlib/abigen/contracts/Implementation.sol:82-204 | Over every run: until its term is over, a running rental keeps its buyer, start, terms and escrow parties, whoever tries to buy, close or change it, unless its buyer or its validator calls closeout 0 |
| `Marketplaces.RentalRunsOn` | lumerinlib/abigen/contracts/Implementation.sol:82-204 | The same at any time over every run in which no call is made that may end it: closeout 0 by buyer or validator, and after the term closeout 2 or 3 or new terms by the seller |
| `Marketplaces.EndsEarly` | lumerinlib/abigen/contracts/Implementation.sol:171-184 | The call of closeout 0 in any reachable world: who may make it, when it goes through, every balance afterwards, and that the rental is free again and nothing else has changed |
| `Marketplaces.PaysSeller` | lumerinlib/abigen/contracts/Implementation.sol:185-192 | The same for closeout 1, after which all rentals are as they were |
| `Marketplaces.EndsAtTerm` | lumerinlib/abigen/contracts/Implementation.sol:193-203 | The same for closeouts 2 and 3 |
| `Marketplaces.OtherCloseouts` | lumerinlib/abigen/contracts/Implementation.sol:171-204 | Any other closeout of a known rental goes through and changes nothing; an unknown rental cannot be closed out |
| `Marketplaces.TermsChange` | lumerinlib/abigen/contracts/Implementation.sol:120-150 | The call with new terms: who may make it and when, with the effect of closeout 2 or 3 |
| `Marketplaces.PoolChanges` | lumerinlib/abigen/contracts/Implementation.sol:104-117 | The buyer of a running rental, and nobody else, can change its pool, and that is all that changes |
| `Marketplaces.CreationOffers` | lumerinlib/abigen/contracts/CloneFactory.sol:39-61 | Anyone can offer a rental at a new address; it is available on the terms given and the caller is its seller |
| `Marketplaces.Cut` | lumerinlib/abigen/contracts/CloneFactory.sol:80-86 | The cut is a fortieth of the price, rounded down, and cannot be computed only if 25 times the price overflows |
| `Marketplaces.FundedAfterPurchase` | lumerinlib/abigen/contracts/CloneFactory.sol:69-107 | A purchase leaves the rental funded iff the cut taken is at most what it held before, or it has no length |
| `Marketplaces.EarlyEndNeedsTheCut` | lumerinlib/abigen/contracts/CloneFactory.sol:80-97 | Closeout 0 by the buyer in the block of its purchase goes through iff the rental held the cut before |
| `Marketplaces.EarlyEndCanRevert` | lumerinlib/abigen/contracts/CloneFactory.sol:69-107 | From a new market, by legal calls with the cut on: a rental for 1000 is bought, holds 975, and its early end in the same block reverts |
| `Marketplaces.PurchaseDebitsPrice` | lumerinlib/abigen/contracts/CloneFactory.sol:69-107 | A purchase takes exactly the price from the buyer with or without the cut; fund and rental share it |
| `Marketplaces.PaidAtMostEarned` | lumerinlib/abigen/contracts/Implementation.sol:161-204 | Since its purchase a running rental has paid out at most what it held before, what was given to it, and the price for the time served, rounded up |
| `Marketplaces.LedgerBalances` | lumerinlib/abigen/contracts/ERC20.sol:220-289 | After every run balances add up to the supply, and tokens that entered a contract are those paid out and those it holds |
| `Marketplaces.RunKeeps` | lumerinlib/abigen/contracts/Implementation.sol:82-204 | Every run keeps the invariant, and keeps rentals funded if each cut taken is covered |
| `Marketplaces.ApplyKeeps` | lumerinlib/abigen/contracts/CloneFactory.sol:39-107 | Every single call does |
| `Marketplaces.MarketStartsSound` | lumerinlib/abigen/contracts/LumerinToken.sol:10-12 | A new token without rentals satisfies the invariant |
| `Marketplaces.AvailableOwesNothing` | lumerinlib/abigen/contracts/Implementation.sol:152-169 | An available rental owes nothing once the clock is past its length |
| `Marketplaces.CloneFactory.SetPurchaseRentalContract` | lumerinlib/abigen/contracts/CloneFactory.sol:69-107 | Payments and state change together, to what `PurchaseSells` says and under the condition of `PurchaseSucceeds`, or nothing does |
| `Marketplaces.CloneFactory.SetCreateNewRentalContract` | lumerinlib/abigen/contracts/CloneFactory.sol:39-61 | Adds one available rental under its own address and lists it |

## Left out

- Rounding of float64, and the values it takes when both pool durations are zero.
- Machine overflow of int in Go: the scheduler is modelled for fleets whose hashrates add up to less than 2^63 - 1.
- Random numbers: shuffles and the order of ranging over a map are arbitrary, and so is the order that `sort.Strings` gives
  the keys, since no result depends on it.
- `getAllSumArr` on shared slices: subsets are values here. In the source `append` can overwrite a subset already listed
  when a half has five or more elements.
- Which miners the swap phase exchanges, in what is said of a pick of miners: there it is known by their number and their sum.
  `Swap` gives every exchange.
- Stability of `SortByAllocatedGHS`, whose input order is arbitrary anyway.
- Locks, channels and timing: operations are atomic steps, and one list of shares or one connection is looked at on its
  own. A miner that disconnects between the snapshot and its use is not modelled.
- The restart of a dispatch cycle is a cycle cut short after some waits; errors of the miner model end the loop and are not
  modelled.
- `DestSplit.GetByID` and other readers that nothing modelled here uses. Members whose contract only equates them with a
  function of the same text, as `RentalContract.BuyerPayoutCalc`, have no row.
- What the scheduler does with a fleet in which a contract has two shares of one miner already: its methods start from a sane
  fleet. `Splits.AnyRunKeepsBounds` and `ScanFromMeaning` hold for such lists too.
- `AllocCollection` is a value that holds shared items, where the source has a pointer to a map.
- Parsing and printing of messages: a message is a value that holds the fields the cache or a miner depends on, and copying
  it is the identity. The handshake gives the connection its extranonce; requests and their waiting are not modelled.
- The decay of the counter is a power of a constant per clock tick, which is what the exponential of the elapsed time is;
  the choice of that constant is not modelled. The clock is a parameter and does not go back.
- Precision of the floating-point logarithm in `nextPowerOfTwo`.
- Gas, events other than Transfer, ownership of the pause switch, the clone assembly and the initializer guard. The
  reentrancy guard has no effect because the token makes no calls.
- Purchases of contracts that the factory has not created, and rentals that are themselves buyers or sellers. Calls come from
  accounts that are not rentals or the factory.
- Approval and lifecycle of contracts in the router, the gateway to the chain, the HTTP interface, configuration and logging.
- The subset-sum search over splits, the generic collections, back-off, event bus and byte order helpers: small or easy.
