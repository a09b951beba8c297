/** Choosing shares of miners for a contract, and when granting them keeps the fleet sane. */
module Choices {
  import opened Wrappers
  import opened Arithmetic
  import opened Sums
  import opened Splits
  import opened Fleets
  import opened Grants
  import opened Room
  import opened AllocSnapshots
  import opened FleetSnapshots
  import opened Combinations
  import Rgli = SubsetSumRgli

  /**
   * Chooses shares from all that is available; if that cannot be done accurately, a second choice is made
   * among the idle miners only.
   */
  method SharesFrom(list: AllocCollection, ghs: int, w: Window, ghost fleet: Fleet)
    returns (chosen: map<string, real>, ghost accurate: bool)
    requires w.Valid() && Sane(fleet) && Same(list.Copies(), SpareItems(fleet))
    requires forall id <- list.items :: list.items[id].minerID == id
    requires 0 <= ghs < Rgli.MAX_INT && Sum(TotalGHS(fleet)) < Rgli.MAX_INT
    requires ghs <= Sum(GHSOf(SpareItems(fleet)))
    modifies list.items.Values
    ensures Choice(fleet, chosen, ghs, w, accurate)
  {
    var isAccurate;
    chosen, isAccurate := FirstChoice(list, ghs, w, fleet);
    accurate := isAccurate;
    if !isAccurate {
      chosen := SecondChoice(list, ghs, w, fleet);
    }
  }

  method FirstChoice(list: AllocCollection, ghs: int, w: Window, ghost fleet: Fleet)
    returns (chosen: map<string, real>, accurate: bool)
    requires w.Valid() && Sane(fleet) && Same(list.Copies(), SpareItems(fleet))
    requires forall id <- list.items :: list.items[id].minerID == id
    requires 0 <= ghs < Rgli.MAX_INT && Sum(TotalGHS(fleet)) < Rgli.MAX_INT
    requires ghs <= Sum(GHSOf(SpareItems(fleet)))
    modifies list.items.Values
    ensures accurate ==> Choice(fleet, chosen, ghs, w, true)
    ensures !accurate ==> Same(list.Copies(), SpareItems(fleet)) && Refused(fleet, ghs, w)
  {
    SpareIsAvailable(fleet);
    var combination;
    combination, accurate := GetAllocateComb(list, ghs, w);
    chosen := Fractions(combination);
    if accurate {
      SpareChoice(fleet, combination.Copies(), chosen, ghs, w);
    } else {
      NotAccurate(fleet, combination.Copies(), ghs, w);
    }
  }

  method SecondChoice(list: AllocCollection, ghs: int, w: Window, ghost fleet: Fleet) returns (chosen: map<string, real>)
    requires w.Valid() && Sane(fleet) && Same(list.Copies(), SpareItems(fleet))
    requires forall id <- list.items :: list.items[id].minerID == id
    requires 0 <= ghs < Rgli.MAX_INT && Sum(TotalGHS(fleet)) < Rgli.MAX_INT
    requires Refused(fleet, ghs, w)
    modifies list.items.Values
    ensures Choice(fleet, chosen, ghs, w, false)
  {
    var idle := ListIdle(list, fleet);
    var combination, isAccurate := GetAllocateComb(idle, ghs, w);
    chosen := Fractions(combination);
    IdleChoice(fleet, combination.Copies(), chosen, ghs, w, isAccurate);
  }

  method ListIdle(list: AllocCollection, ghost fleet: Fleet) returns (idle: AllocCollection)
    requires Sane(fleet) && Same(list.Copies(), SpareItems(fleet))
    requires Sum(TotalGHS(fleet)) < Rgli.MAX_INT
    ensures Same(idle.Copies(), IdleItems(fleet)) && idle.items.Values <= list.items.Values
    ensures Available(idle.Copies()) && Sum(GHSOf(idle.Copies())) < Rgli.MAX_INT
  {
    SpareIsAvailable(fleet);
    idle := list.FilterFullyAvailable();
    IdleCopies(list, idle, fleet);
  }

  lemma IdleCopies(list: AllocCollection, idle: AllocCollection, fleet: Fleet)
    requires Same(list.Copies(), SpareItems(fleet))
    requires idle.items == map id | id in list.items && list.items[id].fraction == 1.0 :: list.items[id]
    ensures Same(idle.Copies(), IdleItems(fleet)) && idle.items.Values <= list.items.Values
  {
    assert idle.Copies() == IdleItems(fleet);
  }

  method Fractions(list: AllocCollection) returns (fractions: map<string, real>)
    ensures Same(fractions, SharesOf(list.Copies()))
  {
    fractions := map id | id in list.items :: list.items[id].fraction;
    assert fractions == SharesOf(list.Copies());
  }

  ghost function SharesOf(copies: map<string, ItemCopy>): map<string, real> {
    map id | id in copies :: copies[id].fraction
  }

  ghost function IdleItems(fleet: Fleet): map<string, ItemCopy> {
    map id | id in SpareItems(fleet) && SpareItems(fleet)[id].fraction == 1.0 :: SpareItems(fleet)[id]
  }

  /** Shares that are those of a choice from the items listed. */
  ghost predicate ChosenAs(listed: map<string, ItemCopy>, chosen: map<string, real>, ghs: int, w: Window, accurate: bool) {
    exists copies :: ChosenFor(listed, copies, ghs, w, accurate) && Same(chosen, SharesOf(copies))
  }

  ghost predicate NoneEligible(pick: map<string, ItemCopy>, part: int, w: Window) {
    forall id <- pick :: !Eligible(pick[id], part, w)
  }

  /**
   * A pick from all that is available exceeds what is needed, and none of its miners can be trimmed by the excess.
   */
  ghost predicate Refused(fleet: Fleet, ghs: int, w: Window) {
    exists pick, delta :: Picked(SpareItems(fleet), pick, ghs, delta) && delta > 0 && NoneEligible(pick, delta, w)
  }

  lemma NotAccurate(fleet: Fleet, copies: map<string, ItemCopy>, ghs: int, w: Window)
    requires ChosenFor(SpareItems(fleet), copies, ghs, w, false)
    ensures Refused(fleet, ghs, w)
  {
    var before, delta :| Picked(SpareItems(fleet), before, ghs, delta) && Settled(before, copies, delta, w, false);
    assert NoneEligible(before, delta, w);
  }

  /**
   * Shares that a fleet can give for ghs GH/s: each is the whole spare part of a miner or part of an idle one.
   * If the choice is accurate it is one from all that is available, and provides exactly ghs GH/s. If
   * not, a pick from all that is available was refused, and a second choice was made among the idle miners.
   */
  ghost predicate Choice(fleet: Fleet, chosen: map<string, real>, ghs: int, w: Window, accurate: bool) {
    && chosen.Keys <= fleet.Keys
    && (forall id <- chosen :: chosen[id] > 0.0 && Offered(fleet[id], chosen[id]))
    && if accurate then ChosenAs(SpareItems(fleet), chosen, ghs, w, true) && Sum(ChosenGHS(fleet, chosen)) == ghs
       else Refused(fleet, ghs, w) && exists reported :: ChosenIdle(fleet, chosen, ghs, w, reported)
  }

  /**
   * A choice among idle miners. It falls short if and only if all of them together do; then each is given
   * away whole, and the choice is reported as accurate nevertheless.
   */
  ghost predicate ChosenIdle(fleet: Fleet, chosen: map<string, real>, ghs: int, w: Window, reported: bool)
    requires chosen.Keys <= fleet.Keys
  {
    && chosen.Keys <= IdleItems(fleet).Keys && ChosenAs(IdleItems(fleet), chosen, ghs, w, reported)
    && (Sum(ChosenGHS(fleet, chosen)) < ghs <==> Sum(GHSOf(IdleItems(fleet))) < ghs)
    && (Sum(ChosenGHS(fleet, chosen)) < ghs ==> reported && Same(chosen, SharesOf(IdleItems(fleet))))
    && (reported && Sum(GHSOf(IdleItems(fleet))) >= ghs ==> Sum(ChosenGHS(fleet, chosen)) == ghs)
  }

  /**
   * A choice falls short if and only if the first one was refused and all idle miners together provide less than
   * was asked for.
   */
  lemma ShortfallExactly(fleet: Fleet, chosen: map<string, real>, ghs: int, w: Window, accurate: bool)
    requires Choice(fleet, chosen, ghs, w, accurate)
    ensures Sum(ChosenGHS(fleet, chosen)) < ghs <==> !accurate && Sum(GHSOf(IdleItems(fleet))) < ghs
  {
    if !accurate {
      var reported :| ChosenIdle(fleet, chosen, ghs, w, reported);
    }
  }

  /** Before the call: no choice falls short if the idle miners alone provide what is asked for. */
  lemma IdleMinersSuffice(fleet: Fleet, ghs: int, w: Window)
    requires Sum(GHSOf(IdleItems(fleet))) >= ghs
    ensures forall chosen, accurate | Choice(fleet, chosen, ghs, w, accurate) :: Sum(ChosenGHS(fleet, chosen)) >= ghs
  {
    forall chosen, accurate | Choice(fleet, chosen, ghs, w, accurate) ensures Sum(ChosenGHS(fleet, chosen)) >= ghs {
      ShortfallExactly(fleet, chosen, ghs, w, accurate);
    }
  }

  lemma SpareGHSIsNonNegative(fleet: Fleet)
    requires Sane(fleet)
    ensures forall id <- SpareItems(fleet) :: 0 <= GHSOf(SpareItems(fleet))[id] <= fleet[id].ghs
    ensures forall id <- fleet :: 0.0 <= TotalShare(fleet[id].split)
  {
    forall id | id in fleet
      ensures id in SpareItems(fleet) ==> 0 <= GHSOf(SpareItems(fleet))[id] <= fleet[id].ghs
      ensures 0.0 <= TotalShare(fleet[id].split)
    {
      TotalIsNonNegative(fleet[id].split);
      if id in SpareItems(fleet) {
        WholeShare(fleet[id].ghs, 1.0 - TotalShare(fleet[id].split));
        ProductSign(fleet[id].ghs as real, 1.0 - TotalShare(fleet[id].split));
      }
    }
  }

  lemma SpareIsAvailable(fleet: Fleet)
    requires Sane(fleet)
    ensures Available(SpareItems(fleet)) && Available(IdleItems(fleet))
    ensures Sum(GHSOf(IdleItems(fleet))) <= Sum(GHSOf(SpareItems(fleet))) <= Sum(TotalGHS(fleet))
  {
    SpareGHSIsNonNegative(fleet);
    SumOfPart(GHSOf(IdleItems(fleet)), GHSOf(SpareItems(fleet)));
    SumOfPart(GHSOf(SpareItems(fleet)), TotalGHS(fleet));
  }

  /** Fewer, smaller and non-negative numbers have the smaller sum. */
  lemma SumOfPart(m: map<string, int>, n: map<string, int>)
    requires m.Keys <= n.Keys && (forall k <- m :: m[k] <= n[k]) && (forall k <- n :: n[k] >= 0)
    ensures Sum(m) <= Sum(n)
  {
    var padded := map k | k in n :: if k in m then m[k] else 0;
    SumSupport(padded, m);
    SumBounds(padded, padded, n);
  }

  /** The shares chosen from items that the fleet has available are offered by the fleet. */
  lemma SharesMatch(fleet: Fleet, listed: map<string, ItemCopy>, chosen: map<string, ItemCopy>, w: Window)
    requires w.Valid() && chosen.Keys <= listed.Keys <= SpareItems(fleet).Keys
    requires forall id <- chosen :: listed[id] == SpareItems(fleet)[id] && FromItem(chosen[id], listed[id], w)
    ensures SharesOf(chosen).Keys <= fleet.Keys
    ensures forall id <- chosen :: chosen[id].fraction > 0.0 && Offered(fleet[id], chosen[id].fraction)
    ensures ChosenGHS(fleet, SharesOf(chosen)) == GHSOf(chosen)
  {
    forall id | id in chosen
      ensures chosen[id].fraction > 0.0 && Offered(fleet[id], chosen[id].fraction)
      ensures chosen[id].totalGHS == fleet[id].ghs
    {
      assert FromItem(chosen[id], SpareItems(fleet)[id], w);
    }
  }

  lemma SpareChoice(fleet: Fleet, copies: map<string, ItemCopy>, chosen: map<string, real>, ghs: int, w: Window)
    requires w.Valid() && Sane(fleet) && ChosenFor(SpareItems(fleet), copies, ghs, w, true)
    requires Sum(GHSOf(SpareItems(fleet))) >= ghs && Same(chosen, SharesOf(copies))
    ensures Choice(fleet, chosen, ghs, w, true)
  {
    SpareIsAvailable(fleet);
    ChosenShares(SpareItems(fleet), copies, ghs, w, true);
    SharesMatch(fleet, SpareItems(fleet), copies, w);
    AccurateChoiceIsExact(SpareItems(fleet), copies, ghs, w);
  }

  lemma IdleChoice(fleet: Fleet, copies: map<string, ItemCopy>, chosen: map<string, real>, ghs: int, w: Window, accurate: bool)
    requires w.Valid() && Sane(fleet) && ChosenFor(IdleItems(fleet), copies, ghs, w, accurate)
    requires Same(chosen, SharesOf(copies)) && Refused(fleet, ghs, w)
    ensures Choice(fleet, chosen, ghs, w, false)
  {
    SpareIsAvailable(fleet);
    ChosenShares(IdleItems(fleet), copies, ghs, w, accurate);
    SharesMatch(fleet, IdleItems(fleet), copies, w);
    if accurate {
      AccurateChoiceIsExact(IdleItems(fleet), copies, ghs, w);
    } else {
      var before, delta :| Picked(IdleItems(fleet), before, ghs, delta) && Settled(before, copies, delta, w, accurate);
    }
    assert ChosenIdle(fleet, chosen, ghs, w, accurate);
  }

  /**
   * An accurate allocation from miners that do not serve the contract yet, with every share between 5% and 95%
   * or a whole miner, leaves every miner within its capacity and gives the contract exactly the hashrate
   * asked for, on top of what it had.
   */
  lemma AccurateAllocationMeasures(fleet: Fleet, contract: string, chosen: map<string, real>, ghs: int, w: Window, dest: string)
    requires Sane(fleet) && Choice(fleet, chosen, ghs, w, true)
    requires forall id <- chosen :: Exact(chosen[id]) && !Has(fleet[id].split, contract)
    ensures var after := Grant(fleet, contract, chosen, dest);
            && Sane(after) && Serving(after, contract) == Serving(fleet, contract) + chosen.Keys
            && Measured(after, contract) == Measured(fleet, contract) + ghs
  {
    GrantAdds(fleet, contract, chosen, dest);
  }

  // ---- when an allocation keeps one share per contract

  lemma NothingPicked(listed: map<string, ItemCopy>, before: map<string, ItemCopy>, ghs: int, delta: int)
    requires Picked(listed, before, ghs, delta) && ghs <= 0 && forall i <- listed :: GHSOf(listed)[i] >= 0
    ensures before == map[]
  {
    SumNonNegative(GHSOf(listed));
    var first :| FirstReach(GHSOf(listed), first, ghs)
      && (before.Keys == first
          || (|before.Keys| == |first|
              && ghs < Sum(Restrict(GHSOf(listed), first)) < Sum(Restrict(GHSOf(listed), before.Keys))));
    assert before.Keys == {};
  }

  lemma NothingSettled(listed: map<string, ItemCopy>, copies: map<string, ItemCopy>, ghs: int, w: Window, accurate: bool)
    requires ChosenFor(listed, copies, ghs, w, accurate) && ghs <= 0 && forall i <- listed :: GHSOf(listed)[i] >= 0
    ensures copies == map[]
  {
    var before, delta :| Picked(listed, before, ghs, delta) && Settled(before, copies, delta, w, accurate);
    NothingPicked(listed, before, ghs, delta);
  }

  /** Nothing is chosen when nothing is asked for. */
  lemma NothingForNothing(fleet: Fleet, chosen: map<string, real>, ghs: int, w: Window, accurate: bool)
    requires Sane(fleet) && Choice(fleet, chosen, ghs, w, accurate) && ghs <= 0
    ensures chosen == map[]
  {
    SpareGHSIsNonNegative(fleet);
    if accurate {
      var copies :| ChosenFor(SpareItems(fleet), copies, ghs, w, true) && Same(chosen, SharesOf(copies));
      NothingSettled(SpareItems(fleet), copies, ghs, w, true);
    } else {
      var reported :| ChosenIdle(fleet, chosen, ghs, w, reported);
      var copies :| ChosenFor(IdleItems(fleet), copies, ghs, w, reported) && Same(chosen, SharesOf(copies));
      NothingSettled(IdleItems(fleet), copies, ghs, w, reported);
    }
  }

  /** An item worth something, alone or after one worth nothing, can be all that is picked. */
  lemma ItemsPicked(listed: map<string, ItemCopy>, id: string, last: string, w: Window)
    requires id in listed && last in listed && (id == last || GHSOf(listed)[id] == 0) && GHSOf(listed)[last] > 0
    requires forall i <- listed :: GHSOf(listed)[i] >= 0
    ensures ChosenFor(listed, Restrict(listed, {id, last}), GHSOf(listed)[last], w, true)
    ensures GHSOf(listed)[last] <= Sum(GHSOf(listed))
  {
    var g, ids := GHSOf(listed), {id, last};
    var copies, ghs := Restrict(listed, ids), g[last];
    SumOfTwo(g, id, last);
    SumNonNegative(g);
    assert GHSOf(copies) == Restrict(g, ids) && copies.Keys == ids;
    EndsAtOnce(g, ids, ghs, last);
    assert Picked(listed, copies, ghs, 0) && Settled(copies, copies, 0, w, true);
  }

  lemma EndsAtOnce(g: map<string, int>, ids: set<string>, ghs: int, last: string)
    requires ids <= g.Keys && last in ids && Sum(Restrict(g, ids)) >= ghs > 0 && Sum(Restrict(g, ids)) - g[last] < ghs
    ensures EndsWith(g, ids, ghs)
  {
    assert FirstReach(g, ids, ghs);
  }

  lemma SumOfTwo(g: map<string, int>, id: string, last: string)
    requires id in g && last in g && (id == last || g[id] == 0)
    ensures Sum(Restrict(g, {id, last})) == g[last]
  {
    SumUpdate(map[], last, g[last]);
    if id == last {
      assert Restrict(g, {id, last}) == map[][last := g[last]];
    } else {
      SumUpdate(map[][last := g[last]], id, 0);
      assert Restrict(g, {id, last}) == map[][last := g[last]][id := 0];
    }
  }

  /** What one miner has to spare is a choice for what it is worth, or together with another one if it is worth nothing. */
  lemma SpareChosen(fleet: Fleet, id: string, last: string, w: Window) returns (chosen: map<string, real>)
    requires w.Valid() && Sane(fleet) && id in SpareItems(fleet) && last in SpareItems(fleet)
    requires var g := GHSOf(SpareItems(fleet)); (id == last || g[id] == 0) && g[last] > 0
    ensures chosen.Keys == {id, last} && chosen[id] == 1.0 - TotalShare(fleet[id].split)
    ensures var ghs := GHSOf(SpareItems(fleet))[last];
            Choice(fleet, chosen, ghs, w, true) && ghs <= Sum(GHSOf(SpareItems(fleet)))
  {
    var listed := SpareItems(fleet);
    var copies := Restrict(listed, {id, last});
    chosen := SharesOf(copies);
    SpareGHSIsNonNegative(fleet);
    ItemsPicked(listed, id, last, w);
    SharesOfTwo(fleet, id, last);
    SpareChoice(fleet, copies, chosen, GHSOf(listed)[last], w);
  }

  lemma SharesOfTwo(fleet: Fleet, id: string, last: string)
    requires id in SpareItems(fleet) && last in SpareItems(fleet)
    ensures var chosen := SharesOf(Restrict(SpareItems(fleet), {id, last}));
            Same(chosen.Keys, {id, last}) && chosen[id] == 1.0 - TotalShare(fleet[id].split)
  {
    assert SharesOf(Restrict(SpareItems(fleet), {id, last})).Keys == {id, last};
  }

  lemma ChosenIsWithin(fleet: Fleet, chosen: map<string, real>, id: string)
    requires Sane(fleet) && chosen.Keys <= fleet.Keys && id in chosen
    requires forall i <- chosen :: chosen[i] > 0.0
    ensures ShareGHS(fleet[id].ghs, chosen[id]) <= Sum(ChosenGHS(fleet, chosen))
  {
    forall i | i in chosen ensures ChosenGHS(fleet, chosen)[i] >= 0 {
      ProductSign(fleet[i].ghs as real, chosen[i]);
    }
    SumNonNegative(ChosenGHS(fleet, chosen));
    assert ChosenGHS(fleet, chosen)[id] <= Sum(ChosenGHS(fleet, chosen));
  }

  /** A miner that is partly taken and has more to spare than is asked for is never chosen. */
  lemma TooMuchIsNotChosen(fleet: Fleet, chosen: map<string, real>, ghs: int, w: Window, accurate: bool, id: string)
    requires Sane(fleet) && Choice(fleet, chosen, ghs, w, accurate) && id in chosen
    ensures !TooMuchToSpare(fleet[id], ghs)
  {
    if accurate {
      ChosenIsWithin(fleet, chosen, id);
      OfferWithin(fleet[id], chosen[id], ghs);
    } else {
      SecondChoiceIsUntaken(fleet, chosen, ghs, w, id);
    }
  }

  lemma OfferWithin(s: MinerState, share: real, ghs: int)
    requires Offered(s, share) && ShareGHS(s.ghs, share) <= ghs
    ensures !TooMuchToSpare(s, ghs)
  {
  }

  lemma SecondChoiceIsUntaken(fleet: Fleet, chosen: map<string, real>, ghs: int, w: Window, id: string)
    requires Choice(fleet, chosen, ghs, w, false) && id in chosen
    ensures TotalShare(fleet[id].split) == 0.0
  {
    var reported :| ChosenIdle(fleet, chosen, ghs, w, reported);
    assert id in IdleItems(fleet);
  }

  lemma ChoiceKeepsSane(fleet: Fleet, contract: string, chosen: map<string, real>, ghs: int, w: Window, accurate: bool,
                        dest: string)
    requires Sane(fleet) && NoRoomFor(fleet, contract, ghs) && Choice(fleet, chosen, ghs, w, accurate)
    ensures Sane(Grant(fleet, contract, chosen, dest))
  {
    if ghs <= 0 { NothingForNothing(fleet, chosen, ghs, w, accurate); }
    forall id | id in chosen && Has(fleet[id].split, contract) ensures Adjusted(chosen[id]) > 1.0 - TotalShare(fleet[id].split) {
      assert id in Serving(fleet, contract);
      if Closed(fleet[id]) {
        ClosedRefuses(fleet[id], chosen[id]);
      } else {
        TooMuchIsNotChosen(fleet, chosen, ghs, w, accurate, id);
      }
    }
    GrantStaysSane(fleet, contract, chosen, dest);
  }

  /** If anything is available, then an open miner that serves the contract is granted a second share by some choice. */
  lemma OpenMinerIsGranted(fleet: Fleet, contract: string, id: string, w: Window, dest: string)
    returns (chosen: map<string, real>, ghs: int)
    requires w.Valid() && Sane(fleet) && id in Serving(fleet, contract) && !Closed(fleet[id])
    requires Sum(GHSOf(SpareItems(fleet))) > 0
    ensures Choice(fleet, chosen, ghs, w, true) && 0 < ghs <= Sum(GHSOf(SpareItems(fleet)))
    ensures !Sane(Grant(fleet, contract, chosen, dest))
  {
    var g := GHSOf(SpareItems(fleet));
    OpenAccepts(fleet[id]);
    SpareGHSIsNonNegative(fleet);
    var last := if g[id] > 0 then id else PositiveEntry(g);
    chosen := SpareChosen(fleet, id, last, w);
    ghs := g[last];
    OpenMinerAccepts(fleet, contract, chosen, id, dest);
  }

  lemma OpenMinerAccepts(fleet: Fleet, contract: string, chosen: map<string, real>, id: string, dest: string)
    requires Sane(fleet) && id in Serving(fleet, contract) && !Closed(fleet[id]) && chosen.Keys <= fleet.Keys
    requires id in chosen && chosen[id] == 1.0 - TotalShare(fleet[id].split)
    ensures !Sane(Grant(fleet, contract, chosen, dest))
  {
    OpenAccepts(fleet[id]);
    GrantStaysSane(fleet, contract, chosen, dest);
  }

  ghost function PositiveEntry(g: map<string, int>): (id: string)
    requires Sum(g) > 0 && forall i <- g :: g[i] >= 0
    ensures id in g && g[id] > 0
  {
    AllZero(g);
    var id :| id in g && g[id] > 0;
    id
  }

  lemma AllZero(g: map<string, int>)
    requires forall i <- g :: g[i] >= 0
    ensures (forall i <- g :: g[i] == 0) <==> Sum(g) == 0
  {
    SumNonNegative(g);
    if forall i <- g :: g[i] == 0 {
      var none: map<string, int> := map[];
      SumSupport(g, none);
    }
  }

  /** A choice for something falls short of it when nothing that is available is worth anything. */
  lemma NothingAvailable(fleet: Fleet, chosen: map<string, real>, ghs: int, w: Window, accurate: bool)
    requires Sane(fleet) && Choice(fleet, chosen, ghs, w, accurate) && Sum(GHSOf(SpareItems(fleet))) == 0
    ensures ghs <= 0
  {
    SpareGHSIsNonNegative(fleet);
    AllZero(GHSOf(SpareItems(fleet)));
    if accurate {
      forall id | id in chosen ensures ChosenGHS(fleet, chosen)[id] == 0 {
        NothingWorth(fleet, chosen, id);
      }
      AllZero(ChosenGHS(fleet, chosen));
    } else {
      var pick, delta :| Picked(SpareItems(fleet), pick, ghs, delta) && delta > 0 && NoneEligible(pick, delta, w);
    }
  }

  lemma NothingWorth(fleet: Fleet, chosen: map<string, real>, id: string)
    requires Sane(fleet) && id in chosen && id in fleet && Offered(fleet[id], chosen[id]) && 0.0 < chosen[id]
    requires forall i <- SpareItems(fleet) :: GHSOf(SpareItems(fleet))[i] == 0
    ensures ShareGHS(fleet[id].ghs, chosen[id]) == 0
  {
    TotalIsNonNegative(fleet[id].split);
    assert id in SpareItems(fleet);
    assert GHSOf(SpareItems(fleet))[id] == 0;
    ShareOrder(fleet[id].ghs, chosen[id], 1.0 - TotalShare(fleet[id].split));
    ProductSign(fleet[id].ghs as real, chosen[id]);
  }

  /**
   * Every allocation to a contract keeps the fleet sane, whatever is asked for and whichever shares are chosen, if
   * and only if no miner that serves the contract has a spare part between 5% and 95%, or nothing is available.
   */
  lemma AllocatingStaysSane(fleet: Fleet, contract: string, w: Window, dest: string)
    requires w.Valid() && Sane(fleet)
    ensures NoRoom(fleet, contract) || Sum(GHSOf(SpareItems(fleet))) == 0 <==>
            forall chosen, ghs, accurate | Choice(fleet, chosen, ghs, w, accurate) :: Sane(Grant(fleet, contract, chosen, dest))
  {
    SpareIsAvailable(fleet);
    SpareIsNonNegative(fleet);
    if NoRoom(fleet, contract) || Sum(GHSOf(SpareItems(fleet))) == 0 {
      forall chosen, ghs, accurate | Choice(fleet, chosen, ghs, w, accurate) ensures Sane(Grant(fleet, contract, chosen, dest)) {
        if !NoRoom(fleet, contract) { NothingAvailable(fleet, chosen, ghs, w, accurate); }
        ChoiceKeepsSane(fleet, contract, chosen, ghs, w, accurate, dest);
      }
    } else {
      var id :| id in Serving(fleet, contract) && !Closed(fleet[id]);
      var chosen, ghs := OpenMinerIsGranted(fleet, contract, id, w, dest);
    }
  }

  lemma SpareIsNonNegative(fleet: Fleet)
    requires Sane(fleet)
    ensures Sum(GHSOf(SpareItems(fleet))) >= 0
  {
    SpareGHSIsNonNegative(fleet);
    SumNonNegative(GHSOf(SpareItems(fleet)));
  }

  /**
   * An allocation of this much keeps the fleet sane, whichever shares are chosen: nothing is asked for, or not that much
   * is available, or no miner that serves the contract has room for it.
   */
  ghost predicate SafeToAllocate(fleet: Fleet, contract: string, ghs: int) {
    Sum(GHSOf(SpareItems(fleet))) < ghs || NoRoomFor(fleet, contract, ghs)
  }

  /** When all spare parts are worth the same, a whole multiple of that is always provided exactly. */
  lemma EqualSparesAreExact(fleet: Fleet, chosen: map<string, real>, ghs: int, w: Window, accurate: bool, value: int, k: nat)
    requires Choice(fleet, chosen, ghs, w, accurate) && Sum(GHSOf(SpareItems(fleet))) >= ghs == value * k && value > 0
    requires forall id <- SpareItems(fleet) :: GHSOf(SpareItems(fleet))[id] == value
    ensures accurate && Sum(ChosenGHS(fleet, chosen)) == ghs
  {
    if !accurate {
      var pick, delta :| Picked(SpareItems(fleet), pick, ghs, delta) && delta > 0 && NoneEligible(pick, delta, w);
      EqualItemsAreExact(SpareItems(fleet), pick, ghs, delta, value, k);
    }
  }

  // ---- an allocation that gives nothing

  lemma HalfToSpare(fleet: Fleet, dest: string)
    requires fleet == map["m" := MinerState(100, [Split("o", 0.5, dest)])]
    ensures Sane(fleet) && SpareItems(fleet) == map["m" := ItemCopy("m", 0.5, 100)] && IdleItems(fleet) == map[]
    ensures GHSOf(SpareItems(fleet)) == map["m" := 50] && Sum(GHSOf(SpareItems(fleet))) == 50
  {
    var s := fleet["m"];
    assert s.split[1..] == [];
    assert TotalShare(s.split) == 0.5;
    assert SpareItems(fleet) == map["m" := ItemCopy("m", 0.5, 100)];
    assert (50.0).Floor == 50;
    assert GHSOf(SpareItems(fleet)) == map[]["m" := 50];
    SumUpdate(map[], "m", 50);
  }

  lemma PickedWhole(listed: map<string, ItemCopy>)
    requires listed == map["m" := ItemCopy("m", 0.5, 100)] && Sum(GHSOf(listed)) == 50 && GHSOf(listed) == map["m" := 50]
    ensures Picked(listed, listed, 10, 40)
  {
    var g := GHSOf(listed);
    assert Restrict(g, {"m"}) == g && Restrict(listed, listed.Keys) == listed && listed.Keys == {"m"};
    EndsAtOnce(g, {"m"}, 10, "m");
  }

  lemma NothingIsChosen(fleet: Fleet, dest: string, w: Window)
    requires w.Valid() && fleet == map["m" := MinerState(100, [Split("o", 0.5, dest)])]
    ensures Choice(fleet, map[], 10, w, false)
  {
    HalfToSpare(fleet, dest);
    var listed, none: map<string, ItemCopy> := SpareItems(fleet), map[];
    assert Restrict(listed, listed.Keys) == listed && Restrict(none, none.Keys) == none && GHSOf(none) == map[];
    PickedWhole(listed);
    assert NoneEligible(listed, 40, w);
    assert Picked(none, none, 10, -10) && Settled(none, none, -10, w, true);
    assert SharesOf(none) == map[];
    IdleChoice(fleet, none, map[], 10, w, true);
  }

  lemma HalfOrNothing(fleet: Fleet, dest: string, chosen: map<string, real>)
    requires fleet == map["m" := MinerState(100, [Split("o", 0.5, dest)])] && chosen.Keys <= fleet.Keys
    requires forall id <- chosen :: Offered(fleet[id], chosen[id])
    ensures Sum(ChosenGHS(fleet, chosen)) == if chosen == map[] then 0 else 50
  {
    HalfToSpare(fleet, dest);
    if chosen != map[] {
      assert "m" in chosen.Keys;
      assert ShareGHS(100, 0.5) == 50 by { assert GHSOf(SpareItems(fleet))["m"] == 50; }
      assert ChosenGHS(fleet, chosen) == map[]["m" := 50];
      SumUpdate(map[], "m", 50);
    }
  }

  lemma OnlyNothing(fleet: Fleet, dest: string, chosen: map<string, real>, w: Window, accurate: bool)
    requires fleet == map["m" := MinerState(100, [Split("o", 0.5, dest)])] && Choice(fleet, chosen, 10, w, accurate)
    ensures chosen == map[]
  {
    HalfToSpare(fleet, dest);
    HalfOrNothing(fleet, dest, chosen);
  }

  /**
   * A miner of 100 GH/s gives half to another contract. There are 50 GH/s available, but when 10 are asked for the
   * choice is empty, whatever the search does: the allocation succeeds and gives nothing.
   */
  lemma AllocationCanGiveNothing(dest: string, contract: string, w: Window)
    requires w.Valid()
    ensures var fleet: Fleet := map["m" := MinerState(100, [Split("o", 0.5, dest)])];
            && Sane(fleet) && Sum(GHSOf(SpareItems(fleet))) == 50
            && Choice(fleet, map[], 10, w, false)
            && forall chosen, accurate | Choice(fleet, chosen, 10, w, accurate) ::
                 chosen == map[] && Same(Grant(fleet, contract, chosen, dest), fleet)
  {
    var fleet: Fleet := map["m" := MinerState(100, [Split("o", 0.5, dest)])];
    HalfToSpare(fleet, dest);
    NothingIsChosen(fleet, dest, w);
    forall chosen, accurate | Choice(fleet, chosen, 10, w, accurate)
      ensures chosen == map[] && Same(Grant(fleet, contract, chosen, dest), fleet)
    {
      OnlyNothing(fleet, dest, chosen, w, accurate);
      assert Grant(fleet, contract, chosen, dest) == fleet;
    }
  }
}
