/** An ordinary run of the scheduler, to which the results about runs apply. */
module OrdinaryRun {
  import opened Wrappers
  import opened Arithmetic
  import opened Sums
  import opened Splits
  import opened Walks
  import opened Fleets
  import opened Grants
  import opened Room
  import opened AllocSnapshots
  import opened FleetSnapshots
  import opened Combinations
  import opened Choices
  import opened Updates
  import opened SchedulerRuns

  /** One miner of 100 GH/s with these shares. */
  function OneMiner(split: seq<Split>): Fleet {
    map["m" := MinerState(100, split)]
  }

  lemma OneShareServes(share: real, dest: string)
    requires 0.0 < share <= 1.0
    ensures var split := [Split("c", share, dest)];
            TotalShare(split) == share && ShareOf(split, "c") == share && Has(split, "c") && Sound(split)
  {
    var split := [Split("c", share, dest)];
    assert split[1..] == [];
    assert IndexOf(split, "c") == 0;
  }

  lemma OneMinerServes(split: seq<Split>, ghs: int)
    requires Sound(split) && Has(split, "c") && ShareGHS(100, ShareOf(split, "c")) == ghs
    ensures var fleet := OneMiner(split);
            Sane(fleet) && Measured(fleet, "c") == ghs && ListsServing(fleet, "c", ["m"])
  {
    var fleet := OneMiner(split);
    assert WorthMap(fleet, Server("c")) == map[]["m" := ghs];
    SumUpdate(map[], "m", ghs);
    assert ["m"][0] == "m";
  }

  lemma IdleMinerIsListed()
    ensures Sane(OneMiner([])) && Same(SpareItems(OneMiner([])), map["m" := ItemCopy("m", 1.0, 100)])
  {
    assert TotalShare([]) == 0.0;
    assert SpareItems(OneMiner([])) == map["m" := ItemCopy("m", 1.0, 100)];
  }

  lemma IdleItemIsTrimmed(listed: map<string, ItemCopy>, w: Window)
    requires listed == map["m" := ItemCopy("m", 1.0, 100)] && w == Window(0.25, 0.75)
    ensures ChosenFor(listed, map["m" := ItemCopy("m", 0.3, 100)], 30, w, true)
    ensures Sum(GHSOf(listed)) == 100
  {
    IdleItemIsPicked(listed);
    IdleItemIsBest(listed, w);
    Trimmed(listed, listed, 30, 70, w, "m");
  }

  lemma IdleItemIsPicked(listed: map<string, ItemCopy>)
    requires listed == map["m" := ItemCopy("m", 1.0, 100)]
    ensures Picked(listed, listed, 30, 70) && Sum(GHSOf(listed)) == 100
  {
    assert (100.0).Floor == 100;
    assert GHSOf(listed) == map[]["m" := 100];
    SumUpdate(map[], "m", 100);
    WholeIsPicked(listed, GHSOf(listed));
  }

  lemma WholeIsPicked(listed: map<string, ItemCopy>, g: map<string, int>)
    requires listed.Keys == {"m"} && Same(g, GHSOf(listed)) && g["m"] == 100 && Sum(g) == 100
    ensures Picked(listed, listed, 30, 70)
  {
    assert Restrict(g, {"m"}) == g;
    assert Restrict(listed, listed.Keys) == listed;
    EndsAtOnce(g, {"m"}, 30, "m");
  }

  lemma IdleItemIsBest(listed: map<string, ItemCopy>, w: Window)
    requires listed == map["m" := ItemCopy("m", 1.0, 100)] && w == Window(0.25, 0.75)
    ensures IsBest(listed, 70, w, "m")
    ensures Same(Reduced(listed, "m", 70), map["m" := ItemCopy("m", 0.3, 100)])
  {
    assert Reduced(listed, "m", 70) == map["m" := ItemCopy("m", 0.3, 100)];
  }

  lemma IdleMinerIsTrimmed(w: Window)
    requires w == Window(0.25, 0.75)
    ensures Choice(OneMiner([]), map["m" := 0.3], 30, w, true)
    ensures Sum(GHSOf(SpareItems(OneMiner([])))) == 100
  {
    IdleMinerIsListed();
    var listed, copies := map["m" := ItemCopy("m", 1.0, 100)], map["m" := ItemCopy("m", 0.3, 100)];
    IdleItemIsTrimmed(listed, w);
    OneShareOf(copies);
    SpareChoice(OneMiner([]), copies, map["m" := 0.3], 30, w);
  }

  lemma OneShareOf(copies: map<string, ItemCopy>)
    requires copies == map["m" := ItemCopy("m", 0.3, 100)]
    ensures Same(map["m" := 0.3], SharesOf(copies))
  {
    assert SharesOf(copies) == map["m" := 0.3];
  }

  lemma IdleMinerIsGranted(dest: string)
    ensures Grant(OneMiner([]), "c", map["m" := 0.3], dest) == OneMiner([Split("c", 0.3, dest)])
  {
    assert TotalShare([]) == 0.0;
    assert [Split("c", 0.3, dest)] + [] == [Split("c", 0.3, dest)];
  }

  lemma FirstCall(a: Fleet, b: Fleet, dest: string, w: Window)
    requires Serving(a, "c") == {} && Choice(a, map["m" := 0.3], 30, w, true)
    requires b == Grant(a, "c", map["m" := 0.3], dest) && Sum(GHSOf(SpareItems(a))) >= 30
    ensures Outcome(a, Request("c", 30, dest), b, w) && Guarded(a, Request("c", 30, dest), w)
  {
  }

  lemma TrimmedMinerGrows(s: MinerState, dest: string, w: Window)
    requires w == Window(0.25, 0.75) && s == MinerState(100, [Split("c", 0.3, dest)])
    ensures Grower("c", w)(s, 20) == Visit(MinerState(100, [Split("c", 0.5, dest)]), 0, false)
  {
    OneShareServes(0.3, dest);
    assert (70.0).Floor == 70 && (20.0).Floor == 20;
    assert ShareGHS(100, 0.7) == 70 && ShareGHS(100, 0.2) == 20;
    assert GainOf(s, "c", 20, w) == Gain(0.2, 20);
    assert IndexOf(s.split, "c") == 0;
    assert WithShare(s.split, "c", 0.5) == [Split("c", 0.5, dest)];
  }

  lemma OneVisit(b: Fleet, c: Fleet, dest: string, w: Window)
    requires "m" in b && "m" in c && c == b["m" := c["m"]] && Grower("c", w)(b["m"], 20) == Visit(c["m"], 0, false)
    requires Lists(b, ["m"])
    ensures Increased(b, c, "c", 20, dest, w, ["m"], NoExtra, Ok(["m"]))
  {
    WalkStep(b, ["m"], 0, 20, Grower("c", w));
  }

  lemma SecondCall(b: Fleet, c: Fleet, dest: string, w: Window)
    requires w.Valid() && Sane(b) && Measured(b, "c") == 30 && ListsServing(b, "c", ["m"]) && AllTightFor(b, "c", 20, w)
    requires Increased(b, c, "c", 20, dest, w, ["m"], NoExtra, Ok(["m"]))
    ensures Outcome(b, Retarget("c", 50, dest), c, w) && Guarded(b, Retarget("c", 50, dest), w)
  {
    TightIsGuarded(b, "c", 50, dest, w);
    assert !Near(50, 20);
  }

  lemma TwoCalls(a: Fleet, b: Fleet, c: Fleet, first: Call, second: Call, w: Window)
    requires Outcome(a, first, b, w) && Outcome(b, second, c, w) && Guarded(a, first, w) && Guarded(b, second, w)
    ensures IsRun([a, b, c], [first, second], w) && AllGuarded([a, b, c], [first, second], w)
  {
  }

  lemma FirstHalf(dest: string, w: Window)
    requires w == Window(0.25, 0.75)
    ensures var a, b := OneMiner([]), OneMiner([Split("c", 0.3, dest)]);
            Sane(a) && Outcome(a, Request("c", 30, dest), b, w) && Guarded(a, Request("c", 30, dest), w)
  {
    var a, b := OneMiner([]), OneMiner([Split("c", 0.3, dest)]);
    IdleMinerIsListed();
    IdleMinerIsTrimmed(w);
    IdleMinerIsGranted(dest);
    assert Serving(a, "c") == {};
    FirstCall(a, b, dest, w);
  }

  lemma OnlyTightFor(b: Fleet, dest: string, w: Window)
    requires b == OneMiner([Split("c", 0.3, dest)]) && w == Window(0.25, 0.75)
    ensures w.Valid() && AllTightFor(b, "c", 20, w) && !AllTight(b, "c", w)
  {
    TightForButNotTight(dest);
    assert b["m"] == MinerState(100, [Split("c", 0.3, dest)]);
    assert "m" in Serving(b, "c");
  }

  lemma SecondHalf(dest: string, w: Window)
    requires w == Window(0.25, 0.75)
    ensures var b, c := OneMiner([Split("c", 0.3, dest)]), OneMiner([Split("c", 0.5, dest)]);
            && Outcome(b, Retarget("c", 50, dest), c, w) && Guarded(b, Retarget("c", 50, dest), w)
            && Measured(b, "c") == 30 && Measured(c, "c") == 50 && !AllTight(b, "c", w)
  {
    var b, c := OneMiner([Split("c", 0.3, dest)]), OneMiner([Split("c", 0.5, dest)]);
    Served(dest);
    OnlyTightFor(b, dest, w);
    TrimmedMinerGrows(b["m"], dest, w);
    assert c == b["m" := c["m"]];
    OneVisit(b, c, dest, w);
    SecondCall(b, c, dest, w);
  }

  /**
   * A contract is given 30 of an idle miner's 100 GH/s, and its target is raised to 50 then. Both calls are guarded,
   * and the miner that was trimmed for the first takes all of the second, although it is not tight for every amount.
   */
  lemma TrimThenRaise(dest: string)
    ensures var w, some, more := Window(0.25, 0.75), OneMiner([Split("c", 0.3, dest)]), OneMiner([Split("c", 0.5, dest)]);
            var fleets, calls := [OneMiner([]), some, more], [Request("c", 30, dest), Retarget("c", 50, dest)];
            && w.Valid() && Sane(OneMiner([])) && IsRun(fleets, calls, w) && AllGuarded(fleets, calls, w)
            && Measured(some, "c") == 30 && Measured(more, "c") == 50 && !AllTight(some, "c", w)
  {
    var w, a := Window(0.25, 0.75), OneMiner([]);
    var b, c := OneMiner([Split("c", 0.3, dest)]), OneMiner([Split("c", 0.5, dest)]);
    FirstHalf(dest, w);
    SecondHalf(dest, w);
    TwoCalls(a, b, c, Request("c", 30, dest), Retarget("c", 50, dest), w);
  }

  lemma Served(dest: string)
    ensures var some, more := OneMiner([Split("c", 0.3, dest)]), OneMiner([Split("c", 0.5, dest)]);
            && Sane(some) && Measured(some, "c") == 30 && ListsServing(some, "c", ["m"]) && Measured(more, "c") == 50
  {
    assert (30.0).Floor == 30 && (50.0).Floor == 50;
    OneShareServes(0.3, dest);
    OneShareServes(0.5, dest);
    OneMinerServes([Split("c", 0.3, dest)], 30);
    OneMinerServes([Split("c", 0.5, dest)], 50);
  }
}
