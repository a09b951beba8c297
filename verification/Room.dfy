/** Whether a miner that serves a contract has room for a second share of it. */
module Room {
  import opened Wrappers
  import opened Arithmetic
  import opened Splits
  import opened Walks
  import opened Fleets
  import opened Grants

  /** Another grant keeps a miner sound exactly when it does not serve the contract yet, or has no room for the share. */
  lemma SecondGrant(s: MinerState, contract: string, share: real, dest: string)
    requires Sound(s.split)
    ensures Sound(GrantOne(s, contract, share, dest).split)
            <==> (Has(s.split, contract) ==> Adjusted(share) > 1.0 - TotalShare(s.split))
  {
    var after := GrantOne(s, contract, share, dest);
    GrantKeepsCapacity(s, contract, share, dest);
    if Has(s.split, contract) && Adjusted(share) <= 1.0 - TotalShare(s.split) {
      var i := IndexOf(s.split, contract);
      assert after.split[0].id == contract && after.split[i + 1] == s.split[i];
    }
  }

  /** Every chosen miner that serves the contract already has less to spare than the share it would be given. */
  ghost predicate NoSecondShare(fleet: Fleet, contract: string, chosen: map<string, real>) {
    forall id <- chosen :: id in fleet && Has(fleet[id].split, contract) ==>
      Adjusted(chosen[id]) > 1.0 - TotalShare(fleet[id].split)
  }

  /**
   * Granting shares keeps the fleet sane if and only if every chosen miner that serves the contract already
   * has less to spare than the share it would be given.
   */
  lemma GrantStaysSane(fleet: Fleet, contract: string, chosen: map<string, real>, dest: string)
    requires Sane(fleet) && chosen.Keys <= fleet.Keys
    ensures Sane(Grant(fleet, contract, chosen, dest))
            <==> NoSecondShare(fleet, contract, chosen)
  {
    var after := Grant(fleet, contract, chosen, dest);
    forall id | id in fleet
      ensures Sound(after[id].split) <==>
        (id in chosen && Has(fleet[id].split, contract) ==> Adjusted(chosen[id]) > 1.0 - TotalShare(fleet[id].split))
    {
      if id in chosen { SecondGrant(fleet[id], contract, chosen[id], dest); }
    }
    forall id | id in chosen && Sane(after) && Has(fleet[id].split, contract)
      ensures Adjusted(chosen[id]) > 1.0 - TotalShare(fleet[id].split)
    {
      assert Sound(after[id].split);
    }
  }

  /** The miner's spare part would not be granted as it is. */
  ghost predicate Closed(s: MinerState) {
    !Exact(1.0 - TotalShare(s.split))
  }

  /** No miner that serves the contract has a spare part between 5% and 95%. */
  ghost predicate NoRoom(fleet: Fleet, contract: string) {
    forall id <- Serving(fleet, contract) :: Closed(fleet[id])
  }

  /** Part of the miner is taken, and the part to spare is worth more than this. */
  ghost predicate TooMuchToSpare(s: MinerState, ghs: int) {
    TotalShare(s.split) > 0.0 && ShareGHS(s.ghs, 1.0 - TotalShare(s.split)) > ghs
  }

  /**
   * No miner that serves the contract has room when this much is asked for: it is closed, or has more to
   * spare than that, which cannot be trimmed.
   */
  ghost predicate NoRoomFor(fleet: Fleet, contract: string, ghs: int) {
    ghs <= 0 || forall id <- Serving(fleet, contract) :: Closed(fleet[id]) || TooMuchToSpare(fleet[id], ghs)
  }

  /** A closed miner accepts no share of the kind that the scheduler offers. */
  lemma ClosedRefuses(s: MinerState, share: real)
    requires Sound(s.split) && Closed(s) && Offered(s, share) && share > 0.0
    ensures Adjusted(share) > 1.0 - TotalShare(s.split)
  {
    TotalIsNonNegative(s.split);
  }

  /** An open miner accepts all that it has to spare. */
  lemma OpenAccepts(s: MinerState)
    requires Sound(s.split) && !Closed(s)
    ensures var spare := 1.0 - TotalShare(s.split); spare > 0.0 && Offered(s, spare) && Adjusted(spare) == spare
  {
  }

  // ---- what growing leaves to spare

  /** Adding part GH/s to a share f would take it out of the window, but not to the whole miner. */
  ghost predicate Capped(ghs: pos, f: real, part: int, w: Window) {
    w.max < f + part as real / ghs as real < 1.0
  }

  /**
   * A miner whose share of a contract cannot be grown, with at most add GH/s left to add, so that something is left
   * after it and the miner is open: not when the share stays as it is because nothing fits or one GH/s more is too
   * little for the window, not when it is cut back to the window, and not when it takes all that fits.
   */
  ghost predicate TightUpTo(s: MinerState, contract: string, add: int, w: Window) {
    var f, spare := ShareOf(s.split, contract), 1.0 - TotalShare(s.split);
    var room := ShareGHS(s.ghs, spare);
    && (add > 0 && (room == 0 || f + 1.0 / s.ghs as real < w.min) ==> !Exact(spare))
    && ((exists part :: 0 < part <= Min(add, room) && Capped(s.ghs, f, part, w)) ==> !Exact(spare - (w.max - f)))
    && (add > room > 0 && f + room as real / s.ghs as real >= w.min && !Capped(s.ghs, f, room, w)
        ==> !Exact(spare - room as real / s.ghs as real))
  }

  /** The same for any amount: it makes no difference how much more than the spare part is left to add. */
  ghost predicate Tight(s: MinerState, contract: string, w: Window) {
    TightUpTo(s, contract, ShareGHS(s.ghs, 1.0 - TotalShare(s.split)) + 1, w)
  }

  lemma TightForAnyAmount(s: MinerState, contract: string, add: int, w: Window)
    requires Ready(s, contract) && Tight(s, contract, w)
    ensures TightUpTo(s, contract, add, w)
  {
    WantedFits(s, contract, 1);
  }

  /** What is added to a share is taken from what the miner has to spare. */
  lemma GainTakesSpare(s: MinerState, contract: string, g: Gain)
    requires Ready(s, contract) && g.Gain?
    ensures TotalShare(AfterGain(s, contract, g).split) == TotalShare(s.split) + g.add
  {
    TotalWithShare(s.split, contract, ShareOf(s.split, contract) + g.add);
  }

  lemma CappedLeavesSome(ghs: pos, f: real, part: int, w: Window)
    requires part > 0 && Capped(ghs, f, part, w)
    ensures ShareGHS(ghs, w.max - f) < part
  {
    QuotientOrder(part as real, ghs as real, w.max - f);
  }

  /** How growing a share by what is wanted ends, and what it leaves to spare and to add. */
  ghost predicate Ends(s: MinerState, contract: string, wanted: int, remaining: int, w: Window, left: int, spare: real) {
    var f, total := ShareOf(s.split, contract), TotalShare(s.split);
    var add := wanted as real / s.ghs as real;
    if wanted == 0 || f + add < w.min then left == remaining && spare == 1.0 - total
    else if Capped(s.ghs, f, wanted, w) then
      remaining - wanted < left && spare == 1.0 - total - (w.max - f)
    else left == remaining - wanted && spare == 1.0 - total - add
  }

  lemma VisitEnds(s: MinerState, contract: string, remaining: int, w: Window)
    requires w.Valid() && Ready(s, contract) && remaining > 0
    ensures var v := Grower(contract, w)(s, remaining);
            Ends(s, contract, Wanted(s, remaining), remaining, w, v.left, 1.0 - TotalShare(v.state.split))
  {
    var g, wanted := GainOf(s, contract, remaining, w), Wanted(s, remaining);
    WantedFits(s, contract, remaining);
    if g.Gain? {
      GainTakesSpare(s, contract, g);
      if Capped(s.ghs, ShareOf(s.split, contract), wanted, w) {
        CappedLeavesSome(s.ghs, ShareOf(s.split, contract), wanted, w);
      } else {
        RoomToGrow(s.ghs, 1.0 - TotalShare(s.split), wanted);
      }
    }
  }

  lemma OneIsLeast(ghs: pos, n: int)
    requires n >= 1
    ensures 1.0 / ghs as real <= n as real / ghs as real
  {
  }

  lemma TightEnds(s: MinerState, contract: string, add: int, wanted: int, remaining: int, w: Window, left: int, spare: real)
    requires TightUpTo(s, contract, add, w) && Ends(s, contract, wanted, remaining, w, left, spare) && left > 0
    requires 0 <= wanted == Min(remaining, ShareGHS(s.ghs, 1.0 - TotalShare(s.split))) && 0 < remaining <= add
    ensures !Exact(spare)
  {
    if wanted > 0 { OneIsLeast(s.ghs, wanted); }
  }

  lemma TightVisit(s: MinerState, contract: string, add: int, remaining: int, w: Window)
    requires w.Valid() && Ready(s, contract) && 0 < remaining <= add && TightUpTo(s, contract, add, w)
    requires Grower(contract, w)(s, remaining).left > 0
    ensures Closed(Grower(contract, w)(s, remaining).state)
  {
    var v := Grower(contract, w)(s, remaining);
    VisitEnds(s, contract, remaining, w);
    WantedFits(s, contract, remaining);
    TightEnds(s, contract, add, Wanted(s, remaining), remaining, w, v.left, 1.0 - TotalShare(v.state.split));
  }

  /** A visit with this amount leaves something to add, and the miner open. */
  ghost predicate LeavesOpen(s: MinerState, contract: string, remaining: int, w: Window) {
    var v := Grower(contract, w)(s, remaining);
    remaining > 0 && v.left > 0 && !Closed(v.state)
  }

  lemma EndsOpen(s: MinerState, contract: string, remaining: int, w: Window, wanted: int, spare: real)
    requires w.Valid() && Ready(s, contract) && remaining > 0 && wanted == Wanted(s, remaining)
    requires forall l, p :: Ends(s, contract, wanted, remaining, w, l, p) ==> l > 0 && p == spare
    requires Exact(spare)
    ensures LeavesOpen(s, contract, remaining, w)
  {
    VisitEnds(s, contract, remaining, w);
  }

  lemma LooseVisit(s: MinerState, contract: string, add: int, w: Window) returns (remaining: int)
    requires w.Valid() && Ready(s, contract) && !TightUpTo(s, contract, add, w)
    ensures remaining <= add && LeavesOpen(s, contract, remaining, w)
  {
    var f, spare := ShareOf(s.split, contract), 1.0 - TotalShare(s.split);
    var room := ShareGHS(s.ghs, spare);
    WantedFits(s, contract, 1);
    if add > 0 && (room == 0 || f + 1.0 / s.ghs as real < w.min) && Exact(spare) {
      remaining := 1;
      EndsOpen(s, contract, 1, w, Min(1, room), spare);
    } else if (exists part :: 0 < part <= Min(add, room) && Capped(s.ghs, f, part, w)) && Exact(spare - (w.max - f)) {
      remaining :| 0 < remaining <= Min(add, room) && Capped(s.ghs, f, remaining, w);
      EndsOpen(s, contract, remaining, w, remaining, spare - (w.max - f));
    } else {
      remaining := room + 1;
      EndsOpen(s, contract, remaining, w, room, spare - room as real / s.ghs as real);
    }
  }

  /**
   * The condition is exact for every amount: a miner is tight up to it if and only if no visit with at most that much
   * left to add leaves something to add and the miner open.
   */
  lemma TightUpToVisits(s: MinerState, contract: string, add: int, w: Window)
    requires w.Valid() && Ready(s, contract)
    ensures TightUpTo(s, contract, add, w) <==> forall remaining :: remaining <= add ==> !LeavesOpen(s, contract, remaining, w)
  {
    if TightUpTo(s, contract, add, w) {
      forall r | r <= add ensures !LeavesOpen(s, contract, r, w) {
        if LeavesOpen(s, contract, r, w) { TightVisit(s, contract, add, r, w); }
      }
    } else {
      var r := LooseVisit(s, contract, add, w);
    }
  }

  /** So a miner is tight if and only if no amount, however large, leaves something to add and the miner open. */
  lemma TightVisits(s: MinerState, contract: string, w: Window)
    requires w.Valid() && Ready(s, contract)
    ensures Tight(s, contract, w) <==> forall remaining :: !LeavesOpen(s, contract, remaining, w)
  {
    if Tight(s, contract, w) {
      forall r ensures !LeavesOpen(s, contract, r, w) {
        TightForAnyAmount(s, contract, r, w);
        TightUpToVisits(s, contract, r, w);
      }
    } else {
      var r := LooseVisit(s, contract, ShareGHS(s.ghs, 1.0 - TotalShare(s.split)) + 1, w);
    }
  }

  /** For example, less than 5% to spare and a share not above the window. */
  lemma LittleToSpareIsTight(s: MinerState, contract: string, w: Window)
    requires w.Valid() && Ready(s, contract)
    requires 1.0 - TotalShare(s.split) < MIN_PERCENTAGE && ShareOf(s.split, contract) <= w.max
    ensures Tight(s, contract, w)
  {
    var spare := 1.0 - TotalShare(s.split);
    var room := ShareGHS(s.ghs, spare);
    WantedFits(s, contract, 1);
    if room > 0 { RoomToGrow(s.ghs, spare, room); }
  }

  /** A miner tight up to an amount, whose share is not above the window, so that growing it never makes it smaller. */
  ghost predicate TightFor(s: MinerState, contract: string, add: int, w: Window) {
    ShareOf(s.split, contract) <= w.max && TightUpTo(s, contract, add, w)
  }

  /** For example, a share that stays inside the window when all of the amount is added to it, which fits. */
  lemma EnoughRoomIsTight(s: MinerState, contract: string, add: int, w: Window)
    requires w.Valid() && Ready(s, contract) && 0 < add <= ShareGHS(s.ghs, 1.0 - TotalShare(s.split))
    requires w.min <= ShareOf(s.split, contract) && ShareOf(s.split, contract) + add as real / s.ghs as real <= w.max
    ensures TightFor(s, contract, add, w)
  {
    OneIsLeast(s.ghs, add);
    assert 1.0 / s.ghs as real > 0.0;
    forall part | 0 < part <= add ensures !Capped(s.ghs, ShareOf(s.split, contract), part, w) {
      PartOrder(s.ghs, part, add);
    }
  }

  lemma PartOrder(ghs: pos, a: int, b: int)
    requires a <= b
    ensures a as real / ghs as real <= b as real / ghs as real
  {
  }

  /** 20 GH/s are added to three tenths of a miner of 100 GH/s: tight for that, but not for any amount. */
  lemma TightForButNotTight(dest: string)
    ensures var s, w := MinerState(100, [Split("c", 0.3, dest)]), Window(0.25, 0.75);
            && w.Valid() && Ready(s, "c") && TightFor(s, "c", 20, w) && !Tight(s, "c", w)
            && Grower("c", w)(s, 20).left == 0
  {
    var split, w := [Split("c", 0.3, dest)], Window(0.25, 0.75);
    var s := MinerState(100, split);
    assert split[1..] == [];
    assert TotalShare(split) == 0.3 && ShareOf(split, "c") == 0.3;
    assert (70.0).Floor == 70 && (20.0).Floor == 20;
    assert ShareGHS(100, 0.7) == 70 && ShareGHS(100, 0.2) == 20;
    EnoughRoomIsTight(s, "c", 20, w);
    assert Capped(100, 0.3, 50, w);
    assert Exact(0.7 - (0.75 - 0.3));
  }

  /** A share that is not above the window never gets smaller, so that a visit leaves at most what it was given. */
  lemma VisitLeavesNoMore(s: MinerState, contract: string, remaining: int, w: Window)
    requires w.Valid() && Ready(s, contract) && remaining > 0 && ShareOf(s.split, contract) <= w.max
    ensures Grower(contract, w)(s, remaining).left <= remaining
  {
    WantedFits(s, contract, remaining);
    GainIsNotNegative(s.ghs, ShareOf(s.split, contract), 1.0 - TotalShare(s.split), Wanted(s, remaining), w);
  }

  lemma GainIsNotNegative(ghs: pos, f: real, spare: real, toAllocate: int, w: Window)
    requires f <= w.max && 0.0 <= spare && 0 <= toAllocate <= ShareGHS(ghs, spare)
    ensures var g := GainFor(ghs, f, toAllocate, w); g.Gain? ==> g.counted >= 0
  {
    if toAllocate > 0 { RoomToGrow(ghs, spare, toAllocate); }
    ProductSign(ghs as real, w.max - f);
  }

  /** The visits of a growth, in terms of what GrowthCloses asks of them. */
  ghost predicate ClosesUpTo(s: MinerState, contract: string, l: int, bound: Option<int>, w: Window) {
    var v := Grower(contract, w)(s, l);
    (bound.None? || l <= bound.value) ==>
      (bound.None? || v.left <= bound.value) && (v.left > 0 ==> Closed(v.state))
  }

  /**
   * Growing leaves nothing to add or no room, if no visit that starts with at most the bound leaves more than that, or
   * something to add and the miner open.
   */
  lemma GrowthCloses(fleet: Fleet, contract: string, order: seq<string>, add: int, w: Window, bound: Option<int>)
    requires Trimmable(fleet, contract, order, w) && add >= 0 && (bound.None? || add <= bound.value)
    requires Serving(fleet, contract) == set id <- order
    requires forall j, l :: 0 <= j < |order| && l > 0 ==> ClosesUpTo(fleet[order[j]], contract, l, bound, w)
    ensures var g := Grow(fleet, contract, order, add, w); g.left > 0 ==> NoRoom(g.fleet, contract)
  {
    var g, visit := Grow(fleet, contract, order, add, w), Grower(contract, w);
    var passed := (a: MinerState, b: MinerState) => Closed(b);
    var fits := (l: int) => bound.None? || l <= bound.value;
    forall j, l | 0 <= j < |order| && l > 0 ensures Passes(fleet[order[j]], l, visit, passed, fits) {
      assert ClosesUpTo(fleet[order[j]], contract, l, bound, w);
    }
    WalkPrefix(fleet, order, 0, add, visit, passed, fits);
    WalkStops(fleet, order, 0, add, visit);
    GrowKeeps(fleet, contract, order, add, w);
    forall id | id in Serving(g.fleet, contract) && g.left > 0 ensures Closed(g.fleet[id]) {
      assert g.fleet[id] == fleet[id] ==> id in Serving(fleet, contract);
      assert id in order;
      var j :| 0 <= j < |order| && order[j] == id;
      assert passed(fleet[order[j]], g.fleet[order[j]]);
    }
  }

  /** If all miners of a contract are tight, then growing them leaves nothing to add, or none of them open. */
  lemma GrowthLeavesNoRoom(fleet: Fleet, contract: string, order: seq<string>, add: int, w: Window)
    requires Trimmable(fleet, contract, order, w) && add >= 0
    requires Serving(fleet, contract) == set id <- order
    requires forall id <- Serving(fleet, contract) :: Tight(fleet[id], contract, w)
    ensures var g := Grow(fleet, contract, order, add, w); g.left > 0 ==> NoRoom(g.fleet, contract)
  {
    forall j, l | 0 <= j < |order| && l > 0 ensures ClosesUpTo(fleet[order[j]], contract, l, None, w) {
      assert order[j] in Serving(fleet, contract);
      TightForAnyAmount(fleet[order[j]], contract, l, w);
      if Grower(contract, w)(fleet[order[j]], l).left > 0 { TightVisit(fleet[order[j]], contract, l, l, w); }
    }
    GrowthCloses(fleet, contract, order, add, w, None);
  }

  /** So does growing them by an amount that they are tight for. */
  lemma GrowthByLeavesNoRoom(fleet: Fleet, contract: string, order: seq<string>, add: int, w: Window)
    requires Trimmable(fleet, contract, order, w) && add >= 0
    requires Serving(fleet, contract) == set id <- order
    requires forall id <- Serving(fleet, contract) :: TightFor(fleet[id], contract, add, w)
    ensures var g := Grow(fleet, contract, order, add, w); g.left > 0 ==> NoRoom(g.fleet, contract)
  {
    forall j, l | 0 <= j < |order| && l > 0 ensures ClosesUpTo(fleet[order[j]], contract, l, Some(add), w) {
      assert order[j] in Serving(fleet, contract);
      VisitLeavesNoMore(fleet[order[j]], contract, l, w);
      if l <= add && Grower(contract, w)(fleet[order[j]], l).left > 0 { TightVisit(fleet[order[j]], contract, add, l, w); }
    }
    GrowthCloses(fleet, contract, order, add, w, Some(add));
  }
}
