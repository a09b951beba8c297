/** All miners of the system as a value, and what the scheduler's operations do to it. */
module Fleets {
  import opened Wrappers
  import opened Arithmetic
  import opened Sums
  import opened Splits
  import opened Walks

  datatype MinerState = MinerState(ghs: pos, split: seq<Split>)
  type Fleet = map<string, MinerState>

  /** Shortest and longest share of a dispatch cycle that a destination may be given. */
  datatype Window = Window(min: real, max: real) {
    ghost predicate Valid() {
      0.0 < min <= max && min + max == 1.0
    }

    ghost predicate Contains(share: real) {
      min <= share <= max
    }
  }

  ghost predicate Sane(fleet: Fleet) {
    forall id <- fleet :: id != "" && Sound(fleet[id].split)
  }

  /** GH/s that one miner gives to a contract. */
  function ServedBy(s: MinerState, contract: string): int {
    ShareGHS(s.ghs, ShareOf(s.split, contract))
  }

  function Server(contract: string): MinerState -> int {
    (s: MinerState) => ServedBy(s, contract)
  }

  /** GH/s that all miners together give to a contract. */
  ghost function Measured(fleet: Fleet, contract: string): int {
    Worth(fleet, Server(contract))
  }

  function Serving(fleet: Fleet, contract: string): set<string> {
    set id | id in fleet && Has(fleet[id].split, contract)
  }

  lemma ServedByIsNonNegative(s: MinerState, contract: string)
    requires NonNegative(s.split)
    ensures ServedBy(s, contract) >= 0
    ensures !Has(s.split, contract) ==> ServedBy(s, contract) == 0
  {
    ShareWithinTotal(s.split, contract);
    ProductSign(s.ghs as real, ShareOf(s.split, contract));
    assert s.ghs as real * 0.0 == 0.0;
  }

  ghost function ServedMap(fleet: Fleet, contract: string): map<string, int> {
    map id | id in Serving(fleet, contract) :: ServedBy(fleet[id], contract)
  }

  /** Only the miners that serve a contract count for it. */
  lemma MeasuredOverServing(fleet: Fleet, contract: string)
    requires Sane(fleet)
    ensures Measured(fleet, contract) == Sum(ServedMap(fleet, contract))
  {
    var all := WorthMap(fleet, Server(contract));
    forall id | id in fleet && id !in Serving(fleet, contract) ensures all[id] == 0 {
      ServedByIsNonNegative(fleet[id], contract);
    }
    SumSupport(all, ServedMap(fleet, contract));
  }

  /** A list of exactly the miners that serve the contract adds up to what is measured. */
  lemma MeasuredAlong(fleet: Fleet, contract: string, order: seq<string>)
    requires Sane(fleet) && Lists(fleet, order)
    requires Serving(fleet, contract) == set id <- order
    ensures WorthFrom(fleet, order, 0, Server(contract)) == Measured(fleet, contract)
  {
    WorthFromIsSum(fleet, order, 0, Server(contract));
    MeasuredOverServing(fleet, contract);
    assert order[0..] == order;
    SumAlongAll(ServedMap(fleet, contract), order);
    SumAlongSame(WorthMap(fleet, Server(contract)), ServedMap(fleet, contract), order);
  }

  // ---- removing hashrate from a contract

  /** What is left of a share (nothing, or a new size) and how many GH/s the scheduler counts as removed. */
  datatype Cut = Cut(share: Option<real>, counted: int)

  function CutOf(s: MinerState, contract: string, remaining: int, w: Window): Cut {
    var served := ServedBy(s, contract);
    if remaining >= served then Cut(None, served)
    else
      var share := ShareOf(s.split, contract) - remaining as real / s.ghs as real;
      if share < w.min then Cut(None, served)
      else if share > w.max then Cut(Some(0.5), ShareGHS(s.ghs, 0.5))
      else Cut(Some(share), remaining)
  }

  function AfterCut(s: MinerState, contract: string, cut: Cut): MinerState {
    s.(split := match cut.share
                case None => Without(s.split, contract)
                case Some(share) => WithShare(s.split, contract, share))
  }

  /** The visit of one miner when hashrate is removed: it is reported unless its share was simply taken away. */
  function Cutter(contract: string, w: Window): (MinerState, int) -> Visit<MinerState> {
    (s: MinerState, remaining: int) =>
      var cut := CutOf(s, contract, remaining, w);
      Visit(AfterCut(s, contract, cut), remaining - cut.counted, remaining < ServedBy(s, contract))
  }

  lemma BelowHalf(total: int, x: real)
    requires 0.0 <= x < total as real / 2.0
    ensures 2 * Truncate(x) < total
  {
    assert 2.0 * Truncate(x) as real < total as real;
  }

  lemma HalfOfTotal(ghs: pos)
    ensures ShareGHS(ghs, 0.5) == ghs / 2
  {
    assert ghs as real * 0.5 == ghs as real / 2.0;
  }

  lemma BelowHalfShare(ghs: pos, f: real)
    requires 0.0 <= f < 0.5
    ensures 2 * ShareGHS(ghs, f) < ghs
  {
    ProductSign(ghs as real, f);
    StrictProductOrder(ghs as real, f, 0.5);
    assert ghs as real * 0.5 == ghs as real / 2.0;
    BelowHalf(ghs, ghs as real * f);
  }

  lemma AboveHalfShare(ghs: pos, f: real)
    requires 0.5 <= f
    ensures ShareGHS(ghs, f) >= ghs / 2
  {
    ShareOrder(ghs, 0.5, f);
    HalfOfTotal(ghs);
  }

  lemma WholeShare(ghs: pos, f: real)
    requires 0.0 <= f <= 1.0
    ensures ShareGHS(ghs, f) <= ghs == ShareGHS(ghs, 1.0)
  {
    ShareOrder(ghs, f, 1.0);
    assert ghs as real * 1.0 == ghs as real;
  }

  /** Taking part of a share loses nothing to rounding and leaves a positive, smaller share. */
  lemma PartialCut(ghs: pos, f: real, part: int)
    requires 0.0 <= f <= 1.0 && 0 < part < ShareGHS(ghs, f)
    ensures var rest := f - part as real / ghs as real;
            ShareGHS(ghs, rest) == ShareGHS(ghs, f) - part && 0.0 < rest < f
  {
    var g, rest := ghs as real, f - part as real / ghs as real;
    TakeFromShare(ghs, f, part);
    assert part as real / g > 0.0;
    if rest <= 0.0 { ProductSign(g, rest); }
  }

  lemma ShareOrder(ghs: pos, f: real, g: real)
    requires 0.0 <= f <= g
    ensures ShareGHS(ghs, f) <= ShareGHS(ghs, g)
  {
    ProductOrder(ghs as real, f, g);
    ProductSign(ghs as real, f);
  }

  /** What removing hashrate expects of a miner that serves the contract. */
  ghost predicate Ready(s: MinerState, contract: string) {
    Sound(s.split) && Has(s.split, contract)
  }

  /** The contract is gone from the miner, or keeps a smaller share inside the window. Nothing else has changed. */
  ghost predicate Removed(before: MinerState, after: MinerState, contract: string) {
    after == before.(split := Without(before.split, contract))
  }

  ghost predicate Resized(before: MinerState, after: MinerState, contract: string, w: Window) {
    exists share :: w.Contains(share) && share < ShareOf(before.split, contract)
                    && after == before.(split := WithShare(before.split, contract, share))
  }

  /** One cut removes the share, or leaves a smaller one inside the window. */
  lemma CutShape(s: MinerState, contract: string, remaining: int, w: Window)
    requires w.Valid() && Ready(s, contract) && remaining > 0
    ensures var after := AfterCut(s, contract, CutOf(s, contract, remaining, w));
            Sound(after.split)
            && (Removed(s, after, contract) || (remaining < ServedBy(s, contract) && Resized(s, after, contract, w)))
  {
    var cut, f := CutOf(s, contract, remaining, w), ShareOf(s.split, contract);
    ShareWithinTotal(s.split, contract);
    match cut.share
    case None =>
      WithoutIsSound(s.split, contract);
    case Some(share) =>
      PartialCut(s.ghs, f, remaining);
      WithShareIsSound(s.split, contract, share);
      assert w.Contains(share) && share < f;
  }

  lemma CutServes(s: MinerState, contract: string, cut: Cut)
    requires Ready(s, contract)
    ensures ServedBy(AfterCut(s, contract, cut), contract) ==
            match cut.share { case None => 0 case Some(share) => ShareGHS(s.ghs, share) }
  {
    match cut.share
    case None =>
      WithoutIsSound(s.split, contract);
      WithoutUnique(s.split, contract);
      ServedByIsNonNegative(AfterCut(s, contract, cut), contract);
    case Some(share) =>
      WithShareFrame(s.split, contract, share, contract);
  }

  /** The arithmetic of a cut that leaves part of the share in place. */
  lemma CutArithmetic(ghs: pos, f: real, remaining: int, w: Window)
    requires w.Valid() && 0.0 <= f <= 1.0 && 0 < remaining < ShareGHS(ghs, f)
    ensures var served, share := ShareGHS(ghs, f), f - remaining as real / ghs as real;
            && (share < w.min ==> 2 * (served - remaining) < ghs)
            && (share > w.max ==> remaining <= ghs / 2 <= served - remaining && 2 * (served - remaining - ghs / 2) < ghs)
            && ShareGHS(ghs, share) == served - remaining
  {
    var share := f - remaining as real / ghs as real;
    PartialCut(ghs, f, remaining);
    WholeShare(ghs, f);
    if share < w.min {
      BelowHalfShare(ghs, share);
    } else if share > w.max {
      AboveHalfShare(ghs, share);
      QuotientOrder(remaining as real, ghs as real, 0.5);
      assert ghs as real * 0.5 == ghs as real / 2.0;
    }
  }

  /**
   * What a miner keeps of a contract from which l GH/s are to be taken: nothing if it provides no more than that, or
   * would keep a share below the window; half the miner if it would keep one above the window; otherwise exactly what
   * is left. The share goes where it went.
   */
  ghost predicate Keeps(before: MinerState, after: MinerState, contract: string, l: int, w: Window) {
    var rest := ShareOf(before.split, contract) - l as real / before.ghs as real;
    && (Has(after.split, contract) <==> l < ServedBy(before, contract) && w.min <= rest)
    && (Has(after.split, contract) ==>
          && ShareOf(after.split, contract) == (if rest > w.max then 0.5 else rest)
          && DestOf(after.split, contract) == DestOf(before.split, contract))
  }

  /** GH/s that are taken too much: none if what is left fits the window. */
  ghost function TakenTooMuch(s: MinerState, contract: string, l: int, w: Window): int {
    var served, rest := ServedBy(s, contract), ShareOf(s.split, contract) - l as real / s.ghs as real;
    if l >= served || w.Contains(rest) then 0
    else if rest < w.min then served - l
    else served - l - s.ghs / 2
  }

  /** So it is after one cut, which takes too much by less than half the miner. */
  lemma CutKeeps(s: MinerState, contract: string, remaining: int, w: Window)
    requires w.Valid() && Ready(s, contract) && remaining > 0
    ensures var after := Cutter(contract, w)(s, remaining).state;
            && Keeps(s, after, contract, remaining, w)
            && (remaining <= ServedBy(s, contract) ==>
                  ServedBy(after, contract) == ServedBy(s, contract) - remaining - TakenTooMuch(s, contract, remaining, w))
    ensures 0 <= 2 * TakenTooMuch(s, contract, remaining, w) < s.ghs
  {
    ShareWithinTotal(s.split, contract);
    CutServes(s, contract, CutOf(s, contract, remaining, w));
    HalfOfTotal(s.ghs);
    if remaining < ServedBy(s, contract) {
      CutArithmetic(s.ghs, ShareOf(s.split, contract), remaining, w);
    }
    match CutOf(s, contract, remaining, w).share
    case None => WithoutUnique(s.split, contract);
    case Some(share) => WithShareFrame(s.split, contract, share, contract);
  }

  /** One cut takes a whole share, or ends at the target or below it by less than half a miner. */
  lemma CutReduces(s: MinerState, contract: string, remaining: int, w: Window)
    requires w.Valid() && Ready(s, contract) && remaining > 0
    ensures Reduces(s, remaining, Cutter(contract, w), Server(contract), RATING)
  {
    ShareWithinTotal(s.split, contract);
    CutServes(s, contract, CutOf(s, contract, remaining, w));
    HalfOfTotal(s.ghs);
    if remaining < ServedBy(s, contract) {
      CutArithmetic(s.ghs, ShareOf(s.split, contract), remaining, w);
    }
  }

  const RATING: MinerState -> int := (s: MinerState) => s.ghs

  /** Hashrate is removed from miners that all serve the contract, each listed once. */
  ghost predicate Trimmable(fleet: Fleet, contract: string, order: seq<string>, w: Window) {
    w.Valid() && Sane(fleet) && Lists(fleet, order)
    && forall j :: 0 <= j < |order| ==> Has(fleet[order[j]].split, contract)
  }

  ghost function Trim(fleet: Fleet, contract: string, order: seq<string>, remaining: int, w: Window): Walked<MinerState>
    requires Lists(fleet, order)
  {
    Walk(fleet, order, 0, remaining, Cutter(contract, w))
  }

  /** The miner visited last keeps what l GH/s leave of its share, and the contract measures less only by what that is too much. */
  ghost predicate EndsAt(before: Fleet, after: Fleet, contract: string, last: string, l: int, target: int, w: Window)
    requires last in before && last in after
  {
    && 0 < l <= ServedBy(before[last], contract) && Keeps(before[last], after[last], contract, l, w)
    && Measured(after, contract) == target - TakenTooMuch(before[last], contract, l, w)
    && 0 <= 2 * TakenTooMuch(before[last], contract, l, w) < before[last].ghs
  }

  lemma LastCut(before: Fleet, after: Fleet, contract: string, last: string, l: int, amount: int, w: Window)
    requires last in before && last in after && w.Valid() && Ready(before[last], contract)
    requires LastVisit(before, after, last, Cutter(contract, w), Server(contract), amount, l)
    ensures EndsAt(before, after, contract, last, l, Measured(before, contract) - amount, w)
  {
    CutKeeps(before[last], contract, l, w);
  }

  /**
   * The contract measures the target, or less by what was taken too much from the miner at place k - 1. That one was
   * to give what it and the miners after it provide above the target.
   */
  ghost predicate Reaches(before: Fleet, after: Fleet, contract: string, order: seq<string>, k: nat, target: int, w: Window)
    requires Lists(before, order)
  {
    && k <= |order| && after.Keys == before.Keys
    && if k == 0 then Measured(after, contract) == target == Measured(before, contract)
       else
         EndsAt(before, after, contract, order[k - 1], WorthFrom(before, order, k - 1, Server(contract)) - target, target, w)
  }

  /**
   * Removal takes the contract's measured hashrate down to the target, or below it by less than half of the miner
   * visited last, and that only if this miner would have kept a share outside the window.
   */
  lemma TrimMeetsTarget(fleet: Fleet, contract: string, order: seq<string>, remaining: int, w: Window,
                        t: Walked<MinerState>, target: int)
    requires Trimmable(fleet, contract, order, w)
    requires Serving(fleet, contract) == set id <- order
    requires 0 <= remaining <= Measured(fleet, contract) == target + remaining
    requires Same(t, Trim(fleet, contract, order, remaining, w))
    ensures Reaches(fleet, t.fleet, contract, order, t.end, target, w)
  {
    forall j, l | 0 <= j < |order| && l > 0
      ensures Reduces(fleet[order[j]], l, Cutter(contract, w), Server(contract), RATING)
    {
      CutReduces(fleet[order[j]], contract, l, w);
    }
    MeasuredAlong(fleet, contract, order);
    var l := WalkReduces(fleet, order, 0, remaining, Cutter(contract, w), Server(contract), RATING, target);
    if t.end > 0 { LastCut(fleet, t.fleet, contract, order[t.end - 1], l, remaining, w); }
  }

  /**
   * The contract was taken away from the first miners in order, and at most one more was changed. That one is
   * the last of the first k, and lost the contract or kept a smaller share inside the window. No other
   * miner has changed, and no other share of these.
   */
  ghost predicate Lowered(before: Fleet, after: Fleet, contract: string, order: seq<string>, k: nat, w: Window)
    requires Lists(before, order)
  {
    && k <= |order| && after.Keys == before.Keys
    && (forall id <- before :: id !in order[..k] ==> after[id] == before[id])
    && (forall j :: 0 <= j < k - 1 ==> Removed(before[order[j]], after[order[j]], contract))
    && (k > 0 ==> Removed(before[order[k - 1]], after[order[k - 1]], contract)
                  || Resized(before[order[k - 1]], after[order[k - 1]], contract, w))
  }

  /** Removal has just that effect on the miners it visits. */
  lemma TrimShape(fleet: Fleet, contract: string, order: seq<string>, remaining: int, w: Window)
    requires Trimmable(fleet, contract, order, w)
    ensures var t := Trim(fleet, contract, order, remaining, w);
            Sane(t.fleet) && Lowered(fleet, t.fleet, contract, order, t.end, w)
  {
    var t, visit := Trim(fleet, contract, order, remaining, w), Cutter(contract, w);
    var touched := (a: MinerState, b: MinerState) =>
      Sound(b.split) && (Removed(a, b, contract) || Resized(a, b, contract, w));
    var passed := (a: MinerState, b: MinerState) => Removed(a, b, contract);
    forall j, l | 0 <= j < |order| && l > 0
      ensures touched(fleet[order[j]], visit(fleet[order[j]], l).state)
      ensures Passes(fleet[order[j]], l, visit, passed, _ => true)
    {
      CutShape(fleet[order[j]], contract, l, w);
      CutReduces(fleet[order[j]], contract, l, w);
    }
    WalkFrame(fleet, order, 0, remaining, visit, touched);
    WalkPrefix(fleet, order, 0, remaining, visit, passed, _ => true);
    assert order[0..t.end] == order[..t.end];
    forall id | id in fleet ensures id != "" && Sound(t.fleet[id].split) {
      if id in order[..t.end] {
        var j :| 0 <= j < t.end && order[j] == id;
        assert touched(fleet[order[j]], t.fleet[order[j]]);
      }
    }
    if t.end > 0 { assert touched(fleet[order[t.end - 1]], t.fleet[order[t.end - 1]]); }
    forall j | 0 <= j < t.end - 1 ensures Removed(fleet[order[j]], t.fleet[order[j]], contract) {
      assert passed(fleet[order[j]], t.fleet[order[j]]);
    }
  }

  lemma ReducedIsSound(before: MinerState, after: MinerState, contract: string, w: Window)
    requires w.Valid() && Ready(before, contract)
    requires Removed(before, after, contract) || Resized(before, after, contract, w)
    ensures Sound(after.split) && after.ghs == before.ghs
    ensures ShareOf(after.split, contract) < ShareOf(before.split, contract) || ShareOf(before.split, contract) == 0.0
  {
    ShareWithinTotal(before.split, contract);
    if Removed(before, after, contract) {
      WithoutIsSound(before.split, contract);
      WithoutUnique(before.split, contract);
    } else {
      var share :| w.Contains(share) && share < ShareOf(before.split, contract)
                   && after == before.(split := WithShare(before.split, contract, share));
      WithShareIsSound(before.split, contract, share);
      WithShareFrame(before.split, contract, share, contract);
    }
  }

  /** Lowering a contract keeps the fleet sane, and all hashrates as they are. */
  lemma LoweredIsSane(before: Fleet, after: Fleet, contract: string, order: seq<string>, k: nat, w: Window)
    requires Trimmable(before, contract, order, w) && Lowered(before, after, contract, order, k, w)
    ensures Sane(after) && forall id <- before :: after[id].ghs == before[id].ghs
  {
    forall id | id in before ensures Sound(after[id].split) && after[id].ghs == before[id].ghs {
      if id in order[..k] {
        var j :| 0 <= j < k && order[j] == id;
        ReducedIsSound(before[order[j]], after[order[j]], contract, w);
      }
    }
  }

  /** Whichever way a miner's share of one contract changed, its other shares are as they were, and go where they went. */
  lemma OtherSharesUnchanged(before: MinerState, after: MinerState, contract: string, w: Window, other: string)
    requires Removed(before, after, contract) || Resized(before, after, contract, w)
    requires other != contract
    ensures SameShare(after.split, before.split, other)
  {
    if Removed(before, after, contract) {
      WithoutFrame(before.split, contract, other);
    } else {
      var share :| w.Contains(share) && after == before.(split := WithShare(before.split, contract, share));
      WithShareFrame(before.split, contract, share, other);
    }
  }

  lemma ServingAfterCut(before: MinerState, after: MinerState, contract: string, w: Window)
    requires Ready(before, contract)
    ensures Removed(before, after, contract) ==> !Has(after.split, contract)
    ensures Resized(before, after, contract, w) ==> Has(after.split, contract)
  {
    WithoutUnique(before.split, contract);
    if Resized(before, after, contract, w) {
      var share :| w.Contains(share) && after == before.(split := WithShare(before.split, contract, share));
      WithShareFrame(before.split, contract, share, contract);
    }
  }

  /** Every visited miner that still serves the contract is reported, and only visited miners are. */
  lemma ReportedAmongVisited(fleet: Fleet, contract: string, order: seq<string>, remaining: int, w: Window)
    requires Trimmable(fleet, contract, order, w)
    ensures var t := Trim(fleet, contract, order, remaining, w);
            t.fleet.Keys == fleet.Keys
            && (forall id <- t.listed :: id in order[..t.end])
            && (forall j :: 0 <= j < t.end && Has(t.fleet[order[j]].split, contract) ==> order[j] in t.listed)
  {
    var t, visit := Trim(fleet, contract, order, remaining, w), Cutter(contract, w);
    var passed := (a: MinerState, b: MinerState) => Removed(a, b, contract);
    forall j, l | 0 <= j < |order| && l > 0 && !visit(fleet[order[j]], l).listed
      ensures passed(fleet[order[j]], visit(fleet[order[j]], l).state)
    {
      CutShape(fleet[order[j]], contract, l, w);
    }
    WalkListed(fleet, order, 0, remaining, visit, passed);
    assert order[0..t.end] == order[..t.end];
    forall j | 0 <= j < t.end && order[j] !in t.listed ensures !Has(t.fleet[order[j]].split, contract) {
      assert passed(fleet[order[j]], t.fleet[order[j]]);
      ServingAfterCut(fleet[order[j]], t.fleet[order[j]], contract, w);
    }
  }

  /** The removal reaches the last miner exactly when the amount exceeds what all the others provide. */
  lemma TrimReachesEnd(fleet: Fleet, contract: string, order: seq<string>, remaining: int, w: Window)
    requires Trimmable(fleet, contract, order, w) && order != []
    requires Serving(fleet, contract) == set id <- order
    ensures Trim(fleet, contract, order, remaining, w).end == |order|
            <==> remaining > Measured(fleet, contract) - ServedBy(fleet[order[|order| - 1]], contract)
  {
    var visit := Cutter(contract, w);
    MeasuredAlong(fleet, contract, order);
    forall j, l | 0 <= j < |order| && l > 0
      ensures Reduces(fleet[order[j]], l, visit, Server(contract), RATING)
    {
      CutReduces(fleet[order[j]], contract, l, w);
    }
    forall j | 0 <= j < |order| ensures Server(contract)(fleet[order[j]]) >= 0 {
      ServedByIsNonNegative(fleet[order[j]], contract);
    }
    WalkReachesEnd(fleet, order, 0, remaining, visit, Server(contract), RATING);
  }

  ghost function Reported(t: Walked<MinerState>): set<string> {
    set id <- t.listed
  }

  lemma LastIsMissed(fleet: Fleet, contract: string, order: seq<string>, remaining: int, w: Window)
    requires Trimmable(fleet, contract, order, w) && order != []
    requires Trim(fleet, contract, order, remaining, w).end < |order|
    ensures var t, last := Trim(fleet, contract, order, remaining, w), order[|order| - 1];
            last in Serving(t.fleet, contract) && last !in Reported(t)
  {
    var t, last := Trim(fleet, contract, order, remaining, w), order[|order| - 1];
    ReportedAmongVisited(fleet, contract, order, remaining, w);
    TrimShape(fleet, contract, order, remaining, w);
    assert last !in order[..t.end];
  }

  lemma ServingIsReported(fleet: Fleet, contract: string, order: seq<string>, remaining: int, w: Window, id: string)
    requires Trimmable(fleet, contract, order, w)
    requires id in fleet && (Has(fleet[id].split, contract) ==> id in order)
    requires var t := Trim(fleet, contract, order, remaining, w);
             t.end == |order| && id in t.fleet && Has(t.fleet[id].split, contract)
    ensures id in Trim(fleet, contract, order, remaining, w).listed
  {
    var t := Trim(fleet, contract, order, remaining, w);
    ReportedAmongVisited(fleet, contract, order, remaining, w);
    TrimShape(fleet, contract, order, remaining, w);
    assert order[..t.end] == order;
    assert id in order;
    var j :| 0 <= j < |order| && order[j] == id;
  }

  /**
   * The miners reported after a removal include every miner still serving the contract if and only if more
   * was to be removed than all miners but the last in order provide.
   */
  lemma ReportedCoversServing(fleet: Fleet, contract: string, order: seq<string>, remaining: int, w: Window)
    requires Trimmable(fleet, contract, order, w) && order != []
    requires Serving(fleet, contract) == set id <- order
    ensures var t := Trim(fleet, contract, order, remaining, w);
            Serving(t.fleet, contract) <= Reported(t)
            <==> remaining > Measured(fleet, contract) - ServedBy(fleet[order[|order| - 1]], contract)
  {
    var t := Trim(fleet, contract, order, remaining, w);
    TrimReachesEnd(fleet, contract, order, remaining, w);
    if t.end < |order| {
      LastIsMissed(fleet, contract, order, remaining, w);
    } else {
      TrimShape(fleet, contract, order, remaining, w);
      forall id | id in Serving(t.fleet, contract) ensures id in t.listed {
        assert id in Serving(fleet, contract) ==> id in order;
        ServingIsReported(fleet, contract, order, remaining, w, id);
      }
    }
  }

  // ---- adding hashrate from miners that already serve the contract

  datatype Gain = NoGain | Gain(add: real, counted: int)

  function Min(a: int, b: int): int {
    if a < b then a else b
  }

  /**
   * How much a share f of a miner of ghs GH/s grows when toAllocate GH/s are wanted of it, and how many the
   * scheduler counts as added.
   */
  function GainFor(ghs: pos, f: real, toAllocate: int, w: Window): Gain {
    if toAllocate == 0 then NoGain
    else
      var add := toAllocate as real / ghs as real;
      if f + add < w.min then NoGain
      else if f + add > w.max && f + add < 1.0 then Gain(w.max - f, ShareGHS(ghs, w.max - f))
      else Gain(add, ShareGHS(ghs, add))
  }

  function Wanted(s: MinerState, remaining: int): int {
    Min(remaining, ShareGHS(s.ghs, 1.0 - TotalShare(s.split)))
  }

  function GainOf(s: MinerState, contract: string, remaining: int, w: Window): Gain {
    GainFor(s.ghs, ShareOf(s.split, contract), Wanted(s, remaining), w)
  }

  function AfterGain(s: MinerState, contract: string, g: Gain): MinerState {
    match g
    case NoGain => s
    case Gain(add, _) => s.(split := WithShare(s.split, contract, ShareOf(s.split, contract) + add))
  }

  function Grower(contract: string, w: Window): (MinerState, int) -> Visit<MinerState> {
    (s: MinerState, remaining: int) =>
      var g := GainOf(s, contract, remaining, w);
      Visit(AfterGain(s, contract, g), if g.NoGain? then remaining else remaining - g.counted, false)
  }

  ghost function Grow(fleet: Fleet, contract: string, order: seq<string>, add: int, w: Window): Walked<MinerState>
    requires Lists(fleet, order)
  {
    Walk(fleet, order, 0, add, Grower(contract, w))
  }

  /** Moving a share to another size changes its GH/s by the truncated difference, give or take one. */
  lemma MoveShare(ghs: pos, f: real, g: real)
    requires 0.0 <= f && 0.0 <= g
    ensures -1 <= ShareGHS(ghs, g) - ShareGHS(ghs, f) - ShareGHS(ghs, g - f) <= 1
  {
    var t := ghs as real;
    ProductSign(t, f);
    ProductSign(t, g);
    assert t * (g - f) == t * g - t * f;
  }

  /** The fraction that stands for toAllocate GH/s fits into the spare part, and stands for exactly that. */
  lemma RoomToGrow(ghs: pos, spare: real, toAllocate: int)
    requires 0.0 <= spare && 0 < toAllocate <= ShareGHS(ghs, spare)
    ensures 0.0 < toAllocate as real / ghs as real <= spare
    ensures ShareGHS(ghs, toAllocate as real / ghs as real) == toAllocate
  {
    var g, r := ghs as real, toAllocate as real;
    ProductSign(g, spare);
    QuotientOrder(r, g, spare);
    QuotientOrder(r, g, 0.0);
    assert g * (r / g) == r;
  }

  /** What a gain amounts to: the counted GH/s are at most those wanted, and correct to within one. */
  lemma GainForBounds(ghs: pos, f: real, spare: real, toAllocate: int, w: Window)
    requires w.Valid() && 0.0 <= f && 0.0 <= spare && f + spare <= 1.0
    requires 0 <= toAllocate <= ShareGHS(ghs, spare)
    ensures var g := GainFor(ghs, f, toAllocate, w);
            g.Gain? ==>
              && (w.Contains(f + g.add) || f + g.add == 1.0) && g.add <= spare
              && g.counted <= toAllocate
              && -1 <= ShareGHS(ghs, f + g.add) - ShareGHS(ghs, f) - g.counted <= 1
    ensures toAllocate > 0 ==> 0.0 < toAllocate as real / ghs as real <= spare
  {
    if toAllocate > 0 {
      var add := toAllocate as real / ghs as real;
      RoomToGrow(ghs, spare, toAllocate);
      if w.max < f + add < 1.0 {
        MoveShare(ghs, f, w.max);
        SignedOrder(ghs, w.max - f, add);
      } else {
        AddToShare(ghs, f, toAllocate);
      }
    }
  }

  lemma SignedOrder(ghs: pos, f: real, g: real)
    requires f <= g && g > 0.0
    ensures ShareGHS(ghs, f) <= ShareGHS(ghs, g)
  {
    ProductOrder(ghs as real, f, g);
    ProductSign(ghs as real, f);
    ProductSign(ghs as real, g);
  }

  lemma WantedFits(s: MinerState, contract: string, remaining: int)
    requires Ready(s, contract) && remaining > 0
    ensures var f, spare := ShareOf(s.split, contract), 1.0 - TotalShare(s.split);
            0.0 <= f && 0.0 <= spare && f + spare <= 1.0
            && 0 <= Wanted(s, remaining) <= ShareGHS(s.ghs, spare) && Wanted(s, remaining) <= remaining
  {
    ShareWithinTotal(s.split, contract);
    ProductSign(s.ghs as real, 1.0 - TotalShare(s.split));
  }

  ghost predicate Grown(before: MinerState, after: MinerState, contract: string, w: Window) {
    exists share :: (w.Contains(share) || share == 1.0)
                    && after == before.(split := WithShare(before.split, contract, share))
  }

  lemma GrownShare(s: MinerState, contract: string, share: real, w: Window)
    requires Ready(s, contract) && (w.Contains(share) || share == 1.0)
    requires 0.0 <= share <= ShareOf(s.split, contract) + 1.0 - TotalShare(s.split)
    ensures var after := s.(split := WithShare(s.split, contract, share));
            Sound(after.split) && Grown(s, after, contract, w) && ShareOf(after.split, contract) == share
  {
    WithShareIsSound(s.split, contract, share);
    WithShareFrame(s.split, contract, share, contract);
  }

  /** The share after a gain: inside the window, or the whole miner. */
  lemma GainShape(s: MinerState, contract: string, remaining: int, w: Window)
    requires w.Valid() && Ready(s, contract) && remaining > 0
    ensures var g := GainOf(s, contract, remaining, w);
            var after := AfterGain(s, contract, g);
            Sound(after.split) && (after == s || Grown(s, after, contract, w))
            && (g.Gain? ==> ShareOf(after.split, contract) == ShareOf(s.split, contract) + g.add)
  {
    var f, g := ShareOf(s.split, contract), GainOf(s, contract, remaining, w);
    WantedFits(s, contract, remaining);
    GainForBounds(s.ghs, f, 1.0 - TotalShare(s.split), Wanted(s, remaining), w);
    if g.Gain? { GrownShare(s, contract, f + g.add, w); }
  }

  /**
   * How a share of a miner grows when l GH/s are to be added, as far as the miner has them to spare: not at all if it
   * would stay below the window; to the window's upper end if it would get above it without filling the miner; otherwise
   * by exactly what is added. The share goes where it went.
   */
  ghost predicate Gains(before: MinerState, after: MinerState, contract: string, l: int, left: int, w: Window) {
    var f, spare := ShareOf(before.split, contract), ShareGHS(before.ghs, 1.0 - TotalShare(before.split));
    var added := if l < spare then l else spare;
    var grown := f + added as real / before.ghs as real;
    && Has(after.split, contract) && DestOf(after.split, contract) == DestOf(before.split, contract)
    && if added == 0 || grown < w.min then left == l && after == before
       else if w.max < grown < 1.0
       then left == l - ShareGHS(before.ghs, w.max - f) && ShareOf(after.split, contract) == w.max
       else left == l - added && ShareOf(after.split, contract) == grown
  }

  lemma GainGives(s: MinerState, contract: string, remaining: int, w: Window)
    requires w.Valid() && Ready(s, contract) && remaining > 0
    ensures var v := Grower(contract, w)(s, remaining); Gains(s, v.state, contract, remaining, v.left, w)
  {
    var f, g := ShareOf(s.split, contract), GainOf(s, contract, remaining, w);
    WantedFits(s, contract, remaining);
    if g.Gain? {
      WithShareFrame(s.split, contract, f + g.add, contract);
      RoomToGrow(s.ghs, 1.0 - TotalShare(s.split), Wanted(s, remaining));
    }
  }

  /** A gain uses up of the amount what the miner gains, give or take one, and never more than there is. */
  lemma GainAdds(s: MinerState, contract: string, remaining: int, w: Window)
    requires w.Valid() && Ready(s, contract) && remaining > 0
    ensures Adds(s, remaining, Grower(contract, w), Server(contract))
  {
    GainShape(s, contract, remaining, w);
    WantedFits(s, contract, remaining);
    GainForBounds(s.ghs, ShareOf(s.split, contract), 1.0 - TotalShare(s.split), Wanted(s, remaining), w);
  }

  /**
   * Whatever the order, growing keeps every miner within its capacity and every changed share inside the
   * window or at the whole miner. What remains is never negative, and what was counted as added is what the
   * contract gained, give or take one GH/s per miner visited.
   */
  lemma GrowKeeps(fleet: Fleet, contract: string, order: seq<string>, add: int, w: Window)
    requires Trimmable(fleet, contract, order, w) && add >= 0
    ensures var t := Grow(fleet, contract, order, add, w);
            && t.fleet.Keys == fleet.Keys && Sane(t.fleet)
            && (forall id <- fleet :: t.fleet[id] == fleet[id] || (id in order && Grown(fleet[id], t.fleet[id], contract, w)))
            && t.left >= 0
            && -|order| <= Measured(t.fleet, contract) - Measured(fleet, contract) - (add - t.left) <= |order|
  {
    var t, visit := Grow(fleet, contract, order, add, w), Grower(contract, w);
    var touched := (a: MinerState, b: MinerState) => Sound(b.split) && (a == b || Grown(a, b, contract, w));
    forall j, l | 0 <= j < |order| && l > 0
      ensures touched(fleet[order[j]], visit(fleet[order[j]], l).state)
      ensures Adds(fleet[order[j]], l, visit, Server(contract))
    {
      GainShape(fleet[order[j]], contract, l, w);
      GainAdds(fleet[order[j]], contract, l, w);
    }
    WalkFrame(fleet, order, 0, add, visit, touched);
    WalkAdds(fleet, order, 0, add, visit, Server(contract));
    assert order[0..t.end] == order[..t.end];
    forall id | id in fleet
      ensures id != "" && Sound(t.fleet[id].split)
      ensures t.fleet[id] == fleet[id] || (id in order && Grown(fleet[id], t.fleet[id], contract, w))
    {
      if id in order[..t.end] {
        var j :| 0 <= j < t.end && order[j] == id;
        assert touched(fleet[order[j]], t.fleet[order[j]]);
      }
    }
  }

  /**
   * Growing can make a share smaller. It does so exactly when the share was above the window and there
   * was something to add that would not fill the miner.
   */
  lemma GrowingShrinks(s: MinerState, contract: string, remaining: int, w: Window)
    requires w.Valid() && Ready(s, contract) && remaining > 0
    ensures var f, after := ShareOf(s.split, contract), AfterGain(s, contract, GainOf(s, contract, remaining, w));
            ShareOf(after.split, contract) < f
            <==> (Wanted(s, remaining) > 0 && f > w.max && f + Wanted(s, remaining) as real / s.ghs as real < 1.0)
  {
    GainShape(s, contract, remaining, w);
    WantedFits(s, contract, remaining);
    GainForBounds(s.ghs, ShareOf(s.split, contract), 1.0 - TotalShare(s.split), Wanted(s, remaining), w);
  }

  /**
   * Such a miner: nine tenths of 100 GH/s, to which 5 GH/s are to be added, become three quarters, and 20 GH/s
   * remain to be added.
   */
  lemma GrowingCanShrink(dest: string)
    ensures var s, w := MinerState(100, [Split("c", 0.9, dest)]), Window(0.25, 0.75);
            var v := Grower("c", w)(s, 5);
            w.Valid() && Ready(s, "c") && v.left == 20 && v.state == MinerState(100, [Split("c", 0.75, dest)])
  {
    var split, w := [Split("c", 0.9, dest)], Window(0.25, 0.75);
    var s := MinerState(100, split);
    assert split[1..] == [];
    assert TotalShare(split) == 0.9 && ShareOf(split, "c") == 0.9;
    assert (10.0).Floor == 10 && (15.0).Floor == 15;
    assert ShareGHS(100, 0.1) == 10;
    assert ShareGHS(100, -0.15) == -15;
    assert GainOf(s, "c", 5, w) == Gain(-0.15, -15);
    assert WithShare(split, "c", 0.75) == [Split("c", 0.75, dest)];
  }
}
