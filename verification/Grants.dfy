/** Giving a contract shares of chosen miners, and taking them back. */
module Grants {
  import opened Wrappers
  import opened Arithmetic
  import opened Sums
  import opened Splits
  import opened Walks
  import opened Fleets

  /** A miner after it was asked for a share; if the share does not fit, nothing changes. */
  function GrantOne(s: MinerState, contract: string, share: real, dest: string): MinerState {
    var g := Granted(s.split, contract, Adjusted(share), dest);
    if g.Ok? then s.(split := g.value) else s
  }

  function Grant(fleet: Fleet, contract: string, chosen: map<string, real>, dest: string): Fleet {
    map id | id in fleet :: if id in chosen then GrantOne(fleet[id], contract, chosen[id], dest) else fleet[id]
  }

  /** A share that the scheduler may choose: all that the miner has to spare, or part of an idle miner. */
  ghost predicate Offered(s: MinerState, share: real) {
    share == 1.0 - TotalShare(s.split) || (TotalShare(s.split) == 0.0 && 0.0 < share <= 1.0)
  }

  ghost function ChosenGHS(fleet: Fleet, chosen: map<string, real>): map<string, int>
    requires chosen.Keys <= fleet.Keys
  {
    map id | id in chosen :: ShareGHS(fleet[id].ghs, chosen[id])
  }

  /** Whatever share is asked for, the miner is never given away more than once over. */
  lemma GrantKeepsCapacity(s: MinerState, contract: string, share: real, dest: string)
    requires Sound(s.split)
    ensures var after := GrantOne(s, contract, share, dest);
            TotalShare(after.split) <= 1.0 && NonNegative(after.split) && after.ghs == s.ghs
            && (!Has(s.split, contract) ==> Unique(after.split))
  {
    var g := Granted(s.split, contract, Adjusted(share), dest);
    if g.Ok? { assert g.value[1..] == s.split; }
  }

  /** An offered share is granted as asked if and only if it is between 5% and 95% or the whole miner. */
  lemma OfferIsGranted(s: MinerState, contract: string, share: real, dest: string)
    requires Sound(s.split) && Offered(s, share) && share > 0.0
    ensures GrantOne(s, contract, share, dest) == s.(split := [Split(contract, share, dest)] + s.split) <==> Exact(share)
  {
    var asked := [Split(contract, share, dest)] + s.split;
    if TotalShare(s.split) == 0.0 {
      IdleMinerGrants(s.split, contract, share, dest);
    } else {
      SpareShareIsGranted(s.split, contract, dest);
    }
    assert |asked| != |s.split|;
  }

  /** A miner with 3% to spare offers them but refuses the grant, which is rounded up to 5%. */
  lemma OfferCanBeRefused(dest: string)
    ensures var s := MinerState(100, [Split("o", 0.97, dest)]);
            && Sound(s.split) && Offered(s, 0.03) && ShareGHS(s.ghs, 0.03) == 3
            && GrantOne(s, "c", 0.03, dest) == s
  {
    var split := [Split("o", 0.97, dest)];
    assert split[1..] == [];
    assert TotalShare(split) == 0.97;
  }

  lemma GrantOneAdds(s: MinerState, contract: string, share: real, dest: string)
    requires Sound(s.split) && Offered(s, share) && share > 0.0 && Exact(share) && !Has(s.split, contract)
    ensures var after := GrantOne(s, contract, share, dest);
            && Sound(after.split) && Has(after.split, contract)
            && ServedBy(after, contract) == ServedBy(s, contract) + ShareGHS(s.ghs, share)
  {
    OfferIsGranted(s, contract, share, dest);
    GrantKeepsCapacity(s, contract, share, dest);
    ShareOfCons(Split(contract, share, dest), s.split, contract);
    ServedByIsNonNegative(s, contract);
  }

  /** What each miner of the fleet gives of the shares chosen; nothing if it is not chosen. */
  ghost function GivenGHS(fleet: Fleet, chosen: map<string, real>): map<string, int> {
    map id | id in fleet :: if id in chosen then ShareGHS(fleet[id].ghs, chosen[id]) else 0
  }

  lemma GivenIsChosen(fleet: Fleet, chosen: map<string, real>)
    requires chosen.Keys <= fleet.Keys
    ensures Sum(GivenGHS(fleet, chosen)) == Sum(ChosenGHS(fleet, chosen))
  {
    SumSupport(GivenGHS(fleet, chosen), ChosenGHS(fleet, chosen));
  }

  /**
   * Granting offered shares of exact size to a contract, from miners that do not serve it yet, gives it
   * just the hashrate that was chosen on top of what it had, and keeps every miner sound.
   */
  lemma GrantAdds(fleet: Fleet, contract: string, chosen: map<string, real>, dest: string)
    requires Sane(fleet) && chosen.Keys <= fleet.Keys
    requires forall id <- chosen :: chosen[id] > 0.0 && Offered(fleet[id], chosen[id]) && Exact(chosen[id])
    requires forall id <- chosen :: !Has(fleet[id].split, contract)
    ensures var after := Grant(fleet, contract, chosen, dest);
            && Sane(after) && Serving(after, contract) == Serving(fleet, contract) + chosen.Keys
            && Measured(after, contract) == Measured(fleet, contract) + Sum(ChosenGHS(fleet, chosen))
  {
    var after := Grant(fleet, contract, chosen, dest);
    forall id | id in fleet
      ensures Sound(after[id].split)
      ensures Has(after[id].split, contract) == (id in chosen || Has(fleet[id].split, contract))
      ensures ServedBy(after[id], contract) == ServedBy(fleet[id], contract) + GivenGHS(fleet, chosen)[id]
    {
      if id in chosen { GrantOneAdds(fleet[id], contract, chosen[id], dest); }
    }
    MeasuredWithMore(fleet, after, contract, GivenGHS(fleet, chosen));
    GivenIsChosen(fleet, chosen);
    ServingWithMore(fleet, after, contract, chosen.Keys);
  }

  lemma MeasuredWithMore(before: Fleet, after: Fleet, contract: string, given: map<string, int>)
    requires before.Keys == after.Keys == given.Keys
    requires forall id <- before :: ServedBy(after[id], contract) == ServedBy(before[id], contract) + given[id]
    ensures Measured(after, contract) == Measured(before, contract) + Sum(given)
  {
    SumAdd(WorthMap(before, Server(contract)), given, WorthMap(after, Server(contract)));
  }

  lemma ServingWithMore(before: Fleet, after: Fleet, contract: string, more: set<string>)
    requires before.Keys == after.Keys && more <= before.Keys
    requires forall id <- before :: Has(after[id].split, contract) == (id in more || Has(before[id].split, contract))
    ensures Serving(after, contract) == Serving(before, contract) + more
  {
  }

  // ---- taking shares back

  function ReleaseOne(s: MinerState, contract: string): MinerState {
    s.(split := Deallocated(s.split, contract))
  }

  /** The fleet after the contract was deallocated from the listed miners. */
  function Release(fleet: Fleet, contract: string, ids: set<string>): Fleet {
    map id | id in fleet :: if id in ids then ReleaseOne(fleet[id], contract) else fleet[id]
  }

  lemma ReleaseOneIsRemoval(s: MinerState, contract: string)
    requires Unique(s.split)
    ensures ReleaseOne(s, contract) == s.(split := Without(s.split, contract))
  {
    DeallocatedUnique(s.split, contract);
  }

  lemma ReleaseOneUndoesGrant(s: MinerState, contract: string, share: real, dest: string)
    requires Sound(s.split) && !Has(s.split, contract)
    ensures ReleaseOne(GrantOne(s, contract, share, dest), contract) == s
    ensures ReleaseOne(s, contract) == s
  {
    GrantKeepsCapacity(s, contract, share, dest);
    ReleaseOneIsRemoval(GrantOne(s, contract, share, dest), contract);
    ReleaseOneIsRemoval(s, contract);
    RemoveUndoesGrant(s.split, contract, share, dest);
  }

  /** Deallocating a contract from the miners chosen for it puts the fleet back as it was, whatever was granted. */
  lemma ReleaseUndoesGrant(fleet: Fleet, contract: string, chosen: map<string, real>, dest: string, ids: set<string>)
    requires Sane(fleet) && Serving(fleet, contract) == {}
    requires chosen.Keys <= ids
    ensures Release(Grant(fleet, contract, chosen, dest), contract, ids) == fleet
  {
    var back := Release(Grant(fleet, contract, chosen, dest), contract, ids);
    forall id | id in fleet ensures back[id] == fleet[id] {
      assert !Has(fleet[id].split, contract) by { assert id !in Serving(fleet, contract); }
      ReleaseOneUndoesGrant(fleet[id], contract, if id in chosen then chosen[id] else 0.0, dest);
    }
  }

  /** A release frees exactly the listed miners. */
  lemma ReleaseServing(fleet: Fleet, contract: string, ids: set<string>)
    requires Sane(fleet)
    ensures Serving(Release(fleet, contract, ids), contract) == Serving(fleet, contract) - ids
  {
    forall id | id in fleet
      ensures id in Serving(Release(fleet, contract, ids), contract) <==> id in Serving(fleet, contract) - ids
    {
      ReleaseOneIsRemoval(fleet[id], contract);
      WithoutUnique(fleet[id].split, contract);
    }
  }

  /**
   * Stopping a contract with the miners reported by a removal frees all its miners if and only if the
   * removal took more than all its miners but the last provide.
   */
  lemma ReleaseAfterTrim(fleet: Fleet, contract: string, order: seq<string>, remaining: int, w: Window)
    requires Trimmable(fleet, contract, order, w) && order != []
    requires Serving(fleet, contract) == set id <- order
    ensures var t := Trim(fleet, contract, order, remaining, w);
            Serving(Release(t.fleet, contract, Reported(t)), contract) == {}
            <==> remaining > Measured(fleet, contract) - ServedBy(fleet[order[|order| - 1]], contract)
  {
    var t := Trim(fleet, contract, order, remaining, w);
    TrimShape(fleet, contract, order, remaining, w);
    ReportedCoversServing(fleet, contract, order, remaining, w);
    ReleaseServing(t.fleet, contract, Reported(t));
    NothingLeft(Serving(t.fleet, contract), Reported(t));
  }

  lemma HalfIsCut(s: MinerState, dest: string)
    requires s == MinerState(10, [Split("c", 0.5, dest)])
    ensures Sound(s.split) && Has(s.split, "c") && ServedBy(s, "c") == 5
    ensures Cutter("c", Window(0.25, 0.75))(s, 3) == Visit(MinerState(10, []), -2, true)
  {
    assert s.split[1..] == [];
    assert TotalShare(s.split) == 0.5;
    assert IndexOf(s.split, "c") == 0;
    assert s.split[..0] + s.split[1..] == [];
    assert (5.0).Floor == 5;
    assert ServedBy(s, "c") == 5;
    assert CutOf(s, "c", 3, Window(0.25, 0.75)) == Cut(None, 5);
  }

  /**
   * Two miners of 10 GH/s each give half to a contract, of which 3 GH/s are to be removed. The first loses its
   * share and is the only one reported; deallocating what was reported leaves the second one serving.
   */
  lemma ReportedCanMiss(dest: string)
    ensures var s, w := MinerState(10, [Split("c", 0.5, dest)]), Window(0.25, 0.75);
            var fleet: Fleet := map["a" := s, "b" := s];
            && w.Valid() && Sane(fleet) && Lists(fleet, ["a", "b"]) && Serving(fleet, "c") == {"a", "b"}
            && var t := Trim(fleet, "c", ["a", "b"], 3, w);
               t.listed == ["a"] && Serving(t.fleet, "c") == {"b"}
               && Serving(Release(t.fleet, "c", Reported(t)), "c") == {"b"}
  {
    var s, w := MinerState(10, [Split("c", 0.5, dest)]), Window(0.25, 0.75);
    var fleet: Fleet := map["a" := s, "b" := s];
    HalfIsCut(s, dest);
    FirstIsCut(fleet, w);
    var t := Trim(fleet, "c", ["a", "b"], 3, w);
    SecondStillServes(fleet, t.fleet, s);
    ReleaseServing(t.fleet, "c", Reported(t));
    assert {"b"} - Reported(t) == {"b"};
  }

  lemma SecondStillServes(before: Fleet, after: Fleet, s: MinerState)
    requires before == map["a" := s, "b" := s] && after == before["a" := MinerState(10, [])]
    requires Sound(s.split) && Has(s.split, "c")
    ensures Serving(before, "c") == {"a", "b"} && Serving(after, "c") == {"b"} && Sane(before) && Sane(after)
  {
    assert TotalShare([]) == 0.0;
  }

  lemma FirstIsCut(fleet: Fleet, w: Window)
    requires fleet.Keys == {"a", "b"} && Cutter("c", w)(fleet["a"], 3) == Visit(MinerState(10, []), -2, true)
    ensures var t := Trim(fleet, "c", ["a", "b"], 3, w);
            t.fleet == fleet["a" := MinerState(10, [])] && t.listed == ["a"]
  {
    WalkStep(fleet, ["a", "b"], 0, 3, Cutter("c", w));
    assert ["a"] + [] == ["a"];
  }

  lemma NothingLeft<T>(a: set<T>, b: set<T>)
    ensures a - b == {} <==> a <= b
  {
    if a - b == {} {
      forall x | x in a ensures x in b { assert x !in a - b; }
    }
  }

  // ---- what rounding loses

  /** GH/s of all shares of one miner. */
  function SplitGHS(ghs: pos, split: seq<Split>): int {
    if split == [] then 0 else ShareGHS(ghs, split[0].percentage) + SplitGHS(ghs, split[1..])
  }

  lemma {:induction false} SplitGHSBounds(ghs: pos, split: seq<Split>)
    requires NonNegative(split)
    ensures SplitGHS(ghs, split) as real <= ghs as real * TotalShare(split)
    ensures ghs as real * TotalShare(split) <= SplitGHS(ghs, split) as real + |split| as real
  {
    var g := ghs as real;
    if split == [] {
      assert g * 0.0 == 0.0;
    } else {
      var rest := split[1..];
      assert NonNegative(rest);
      SplitGHSBounds(ghs, rest);
      ProductSign(g, split[0].percentage);
      assert g * TotalShare(split) == g * split[0].percentage + g * TotalShare(rest);
    }
  }

  /** The shares of a miner and its spare part add up to its hashrate, less at most one GH/s per share. */
  lemma RoundingLoss(s: MinerState)
    requires Sound(s.split)
    ensures s.ghs - |s.split| <= SplitGHS(s.ghs, s.split) + ShareGHS(s.ghs, 1.0 - TotalShare(s.split)) <= s.ghs
  {
    var g, total := s.ghs as real, TotalShare(s.split);
    SplitGHSBounds(s.ghs, s.split);
    ProductSign(g, 1.0 - total);
    assert g * (1.0 - total) == g - g * total;
  }

  ghost function AccountedGHS(fleet: Fleet): map<string, int> {
    map id | id in fleet ::
      SplitGHS(fleet[id].ghs, fleet[id].split) + ShareGHS(fleet[id].ghs, 1.0 - TotalShare(fleet[id].split))
  }

  ghost function TotalGHS(fleet: Fleet): map<string, int> {
    map id | id in fleet :: fleet[id].ghs
  }

  ghost function ShareCounts(fleet: Fleet): map<string, int> {
    map id | id in fleet :: |fleet[id].split|
  }

  /** System-wide, rounding hides at most one GH/s per allocation. */
  lemma FleetRoundingLoss(fleet: Fleet)
    requires Sane(fleet)
    ensures Sum(TotalGHS(fleet)) - Sum(ShareCounts(fleet)) <= Sum(AccountedGHS(fleet)) <= Sum(TotalGHS(fleet))
  {
    var low := map id | id in fleet :: fleet[id].ghs - |fleet[id].split|;
    forall id | id in fleet ensures low[id] <= AccountedGHS(fleet)[id] <= TotalGHS(fleet)[id] {
      RoundingLoss(fleet[id]);
    }
    SumBounds(AccountedGHS(fleet), low, TotalGHS(fleet));
    SumAdd(low, ShareCounts(fleet), TotalGHS(fleet));
  }
}
