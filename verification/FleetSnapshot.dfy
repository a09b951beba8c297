/** The snapshot of a fleet: what it records, and what can be read off it. */
module FleetSnapshots {
  import opened Wrappers
  import opened Arithmetic
  import opened Sums
  import opened Splits
  import opened Fleets
  import opened Grants
  import opened AllocSnapshots
  import opened Combinations

  /** A row lists exactly the contracts that a miner serves, with their shares. */
  ghost predicate RowShows(row: AllocCollection, s: MinerState)
    reads row.items.Values
  {
    row.items.Keys == Ids(s.split)
    && forall c <- row.items :: row.items[c].fraction == ShareOf(s.split, c) && row.items[c].totalGHS == s.ghs
  }

  ghost predicate Shows(snap: AllocSnap, fleet: Fleet)
    reads snap, ItemsOf(snap.byMiner)
  {
    snap.Valid() && snap.byMiner.Keys == fleet.Keys
    && forall m <- fleet :: snap.minerHashrate[m] == fleet[m].ghs && RowShows(snap.byMiner[m], fleet[m])
  }

  lemma IdsOfSnoc(split: seq<Split>, share: Split)
    ensures Ids(split + [share]) == Ids(split) + {share.id}
  {
    assert forall i :: 0 <= i < |split| ==> (split + [share])[i] == split[i];
    assert (split + [share])[|split|] == share;
  }

  /** A row with one more item shows the miner with one more share. */
  lemma RowExtends(row: AllocCollection, ghs: pos, sofar: seq<Split>, share: Split, item: AllocItem)
    requires RowShows(row, MinerState(ghs, sofar)) && !Has(sofar, share.id)
    requires item.fraction == share.percentage && item.totalGHS == ghs
    ensures RowShows(AllocCollection(row.items[share.id := item]), MinerState(ghs, sofar + [share]))
  {
    IdsOfSnoc(sofar, share);
    forall c | c in Ids(sofar + [share])
      ensures ShareOf(sofar + [share], c) == if c == share.id then share.percentage else ShareOf(sofar, c)
    {
      ShareOfSnoc(sofar, share, c);
    }
  }

  method SetShare(snap: AllocSnap, id: string, share: Split, ghs: int, ghost row: AllocCollection) returns (item: AllocItem)
    requires snap.Valid() && id in snap.byMiner && snap.byMiner[id] == row
    modifies snap
    ensures snap.Valid() && fresh(item) && item.fraction == share.percentage && item.totalGHS == ghs
    ensures snap.byMiner == old(snap.byMiner)[id := AllocCollection(row.items[share.id := item])]
    ensures snap.minerHashrate == old(snap.minerHashrate)[id := ghs]
  {
    item := snap.Set(id, share.id, share.percentage, ghs);
  }

  /** Records one more share of a miner that the snapshot shows with some of its shares. */
  method AddShare(snap: AllocSnap, ghost fleet: Fleet, id: string, share: Split)
    requires Shows(snap, fleet) && id in fleet && !Has(fleet[id].split, share.id)
    modifies snap
    ensures Shows(snap, WithOneMore(fleet, id, share))
  {
    ghost var row := snap.byMiner[id];
    var item := SetShare(snap, id, share, snap.minerHashrate[id], row);
    RowExtends(row, fleet[id].ghs, fleet[id].split, share, item);
    ShowsExtended(snap, fleet, id, MinerState(fleet[id].ghs, fleet[id].split + [share]));
  }

  ghost function WithOneMore(fleet: Fleet, id: string, share: Split): Fleet
    requires id in fleet
  {
    fleet[id := MinerState(fleet[id].ghs, fleet[id].split + [share])]
  }

  ghost function WithFirst(fleet: Fleet, id: string, ghs: pos, split: seq<Split>, i: nat): Fleet
    requires i <= |split|
  {
    fleet[id := MinerState(ghs, split[..i])]
  }

  lemma WithNext(fleet: Fleet, id: string, ghs: pos, split: seq<Split>, i: nat)
    requires i < |split| && Unique(split)
    ensures Same(WithOneMore(WithFirst(fleet, id, ghs, split, i), id, split[i]), WithFirst(fleet, id, ghs, split, i + 1))
    ensures !Has(split[..i], split[i].id)
  {
    assert split[..i + 1] == split[..i] + [split[i]];
    var next := MinerState(ghs, split[..i + 1]);
    assert fleet[id := MinerState(ghs, split[..i])][id := next] == fleet[id := next];
  }

  lemma ShowsExtended(snap: AllocSnap, fleet: Fleet, id: string, s: MinerState)
    requires snap.Valid() && snap.byMiner.Keys == fleet.Keys && id in fleet
    requires forall m <- fleet :: m != id ==> snap.minerHashrate[m] == fleet[m].ghs && RowShows(snap.byMiner[m], fleet[m])
    requires snap.minerHashrate[id] == s.ghs && RowShows(snap.byMiner[id], s)
    ensures Shows(snap, fleet[id := s])
  {
  }

  method StartMiner(snap: AllocSnap, ghost fleet: Fleet, id: string, ghs: pos, ghost split: seq<Split>)
    requires Shows(snap, fleet) && id !in fleet
    modifies snap
    ensures Shows(snap, WithFirst(fleet, id, ghs, split, 0))
  {
    snap.SetMiner(id, ghs);
  }

  /** Records share i of a miner that the snapshot shows with the shares before it. */
  method AddNext(snap: AllocSnap, ghost fleet: Fleet, id: string, ghost ghs: pos, split: seq<Split>, i: nat, ghost shown: Fleet)
    returns (ghost next: Fleet)
    requires i < |split| && Unique(split) && Same(shown, WithFirst(fleet, id, ghs, split, i)) && Shows(snap, shown)
    modifies snap
    ensures Same(next, WithFirst(fleet, id, ghs, split, i + 1)) && Shows(snap, next)
  {
    WithNext(fleet, id, ghs, split, i);
    next := WithOneMore(shown, id, split[i]);
    AddShare(snap, shown, id, split[i]);
  }

  lemma WithAll(fleet: Fleet, id: string, ghs: pos, split: seq<Split>)
    ensures Same(WithFirst(fleet, id, ghs, split, |split|), fleet[id := MinerState(ghs, split)])
  {
    assert split[..|split|] == split;
  }

  /** Records one miner with all its shares. */
  method AddMiner(snap: AllocSnap, ghost fleet: Fleet, id: string, ghs: pos, split: seq<Split>)
    requires Shows(snap, fleet) && id !in fleet && Unique(split)
    modifies snap
    ensures Shows(snap, fleet[id := MinerState(ghs, split)])
  {
    ghost var shown := WithFirst(fleet, id, ghs, split, 0);
    StartMiner(snap, fleet, id, ghs, split);
    var i := 0;
    while i < |split|
      invariant 0 <= i <= |split|
      invariant Same(shown, WithFirst(fleet, id, ghs, split, i)) && Shows(snap, shown)
    {
      shown := AddNext(snap, fleet, id, ghs, split, i, shown);
      i := i + 1;
    }
    WithAll(fleet, id, ghs, split);
  }

  // ---- reading the snapshot

  ghost function ServingItems(fleet: Fleet, contract: string): map<string, ItemCopy> {
    map id | id in Serving(fleet, contract) :: ItemCopy(id, ShareOf(fleet[id].split, contract), fleet[id].ghs)
  }

  ghost function SpareItems(fleet: Fleet): map<string, ItemCopy> {
    map id | id in fleet && 1.0 - TotalShare(fleet[id].split) > 0.0 ::
      ItemCopy(id, 1.0 - TotalShare(fleet[id].split), fleet[id].ghs)
  }

  lemma ColumnCell(snap: AllocSnap, fleet: Fleet, contract: string, id: string)
    requires Shows(snap, fleet)
    ensures id in Listed(snap.byContract, contract).items <==> id in Serving(fleet, contract)
    ensures id in Serving(fleet, contract) ==>
      var item := Listed(snap.byContract, contract).items[id];
      item.minerID == id && item.fraction == ShareOf(fleet[id].split, contract) && item.totalGHS == fleet[id].ghs
      && item == snap.byMiner[id].items[contract]
  {
    assert Cell(snap.byMiner, id, contract) == Cell(snap.byContract, contract, id);
    assert Named(Cell(snap.byMiner, id, contract), id, contract);
    if id in fleet { IdsAreHeld(fleet[id].split, contract); }
  }

  ghost predicate ColumnHolds(column: AllocCollection, fleet: Fleet, contract: string)
    reads column.items.Values
  {
    column.items.Keys == Serving(fleet, contract)
    && forall id <- column.items ::
      column.items[id].minerID == id && column.items[id].totalGHS == fleet[id].ghs
      && column.items[id].fraction == ShareOf(fleet[id].split, contract)
  }

  lemma ColumnCells(snap: AllocSnap, fleet: Fleet, contract: string)
    requires Shows(snap, fleet)
    ensures ColumnHolds(Listed(snap.byContract, contract), fleet, contract)
  {
    var column := Listed(snap.byContract, contract);
    forall id ensures id in column.items <==> id in Serving(fleet, contract) {
      ColumnCell(snap, fleet, contract, id);
    }
    forall id | id in column.items
      ensures column.items[id].minerID == id && column.items[id].totalGHS == fleet[id].ghs
      ensures column.items[id].fraction == ShareOf(fleet[id].split, contract)
    {
      ColumnCell(snap, fleet, contract, id);
    }
  }

  lemma ColumnCopies(column: AllocCollection, fleet: Fleet, contract: string)
    requires ColumnHolds(column, fleet, contract)
    ensures column.Copies() == ServingItems(fleet, contract)
  {
    assert column.Copies().Keys == ServingItems(fleet, contract).Keys;
  }

  lemma ColumnGHSByID(column: AllocCollection, fleet: Fleet, contract: string)
    requires ColumnHolds(column, fleet, contract)
    ensures column.GHSByID() == ServedMap(fleet, contract)
  {
    assert column.GHSByID().Keys == ServedMap(fleet, contract).Keys;
  }

  /** The snapshot lists for a contract exactly the miners that serve it, with their shares. */
  lemma ColumnShows(snap: AllocSnap, fleet: Fleet, contract: string)
    requires Shows(snap, fleet)
    ensures var column := Listed(snap.byContract, contract);
            && (forall id <- column.items :: column.items[id].minerID == id)
            && column.items.Keys == Serving(fleet, contract)
            && column.Copies() == ServingItems(fleet, contract)
            && column.GHSByID() == ServedMap(fleet, contract)
  {
    var column := Listed(snap.byContract, contract);
    ColumnCells(snap, fleet, contract);
    ColumnCopies(column, fleet, contract);
    ColumnGHSByID(column, fleet, contract);
  }

  lemma IdsOfTail(split: seq<Split>)
    requires split != [] && Unique(split)
    ensures Unique(split[1..]) && Ids(split[1..]) == Ids(split) - {split[0].id}
  {
    var rest := split[1..];
    assert forall i :: 0 <= i < |rest| ==> rest[i] == split[i + 1];
  }

  lemma TailShares(split: seq<Split>, shares: map<string, real>)
    requires split != [] && Unique(split) && shares.Keys == Ids(split)
    requires forall c <- shares :: shares[c] == ShareOf(split, c)
    ensures split[0].id in shares && shares[split[0].id] == split[0].percentage
    ensures forall c <- shares - {split[0].id} :: shares[c] == ShareOf(split[1..], c)
  {
    var first, rest := split[0], split[1..];
    assert split == [first] + rest;
    ShareOfCons(first, rest, first.id);
    forall c | c in shares - {first.id} ensures shares[c] == ShareOf(rest, c) {
      ShareOfCons(first, rest, c);
    }
  }

  lemma {:induction false} SharesAddUp(split: seq<Split>, shares: map<string, real>)
    requires Unique(split) && shares.Keys == Ids(split)
    requires forall c <- shares :: shares[c] == ShareOf(split, c)
    ensures SumReal(shares) == TotalShare(split)
    decreases |split|
  {
    if split == [] {
      assert shares == map[];
    } else {
      TailShares(split, shares);
      IdsOfTail(split);
      SumRealWithout(shares, split[0].id);
      SharesAddUp(split[1..], shares - {split[0].id});
    }
  }

  /** The spare part computed from a row is what the miner's shares leave. */
  lemma RowSpare(row: AllocCollection, s: MinerState)
    requires RowShows(row, s) && Unique(s.split)
    ensures row.Spare() == 1.0 - TotalShare(s.split)
  {
    SharesAddUp(s.split, row.Fractions());
  }

  /** The snapshot lists as available exactly the miners with a spare part, each with all of it. */
  lemma SpareShows(snap: AllocSnap, fleet: Fleet)
    requires Shows(snap, fleet) && Sane(fleet)
    ensures snap.SpareCopies() == SpareItems(fleet)
  {
    forall id | id in fleet ensures snap.byMiner[id].Spare() == 1.0 - TotalShare(fleet[id].split) {
      RowSpare(snap.byMiner[id], fleet[id]);
    }
  }

  // ---- what the snapshot accounts for

  lemma TailGHS(ghs: pos, split: seq<Split>, m: map<string, int>)
    requires split != [] && Unique(split) && m.Keys == Ids(split)
    requires forall c <- m :: m[c] == ShareGHS(ghs, ShareOf(split, c))
    ensures split[0].id in m && m[split[0].id] == ShareGHS(ghs, split[0].percentage)
    ensures forall c <- m - {split[0].id} :: m[c] == ShareGHS(ghs, ShareOf(split[1..], c))
  {
    var shares := map c | c in m :: ShareOf(split, c);
    TailShares(split, shares);
    forall c | c in m - {split[0].id} ensures ShareOf(split, c) == ShareOf(split[1..], c) {
      assert shares[c] == ShareOf(split[1..], c);
    }
  }

  /** The GH/s of the shares of a row, in any order, are those of the miner's list. */
  lemma {:induction false} GHSAddUp(ghs: pos, split: seq<Split>, m: map<string, int>)
    requires Unique(split) && m.Keys == Ids(split)
    requires forall c <- m :: m[c] == ShareGHS(ghs, ShareOf(split, c))
    ensures Sum(m) == SplitGHS(ghs, split)
    decreases |split|
  {
    if split == [] {
      assert m == map[];
    } else {
      TailGHS(ghs, split, m);
      IdsOfTail(split);
      SumWithout(m, split[0].id);
      GHSAddUp(ghs, split[1..], m - {split[0].id});
    }
  }

  lemma RowAccounts(snap: AllocSnap, fleet: Fleet, id: string)
    requires Shows(snap, fleet) && Sane(fleet) && id in fleet
    ensures RowSums(GHSTable(snap.byMiner))[id] == SplitGHS(fleet[id].ghs, fleet[id].split)
  {
    var row := GHSTable(snap.byMiner)[id];
    assert RowShows(snap.byMiner[id], fleet[id]);
    assert row.Keys == Ids(fleet[id].split);
    GHSAddUp(fleet[id].ghs, fleet[id].split, row);
  }

  /** What each miner has to spare, in GH/s. */
  ghost function SpareGHS(fleet: Fleet): map<string, int> {
    map id | id in fleet :: ShareGHS(fleet[id].ghs, 1.0 - TotalShare(fleet[id].split))
  }

  lemma NothingOfNothing(ghs: pos, share: real)
    requires share == 0.0
    ensures ShareGHS(ghs, share) == 0
  {
    assert ghs as real * 0.0 == 0.0;
  }

  lemma SpareAccounts(fleet: Fleet)
    requires Sane(fleet)
    ensures Sum(GHSOf(SpareItems(fleet))) == Sum(SpareGHS(fleet))
  {
    forall id | id in fleet && id !in SpareItems(fleet) ensures SpareGHS(fleet)[id] == 0 {
      NothingOfNothing(fleet[id].ghs, 1.0 - TotalShare(fleet[id].split));
    }
    SumSupport(SpareGHS(fleet), GHSOf(SpareItems(fleet)));
  }

  /**
   * The shares that a snapshot lists and what it lists as available add up to what the fleet accounts for: the
   * hashrate of all miners, less at most one GH/s for every share.
   */
  lemma SnapshotAccounts(snap: AllocSnap, fleet: Fleet)
    requires Shows(snap, fleet) && Sane(fleet)
    ensures var listed := Sum(RowSums(GHSTable(snap.byMiner))) + Sum(GHSOf(snap.SpareCopies()));
            listed == Sum(AccountedGHS(fleet))
            && Sum(TotalGHS(fleet)) - Sum(ShareCounts(fleet)) <= listed <= Sum(TotalGHS(fleet))
  {
    var table := GHSTable(snap.byMiner);
    forall id | id in fleet ensures AccountedGHS(fleet)[id] == RowSums(table)[id] + SpareGHS(fleet)[id] {
      RowAccounts(snap, fleet, id);
    }
    SumAdd(RowSums(table), SpareGHS(fleet), AccountedGHS(fleet));
    SpareShows(snap, fleet);
    SpareAccounts(fleet);
    FleetRoundingLoss(fleet);
  }
}
