/** A snapshot of who serves what: shared allocation items, indexed by contract and by miner. */
module AllocSnapshots {
  import opened Wrappers
  import opened Arithmetic
  import opened Sums
  import opened Sorting

  class AllocItem {
    const minerID: string
    const contractID: string
    var fraction: real
    var totalGHS: int

    constructor (minerID: string, contractID: string, fraction: real, totalGHS: int)
      ensures this.minerID == minerID && this.contractID == contractID
      ensures this.fraction == fraction && this.totalGHS == totalGHS
    {
      this.minerID, this.contractID, this.fraction, this.totalGHS := minerID, contractID, fraction, totalGHS;
    }

    function AllocatedGHS(): int
      reads this
    {
      ShareGHS(totalGHS, fraction)
    }
  }

  /** A copy of an item. */
  datatype ItemCopy = ItemCopy(minerID: string, fraction: real, totalGHS: int) {
    function AllocatedGHS(): int {
      ShareGHS(totalGHS, fraction)
    }
  }

  /** Items by id. The items are shared between the collections that list them. */
  datatype AllocCollection = AllocCollection(items: map<string, AllocItem>) {

    /** Takes delta GH/s off the item of one miner, if it is listed. */
    method ReduceMinerAllocation(minerID: string, delta: int)
      requires minerID in items ==> items[minerID].totalGHS != 0
      modifies if minerID in items then {items[minerID]} else {}
      ensures minerID in items ==>
        items[minerID].totalGHS == old(items[minerID].totalGHS)
        && items[minerID].fraction == old(items[minerID].fraction - delta as real / items[minerID].totalGHS as real)
    {
      if minerID in items {
        var item := items[minerID];
        item.fraction := item.fraction - delta as real / item.totalGHS as real;
      }
    }

    /** The items of miners that serve nothing yet. The items themselves are shared, not copied. */
    method FilterFullyAvailable() returns (available: AllocCollection)
      ensures available.items == map id | id in items && items[id].fraction == 1.0 :: items[id]
    {
      available := AllocCollection(map[]);
      var ids := items.Keys;
      while ids != {}
        invariant ids <= items.Keys
        invariant available.items == map id | id in items.Keys - ids && items[id].fraction == 1.0 :: items[id]
      {
        var id :| id in ids;
        if items[id].fraction == 1.0 {
          available := AllocCollection(available.items[id := items[id]]);
        }
        ids := ids - {id};
      }
    }

    ghost function Copies(): map<string, ItemCopy>
      reads items.Values
    {
      map id | id in items :: ItemCopy(items[id].minerID, items[id].fraction, items[id].totalGHS)
    }

    method CopiesInAnyOrder() returns (list: seq<ItemCopy>)
      requires forall id <- items :: items[id].minerID == id
      ensures OneEach(list, Copies())
    {
      list := [];
      var ids := items.Keys;
      while ids != {}
        invariant ids <= items.Keys
        invariant forall i <- list :: i.minerID in items.Keys - ids && i == Copies()[i.minerID]
        invariant forall id <- items.Keys - ids :: Copies()[id] in list
        invariant forall j, k :: 0 <= j < k < |list| ==> list[j].minerID != list[k].minerID
      {
        var id :| id in ids;
        ghost var before := list;
        list := list + [ItemCopy(items[id].minerID, items[id].fraction, items[id].totalGHS)];
        assert list[|before|] == Copies()[id];
        assert forall i <- before :: i in list;
        ids := ids - {id};
      }
    }

    /** Copies of the items by increasing hashrate; equal ones come in any order. */
    method SortByAllocatedGHS() returns (sorted: seq<ItemCopy>)
      requires forall id <- items :: items[id].minerID == id
      ensures SortedBy(sorted, (i: ItemCopy) => i.AllocatedGHS())
      ensures forall k :: 0 <= k < |sorted| ==> sorted[k].minerID in items && sorted[k] == Copies()[sorted[k].minerID]
      ensures Distinct(MinerIDs(sorted)) && items.Keys == set id <- MinerIDs(sorted)
    {
      var list := CopiesInAnyOrder();
      sorted := SortBy(list, (i: ItemCopy) => i.AllocatedGHS());
      RearrangedOneEach(list, sorted, Copies());
    }

    ghost function Fractions(): map<string, real>
      reads items.Values
    {
      map id | id in items :: items[id].fraction
    }

    /** The part of a miner that the items listed leave free. */
    ghost function Spare(): real
      reads items.Values
    {
      1.0 - SumReal(Fractions())
    }

    /** An item for what the listed shares leave of their miner; it names the miner of the item met last. */
    method GetUnallocatedGHS() returns (ghs: int, item: ItemCopy)
      ensures ghs == item.AllocatedGHS()
      ensures item.fraction == Spare()
      ensures if items == map[] then item.minerID == "" && item.totalGHS == 0
              else exists id <- items :: item.minerID == items[id].minerID && item.totalGHS == items[id].totalGHS
    {
      var allocatedFrac := 0.0;
      var minerID, totalGHS := "", 0;
      var ids := items.Keys;
      while ids != {}
        invariant ids <= items.Keys
        invariant SumReal(Fractions()) == allocatedFrac + SumReal(map id | id in ids :: items[id].fraction)
        invariant if ids == items.Keys then minerID == "" && totalGHS == 0
                  else exists id <- items :: minerID == items[id].minerID && totalGHS == items[id].totalGHS
      {
        var id :| id in ids;
        ghost var rest := map id | id in ids :: items[id].fraction;
        SumRealWithout(rest, id);
        assert rest - {id} == map i | i in ids - {id} :: items[i].fraction;
        allocatedFrac := allocatedFrac + items[id].fraction;
        minerID, totalGHS := items[id].minerID, items[id].totalGHS;
        ids := ids - {id};
      }
      item := ItemCopy(minerID, 1.0 - allocatedFrac, totalGHS);
      ghs := item.AllocatedGHS();
    }

    ghost function GHSByID(): map<string, int>
      reads items.Values
    {
      map id | id in items :: items[id].AllocatedGHS()
    }

    /** The hashrate of all items together. */
    method TotalGHS() returns (total: int)
      ensures total == Sum(GHSByID())
    {
      total := 0;
      var ids := items.Keys;
      while ids != {}
        invariant ids <= items.Keys
        invariant Sum(GHSByID()) == total + Sum(map id | id in ids :: items[id].AllocatedGHS())
      {
        var id :| id in ids;
        ghost var rest := map id | id in ids :: items[id].AllocatedGHS();
        SumWithout(rest, id);
        assert rest - {id} == map i | i in ids - {id} :: items[i].AllocatedGHS();
        total := total + items[id].AllocatedGHS();
        ids := ids - {id};
      }
    }
  }

  function MinerIDs(list: seq<ItemCopy>): (ids: seq<string>)
    ensures |ids| == |list| && forall k :: 0 <= k < |ids| ==> ids[k] == list[k].minerID
  {
    seq(|list|, k requires 0 <= k < |list| => list[k].minerID)
  }

  /** The list holds every one of the copies, each once and nothing else. */
  ghost predicate OneEach(list: seq<ItemCopy>, copies: map<string, ItemCopy>) {
    && (forall i <- list :: i.minerID in copies && i == copies[i.minerID])
    && (forall id <- copies :: copies[id] in list && copies[id].minerID == id)
    && (forall j, k :: 0 <= j < k < |list| ==> list[j].minerID != list[k].minerID)
  }

  lemma PermutationOfDistinct(list: seq<ItemCopy>, sorted: seq<ItemCopy>)
    requires multiset(list) == multiset(sorted)
    requires forall j, k :: 0 <= j < k < |list| ==> list[j].minerID != list[k].minerID
    requires forall a, b :: a in list && b in list && a.minerID == b.minerID ==> a == b
    ensures Distinct(MinerIDs(sorted))
  {
    forall j, k | 0 <= j < k < |sorted| ensures sorted[j].minerID != sorted[k].minerID {
      assert sorted[j] in multiset(sorted) && sorted[k] in multiset(sorted);
      if sorted[j] == sorted[k] {
        CountTwice(sorted, j, k);
        CountOnce(list, sorted[j]);
        assert false;
      }
    }
  }

  lemma SameMembers(list: seq<ItemCopy>, sorted: seq<ItemCopy>)
    requires multiset(list) == multiset(sorted)
    ensures forall i :: i in list <==> i in sorted
  {
    forall i ensures i in list <==> i in sorted {
      assert i in list <==> i in multiset(list);
      assert i in sorted <==> i in multiset(sorted);
    }
  }

  lemma RearrangedOneEach(list: seq<ItemCopy>, sorted: seq<ItemCopy>, copies: map<string, ItemCopy>)
    requires OneEach(list, copies) && multiset(sorted) == multiset(list)
    ensures forall k :: 0 <= k < |sorted| ==> sorted[k].minerID in copies && sorted[k] == copies[sorted[k].minerID]
    ensures Distinct(MinerIDs(sorted)) && copies.Keys == set id <- MinerIDs(sorted)
  {
    PermutationOfDistinct(list, sorted);
    SameMembers(list, sorted);
    AllListed(sorted, copies);
  }

  lemma AllListed(sorted: seq<ItemCopy>, copies: map<string, ItemCopy>)
    requires forall i <- sorted :: i.minerID in copies && i == copies[i.minerID]
    requires forall id <- copies :: copies[id] in sorted && copies[id].minerID == id
    ensures copies.Keys == set id <- MinerIDs(sorted)
  {
    forall id | id in copies ensures id in MinerIDs(sorted) {
      var k :| 0 <= k < |sorted| && sorted[k] == copies[id];
      assert MinerIDs(sorted)[k] == id;
    }
    forall id | id in MinerIDs(sorted) ensures id in copies {
      var k :| 0 <= k < |sorted| && MinerIDs(sorted)[k] == id;
      assert sorted[k] in sorted;
    }
  }

  lemma CountTwice<T>(s: seq<T>, j: nat, k: nat)
    requires j < k < |s| && s[j] == s[k]
    ensures multiset(s)[s[j]] >= 2
  {
    assert s == s[..k] + s[k..];
    assert s[..k][j] == s[j] && s[k..][0] == s[k];
    assert s[j] in multiset(s[..k]) && s[j] in multiset(s[k..]);
  }

  lemma {:induction false} CountOnce<T>(s: seq<T>, x: T)
    requires forall j, k :: 0 <= j < k < |s| ==> s[j] != s[k]
    ensures multiset(s)[x] <= 1
  {
    if s != [] {
      assert s == [s[0]] + s[1..];
      CountOnce(s[1..], x);
      if x == s[0] { assert x !in s[1..]; }
    }
  }

  type Index = map<string, AllocCollection>

  function Cell(index: Index, outer: string, inner: string): Option<AllocItem> {
    if outer in index && inner in index[outer].items then Some(index[outer].items[inner]) else None
  }

  ghost predicate Named(cell: Option<AllocItem>, minerID: string, contractID: string) {
    cell.Some? ==> cell.value.minerID == minerID && cell.value.contractID == contractID
  }

  /** Both indexes hold the same items, each under its own miner and contract. */
  ghost predicate Transposes(rows: Index, columns: Index) {
    forall m, c :: Cell(rows, m, c) == Cell(columns, c, m) && Named(Cell(rows, m, c), m, c)
  }

  function Listed(index: Index, id: string): AllocCollection {
    if id in index then index[id] else AllocCollection(map[])
  }

  function With(index: Index, id: string, key: string, item: AllocItem): Index {
    index[id := AllocCollection(Listed(index, id).items[key := item])]
  }

  lemma TransposesUpdate(rows: Index, columns: Index, item: AllocItem)
    requires Transposes(rows, columns)
    ensures var m, c := item.minerID, item.contractID;
            Transposes(With(rows, m, c, item), With(columns, c, m, item))
  {
    var m, c := item.minerID, item.contractID;
    var newRows, newColumns := With(rows, m, c, item), With(columns, c, m, item);
    forall i, j
      ensures Cell(newRows, i, j) == Cell(newColumns, j, i) && Named(Cell(newRows, i, j), i, j)
    {
      assert Cell(rows, i, j) == Cell(columns, j, i) && Named(Cell(rows, i, j), i, j);
    }
  }

  lemma TransposesEmptyRow(rows: Index, columns: Index, m: string)
    requires Transposes(rows, columns)
    ensures Transposes(rows[m := Listed(rows, m)], columns)
  {
    forall i, j
      ensures Cell(rows[m := Listed(rows, m)], i, j) == Cell(columns, j, i)
      ensures Named(Cell(rows[m := Listed(rows, m)], i, j), i, j)
    {
      assert Cell(rows, i, j) == Cell(columns, j, i) && Named(Cell(rows, i, j), i, j);
    }
  }

  class AllocSnap {
    var byContract: Index
    var byMiner: Index
    var minerHashrate: map<string, int>

    constructor ()
      ensures Valid()
      ensures byMiner == map[] && minerHashrate == map[]
    {
      byContract, byMiner, minerHashrate := map[], map[], map[];
    }

    ghost predicate Valid()
      reads this
    {
      minerHashrate.Keys == byMiner.Keys && Transposes(byMiner, byContract)
    }

    method SetMiner(minerID: string, hashrateGHS: int)
      requires Valid()
      modifies this
      ensures Valid()
      ensures minerHashrate == old(minerHashrate)[minerID := hashrateGHS]
      ensures byMiner == old(byMiner)[minerID := Listed(old(byMiner), minerID)] && byContract == old(byContract)
    {
      TransposesEmptyRow(byMiner, byContract, minerID);
      if minerID !in byMiner {
        byMiner := byMiner[minerID := AllocCollection(map[])];
      }
      assert byMiner == old(byMiner)[minerID := Listed(old(byMiner), minerID)];
      minerHashrate := minerHashrate[minerID := hashrateGHS];
    }

    /** Records one share of a miner. Both indexes get the same new item; an earlier one is replaced. */
    method Set(minerID: string, contractID: string, fraction: real, totalGHS: int) returns (item: AllocItem)
      requires Valid()
      modifies this
      ensures Valid()
      ensures fresh(item) && item.minerID == minerID && item.contractID == contractID
      ensures item.fraction == fraction && item.totalGHS == totalGHS
      ensures minerHashrate == old(minerHashrate)[minerID := totalGHS]
      ensures byMiner == With(old(byMiner), minerID, contractID, item)
      ensures byContract == With(old(byContract), contractID, minerID, item)
    {
      SetMiner(minerID, totalGHS);
      item := new AllocItem(minerID, contractID, fraction, totalGHS);
      TransposesUpdate(byMiner, byContract, item);
      byContract := With(byContract, contractID, minerID, item);
      byMiner := With(byMiner, minerID, contractID, item);
      assert byMiner == With(old(byMiner), minerID, contractID, item);
    }

    method Get(minerID: string, contractID: string) returns (item: Option<ItemCopy>)
      requires Valid()
      ensures item == match Cell(byContract, contractID, minerID)
                      case None => None
                      case Some(i) => Some(ItemCopy(minerID, i.fraction, i.totalGHS))
    {
      assert Cell(byMiner, minerID, contractID) == Cell(byContract, contractID, minerID);
      if minerID !in byMiner || contractID !in byMiner[minerID].items {
        return None;
      }
      var i := byMiner[minerID].items[contractID];
      assert Named(Cell(byMiner, minerID, contractID), minerID, contractID);
      item := Some(ItemCopy(i.minerID, i.fraction, i.totalGHS));
    }

    /** What every miner has to spare, for the miners that have anything to spare. */
    ghost function SpareCopies(): map<string, ItemCopy>
      requires minerHashrate.Keys == byMiner.Keys
      reads this, ItemsOf(byMiner)
    {
      map m | m in byMiner && byMiner[m].Spare() > 0.0 :: ItemCopy(m, byMiner[m].Spare(), minerHashrate[m])
    }

    method GetUnallocatedGHS() returns (ghs: int, list: AllocCollection)
      requires minerHashrate.Keys == byMiner.Keys
      ensures forall id <- list.items :: fresh(list.items[id]) && list.items[id].minerID == id
      ensures list.Copies() == old(SpareCopies())
      ensures ghs == Sum(list.GHSByID())
    {
      var spare: map<string, ItemCopy> := map[];
      var ids := byMiner.Keys;
      ghost var target := SpareCopies();
      while ids != {}
        invariant ids <= byMiner.Keys
        invariant SpareCopies() == target
        invariant spare == Without(target, ids)
      {
        var id :| id in ids;
        var fraction := SpareFraction(id);
        WithoutOneLess(target, ids, id);
        if fraction > 0.0 {
          spare := spare[id := ItemCopy(id, fraction, minerHashrate[id])];
        }
        ids := ids - {id};
      }
      assert spare == target;
      ghs, list := NewItems(spare);
    }

    method SpareFraction(id: string) returns (fraction: real)
      requires minerHashrate.Keys == byMiner.Keys && id in byMiner
      ensures SpareCopies() == old(SpareCopies())
      ensures fraction > 0.0 <==> id in SpareCopies()
      ensures fraction > 0.0 ==> SpareCopies()[id] == ItemCopy(id, fraction, minerHashrate[id])
    {
      var _, item := byMiner[id].GetUnallocatedGHS();
      fraction := item.fraction;
    }
  }

  ghost function Without(copies: map<string, ItemCopy>, ids: set<string>): map<string, ItemCopy> {
    copies - ids
  }

  lemma WithoutOneLess(copies: map<string, ItemCopy>, ids: set<string>, id: string)
    requires id in ids
    ensures Without(copies, ids - {id}) ==
            if id in copies then Without(copies, ids)[id := copies[id]] else Without(copies, ids)
  {
  }

  /** The hashrate of the copies that are not under the given ids. */
  ghost function GHSWithout(copies: map<string, ItemCopy>, ids: set<string>): map<string, int> {
    map id | id in copies && id !in ids :: copies[id].AllocatedGHS()
  }

  /** The items hold what the copies under the same ids say. */
  ghost predicate Copied(items: map<string, AllocItem>, copies: map<string, ItemCopy>)
    reads items.Values
  {
    forall id <- items :: id in copies
      && items[id].minerID == id && items[id].fraction == copies[id].fraction && items[id].totalGHS == copies[id].totalGHS
  }

  lemma AllCopied(list: AllocCollection, copies: map<string, ItemCopy>)
    requires Copied(list.items, copies) && list.items.Keys == copies.Keys
    requires forall id <- copies :: copies[id].minerID == id
    ensures list.Copies() == copies && list.GHSByID() == GHSWithout(copies, {})
  {
  }

  /** New items with the given contents, and their hashrate together. */
  method NewItems(copies: map<string, ItemCopy>) returns (ghs: int, list: AllocCollection)
    requires forall id <- copies :: copies[id].minerID == id
    ensures forall id <- list.items :: fresh(list.items[id]) && list.items[id].minerID == id
    ensures list.Copies() == copies
    ensures ghs == Sum(list.GHSByID())
  {
    var items: map<string, AllocItem> := map[];
    ghs := 0;
    var ids := copies.Keys;
    while ids != {}
      invariant ids <= copies.Keys && items.Keys == copies.Keys - ids
      invariant forall id <- items :: fresh(items[id])
      invariant Copied(items, copies)
      invariant ghs == Sum(GHSWithout(copies, ids))
    {
      var id :| id in ids;
      var item := new AllocItem(id, "", copies[id].fraction, copies[id].totalGHS);
      items := items[id := item];
      SumStep(copies, ids, id);
      ghs := ghs + item.AllocatedGHS();
      ids := ids - {id};
    }
    list := AllocCollection(items);
    AllCopied(list, copies);
  }

  lemma SumStep(copies: map<string, ItemCopy>, ids: set<string>, id: string)
    requires id in copies && id in ids
    ensures Sum(GHSWithout(copies, ids - {id})) == Sum(GHSWithout(copies, ids)) + copies[id].AllocatedGHS()
  {
    SumUpdate(GHSWithout(copies, ids), id, copies[id].AllocatedGHS());
    assert GHSWithout(copies, ids)[id := copies[id].AllocatedGHS()] == GHSWithout(copies, ids - {id});
  }

  ghost function ItemsOf(index: Index): set<AllocItem> {
    set m, c | m in index && c in index[m].items :: index[m].items[c]
  }

  ghost function GHSTable(index: Index): map<string, map<string, int>>
    reads ItemsOf(index)
  {
    map m | m in index :: map c | c in index[m].items :: index[m].items[c].AllocatedGHS()
  }

  /** Adding up who serves what miner by miner, or contract by contract, gives the same hashrate. */
  lemma SameByMinerAndByContract(s: AllocSnap)
    requires s.Valid()
    ensures Sum(RowSums(GHSTable(s.byMiner))) == Sum(RowSums(GHSTable(s.byContract)))
  {
    var rows, columns := s.byMiner, s.byContract;
    forall m, c
      ensures m in rows && c in rows[m].items <==> c in columns && m in columns[c].items
      ensures m in rows && c in rows[m].items ==> rows[m].items[c] == columns[c].items[m]
    {
      assert Cell(rows, m, c) == Cell(columns, c, m);
    }
    SumOfTranspose(GHSTable(rows), GHSTable(columns));
  }
}
