/** The shares of one miner as a value: what each change to the list of shares means. */
module Splits {
  import opened Wrappers

  const MIN_PERCENTAGE: real := 0.05

  datatype Split = Split(id: string, percentage: real, dest: string)

  datatype AllocationError = OutOfRange | WouldExceedOne

  function IndexOf(split: seq<Split>, id: string): (i: nat)
    ensures i <= |split|
    ensures forall j :: 0 <= j < i ==> split[j].id != id
    ensures i < |split| ==> split[i].id == id
  {
    if split == [] || split[0].id == id then 0 else 1 + IndexOf(split[1..], id)
  }

  predicate Has(split: seq<Split>, id: string) {
    IndexOf(split, id) < |split|
  }

  function ShareOf(split: seq<Split>, id: string): real {
    var i := IndexOf(split, id);
    if i < |split| then split[i].percentage else 0.0
  }

  /** Where a contract's share goes; nowhere if it has none. */
  function DestOf(split: seq<Split>, id: string): string {
    var i := IndexOf(split, id);
    if i < |split| then split[i].dest else ""
  }

  /** A contract has the same share in both lists, with the same destination, or none in either. */
  ghost predicate SameShare(a: seq<Split>, b: seq<Split>, id: string) {
    Has(a, id) == Has(b, id) && ShareOf(a, id) == ShareOf(b, id) && DestOf(a, id) == DestOf(b, id)
  }

  function TotalShare(split: seq<Split>): real {
    if split == [] then 0.0 else split[0].percentage + TotalShare(split[1..])
  }

  ghost predicate Unique(split: seq<Split>) {
    forall i, j :: 0 <= i < j < |split| ==> split[i].id != split[j].id
  }

  ghost predicate NonNegative(split: seq<Split>) {
    forall i :: 0 <= i < |split| ==> split[i].percentage >= 0.0
  }

  /** Shares that are non-negative, one per contract, and take no more than the whole miner. */
  ghost predicate Sound(split: seq<Split>) {
    Unique(split) && NonNegative(split) && TotalShare(split) <= 1.0
  }

  function WithShare(split: seq<Split>, id: string, share: real): seq<Split> {
    var i := IndexOf(split, id);
    if i < |split| then split[i := Split(id, share, split[i].dest)] else split
  }

  function Without(split: seq<Split>, id: string): seq<Split> {
    var i := IndexOf(split, id);
    if i < |split| then split[..i] + split[i + 1..] else split
  }

  /** Shares below 5% are rounded up to 5%, shares above 95% to the whole miner. */
  function Adjusted(percentage: real): real {
    if percentage < MIN_PERCENTAGE then MIN_PERCENTAGE
    else if percentage > 1.0 - MIN_PERCENTAGE then 1.0
    else percentage
  }

  /** A share that is not rounded: between 5% and 95%, or the whole miner. */
  ghost predicate Exact(share: real) {
    MIN_PERCENTAGE <= share <= 1.0 - MIN_PERCENTAGE || share == 1.0
  }

  function Granted(split: seq<Split>, id: string, percentage: real, dest: string): Result<seq<Split>, AllocationError> {
    if percentage > 1.0 || percentage == 0.0 then Err(OutOfRange)
    else if percentage > 1.0 - TotalShare(split) then Err(WouldExceedOne)
    else Ok([Split(id, percentage, dest)] + split)
  }

  // ---- sums of shares

  lemma {:induction false} TotalOfConcat(a: seq<Split>, b: seq<Split>)
    ensures TotalShare(a + b) == TotalShare(a) + TotalShare(b)
  {
    if a == [] {
      assert a + b == b;
    } else {
      assert (a + b)[1..] == a[1..] + b;
      TotalOfConcat(a[1..], b);
    }
  }

  lemma TotalSplitAt(split: seq<Split>, i: nat)
    requires i < |split|
    ensures TotalShare(split) == TotalShare(split[..i]) + split[i].percentage + TotalShare(split[i + 1..])
  {
    assert split == split[..i] + split[i..];
    TotalOfConcat(split[..i], split[i..]);
    assert split[i..][1..] == split[i + 1..];
  }

  lemma {:induction false} TotalIsNonNegative(split: seq<Split>)
    requires NonNegative(split)
    ensures TotalShare(split) >= 0.0
    ensures forall i :: 0 <= i < |split| ==> split[i].percentage <= TotalShare(split)
  {
    if split != [] {
      var rest := split[1..];
      assert forall i :: 0 <= i < |rest| ==> rest[i] == split[i + 1];
      TotalIsNonNegative(rest);
      forall i | 0 <= i < |split| ensures split[i].percentage <= TotalShare(split) {
        if i > 0 { assert rest[i - 1].percentage <= TotalShare(rest); }
      }
    }
  }

  lemma ShareWithinTotal(split: seq<Split>, id: string)
    requires NonNegative(split)
    ensures 0.0 <= ShareOf(split, id) <= TotalShare(split)
  {
    TotalIsNonNegative(split);
  }

  /** Setting a share moves the total by exactly the change of that share. */
  lemma TotalWithShare(split: seq<Split>, id: string, share: real)
    requires Has(split, id)
    ensures TotalShare(WithShare(split, id, share)) == TotalShare(split) - ShareOf(split, id) + share
  {
    var i := IndexOf(split, id);
    var changed := WithShare(split, id, share);
    TotalSplitAt(split, i);
    TotalSplitAt(changed, i);
    assert changed[..i] == split[..i] && changed[i + 1..] == split[i + 1..];
  }

  /** Removing a share frees exactly that share. */
  lemma TotalWithout(split: seq<Split>, id: string)
    ensures TotalShare(Without(split, id)) == TotalShare(split) - ShareOf(split, id)
  {
    var i := IndexOf(split, id);
    if i < |split| {
      TotalSplitAt(split, i);
      TotalOfConcat(split[..i], split[i + 1..]);
    }
  }

  // ---- which shares change

  lemma FirstIndex(split: seq<Split>, id: string, i: nat)
    requires i <= |split|
    requires forall j :: 0 <= j < i ==> split[j].id != id
    requires i < |split| ==> split[i].id == id
    ensures IndexOf(split, id) == i
  {
    assert IndexOf(split, id) == i;
  }

  /**
   * Setting one contract's share leaves the ids in place and every other contract's share alone. All destinations
   * stay, also the one of the share that is set.
   */
  lemma WithShareFrame(split: seq<Split>, id: string, share: real, other: string)
    ensures Has(WithShare(split, id, share), other) == Has(split, other)
    ensures other != id ==> SameShare(WithShare(split, id, share), split, other)
    ensures Has(split, id) ==> ShareOf(WithShare(split, id, share), id) == share
    ensures DestOf(WithShare(split, id, share), id) == DestOf(split, id)
    ensures Unique(split) ==> Unique(WithShare(split, id, share))
  {
    var changed := WithShare(split, id, share);
    assert |changed| == |split| && forall j :: 0 <= j < |split| ==> changed[j].id == split[j].id;
    FirstIndex(changed, other, IndexOf(split, other));
    FirstIndex(changed, id, IndexOf(split, id));
  }

  lemma CutOutOfTail<T>(s: seq<T>, k: nat)
    requires k + 1 < |s|
    ensures Same(s[..k + 1] + s[k + 2..], [s[0]] + (s[1..][..k] + s[1..][k + 1..]))
  {
    assert s[..k + 1] + s[k + 2..] == [s[0]] + (s[1..][..k] + s[1..][k + 1..]);
  }

  lemma HeadAndTail<T>(s: seq<T>)
    requires s != []
    ensures Same(s, [s[0]] + s[1..]) && Same(s[..0] + s[1..], s[1..])
  {
    assert s == [s[0]] + s[1..];
    assert s[..0] + s[1..] == s[1..];
  }

  lemma WithoutHead(split: seq<Split>, id: string)
    requires split != [] && split[0].id == id
    ensures Same(Without(split, id), split[1..])
  {
    HeadAndTail(split);
  }

  lemma WithoutLater(split: seq<Split>, id: string)
    requires split != [] && split[0].id != id
    ensures Same(Without(split, id), [split[0]] + Without(split[1..], id))
  {
    var rest := split[1..];
    var k := IndexOf(rest, id);
    assert IndexOf(split, id) == k + 1;
    if k < |rest| {
      CutOutOfTail(split, k);
      assert Same(Without(split, id), split[..k + 1] + split[k + 2..]);
      assert Same(Without(rest, id), rest[..k] + rest[k + 1..]);
    } else {
      HeadAndTail(split);
    }
  }

  lemma ShareOfCons(first: Split, rest: seq<Split>, id: string)
    ensures Has([first] + rest, id) == (first.id == id || Has(rest, id))
    ensures ShareOf([first] + rest, id) == if first.id == id then first.percentage else ShareOf(rest, id)
    ensures DestOf([first] + rest, id) == if first.id == id then first.dest else DestOf(rest, id)
  {
    assert ([first] + rest)[1..] == rest;
  }

  lemma {:induction false} ShareOfSnoc(split: seq<Split>, last: Split, id: string)
    requires !Has(split, last.id)
    ensures Has(split + [last], id) == (last.id == id || Has(split, id))
    ensures ShareOf(split + [last], id) == if last.id == id then last.percentage else ShareOf(split, id)
  {
    if split == [] {
      assert [] + [last] == [last] + [];
      ShareOfCons(last, [], id);
    } else {
      var first, rest := split[0], split[1..];
      assert split == [first] + rest && split + [last] == [first] + (rest + [last]);
      ShareOfCons(first, rest, last.id);
      ShareOfSnoc(rest, last, id);
      ShareOfCons(first, rest, id);
      ShareOfCons(first, rest + [last], id);
    }
  }

  function Ids(split: seq<Split>): set<string> {
    set i | 0 <= i < |split| :: split[i].id
  }

  lemma {:induction false} IdsAreHeld(split: seq<Split>, id: string)
    ensures id in Ids(split) <==> Has(split, id)
  {
    if id in Ids(split) {
      var i :| 0 <= i < |split| && split[i].id == id;
    }
  }

  /** Removing one contract's share leaves every other contract's share and destination alone. */
  lemma {:induction false} WithoutFrame(split: seq<Split>, id: string, other: string)
    requires other != id
    ensures SameShare(Without(split, id), split, other)
  {
    if split != [] {
      var first, rest := split[0], split[1..];
      HeadAndTail(split);
      ShareOfCons(first, rest, other);
      if first.id == id {
        WithoutHead(split, id);
      } else {
        WithoutLater(split, id);
        WithoutFrame(rest, id, other);
        ShareOfCons(first, Without(rest, id), other);
      }
    }
  }

  /** With one share per contract, removal takes the contract out and keeps the order of the rest. */
  lemma WithoutUnique(split: seq<Split>, id: string)
    requires Unique(split)
    ensures Unique(Without(split, id))
    ensures !Has(Without(split, id), id)
    ensures NonNegative(split) ==> NonNegative(Without(split, id))
  {
    var i, rest := IndexOf(split, id), Without(split, id);
    if i < |split| {
      assert forall j :: 0 <= j < i ==> rest[j] == split[j];
      assert forall j :: i <= j < |rest| ==> rest[j] == split[j + 1];
      assert forall j :: 0 <= j < |rest| ==> rest[j].id != id;
    }
  }

  lemma WithoutIsSound(split: seq<Split>, id: string)
    requires Sound(split)
    ensures Sound(Without(split, id))
  {
    WithoutUnique(split, id);
    TotalWithout(split, id);
    ShareWithinTotal(split, id);
  }

  lemma WithShareIsSound(split: seq<Split>, id: string, share: real)
    requires Sound(split)
    requires Has(split, id)
    requires 0.0 <= share <= 1.0 - TotalShare(split) + ShareOf(split, id)
    ensures Sound(WithShare(split, id, share))
  {
    WithShareFrame(split, id, share, id);
    TotalWithShare(split, id, share);
  }

  /** Putting a share in front and removing it again gives back the same list. */
  lemma RemoveUndoesGrant(split: seq<Split>, id: string, percentage: real, dest: string)
    ensures var g := Granted(split, id, Adjusted(percentage), dest);
            g.Ok? ==> Without(g.value, id) == split
  {
    var front := [Split(id, Adjusted(percentage), dest)] + split;
    assert IndexOf(front, id) == 0;
    assert front[..0] + front[1..] == split;
  }

  /**
   * Asking a miner for exactly its spare share succeeds and grants what was asked for
   * if and only if that spare share is between 5% and 95%, or the whole miner.
   */
  lemma SpareShareIsGranted(split: seq<Split>, id: string, dest: string)
    ensures var spare := 1.0 - TotalShare(split);
            Granted(split, id, Adjusted(spare), dest) == Ok([Split(id, spare, dest)] + split)
            <==> Exact(spare)
  {
    var spare := 1.0 - TotalShare(split);
    var g := Granted(split, id, Adjusted(spare), dest);
    if g == Ok([Split(id, spare, dest)] + split) {
      assert g.value[0] == Split(id, Adjusted(spare), dest);
      assert g.value[0] == ([Split(id, spare, dest)] + split)[0];
    }
  }

  /** The same, for a miner that gives nothing away yet and is asked for some or all of it. */
  lemma IdleMinerGrants(split: seq<Split>, id: string, percentage: real, dest: string)
    requires TotalShare(split) == 0.0 && 0.0 < percentage <= 1.0
    ensures Granted(split, id, Adjusted(percentage), dest) == Ok([Split(id, percentage, dest)] + split)
            <==> Exact(percentage)
  {
    var g := Granted(split, id, Adjusted(percentage), dest);
    var asked := [Split(id, percentage, dest)] + split;
    assert g == Ok([Split(id, Adjusted(percentage), dest)] + split);
    assert g.value[0].percentage == Adjusted(percentage) && asked[0].percentage == percentage;
  }

  // ---- deallocation, which goes on ranging over the list it is shifting

  /**
   * What deallocation leaves, also when it crashes: after a removal the scan steps over the share that moved up.
   */
  function Deallocated(split: seq<Split>, id: string): seq<Split> {
    if split == [] then []
    else if split[0].id != id then [split[0]] + Deallocated(split[1..], id)
    else if |split| == 1 then []
    else [split[1]] + Deallocated(split[2..], id)
  }

  /** The scan slices past the shortened list when the last share and an earlier one both match. */
  predicate DeallocationCrashes(split: seq<Split>, id: string) {
    split != [] && split[|split| - 1].id == id && IndexOf(split, id) < |split| - 1
  }

  predicate AdjacentPair(split: seq<Split>, id: string) {
    exists i :: 0 <= i < |split| - 1 && split[i].id == id && split[i + 1].id == id
  }

  function Others(split: seq<Split>, id: string): seq<Split> {
    if split == [] then []
    else if split[0].id == id then Others(split[1..], id)
    else [split[0]] + Others(split[1..], id)
  }

  lemma {:induction false} NothingToDeallocate(split: seq<Split>, id: string)
    requires forall i :: 0 <= i < |split| ==> split[i].id != id
    ensures Deallocated(split, id) == split == Others(split, id)
    ensures IndexOf(split, id) == |split|
  {
    if split != [] {
      assert forall i :: 0 <= i < |split[1..]| ==> split[1..][i] == split[i + 1];
      NothingToDeallocate(split[1..], id);
      assert split == [split[0]] + split[1..];
    }
  }

  /** Every share of the contract is gone afterwards exactly when no two of them were neighbours. */
  lemma {:induction false} DeallocatedLeavesNone(split: seq<Split>, id: string)
    ensures Deallocated(split, id) == Others(split, id) <==> !AdjacentPair(split, id)
    decreases |split|
  {
    if split == [] {
    } else if split[0].id != id {
      DeallocatedLeavesNone(split[1..], id);
      LeavesNoneAfterOther(split, id);
    } else if |split| > 1 {
      DeallocatedLeavesNone(split[2..], id);
      LeavesNoneAfterRemoval(split, id);
    }
  }

  lemma SameHead<T>(first: T, a: seq<T>, b: seq<T>)
    ensures [first] + a == [first] + b <==> a == b
  {
    assert ([first] + a)[1..] == a && ([first] + b)[1..] == b;
  }

  lemma LeavesNoneAfterOther(split: seq<Split>, id: string)
    requires split != [] && split[0].id != id
    requires Deallocated(split[1..], id) == Others(split[1..], id) <==> !AdjacentPair(split[1..], id)
    ensures Deallocated(split, id) == Others(split, id) <==> !AdjacentPair(split, id)
  {
    SameHead(split[0], Deallocated(split[1..], id), Others(split[1..], id));
    AdjacentInTail(split, id);
  }

  lemma LeavesNoneAfterRemoval(split: seq<Split>, id: string)
    requires |split| > 1 && split[0].id == id
    requires Deallocated(split[2..], id) == Others(split[2..], id) <==> !AdjacentPair(split[2..], id)
    ensures Deallocated(split, id) == Others(split, id) <==> !AdjacentPair(split, id)
  {
    AdjacentAfterRemoval(split, id);
    if split[1].id == id {
      OthersHasNone(split, id);
      assert Deallocated(split, id)[0].id == id;
    } else {
      OthersAfterRemoval(split, id);
      SameHead(split[1], Deallocated(split[2..], id), Others(split[2..], id));
    }
  }

  lemma OthersAfterRemoval(split: seq<Split>, id: string)
    requires |split| > 1 && split[0].id == id && split[1].id != id
    ensures Others(split, id) == [split[1]] + Others(split[2..], id)
  {
    assert split[1..][1..] == split[2..];
    assert Others(split[1..], id) == [split[1]] + Others(split[2..], id);
  }

  lemma AdjacentAfterRemoval(split: seq<Split>, id: string)
    requires |split| > 1 && split[0].id == id
    ensures AdjacentPair(split, id) <==> AdjacentPair(split[2..], id) || split[1].id == id
  {
    assert split[1..][1..] == split[2..];
    AdjacentInTail(split, id);
    AdjacentInTail(split[1..], id);
  }

  lemma {:induction false} OthersUnique(split: seq<Split>, id: string)
    requires Unique(split)
    ensures Others(split, id) == Without(split, id)
  {
    if split != [] {
      var rest := split[1..];
      if split[0].id == id {
        WithoutHead(split, id);
        assert forall i :: 0 <= i < |rest| ==> rest[i].id != id;
        NothingToDeallocate(rest, id);
      } else {
        WithoutLater(split, id);
        assert Unique(rest);
        OthersUnique(rest, id);
      }
    }
  }

  /** With one share per contract, deallocation and removal agree, and nothing crashes. */
  lemma DeallocatedUnique(split: seq<Split>, id: string)
    requires Unique(split)
    ensures Deallocated(split, id) == Without(split, id)
    ensures !DeallocationCrashes(split, id)
  {
    DeallocatedLeavesNone(split, id);
    OthersUnique(split, id);
  }

  lemma AdjacentInTail(split: seq<Split>, id: string)
    requires |split| > 0
    ensures AdjacentPair(split, id) <==>
            AdjacentPair(split[1..], id) || (|split| > 1 && split[0].id == id && split[1].id == id)
  {
    var rest := split[1..];
    if AdjacentPair(split, id) {
      var i :| 0 <= i < |split| - 1 && split[i].id == id && split[i + 1].id == id;
      if i > 0 { assert rest[i - 1].id == id && rest[i - 1 + 1].id == id; }
    }
    if AdjacentPair(rest, id) {
      var i :| 0 <= i < |rest| - 1 && rest[i].id == id && rest[i + 1].id == id;
      assert split[i + 1].id == id && split[i + 1 + 1].id == id;
    }
    if |split| > 1 && split[0].id == id && split[1].id == id {
      assert split[0].id == id && split[0 + 1].id == id;
    }
  }

  lemma {:induction false} OthersHasNone(split: seq<Split>, id: string)
    ensures forall i :: 0 <= i < |Others(split, id)| ==> Others(split, id)[i].id != id
  {
    if split != [] {
      OthersHasNone(split[1..], id);
    }
  }

  lemma {:induction false} DeallocatedKeepsBounds(split: seq<Split>, id: string)
    requires AtLeastMinimum(split)
    ensures AtLeastMinimum(Deallocated(split, id))
    ensures TotalShare(Deallocated(split, id)) <= TotalShare(split)
    decreases |split|
  {
    if split == [] || (split[0].id == id && |split| == 1) {
    } else {
      var n := if split[0].id == id then 2 else 1;
      var tail := split[n..];
      assert forall i :: 0 <= i < |tail| ==> tail[i] == split[i + n];
      DeallocatedKeepsBounds(tail, id);
      assert Deallocated(split, id)[1..] == Deallocated(tail, id);
      if n == 2 {
        assert split[1..][1..] == tail && split[1..][0] == split[1];
        assert split[0].percentage >= MIN_PERCENTAGE;
      }
    }
  }

  // ---- runs of allocations and removals

  datatype Change =
    | Allocate(id: string, percentage: real, dest: string)
    | Remove(id: string)
    | Deallocate(id: string)

  function Apply(split: seq<Split>, c: Change): seq<Split> {
    match c
    case Allocate(id, p, dest) =>
      var g := Granted(split, id, Adjusted(p), dest);
      if g.Ok? then g.value else split
    case Remove(id) => Without(split, id)
    case Deallocate(id) => Deallocated(split, id)
  }

  function ApplyAll(split: seq<Split>, changes: seq<Change>): seq<Split>
    decreases |changes|
  {
    if changes == [] then split else ApplyAll(Apply(split, changes[0]), changes[1..])
  }

  ghost predicate AtLeastMinimum(split: seq<Split>) {
    forall i :: 0 <= i < |split| ==> split[i].percentage >= MIN_PERCENTAGE
  }

  lemma {:induction false} CountIsBounded(split: seq<Split>)
    requires AtLeastMinimum(split)
    ensures MIN_PERCENTAGE * |split| as real <= TotalShare(split)
  {
    if split != [] {
      assert forall i :: 0 <= i < |split[1..]| ==> split[1..][i] == split[i + 1];
      CountIsBounded(split[1..]);
      assert |split| as real == |split[1..]| as real + 1.0;
    }
  }

  lemma ApplyKeepsBounds(split: seq<Split>, c: Change)
    requires AtLeastMinimum(split) && TotalShare(split) <= 1.0
    ensures AtLeastMinimum(Apply(split, c)) && TotalShare(Apply(split, c)) <= 1.0
  {
    match c
    case Allocate(id, p, dest) =>
      var g := Granted(split, id, Adjusted(p), dest);
      if g.Ok? {
        assert g.value[1..] == split;
      }
    case Remove(id) =>
      TotalWithout(split, id);
      assert NonNegative(split);
      ShareWithinTotal(split, id);
    case Deallocate(id) =>
      DeallocatedKeepsBounds(split, id);
  }

  /**
   * Whatever is asked of a new miner, its shares never exceed the whole of it and there are
   * never more than twenty of them.
   */
  lemma {:induction false} AnyRunKeepsBounds(split: seq<Split>, changes: seq<Change>)
    requires AtLeastMinimum(split) && TotalShare(split) <= 1.0
    ensures AtLeastMinimum(ApplyAll(split, changes))
    ensures TotalShare(ApplyAll(split, changes)) <= 1.0
    ensures |ApplyAll(split, changes)| <= 20
    decreases |changes|
  {
    if changes == [] {
      CountIsBounded(split);
    } else {
      ApplyKeepsBounds(split, changes[0]);
      AnyRunKeepsBounds(Apply(split, changes[0]), changes[1..]);
    }
  }

  lemma ThreeGrants(c: Split, o: Split, dest: string)
    requires c == Split("c", 0.3, dest) && o == Split("o", 0.3, dest)
    ensures ApplyAll([], [Allocate("c", 0.3, dest), Allocate("o", 0.3, dest), Allocate("c", 0.3, dest)]) == [c, o, c]
  {
    var changes := [Allocate("c", 0.3, dest), Allocate("o", 0.3, dest), Allocate("c", 0.3, dest)];
    assert [c][1..] == [] && [o, c][1..] == [c];
    assert TotalShare([c]) == 0.3 && TotalShare([o, c]) == 0.6;
    assert Apply([], changes[0]) == [c] && Apply([c], changes[1]) == [o, c] && Apply([o, c], changes[2]) == [c, o, c];
    assert changes[1..][1..] == [changes[2]] && changes[1..][1..][1..] == [];
    assert ApplyAll([o, c], changes[1..][1..]) == [c, o, c];
    assert ApplyAll([c], changes[1..]) == [c, o, c];
  }

  /**
   * Three grants bring a new miner to a list on which deallocation runs out of bounds: the contract has the first
   * and the last share. On a list where it has two shares in a row, one of them stays.
   */
  lemma DeallocationCanCrash(dest: string)
    ensures var c, o := Split("c", 0.3, dest), Split("o", 0.3, dest);
            && ApplyAll([], [Allocate("c", 0.3, dest), Allocate("o", 0.3, dest), Allocate("c", 0.3, dest)]) == [c, o, c]
            && DeallocationCrashes([c, o, c], "c") && Deallocated([c, o, c], "c") == [o]
            && !DeallocationCrashes([c, c, o], "c") && Deallocated([c, c, o], "c") == [c, o]
  {
    var c, o := Split("c", 0.3, dest), Split("o", 0.3, dest);
    ThreeGrants(c, o, dest);
    assert [c, o, c][2..] == [c] && [c, c, o][2..] == [o] && [o][1..] == [];
    assert Deallocated([o], "c") == [o];
  }
}

/** The mutable list of shares of one miner. */
module DestSplits {
  import opened Wrappers
  import opened Splits

  class DestSplit {
    var split: seq<Split>

    constructor ()
      ensures split == []
    {
      split := [];
    }

    method GetAllocated() returns (total: real)
      ensures total == TotalShare(split)
    {
      total := 0.0;
      for i := 0 to |split|
        invariant total == TotalShare(split[..i])
      {
        assert split[..i + 1] == split[..i] + [split[i]];
        TotalOfConcat(split[..i], [split[i]]);
        assert TotalShare([split[i]]) == split[i].percentage;
        total := total + split[i].percentage;
      }
      assert split[..|split|] == split;
    }

    method GetUnallocated() returns (spare: real)
      ensures spare == 1.0 - TotalShare(split)
    {
      var total := GetAllocated();
      spare := 1.0 - total;
    }

    /** Adds a share in front, after rounding it to the smallest or the whole share. */
    method Allocate(id: string, percentage: real, dest: string) returns (result: Result<Split, AllocationError>)
      modifies this
      ensures var g := Granted(old(split), id, Adjusted(percentage), dest);
              match g
              case Ok(s) => split == s && result == Ok(s[0])
              case Err(e) => split == old(split) && result == Err(e)
    {
      result := AllocateExactly(id, Adjusted(percentage), dest);
    }

    method AllocateExactly(id: string, percentage: real, dest: string) returns (result: Result<Split, AllocationError>)
      modifies this
      ensures var g := Granted(old(split), id, percentage, dest);
              match g
              case Ok(s) => split == s && result == Ok(s[0])
              case Err(e) => split == old(split) && result == Err(e)
    {
      if percentage > 1.0 || percentage == 0.0 {
        return Err(OutOfRange);
      }
      var spare := GetUnallocated();
      if percentage > spare {
        return Err(WouldExceedOne);
      }
      var newSplit := [Split(id, percentage, dest)];
      split := newSplit + split;
      result := Ok(newSplit[0]);
    }

    /** Gives whatever is left of the miner to one destination. */
    method AllocateRemaining(id: string, dest: string)
      modifies this
      ensures split == if TotalShare(old(split)) == 1.0 || TotalShare(old(split)) < 0.0 then old(split)
                       else [Split(id, 1.0 - TotalShare(old(split)), dest)] + old(split)
    {
      var remaining := GetUnallocated();
      if remaining == 0.0 {
        return;
      }
      var _ := AllocateExactly(id, remaining, dest);
    }

    method IncreaseAllocation(id: string, percentage: real) returns (ok: bool)
      modifies this
      ensures ok == Has(old(split), id)
      ensures split == WithShare(old(split), id, ShareOf(old(split), id) + percentage)
    {
      for i := 0 to |split|
        invariant split == old(split)
        invariant forall j :: 0 <= j < i ==> split[j].id != id
      {
        if split[i].id == id {
          FirstIndex(split, id, i);
          split := split[i := Split(id, split[i].percentage + percentage, split[i].dest)];
          return true;
        }
      }
      FirstIndex(split, id, |split|);
      ok := false;
    }

    method SetFractionByID(id: string, fraction: real) returns (ok: bool)
      modifies this
      ensures ok == Has(old(split), id)
      ensures split == WithShare(old(split), id, fraction)
    {
      for i := 0 to |split|
        invariant split == old(split)
        invariant forall j :: 0 <= j < i ==> split[j].id != id
      {
        if split[i].id == id {
          FirstIndex(split, id, i);
          split := split[i := Split(id, fraction, split[i].dest)];
          return true;
        }
      }
      FirstIndex(split, id, |split|);
      ok := false;
    }

    method RemoveByID(id: string) returns (ok: bool)
      modifies this
      ensures ok == Has(old(split), id)
      ensures split == Without(old(split), id)
    {
      for i := 0 to |split|
        invariant split == old(split)
        invariant forall j :: 0 <= j < i ==> split[j].id != id
      {
        if split[i].id == id {
          FirstIndex(split, id, i);
          split := split[..i] + split[i + 1..];
          return true;
        }
      }
      FirstIndex(split, id, |split|);
      ok := false;
    }

    /** A copy that keeps shares and destinations but not the contract ids. */
    method Copy() returns (copy: DestSplit)
      ensures fresh(copy)
      ensures copy.split == Anonymous(split)
    {
      var newSplit: seq<Split> := [];
      for i := 0 to |split|
        invariant newSplit == Anonymous(split)[..i]
      {
        newSplit := newSplit + [Split("", split[i].percentage, split[i].dest)];
      }
      copy := new DestSplit();
      copy.split := newSplit;
    }
  }

  function Anonymous(split: seq<Split>): (r: seq<Split>)
    ensures |r| == |split|
    ensures forall i :: 0 <= i < |r| ==> r[i].percentage == split[i].percentage && r[i].dest == split[i].dest
  {
    seq(|split|, i requires 0 <= i < |split| => Split("", split[i].percentage, split[i].dest))
  }
}
