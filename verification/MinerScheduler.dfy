/** One miner: its shares, how a share is taken away, and its dispatch cycle. */
module MinerScheduler {
  import opened Wrappers
  import opened Arithmetic
  import opened Splits
  import opened DestSplits

  const DEFAULT_DEST_ID := "default-dest"

  // ---- deallocation

  datatype Removal = Removed(length: nat, ok: bool) | OutOfBounds(length: nat)

  function Shifted(b: seq<Split>, i: nat, length: nat): (r: seq<Split>)
    requires i < length <= |b|
    ensures |r| == |b|
  {
    b[..i] + b[i + 1..length] + b[length - 1..]
  }

  /** Moves buf[i + 1..length] one place down, as append(s[:i], s[i+1:]...) does in shared storage. */
  method ShiftDown(buf: array<Split>, i: nat, length: nat)
    requires i < length <= buf.Length
    modifies buf
    ensures buf[..] == Shifted(old(buf[..]), i, length)
  {
    for k := i to length - 1
      invariant forall p :: 0 <= p < i ==> buf[p] == old(buf[p])
      invariant forall p :: i <= p < k ==> buf[p] == old(buf[p + 1])
      invariant forall p :: k <= p < buf.Length ==> buf[p] == old(buf[p])
    {
      buf[k] := buf[k + 1];
    }
    assert buf[..] == Shifted(old(buf[..]), i, length);
  }

  /** What deallocation leaves of the list from place k on. */
  ghost function Remains(s: seq<Split>, k: nat, id: string): seq<Split>
    requires k <= |s|
  {
    Deallocated(s[k..], id)
  }

  /**
   * Where the scan for id over the list s stands: i places visited, length shares left, b the storage.
   * Beyond length the storage keeps copies of the last share.
   */
  ghost predicate Scanning(s: seq<Split>, b: seq<Split>, i: nat, length: nat, id: string) {
    && i <= |s| && length <= |s| <= |b|
    && (length < |s| <==> IndexOf(s, id) < i)
    && (forall p :: i <= p < length ==> b[p] == s[p + (|s| - length)])
    && (forall p :: length <= p < |s| ==> b[p] == s[|s| - 1])
    && (if i <= length then Remains(s, 0, id) == b[..i] + Remains(s, i + (|s| - length), id)
        else Remains(s, 0, id) == b[..length]
             && (s[|s| - 1].id != id || (i == length + 1 && (length == |s| - 1 ==> IndexOf(s, id) == |s| - 1))))
  }

  lemma ScanStarts(s: seq<Split>, b: seq<Split>, id: string)
    requires s <= b
    ensures Scanning(s, b, 0, |s|, id)
  {
    assert s[0..] == s && b[..0] + Deallocated(s, id) == Deallocated(s, id);
  }

  lemma ScanSkips(s: seq<Split>, b: seq<Split>, i: nat, length: nat, id: string)
    requires Scanning(s, b, i, length, id) && i < |s| && b[i].id != id
    ensures Scanning(s, b, i + 1, length, id)
  {
    if i < length {
      ScanSkipsLive(s, b, i, length, id);
    } else if i == length {
      assert Deallocated(s[i + (|s| - length)..], id) == [];
    }
  }

  lemma RemainsSkips(s: seq<Split>, k: nat, id: string)
    requires k < |s| && s[k].id != id
    ensures Remains(s, k, id) == [s[k]] + Remains(s, k + 1, id)
  {
    assert s[k..][1..] == s[k + 1..];
    DeallocatedKeepsHead(s[k..], id);
  }

  lemma RemainsRemoves(s: seq<Split>, k: nat, id: string)
    requires k < |s| && s[k].id == id
    ensures Remains(s, k, id) == if k + 1 < |s| then [s[k + 1]] + Remains(s, k + 2, id) else []
  {
    if k + 1 < |s| { assert s[k..][2..] == s[k + 2..]; }
  }

  lemma ScanSkipsLive(s: seq<Split>, b: seq<Split>, i: nat, length: nat, id: string)
    requires Scanning(s, b, i, length, id) && i < length && b[i].id != id
    ensures Scanning(s, b, i + 1, length, id)
  {
    var k := i + (|s| - length);
    assert b[i] == s[k];
    RemainsSkips(s, k, id);
    TakeOneMore(b, i, [b[i]], Remains(s, k + 1, id));
  }

  lemma TakeOneMore<T>(b: seq<T>, i: nat, here: seq<T>, rest: seq<T>)
    requires i < |b| && here == [b[i]]
    ensures b[..i] + (here + rest) == b[..i + 1] + rest
  {
  }

  lemma DeallocatedKeepsHead(s: seq<Split>, id: string)
    requires s != [] && s[0].id != id
    ensures Deallocated(s, id) == [s[0]] + Deallocated(s[1..], id)
  {
  }

  lemma ScanRemoves(s: seq<Split>, b: seq<Split>, i: nat, length: nat, id: string)
    requires Scanning(s, b, i, length, id) && i < length && b[i].id == id
    ensures Scanning(s, Shifted(b, i, length), i + 1, length - 1, id)
  {
    var k := i + (|s| - length);
    assert b[i] == s[k];
    if k == i { FirstIndex(s, id, i); }
    RemainsRemoves(s, k, id);
    if k + 1 < |s| { ScanRemovesInner(s, b, i, length, id); } else { ScanRemovesLast(s, b, i, length, id); }
  }

  lemma ScanRemovesInner(s: seq<Split>, b: seq<Split>, i: nat, length: nat, id: string)
    requires Scanning(s, b, i, length, id) && i + 1 < length && IndexOf(s, id) < i + 1
    requires var k := i + (|s| - length);
             s[k].id == id && Remains(s, k, id) == [s[k + 1]] + Remains(s, k + 2, id)
    ensures Scanning(s, Shifted(b, i, length), i + 1, length - 1, id)
  {
    var k, c := i + (|s| - length), Shifted(b, i, length);
    ShiftedPlaces(s, b, i, length);
    assert c[..i] == b[..i];
    assert c[i] == b[i + 1] == s[k + 1];
    TakeOneMore(c, i, [s[k + 1]], Remains(s, k + 2, id));
  }

  /** Where the shares of the list are after one more removal. */
  lemma ShiftedPlaces(s: seq<Split>, b: seq<Split>, i: nat, length: nat)
    requires i < length <= |s| <= |b|
    requires forall p :: i <= p < length ==> b[p] == s[p + (|s| - length)]
    requires forall p :: length <= p < |s| ==> b[p] == s[|s| - 1]
    ensures var c := Shifted(b, i, length);
            && (forall p :: i + 1 <= p < length - 1 ==> c[p] == s[p + (|s| - (length - 1))])
            && (forall p :: length - 1 <= p < |s| ==> c[p] == s[|s| - 1])
  {
    var c := Shifted(b, i, length);
    forall p | i + 1 <= p < length - 1 ensures c[p] == s[p + (|s| - (length - 1))] {
      assert b[p + 1] == s[p + 1 + (|s| - length)];
    }
  }

  lemma ScanRemovesLast(s: seq<Split>, b: seq<Split>, i: nat, length: nat, id: string)
    requires Scanning(s, b, i, length, id) && i + 1 == length && IndexOf(s, id) < i + 1
    requires s[|s| - 1].id == id && Remains(s, |s| - 1, id) == [] && (length == |s| ==> IndexOf(s, id) == |s| - 1)
    ensures Scanning(s, Shifted(b, i, length), i + 1, length - 1, id)
  {
    var c := Shifted(b, i, length);
    assert b[..i] + [] == c[..length - 1];
  }

  datatype ScanResult = Done(left: seq<Split>, ok: bool) | Crash(left: seq<Split>)

  /** How deallocating id from the list s ends. Either way what is left is the deallocated list. */
  function ScanOutcome(s: seq<Split>, id: string): ScanResult {
    if DeallocationCrashes(s, id) then Crash(Deallocated(s, id)) else Done(Deallocated(s, id), Has(s, id))
  }

  lemma ScanCrashes(s: seq<Split>, b: seq<Split>, i: nat, length: nat, id: string)
    requires Scanning(s, b, i, length, id) && length <= i < |s| && b[i].id == id
    ensures Same(Crash(b[..length]), ScanOutcome(s, id))
  {
    if i == length {
      assert s[|s|..] == [];
      assert b[..length] + [] == b[..length];
    }
  }

  lemma ScanEnds(s: seq<Split>, b: seq<Split>, length: nat, id: string)
    requires Scanning(s, b, |s|, length, id)
    ensures Same(Done(b[..length], length < |s|), ScanOutcome(s, id))
  {
    if length == |s| {
      assert s[|s|..] == [];
      assert b[..length] + [] == b[..length];
    }
  }

  /** The scan from place i on, over storage b of which the first length places are the list. */
  function ScanFrom(b: seq<Split>, n: nat, i: nat, length: nat, id: string): ScanResult
    requires i <= n <= |b| && length <= n
    decreases n - i
  {
    if i == n then Done(b[..length], length < n)
    else if b[i].id != id then ScanFrom(b, n, i + 1, length, id)
    else if length < i + 1 then Crash(b[..length])
    else ScanFrom(Shifted(b, i, length), n, i + 1, length - 1, id)
  }

  lemma {:induction false} ScanFromMeaning(s: seq<Split>, b: seq<Split>, i: nat, length: nat, id: string)
    requires Scanning(s, b, i, length, id)
    ensures Same(ScanFrom(b, |s|, i, length, id), ScanOutcome(s, id))
    decreases |s| - i
  {
    if i == |s| {
      ScanEnds(s, b, length, id);
    } else if b[i].id != id {
      ScanSkips(s, b, i, length, id);
      ScanFromMeaning(s, b, i + 1, length, id);
    } else if length < i + 1 {
      ScanCrashes(s, b, i, length, id);
    } else {
      ScanRemoves(s, b, i, length, id);
      ScanFromMeaning(s, Shifted(b, i, length), i + 1, length - 1, id);
    }
  }

  /**
   * Takes the shares of a contract out of a list of n shares kept at the front of buf. The loop ranges over
   * the list as it was, while each removal moves the later shares one place down in the same storage.
   */
  method DeallocateInPlace(buf: array<Split>, n: nat, id: string) returns (result: Removal)
    requires n <= buf.Length
    modifies buf
    ensures match result
            case OutOfBounds(length) =>
              length <= n && ScanFrom(old(buf[..]), n, 0, n, id) == Crash(buf[..length])
            case Removed(length, ok) =>
              length <= n && ScanFrom(old(buf[..]), n, 0, n, id) == Done(buf[..length], ok)
  {
    ghost var meant := ScanFrom(buf[..], n, 0, n, id);
    var length, ok := n, false;
    for i := 0 to n
      invariant 0 <= length <= n
      invariant meant == ScanFrom(buf[..], n, i, length, id)
      invariant ok <==> length < n
    {
      if buf[i].id == id {
        if i + 1 > length {
          return OutOfBounds(length);
        }
        ShiftDown(buf, i, length);
        length, ok := length - 1, true;
      }
    }
    result := Removed(length, ok);
  }

  // ---- the dispatch cycle

  /** Time each destination of a cycle is mined for, in nanoseconds. */
  function SlotNanos(cycle: nat, s: Split): int {
    Truncate(cycle as real * s.percentage)
  }

  function CycleNanos(cycle: nat, split: seq<Split>): int {
    if split == [] then 0 else SlotNanos(cycle, split[0]) + CycleNanos(cycle, split[1..])
  }

  function CycleSplit(split: seq<Split>, defaultDest: string): seq<Split> {
    var spare := 1.0 - TotalShare(split);
    if spare == 0.0 then Anonymous(split) else [Split(DEFAULT_DEST_ID, spare, defaultDest)] + Anonymous(split)
  }

  lemma {:induction false} AnonymousTotal(split: seq<Split>)
    ensures TotalShare(Anonymous(split)) == TotalShare(split)
    ensures NonNegative(split) ==> NonNegative(Anonymous(split))
  {
    if split != [] {
      assert Anonymous(split)[1..] == Anonymous(split[1..]);
      AnonymousTotal(split[1..]);
    }
  }

  lemma CopyTotal(split: seq<Split>)
    requires NonNegative(split)
    ensures TotalShare(Anonymous(split)) == TotalShare(split) >= 0.0
  {
    AnonymousTotal(split);
    TotalIsNonNegative(split);
  }

  /** The destinations of a cycle share out exactly the whole miner. */
  lemma CycleIsWhole(split: seq<Split>, defaultDest: string)
    requires Sound(split)
    ensures TotalShare(CycleSplit(split, defaultDest)) == 1.0
    ensures NonNegative(CycleSplit(split, defaultDest))
  {
    AnonymousTotal(split);
    assert CycleSplit(split, defaultDest) != Anonymous(split) ==>
        CycleSplit(split, defaultDest)[1..] == Anonymous(split);
  }

  /**
   * A cycle serves the contracts in the order of the list with the shares they have there; what they leave,
   * if anything, goes to the default destination first.
   */
  lemma CycleServesShares(split: seq<Split>, defaultDest: string)
    ensures var slots, spare := CycleSplit(split, defaultDest), 1.0 - TotalShare(split);
            var first := if spare == 0.0 then 0 else 1;
            && |slots| == first + |split|
            && (first == 1 ==> slots[0].percentage == spare && slots[0].dest == defaultDest)
            && forall i :: 0 <= i < |split| ==> Serves(slots[first + i], split[i])
  {
    var slots, spare, rest := CycleSplit(split, defaultDest), 1.0 - TotalShare(split), Anonymous(split);
    forall i | 0 <= i < |split| ensures Serves(rest[i], split[i]) {
    }
    if spare != 0.0 {
      assert forall i :: 0 <= i < |split| ==> slots[1 + i] == rest[i];
    }
  }

  ghost predicate Serves(slot: Split, share: Split) {
    slot.percentage == share.percentage && slot.dest == share.dest
  }

  lemma {:induction false} CycleNanosBounds(cycle: nat, split: seq<Split>)
    requires NonNegative(split)
    ensures CycleNanos(cycle, split) as real <= cycle as real * TotalShare(split)
    ensures split != [] ==>
      cycle as real * TotalShare(split) < CycleNanos(cycle, split) as real + |split| as real
  {
    if split == [] {
      assert cycle as real * 0.0 == 0.0;
    } else {
      var first, rest := split[0].percentage, split[1..];
      assert NonNegative(rest);
      CycleNanosBounds(cycle, rest);
      ProductSign(cycle as real, first);
      assert cycle as real * TotalShare(split) == cycle as real * first + cycle as real * TotalShare(rest);
      if rest == [] { assert cycle as real * TotalShare(rest) == 0.0; }
    }
  }

  /** A cycle of n destinations lasts the cycle time, less a rounding loss of fewer than n nanoseconds. */
  lemma CycleLength(cycle: nat, split: seq<Split>, defaultDest: string)
    requires Sound(split)
    ensures var slots := CycleSplit(split, defaultDest);
            cycle - |slots| < CycleNanos(cycle, slots) <= cycle
  {
    var slots := CycleSplit(split, defaultDest);
    CycleIsWhole(split, defaultDest);
    CycleNanosBounds(cycle, slots);
    assert cycle as real * 1.0 == cycle as real;
  }

  class OnDemandMinerScheduler {
    const id: string
    const hashrateGHS: pos
    const vetted: bool
    const destSplit: DestSplit
    const defaultDest: string
    const destMinUptime: nat
    const destMaxUptime: nat
    var currentDest: string
    var lastDestChangeAt: int

    constructor (id: string, hashrateGHS: pos, vetted: bool, destSplit: DestSplit, defaultDest: string,
                 destMinUptime: nat, destMaxUptime: nat)
      ensures this.id == id && this.hashrateGHS == hashrateGHS && this.vetted == vetted
      ensures this.destSplit == destSplit && this.defaultDest == defaultDest
      ensures this.destMinUptime == destMinUptime && this.destMaxUptime == destMaxUptime
    {
      this.id, this.hashrateGHS, this.vetted, this.destSplit := id, hashrateGHS, vetted, destSplit;
      this.defaultDest, this.destMinUptime, this.destMaxUptime := defaultDest, destMinUptime, destMaxUptime;
      currentDest, lastDestChangeAt := defaultDest, 0;
    }

    function CycleDuration(): nat {
      destMinUptime + destMaxUptime
    }

    method Allocate(contract: string, percentage: real, dest: string) returns (result: Result<Split, AllocationError>)
      modifies destSplit
      ensures var g := Granted(old(destSplit.split), contract, Adjusted(percentage), dest);
              match g
              case Ok(s) => destSplit.split == s && result == Ok(s[0])
              case Err(e) => destSplit.split == old(destSplit.split) && result == Err(e)
    {
      result := destSplit.Allocate(contract, percentage, dest);
    }

    /**
     * Removal of a contract by the scan over shared storage; None when the scan runs out of bounds, which leaves the
     * list as the removals before have made it.
     */
    method Deallocate(contract: string) returns (ok: Option<bool>)
      modifies destSplit
      ensures ok.None? <==> DeallocationCrashes(old(destSplit.split), contract)
      ensures ok.Some? ==> ok.value == Has(old(destSplit.split), contract)
      ensures destSplit.split == Deallocated(old(destSplit.split), contract)
    {
      var s := destSplit.split;
      var buf := new Split[|s|](i requires 0 <= i < |s| => s[i]);
      assert buf[..] == buf[..|s|] == s;
      ScanStarts(s, s, contract);
      ScanFromMeaning(s, s, 0, |s|, contract);
      var removal := DeallocateInPlace(buf, |s|, contract);
      match removal
      case OutOfBounds(length) =>
        destSplit.split := buf[..length];
        ok := None;
      case Removed(length, found) =>
        destSplit.split := buf[..length];
        ok := Some(found);
    }

    method GetDest() returns (dest: DestSplit)
      requires Sound(destSplit.split)
      ensures fresh(dest)
      ensures dest.split == CycleSplit(destSplit.split, defaultDest)
    {
      CopyTotal(destSplit.split);
      dest := destSplit.Copy();
      dest.AllocateRemaining(DEFAULT_DEST_ID, defaultDest);
    }

    /** Points the miner at one destination for its part of the cycle. */
    method Dispatch(slot: Split, now: int) returns (after: int)
      modifies this
      ensures currentDest == slot.dest && after == now + SlotNanos(CycleDuration(), slot)
      ensures lastDestChangeAt == if old(currentDest) == slot.dest then old(lastDestChangeAt) else now
    {
      if currentDest != slot.dest {
        currentDest := slot.dest;
        lastDestChangeAt := now;
      }
      after := now + SlotNanos(CycleDuration(), slot);
    }

    /**
     * One dispatch cycle that starts at time now. It is cut short after the given number of waits,
     * as a restart of the cycle does. The slots are those of the shares the cycle started with.
     */
    method RunCycle(now: int, waits: nat) returns (slots: seq<Split>, after: int)
      requires Sound(destSplit.split)
      modifies this
      ensures slots == CycleSplit(old(destSplit.split), defaultDest)
      ensures var done := if waits < |slots| then slots[..waits] else slots;
              after == now + CycleNanos(CycleDuration(), done)
              && (done != [] ==> currentDest == done[|done| - 1].dest)
      ensures lastDestChangeAt == old(lastDestChangeAt) || now <= lastDestChangeAt <= after
    {
      CycleIsWhole(destSplit.split, defaultDest);
      var dest := GetDest();
      slots := dest.split;
      after := RunSlots(slots, now, if waits < |slots| then waits else |slots|);
      assert slots[..|slots|] == slots;
    }

    method RunSlots(slots: seq<Split>, now: int, waits: nat) returns (after: int)
      requires waits <= |slots| && NonNegative(slots)
      modifies this
      ensures after == now + CycleNanos(CycleDuration(), slots[..waits])
      ensures waits > 0 ==> currentDest == slots[waits - 1].dest
      ensures lastDestChangeAt == old(lastDestChangeAt) || now <= lastDestChangeAt <= after
    {
      after := now;
      ghost var spent := CycleNanos(CycleDuration(), slots[..0]);
      var i := 0;
      while i < waits
        invariant 0 <= i <= waits && spent == CycleNanos(CycleDuration(), slots[..i])
        invariant now <= after == now + spent
        invariant i > 0 ==> currentDest == slots[i - 1].dest
        invariant lastDestChangeAt == old(lastDestChangeAt) || now <= lastDestChangeAt <= after
      {
        CycleNanosSnoc(CycleDuration(), slots, i);
        spent := CycleNanos(CycleDuration(), slots[..i + 1]);
        after := Dispatch(slots[i], after);
        i := i + 1;
      }
    }
  }

  lemma {:induction false} CycleNanosSnoc(cycle: nat, split: seq<Split>, i: nat)
    requires i < |split|
    ensures CycleNanos(cycle, split[..i + 1]) == CycleNanos(cycle, split[..i]) + SlotNanos(cycle, split[i])
    ensures split[i].percentage >= 0.0 ==> SlotNanos(cycle, split[i]) >= 0
  {
    ProductSign(cycle as real, split[i].percentage);
    if i == 0 {
      assert split[..1] == [split[0]];
    } else {
      assert split[..i + 1][1..] == split[1..][..i] && split[..i][1..] == split[1..][..i - 1];
      CycleNanosSnoc(cycle, split[1..], i - 1);
    }
  }
}
