/** The Merkle root of a list of hashes, computed bottom-up in one flat array. */
module MerkleRoots {
  import opened Wrappers
  import opened Arithmetic

  // ---- the size of the array

  function And(a: nat, b: nat): nat {
    if a == 0 || b == 0 then 0
    else 2 * And(a / 2, b / 2) + (if a % 2 == 1 && b % 2 == 1 then 1 else 0)
  }

  function FloorLog2(n: nat): nat {
    if n < 2 then 0 else 1 + FloorLog2(n / 2)
  }

  function Pow2(e: nat): (p: nat)
    ensures p > 0
  {
    if e == 0 then 1 else 2 * Pow2(e - 1)
  }

  function NextPowerOfTwo(n: nat): nat
    requires n > 0
  {
    if And(n, n - 1) == 0 then n else Pow2(FloorLog2(n) + 1)
  }

  ghost predicate IsPowerOfTwo(n: nat) {
    n == 1 || (n > 0 && n % 2 == 0 && IsPowerOfTwo(n / 2))
  }

  lemma {:induction false} AndSame(n: nat)
    ensures And(n, n) == n
  {
    if n > 0 { AndSame(n / 2); }
  }

  /** The bit test for powers of two is right. */
  lemma {:induction false} AndTellsPowers(n: nat)
    requires n > 0
    ensures And(n, n - 1) == 0 <==> IsPowerOfTwo(n)
  {
    if n > 1 {
      if n % 2 == 1 {
        assert And(n, n - 1) == 2 * And(n / 2, n / 2);
        AndSame(n / 2);
      } else {
        assert (n - 1) / 2 == n / 2 - 1;
        AndTellsPowers(n / 2);
      }
    }
  }

  lemma {:induction false} Pow2IsPower(e: nat)
    ensures IsPowerOfTwo(Pow2(e))
  {
    if e > 0 {
      Pow2IsPower(e - 1);
      assert Pow2(e) / 2 == Pow2(e - 1);
    }
  }

  lemma {:induction false} FloorLog2Bounds(n: nat)
    requires n > 0
    ensures Pow2(FloorLog2(n)) <= n < 2 * Pow2(FloorLog2(n))
  {
    if n >= 2 { FloorLog2Bounds(n / 2); }
  }

  lemma {:induction false} PowersDouble(p: nat, q: nat)
    requires IsPowerOfTwo(p) && IsPowerOfTwo(q) && p < q
    ensures 2 * p <= q
  {
    if p > 1 {
      PowersDouble(p / 2, q / 2);
    }
  }

  /** The size computed is the smallest power of two at or above n. */
  lemma NextPowerOfTwoIsLeast(n: nat)
    requires n > 0
    ensures var p := NextPowerOfTwo(n);
            IsPowerOfTwo(p) && n <= p && forall q: nat :: IsPowerOfTwo(q) && n <= q ==> p <= q
  {
    AndTellsPowers(n);
    FloorLog2Bounds(n);
    Pow2IsPower(FloorLog2(n));
    Pow2IsPower(FloorLog2(n) + 1);
    forall q: nat | IsPowerOfTwo(q) && n <= q ensures NextPowerOfTwo(n) <= q {
      if !IsPowerOfTwo(n) {
        assert q != n && Pow2(FloorLog2(n)) != n;
        PowersDouble(Pow2(FloorLog2(n)), q);
      }
    }
  }

  // ---- the root of a tree

  /** The hash of pair i of a level; the last node of an odd level is paired with itself. */
  function Pair<H>(level: seq<H>, i: nat, h: (H, H) -> H): H
    requires 2 * i < |level|
  {
    h(level[2 * i], if 2 * i + 1 < |level| then level[2 * i + 1] else level[2 * i])
  }

  function NextLevel<H>(level: seq<H>, h: (H, H) -> H): (next: seq<H>)
    ensures |next| == (|level| + 1) / 2
    ensures forall i :: 0 <= i < |next| ==> next[i] == Pair(level, i, h)
  {
    seq((|level| + 1) / 2, i requires 0 <= i < (|level| + 1) / 2 => Pair(level, i, h))
  }

  function Root<H>(level: seq<H>, h: (H, H) -> H): H
    requires level != []
    decreases |level|
  {
    if |level| == 1 then level[0] else Root(NextLevel(level, h), h)
  }

  lemma RepeatedNodeInLevel<H>(level: seq<H>, longer: seq<H>, h: (H, H) -> H)
    requires |level| % 2 == 1 && longer == level + [level[|level| - 1]]
    ensures Same(NextLevel(longer, h), NextLevel(level, h))
  {
    forall i | 0 <= i < (|level| + 1) / 2 ensures Pair(longer, i, h) == Pair(level, i, h) {
      assert longer[2 * i] == level[2 * i];
    }
    assert NextLevel(longer, h) == NextLevel(level, h);
  }

  /** Repeating the last node of an odd list does not change the root. */
  lemma RepeatedLastNode<H>(level: seq<H>, h: (H, H) -> H)
    requires |level| > 1 && |level| % 2 == 1
    ensures Root(level + [level[|level| - 1]], h) == Root(level, h)
  {
    var longer := level + [level[|level| - 1]];
    RepeatedNodeInLevel(level, longer, h);
    RootStep(longer, h);
    RootStep(level, h);
  }

  lemma RootStep<H>(level: seq<H>, h: (H, H) -> H)
    requires |level| > 1
    ensures Same(Root(level, h), Root(NextLevel(level, h), h))
  {
  }

  // ---- the flat array

  /** What the source puts into a parent slot. */
  function Parent<H>(left: Option<H>, right: Option<H>, h: (H, H) -> H): Option<H> {
    match (left, right)
    case (None, _) => None
    case (Some(l), None) => Some(h(l, l))
    case (Some(l), Some(r)) => Some(h(l, r))
  }

  ghost function Padded<H>(level: seq<H>, size: nat): (slots: seq<Option<H>>)
    requires |level| <= size
    ensures |slots| == size
  {
    seq(size, i requires 0 <= i < size => if i < |level| then Some(level[i]) else None)
  }

  /** All levels one after the other, each filled up to its power of two. */
  ghost function Slots<H>(level: seq<H>, size: nat, h: (H, H) -> H): (slots: seq<Option<H>>)
    requires level != [] && |level| <= size && IsPowerOfTwo(size)
    ensures |slots| == 2 * size - 1
    decreases size
  {
    if size == 1 then Padded(level, 1)
    else Padded(level, size) + Slots(NextLevel(level, h), size / 2, h)
  }

  /** In the first level, every slot of the next is the parent of its two neighbours. */
  lemma FirstLevelParents<H>(level: seq<H>, half: nat, h: (H, H) -> H, j: nat)
    requires |level| <= 2 * half && j < half
    ensures Padded(NextLevel(level, h), half)[j] == Parent(Padded(level, 2 * half)[2 * j], Padded(level, 2 * half)[2 * j + 1], h)
  {
    if 2 * j < |level| {
      assert NextLevel(level, h)[j] == Pair(level, j, h);
    }
  }

  lemma FirstSlots<H>(level: seq<H>, size: nat, h: (H, H) -> H, i: nat)
    requires level != [] && |level| <= size && IsPowerOfTwo(size) && i < size
    ensures Slots(level, size, h)[i] == Padded(level, size)[i]
  {
  }

  lemma FurtherSlots<H>(level: seq<H>, size: nat, h: (H, H) -> H, i: nat)
    requires level != [] && |level| <= size && IsPowerOfTwo(size) && i < size - 1
    ensures size % 2 == 0 && IsPowerOfTwo(size / 2)
    ensures Slots(level, size, h)[size + i] == Slots(NextLevel(level, h), size / 2, h)[i]
  {
    var rest := Slots(NextLevel(level, h), size / 2, h);
    assert (Padded(level, size) + rest)[size + i] == rest[i];
  }

  /** Every slot past the leaves is the parent of the two slots that the loop takes it from. */
  lemma {:induction false} SlotsAreParents<H>(level: seq<H>, size: nat, h: (H, H) -> H, j: nat)
    requires level != [] && |level| <= size && IsPowerOfTwo(size) && j < size - 1
    ensures var slots := Slots(level, size, h);
            slots[size + j] == Parent(slots[2 * j], slots[2 * j + 1], h)
    decreases size
  {
    FurtherSlots(level, size, h, j);
    if 2 * j < size {
      ParentsOfFirst(level, size, h, j);
    } else {
      SlotsAreParents(NextLevel(level, h), size / 2, h, j - size / 2);
      FurtherSlots(level, size, h, 2 * j - size);
      FurtherSlots(level, size, h, 2 * j + 1 - size);
    }
  }

  lemma ParentsOfFirst<H>(level: seq<H>, size: nat, h: (H, H) -> H, j: nat)
    requires level != [] && |level| <= size && IsPowerOfTwo(size) && 2 * j < size - 1
    ensures Slots(NextLevel(level, h), size / 2, h)[j] == Parent(Slots(level, size, h)[2 * j], Slots(level, size, h)[2 * j + 1], h)
  {
    FirstSlots(level, size, h, 2 * j);
    FirstSlots(level, size, h, 2 * j + 1);
    FirstSlots(NextLevel(level, h), size / 2, h, j);
    FirstLevelParents(level, size / 2, h, j);
  }

  /** The last slot is the root when the leaves fill more than half of their slots. */
  lemma {:induction false} LastSlotIsRoot<H>(level: seq<H>, size: nat, h: (H, H) -> H)
    requires level != [] && |level| <= size < 2 * |level| && IsPowerOfTwo(size)
    ensures Slots(level, size, h)[2 * size - 2] == Some(Root(level, h))
    decreases size
  {
    if size == 1 {
      FirstSlots(level, size, h, 0);
    } else {
      FurtherSlots(level, size, h, size - 2);
      LastSlotIsRoot(NextLevel(level, h), size / 2, h);
    }
  }

  // ---- which slots are filled

  /** Where level k starts in the array. */
  ghost function LevelStart(size: nat, k: nat): nat {
    if k == 0 then 0 else size + LevelStart(size / 2, k - 1)
  }

  ghost function LevelSize(n: nat, k: nat): nat {
    if k == 0 then n else LevelSize((n + 1) / 2, k - 1)
  }

  /** A level k above n leaves has n / 2^k nodes, rounded up. */
  lemma {:induction false} LevelSizeRoundsUp(n: nat, k: nat)
    ensures LevelSize(n, k) == (n + Pow2(k) - 1) / Pow2(k)
  {
    if k > 0 {
      LevelSizeRoundsUp((n + 1) / 2, k - 1);
      HalvesRoundUp(n, Pow2(k - 1));
    }
  }

  lemma HalvesRoundUp(n: nat, p: nat)
    requires p > 0
    ensures ((n + 1) / 2 + p - 1) / p == (n + 2 * p - 1) / (2 * p)
  {
    var q, r := (n + 2 * p - 1) / (2 * p), (n + 2 * p - 1) % (2 * p);
    assert n + 2 * p - 1 == 2 * (p * q) + r;
    assert (n + 1) / 2 + p - 1 == p * q + r / 2;
    QuotientIs(p * q + r / 2, p, q, r / 2);
  }

  /** The filled slots of level k, which has the given width, are exactly its first n / 2^k, rounded up. */
  lemma {:induction false} FilledSlots<H>(level: seq<H>, width: nat, h: (H, H) -> H, k: nat, j: nat)
    requires var size := width * Pow2(k); level != [] && |level| <= size && IsPowerOfTwo(size)
    requires j < width
    ensures var size := width * Pow2(k);
            LevelStart(size, k) + j < 2 * size - 1
            && (Slots(level, size, h)[LevelStart(size, k) + j].Some? <==> j < LevelSize(|level|, k))
    decreases k
  {
    var size := width * Pow2(k);
    if k == 0 {
      FirstSlots(level, size, h, j);
    } else {
      HalfTheSize(width, Pow2(k - 1));
      FilledSlots(NextLevel(level, h), width, h, k - 1, j);
      FurtherSlots(level, size, h, LevelStart(size / 2, k - 1) + j);
    }
  }

  lemma HalfTheSize(width: nat, p: nat)
    requires width > 0 && p > 0
    ensures width * (2 * p) / 2 == width * p && width * (2 * p) == 2 * (width * p) >= 2
  {
  }

  // ---- the computation

  ghost predicate AllParse<H>(branches: seq<string>, parse: string -> Option<H>) {
    forall i :: 0 <= i < |branches| ==> parse(branches[i]).Some?
  }

  ghost function Parsed<H>(branches: seq<string>, parse: string -> Option<H>): (level: seq<H>)
    requires AllParse(branches, parse)
    ensures |level| == |branches|
    ensures forall i :: 0 <= i < |branches| ==> Some(level[i]) == parse(branches[i])
  {
    seq(|branches|, i requires 0 <= i < |branches| => parse(branches[i]).value)
  }

  /** Parses the leaves into the start of the array. */
  method FillLeaves<H>(branches: seq<string>, parse: string -> Option<H>, slots: array<Option<H>>) returns (ok: bool)
    requires |branches| <= slots.Length
    requires forall t :: 0 <= t < slots.Length ==> slots[t] == None
    modifies slots
    ensures ok <==> AllParse(branches, parse)
    ensures ok ==> forall t :: 0 <= t < slots.Length ==>
      slots[t] == if t < |branches| then parse(branches[t]) else None
  {
    var i := 0;
    while i < |branches|
      invariant 0 <= i <= |branches|
      invariant forall t :: 0 <= t < i ==> parse(branches[t]).Some? && slots[t] == parse(branches[t])
      invariant forall t :: i <= t < slots.Length ==> slots[t] == None
    {
      var hash := parse(branches[i]);
      if hash.None? {
        return false;
      }
      slots[i] := hash;
      i := i + 1;
    }
    ok := true;
  }

  /** Fills every level from the one below it. */
  method FillParents<H>(slots: array<Option<H>>, size: nat, h: (H, H) -> H, ghost level: seq<H>)
    requires level != [] && |level| <= size && IsPowerOfTwo(size) && slots.Length == 2 * size - 1
    requires forall t :: 0 <= t < size ==> slots[t] == Padded(level, size)[t]
    modifies slots
    ensures slots[..] == Slots(level, size, h)
  {
    ghost var want := Slots(level, size, h);
    forall t | 0 <= t < size ensures slots[t] == want[t] {
      FirstSlots(level, size, h, t);
    }
    var offset, i := size, 0;
    while i < slots.Length - 1
      invariant i % 2 == 0 && 0 <= i <= slots.Length - 1 && offset == size + i / 2
      invariant forall t :: 0 <= t < offset ==> slots[t] == want[t]
    {
      SlotsAreParents(level, size, h, i / 2);
      if slots[i].None? {
        slots[offset] := None;
      } else if slots[i + 1].None? {
        slots[offset] := Some(h(slots[i].value, slots[i].value));
      } else {
        slots[offset] := Some(h(slots[i].value, slots[i + 1].value));
      }
      offset, i := offset + 1, i + 2;
    }
  }

  /** The Merkle root of the leaves that the strings stand for; nothing for an empty list. */
  method ConvertMerkleBranchesToRoot<H>(branches: seq<string>, parse: string -> Option<H>, h: (H, H) -> H)
    returns (result: Result<Option<H>, string>)
    ensures branches == [] ==> result == Ok(None)
    ensures result.Err? <==> !AllParse(branches, parse)
    ensures branches != [] && AllParse(branches, parse) ==> result == Ok(Some(Root(Parsed(branches, parse), h)))
  {
    if |branches| == 0 {
      return Ok(None);
    }
    var size := NextPowerOfTwo(|branches|);
    NextPowerOfTwoIsLeast(|branches|);
    var slots := new Option<H>[2 * size - 1](_ => None);
    var ok := FillLeaves(branches, parse, slots);
    if !ok {
      return Err("malformed hash");
    }
    ghost var level := Parsed(branches, parse);
    FillParents(slots, size, h, level);
    MoreThanHalf(|branches|);
    LastSlotIsRoot(level, size, h);
    result := Ok(slots[slots.Length - 1]);
  }

  lemma MoreThanHalf(n: nat)
    requires n > 0
    ensures NextPowerOfTwo(n) < 2 * n
  {
    FloorLog2Bounds(n);
    NextPowerOfTwoIsLeast(n);
    Pow2IsPower(FloorLog2(n));
    AndTellsPowers(n);
  }
}
