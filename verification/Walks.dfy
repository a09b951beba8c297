/** Visiting the members of a fleet in some order, with an amount that each visit may use up. */
module Walks {
  import opened Sums
  import opened Wrappers

  /** One visit: the new state, what is left of the amount, and whether the member is reported. */
  datatype Visit<S> = Visit(state: S, left: int, listed: bool)

  datatype Walked<S> = Walked(fleet: map<string, S>, end: nat, left: int, listed: seq<string>)

  ghost predicate Lists<S>(fleet: map<string, S>, order: seq<string>) {
    Distinct(order) && forall j :: 0 <= j < |order| ==> order[j] in fleet
  }

  /** The walk from place i on; it stops when nothing is left of the amount. */
  ghost function Walk<S>(fleet: map<string, S>, order: seq<string>, i: nat, left: int,
                         visit: (S, int) -> Visit<S>): (w: Walked<S>)
    requires i <= |order| && Lists(fleet, order)
    ensures i <= w.end <= |order|
    decreases |order| - i
  {
    if i == |order| || left <= 0 then Walked(fleet, i, left, [])
    else
      var v := visit(fleet[order[i]], left);
      var w := Walk(fleet[order[i] := v.state], order, i + 1, v.left, visit);
      if v.listed then w.(listed := [order[i]] + w.listed) else w
  }

  /** The same walk, stopped before place k at the latest. */
  ghost function WalkTo<S>(fleet: map<string, S>, order: seq<string>, k: nat, left: int,
                           visit: (S, int) -> Visit<S>): (w: Walked<S>)
    requires k <= |order| && Lists(fleet, order)
    ensures w.end <= k && w.fleet.Keys == fleet.Keys
  {
    if k == 0 then Walked(fleet, 0, left, [])
    else
      var w := WalkTo(fleet, order, k - 1, left, visit);
      if w.left <= 0 then w
      else
        var v := visit(w.fleet[order[k - 1]], w.left);
        Walked(w.fleet[order[k - 1] := v.state], k, v.left, w.listed + if v.listed then [order[k - 1]] else [])
  }

  lemma {:induction false} WalkToLeavesRest<S>(fleet: map<string, S>, order: seq<string>, k: nat, left: int,
                                               visit: (S, int) -> Visit<S>)
    requires k <= |order| && Lists(fleet, order)
    ensures var w := WalkTo(fleet, order, k, left, visit);
            forall j :: k <= j < |order| ==> w.fleet[order[j]] == fleet[order[j]]
  {
    if k > 0 { WalkToLeavesRest(fleet, order, k - 1, left, visit); }
  }

  /** What a walk stopped at place k and the rest of the walk add up to. */
  ghost function Resume<S>(w: Walked<S>, order: seq<string>, visit: (S, int) -> Visit<S>): Walked<S>
    requires w.end <= |order| && Lists(w.fleet, order)
  {
    Prepend(w.listed, Walk(w.fleet, order, w.end, w.left, visit))
  }

  /** The rest of a walk after what was reported before it. */
  ghost function Prepend<S>(listed: seq<string>, rest: Walked<S>): Walked<S> {
    rest.(listed := listed + rest.listed)
  }

  lemma PrependTwice<S>(a: seq<string>, b: seq<string>, rest: Walked<S>)
    ensures Same(Prepend(a, Prepend(b, rest)), Prepend(a + b, rest))
  {
    assert a + (b + rest.listed) == (a + b) + rest.listed;
  }

  lemma ResumeStep<S>(w: Walked<S>, order: seq<string>, visit: (S, int) -> Visit<S>)
    requires w.end < |order| && Lists(w.fleet, order) && w.left > 0
    ensures var v := visit(w.fleet[order[w.end]], w.left);
            Same(Resume(w, order, visit),
                 Resume(Walked(w.fleet[order[w.end] := v.state], w.end + 1, v.left,
                               w.listed + if v.listed then [order[w.end]] else []), order, visit))
  {
    var v := visit(w.fleet[order[w.end]], w.left);
    WalkStep(w.fleet, order, w.end, w.left, visit);
    PrependTwice(w.listed, if v.listed then [order[w.end]] else [],
                 Walk(w.fleet[order[w.end] := v.state], order, w.end + 1, v.left, visit));
  }

  /** What a walk stopped at place k and its rest add up to, and that it stopped there only if nothing was left. */
  ghost predicate ResumesTo<S>(w: Walked<S>, k: nat, order: seq<string>, visit: (S, int) -> Visit<S>, whole: Walked<S>) {
    w.end <= |order| && Lists(w.fleet, order) && Same(Resume(w, order, visit), whole) && (w.left > 0 ==> w.end == k)
  }

  lemma ResumesOneLater<S>(w: Walked<S>, fleet: map<string, S>, order: seq<string>, k: nat, left: int,
                           visit: (S, int) -> Visit<S>, whole: Walked<S>) returns (next: Walked<S>)
    requires k < |order| && Lists(fleet, order) && Same(w, WalkTo(fleet, order, k, left, visit))
    requires ResumesTo(w, k, order, visit, whole)
    ensures Same(next, WalkTo(fleet, order, k + 1, left, visit))
    ensures ResumesTo(next, k + 1, order, visit, whole)
  {
    next := WalkTo(fleet, order, k + 1, left, visit);
    if w.left > 0 {
      ResumeStep(w, order, visit);
    }
  }

  lemma ResumesAtStart<S>(fleet: map<string, S>, order: seq<string>, left: int, visit: (S, int) -> Visit<S>)
    returns (w: Walked<S>)
    requires Lists(fleet, order)
    ensures Same(w, WalkTo(fleet, order, 0, left, visit))
    ensures ResumesTo(w, 0, order, visit, Walk(fleet, order, 0, left, visit))
  {
    w := Walked(fleet, 0, left, []);
    PrependNothing(Walk(fleet, order, 0, left, visit));
  }

  lemma {:induction false} ResumesAnywhere<S>(fleet: map<string, S>, order: seq<string>, k: nat, left: int,
                                              visit: (S, int) -> Visit<S>) returns (w: Walked<S>)
    requires k <= |order| && Lists(fleet, order)
    ensures Same(w, WalkTo(fleet, order, k, left, visit))
    ensures ResumesTo(w, k, order, visit, Walk(fleet, order, 0, left, visit))
    decreases k
  {
    if k == 0 {
      w := ResumesAtStart(fleet, order, left, visit);
    } else {
      w := ResumesAnywhere(fleet, order, k - 1, left, visit);
      w := ResumesOneLater(w, fleet, order, k - 1, left, visit, Walk(fleet, order, 0, left, visit));
    }
  }

  lemma WalkToResumes<S>(fleet: map<string, S>, order: seq<string>, k: nat, left: int, visit: (S, int) -> Visit<S>)
    requires k <= |order| && Lists(fleet, order)
    ensures var w := WalkTo(fleet, order, k, left, visit);
            Same(Resume(w, order, visit), Walk(fleet, order, 0, left, visit))
            && (w.left > 0 ==> w.end == k)
  {
    var w := ResumesAnywhere(fleet, order, k, left, visit);
  }

  /** A walk that has nothing left, or nobody left to visit, is the whole walk. */
  lemma WalkToEnd<S>(fleet: map<string, S>, order: seq<string>, k: nat, left: int, visit: (S, int) -> Visit<S>)
    requires k <= |order| && Lists(fleet, order)
    requires WalkTo(fleet, order, k, left, visit).left <= 0 || k == |order|
    ensures Walk(fleet, order, 0, left, visit) == WalkTo(fleet, order, k, left, visit)
  {
    var w := WalkTo(fleet, order, k, left, visit);
    WalkToResumes(fleet, order, k, left, visit);
    assert w.listed + [] == w.listed;
  }

  lemma WalkStep<S>(fleet: map<string, S>, order: seq<string>, i: nat, left: int, visit: (S, int) -> Visit<S>)
    requires i < |order| && Lists(fleet, order) && left > 0
    ensures var v := visit(fleet[order[i]], left);
            var w := Walk(fleet[order[i] := v.state], order, i + 1, v.left, visit);
            Same(Walk(fleet, order, i, left, visit), Prepend(if v.listed then [order[i]] else [], w))
  {
    var v := visit(fleet[order[i]], left);
    PrependNothing(Walk(fleet[order[i] := v.state], order, i + 1, v.left, visit));
  }

  lemma PrependNothing<S>(rest: Walked<S>)
    ensures Same(Prepend([], rest), rest)
  {
    assert [] + rest.listed == rest.listed;
  }

  lemma SliceCons(order: seq<string>, i: nat, k: nat)
    requires i < k <= |order|
    ensures order[i..k] == [order[i]] + order[i + 1..k]
  {
  }

  /** Every member visited is changed as one visit changes it, the others are left alone. */
  lemma {:induction false} WalkFrame<S>(fleet: map<string, S>, order: seq<string>, i: nat, left: int,
                                        visit: (S, int) -> Visit<S>, touched: (S, S) -> bool)
    requires i <= |order| && Lists(fleet, order)
    requires forall j, l :: i <= j < |order| && l > 0 ==>
      touched(fleet[order[j]], visit(fleet[order[j]], l).state)
    ensures var w := Walk(fleet, order, i, left, visit);
            && w.fleet.Keys == fleet.Keys
            && (forall id <- fleet :: id !in order[i..w.end] ==> w.fleet[id] == fleet[id])
            && (forall j :: i <= j < w.end ==> touched(fleet[order[j]], w.fleet[order[j]]))
    decreases |order| - i
  {
    if i < |order| && left > 0 {
      var id, v := order[i], visit(fleet[order[i]], left);
      var next := fleet[id := v.state];
      assert forall j :: i + 1 <= j < |order| ==> next[order[j]] == fleet[order[j]];
      WalkFrame(next, order, i + 1, v.left, visit, touched);
      var k := Walk(next, order, i + 1, v.left, visit).end;
      SliceCons(order, i, k);
      assert id !in order[i + 1..k];
    }
  }

  /** A visit with an amount that fits leaves one that fits, and if it leaves something then it was one that passes. */
  ghost predicate Passes<S>(s: S, l: int, visit: (S, int) -> Visit<S>, passed: (S, S) -> bool, fits: int -> bool) {
    var v := visit(s, l);
    fits(l) ==> fits(v.left) && (v.left > 0 ==> passed(s, v.state))
  }

  /** All members visited but the last one were visited in a way that left something of the amount. */
  lemma {:induction false} WalkPrefix<S>(fleet: map<string, S>, order: seq<string>, i: nat, left: int,
                                         visit: (S, int) -> Visit<S>, passed: (S, S) -> bool, fits: int -> bool)
    requires i <= |order| && Lists(fleet, order) && fits(left)
    requires forall j, l :: i <= j < |order| && l > 0 ==> Passes(fleet[order[j]], l, visit, passed, fits)
    ensures var w := Walk(fleet, order, i, left, visit);
            w.fleet.Keys == fleet.Keys
            && forall j :: i <= j < w.end - 1 || (i <= j < w.end && w.left > 0) ==>
              passed(fleet[order[j]], w.fleet[order[j]])
    decreases |order| - i
  {
    if i < |order| && left > 0 {
      assert Passes(fleet[order[i]], left, visit, passed, fits);
      var v := visit(fleet[order[i]], left);
      var next := fleet[order[i] := v.state];
      assert forall j :: i + 1 <= j < |order| ==> next[order[j]] == fleet[order[j]];
      WalkPrefix(next, order, i + 1, v.left, visit, passed, fits);
      WalkFrame(next, order, i + 1, v.left, visit, (a, b) => true);
      assert order[i] !in order[i + 1..];
    }
  }

  /** A walk that leaves something of the amount has visited everyone. */
  lemma {:induction false} WalkStops<S>(fleet: map<string, S>, order: seq<string>, i: nat, left: int,
                                        visit: (S, int) -> Visit<S>)
    requires i <= |order| && Lists(fleet, order)
    ensures var w := Walk(fleet, order, i, left, visit); w.left > 0 ==> w.end == |order|
    decreases |order| - i
  {
    if i < |order| && left > 0 {
      var v := visit(fleet[order[i]], left);
      WalkStops(fleet[order[i] := v.state], order, i + 1, v.left, visit);
    }
  }

  ghost function WorthMap<S>(fleet: map<string, S>, worth: S -> int): map<string, int> {
    map id | id in fleet :: worth(fleet[id])
  }

  ghost function Worth<S>(fleet: map<string, S>, worth: S -> int): int {
    Sum(WorthMap(fleet, worth))
  }

  lemma WorthUpdate<S>(fleet: map<string, S>, worth: S -> int, id: string, s: S)
    requires id in fleet
    ensures Worth(fleet[id := s], worth) == Worth(fleet, worth) - worth(fleet[id]) + worth(s)
  {
    SumUpdate(WorthMap(fleet, worth), id, worth(s));
    assert WorthMap(fleet, worth)[id := worth(s)] == WorthMap(fleet[id := s], worth);
  }

  /** What the members from place i on are worth. */
  ghost function WorthFrom<S>(fleet: map<string, S>, order: seq<string>, i: nat, worth: S -> int): int
    requires i <= |order| && Lists(fleet, order)
    decreases |order| - i
  {
    if i == |order| then 0 else worth(fleet[order[i]]) + WorthFrom(fleet, order, i + 1, worth)
  }

  lemma {:induction false} WorthFromFrame<S>(a: map<string, S>, b: map<string, S>, order: seq<string>, i: nat, worth: S -> int)
    requires i <= |order| && Lists(a, order) && Lists(b, order)
    requires forall j :: i <= j < |order| ==> a[order[j]] == b[order[j]]
    ensures WorthFrom(a, order, i, worth) == WorthFrom(b, order, i, worth)
    decreases |order| - i
  {
    if i < |order| { WorthFromFrame(a, b, order, i + 1, worth); }
  }

  lemma {:induction false} WorthFromIsSum<S>(fleet: map<string, S>, order: seq<string>, i: nat, worth: S -> int)
    requires i <= |order| && Lists(fleet, order)
    ensures WorthFrom(fleet, order, i, worth) == SumAlong(WorthMap(fleet, worth), order[i..])
    decreases |order| - i
  {
    if i < |order| {
      WorthFromIsSum(fleet, order, i + 1, worth);
      assert order[i..][1..] == order[i + 1..];
    }
  }

  /**
   * A visit either takes all that a member is worth, or ends the walk and takes less than half
   * of slack(member) too much.
   */
  ghost predicate Reduces<S>(s: S, l: int, visit: (S, int) -> Visit<S>, worth: S -> int, slack: S -> int) {
    var v := visit(s, l);
    if l >= worth(s) then worth(v.state) == 0 && v.left == l - worth(s)
    else v.left <= 0 && 0 <= worth(s) - worth(v.state) - l && 2 * (worth(s) - worth(v.state) - l) < slack(s)
  }

  /**
   * Such a walk, of what its members are worth above a target, ends with a visit of what the members from there on are
   * worth above it, and takes off the amount asked for and what that visit takes too much. It visits nobody only for
   * nothing.
   */
  lemma {:induction false} WalkReduces<S>(fleet: map<string, S>, order: seq<string>, i: nat, left: int,
                                          visit: (S, int) -> Visit<S>, worth: S -> int, slack: S -> int,
                                          target: int) returns (last: int)
    requires i <= |order| && Lists(fleet, order)
    requires forall j, l :: i <= j < |order| && l > 0 ==> Reduces(fleet[order[j]], l, visit, worth, slack)
    requires 0 <= left <= WorthFrom(fleet, order, i, worth) == target + left
    ensures var w := Walk(fleet, order, i, left, visit);
            && Same(w.fleet.Keys, fleet.Keys)
            && (w.end == i ==> left == 0 && Same(w.fleet, fleet))
            && (w.end > i ==> last == WorthFrom(fleet, order, w.end - 1, worth) - target
                              && LastVisit(fleet, w.fleet, order[w.end - 1], visit, worth, left, last))
    decreases |order| - i
  {
    last := left;
    if i < |order| && left > 0 {
      var s := fleet[order[i]];
      assert Reduces(s, left, visit, worth, slack);
      var v := visit(s, left);
      var next := fleet[order[i] := v.state];
      WorthUpdate(fleet, worth, order[i], v.state);
      assert next.Keys == fleet.Keys && forall j :: i + 1 <= j < |order| ==> next[order[j]] == fleet[order[j]];
      if left > worth(s) {
        WorthFromFrame(fleet, next, order, i + 1, worth);
        last := WalkReduces(next, order, i + 1, v.left, visit, worth, slack, target);
        WorthFromFrame(fleet, next, order, Walk(next, order, i + 1, v.left, visit).end - 1, worth);
      }
    }
  }

  /** The last visit of a walk with the given amount: it was made with l of it, and all others took what they should. */
  ghost predicate LastVisit<S>(before: map<string, S>, after: map<string, S>, last: string, visit: (S, int) -> Visit<S>,
                               worth: S -> int, amount: int, l: int)
    requires last in before && last in after
  {
    var v := visit(before[last], l);
    && 0 < l <= worth(before[last]) && after[last] == v.state
    && Worth(after, worth) == Worth(before, worth) - amount - (worth(before[last]) - worth(v.state) - l)
  }

  /** A visit uses up of the amount what the member gains, give or take one, and never more than there is. */
  ghost predicate Adds<S>(s: S, l: int, visit: (S, int) -> Visit<S>, worth: S -> int) {
    var v := visit(s, l);
    v.left >= 0 && -1 <= worth(v.state) - worth(s) - (l - v.left) <= 1
  }

  /** Such a walk uses up what all members gain together, give or take one per member visited. */
  lemma {:induction false} WalkAdds<S>(fleet: map<string, S>, order: seq<string>, i: nat, left: int,
                                       visit: (S, int) -> Visit<S>, worth: S -> int)
    requires i <= |order| && Lists(fleet, order) && left >= 0
    requires forall j, l :: i <= j < |order| && l > 0 ==> Adds(fleet[order[j]], l, visit, worth)
    ensures var w := Walk(fleet, order, i, left, visit);
            var error := Worth(w.fleet, worth) - Worth(fleet, worth) - (left - w.left);
            w.left >= 0 && i - w.end <= error <= w.end - i
    decreases |order| - i
  {
    if i < |order| && left > 0 {
      assert Adds(fleet[order[i]], left, visit, worth);
      var v := visit(fleet[order[i]], left);
      var next := fleet[order[i] := v.state];
      WorthUpdate(fleet, worth, order[i], v.state);
      assert forall j :: i + 1 <= j < |order| ==> next[order[j]] == fleet[order[j]];
      WalkAdds(next, order, i + 1, v.left, visit, worth);
    }
  }

  /** Members that were visited but not reported were visited in a way that passes. */
  lemma {:induction false} WalkListed<S>(fleet: map<string, S>, order: seq<string>, i: nat, left: int,
                                         visit: (S, int) -> Visit<S>, passed: (S, S) -> bool)
    requires i <= |order| && Lists(fleet, order)
    requires forall j, l :: i <= j < |order| && l > 0 && !visit(fleet[order[j]], l).listed ==>
      passed(fleet[order[j]], visit(fleet[order[j]], l).state)
    ensures var w := Walk(fleet, order, i, left, visit);
            w.fleet.Keys == fleet.Keys
            && (forall id <- w.listed :: id in order[i..w.end])
            && forall j :: i <= j < w.end ==> order[j] in w.listed || passed(fleet[order[j]], w.fleet[order[j]])
    decreases |order| - i
  {
    if i < |order| && left > 0 {
      var id, v := order[i], visit(fleet[order[i]], left);
      var next := fleet[id := v.state];
      assert forall j :: i + 1 <= j < |order| ==> next[order[j]] == fleet[order[j]];
      WalkListed(next, order, i + 1, v.left, visit, passed);
      WalkFrame(next, order, i + 1, v.left, visit, (a, b) => true);
      var k := Walk(next, order, i + 1, v.left, visit).end;
      SliceCons(order, i, k);
      assert id !in order[i + 1..k];
    }
  }

  /** The last member in order is reached exactly when the others together are worth less than the amount. */
  lemma {:induction false} WalkReachesEnd<S>(fleet: map<string, S>, order: seq<string>, i: nat, left: int,
                                             visit: (S, int) -> Visit<S>, worth: S -> int, slack: S -> int)
    requires i < |order| && Lists(fleet, order)
    requires forall j, l :: i <= j < |order| && l > 0 ==> Reduces(fleet[order[j]], l, visit, worth, slack)
    requires forall j :: i <= j < |order| ==> worth(fleet[order[j]]) >= 0
    ensures Walk(fleet, order, i, left, visit).end == |order|
            <==> left > WorthFrom(fleet, order, i, worth) - worth(fleet[order[|order| - 1]])
    decreases |order| - i
  {
    WorthFromLast(fleet, order, i, worth);
    if left > 0 {
      var s := fleet[order[i]];
      assert Reduces(s, left, visit, worth, slack);
      var v := visit(s, left);
      var next := fleet[order[i] := v.state];
      assert forall j :: i + 1 <= j < |order| ==> next[order[j]] == fleet[order[j]];
      if i + 1 < |order| {
        WorthFromFrame(fleet, next, order, i + 1, worth);
        WorthFromLast(fleet, order, i + 1, worth);
        WalkReachesEnd(next, order, i + 1, v.left, visit, worth, slack);
      }
    }
  }

  lemma {:induction false} WorthFromLast<S>(fleet: map<string, S>, order: seq<string>, i: nat, worth: S -> int)
    requires i < |order| && Lists(fleet, order)
    requires forall j :: i <= j < |order| ==> worth(fleet[order[j]]) >= 0
    ensures WorthFrom(fleet, order, i, worth) >= worth(fleet[order[|order| - 1]])
    decreases |order| - i
  {
    if i + 1 < |order| { WorthFromLast(fleet, order, i + 1, worth); }
  }
}
