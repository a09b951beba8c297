/** The exponential moving average counter. Time is counted in clock ticks since the zero time. */
module EmaCounters {
  import opened Wrappers
  import opened Arithmetic

  function Times(x: real, d: real): real {
    x * d
  }

  /** Decay over n ticks, for a decay of q per tick. */
  function Pow(q: real, n: nat): real {
    if n == 0 then 1.0 else q * Pow(q, n - 1)
  }

  lemma {:induction false} PowAdd(q: real, m: nat, n: nat)
    ensures Pow(q, m + n) == Times(Pow(q, m), Pow(q, n))
  {
    if m > 0 {
      PowAdd(q, m - 1, n);
      assert Pow(q, m + n) == q * Pow(q, m - 1 + n);
    }
  }

  lemma {:induction false} PowBounds(q: real, n: nat)
    requires 0.0 < q < 1.0
    ensures 0.0 < Pow(q, n) <= 1.0
  {
    if n > 0 {
      PowBounds(q, n - 1);
      ProductInUnit(q, Pow(q, n - 1));
    }
  }

  lemma ProductInUnit(a: real, b: real)
    requires 0.0 < a <= 1.0 && 0.0 < b <= 1.0
    ensures 0.0 < a * b <= b
  {
  }

  /** One call of Add: it reads the clock for the decay, and again for the time it stores. */
  datatype Addition = Addition(amount: real, read: nat, write: nat)

  /** Clock readings never go back, up to time t. */
  ghost predicate Chronological(h: seq<Addition>, t: nat) {
    h == [] || (h[0].read <= h[0].write <= (if |h| > 1 then h[1].read else t) && Chronological(h[1..], t))
  }

  /** Ticks that passed inside calls of Add, between their two clock readings. */
  ghost function Gaps(h: seq<Addition>): int {
    if h == [] then 0 else h[0].write - h[0].read + Gaps(h[1..])
  }

  lemma {:induction false} GapsFit(h: seq<Addition>, t: nat)
    requires Chronological(h, t) && h != []
    ensures Gaps(h) <= t - h[0].read
  {
    if |h| > 1 { GapsFit(h[1..], t); }
  }

  /** Ticks for which the first amount of a history decays until t: those inside later calls of Add are left out. */
  ghost function Age(h: seq<Addition>, t: nat): nat
    requires Chronological(h, t) && h != []
  {
    if |h| > 1 then
      GapsFit(h[1..], t);
      t - h[0].write - Gaps(h[1..])
    else t - h[0].write
  }

  /** An amount and the number of ticks it has decayed for. */
  datatype Term = Term(amount: real, age: nat)

  ghost function Terms(h: seq<Addition>, t: nat): (terms: seq<Term>)
    requires Chronological(h, t)
    ensures |terms| == |h| && forall i :: 0 <= i < |h| ==> terms[i].amount == h[i].amount
  {
    if h == [] then [] else [Term(h[0].amount, Age(h, t))] + Terms(h[1..], t)
  }

  ghost function SumOfTerms(weight: Term -> real, terms: seq<Term>): real {
    if terms == [] then 0.0 else weight(terms[0]) + SumOfTerms(weight, terms[1..])
  }

  /** What is left of a term, for a decay of q per tick. */
  function Decayed(q: real): Term -> real {
    (x: Term) => Times(x.amount, Pow(q, x.age))
  }

  /** All amounts added, each weighted by its decay until t. */
  ghost function Weighted(q: real, h: seq<Addition>, t: nat): real
    requires Chronological(h, t)
  {
    SumOfTerms(Decayed(q), Terms(h, t))
  }

  ghost function Aged(terms: seq<Term>, ticks: nat): (aged: seq<Term>)
    ensures |aged| == |terms|
  {
    seq(|terms|, i requires 0 <= i < |terms| => Term(terms[i].amount, terms[i].age + ticks))
  }

  lemma {:induction false} SumOfConcat(weight: Term -> real, a: seq<Term>, b: seq<Term>)
    ensures SumOfTerms(weight, a + b) == SumOfTerms(weight, a) + SumOfTerms(weight, b)
  {
    if a == [] {
      assert a + b == b;
    } else {
      assert (a + b)[1..] == a[1..] + b;
      SumOfConcat(weight, a[1..], b);
    }
  }

  lemma SumOfOne(weight: Term -> real, x: Term)
    ensures SumOfTerms(weight, [x]) == weight(x)
  {
    assert [x][1..] == [];
  }

  /** Every term weighs d times what it weighed before it got older. */
  ghost predicate Shrunk(weight: Term -> real, terms: seq<Term>, older: seq<Term>, d: real) {
    |older| == |terms| && forall i :: 0 <= i < |older| ==> weight(older[i]) == Times(weight(terms[i]), d)
  }

  lemma DecayedTerm(q: real, x: Term, ticks: nat)
    ensures Decayed(q)(Term(x.amount, x.age + ticks)) == Times(Decayed(q)(x), Pow(q, ticks))
  {
    PowAdd(q, x.age, ticks);
    ProductOfThree(x.amount, Pow(q, x.age), Pow(q, ticks), Pow(q, x.age + ticks));
  }

  lemma DecayedWhenAged(q: real, terms: seq<Term>, ticks: nat)
    ensures Shrunk(Decayed(q), terms, Aged(terms, ticks), Pow(q, ticks))
  {
    forall i | 0 <= i < |terms| ensures Decayed(q)(Aged(terms, ticks)[i]) == Times(Decayed(q)(terms[i]), Pow(q, ticks)) {
      DecayedTerm(q, terms[i], ticks);
    }
  }

  lemma ProductOfThree(x: real, y: real, d: real, p: real)
    requires p == Times(y, d)
    ensures Times(x, p) == Times(Times(x, y), d)
  {
  }

  lemma SumOfProducts(x: real, y: real, d: real)
    ensures Times(x, d) + Times(y, d) == Times(x + y, d)
  {
  }

  /** Then so does their sum. */
  lemma {:induction false} SumOfShrunk(weight: Term -> real, terms: seq<Term>, older: seq<Term>, d: real)
    requires Shrunk(weight, terms, older, d)
    ensures SumOfTerms(weight, older) == Times(SumOfTerms(weight, terms), d)
  {
    if terms != [] {
      assert weight(older[0]) == Times(weight(terms[0]), d);
      assert Shrunk(weight, terms[1..], older[1..], d);
      SumOfShrunk(weight, terms[1..], older[1..], d);
      SumOfProducts(weight(terms[0]), SumOfTerms(weight, terms[1..]), d);
    }
  }

  lemma SumOfAged(q: real, terms: seq<Term>, ticks: nat)
    ensures SumOfTerms(Decayed(q), Aged(terms, ticks)) == Times(SumOfTerms(Decayed(q), terms), Pow(q, ticks))
  {
    DecayedWhenAged(q, terms, ticks);
    SumOfShrunk(Decayed(q), terms, Aged(terms, ticks), Pow(q, ticks));
  }

  lemma {:induction false} ChronologicalSnoc(h: seq<Addition>, a: Addition, t: nat)
    requires Chronological(h, a.read) && a.read <= a.write <= t
    ensures Chronological(h + [a], t)
  {
    if h != [] {
      assert (h + [a])[1..] == h[1..] + [a];
      ChronologicalSnoc(h[1..], a, t);
    }
  }

  lemma {:induction false} GapsSnoc(h: seq<Addition>, a: Addition)
    ensures Gaps(h + [a]) == Gaps(h) + a.write - a.read
  {
    if h == [] {
      assert h + [a] == [a];
    } else {
      assert (h + [a])[1..] == h[1..] + [a];
      GapsSnoc(h[1..], a);
    }
  }

  lemma AgeSnoc(h: seq<Addition>, a: Addition, t: nat)
    requires Chronological(h, a.read) && a.read <= a.write <= t && h != []
    ensures Chronological(h + [a], t) && Age(h + [a], t) == Age(h, a.read) + (t - a.write)
  {
    ChronologicalSnoc(h, a, t);
    assert (h + [a])[1..] == h[1..] + [a];
    GapsSnoc(h[1..], a);
  }

  lemma AgedCons(first: Term, rest: seq<Term>, ticks: nat)
    ensures Aged([first] + rest, ticks) == [Term(first.amount, first.age + ticks)] + Aged(rest, ticks)
  {
  }

  lemma {:induction false} TermsSnoc(h: seq<Addition>, a: Addition, t: nat)
    requires Chronological(h, a.read) && a.read <= a.write <= t
    ensures Chronological(h + [a], t)
    ensures Terms(h + [a], t) == Aged(Terms(h, a.read) + [Term(a.amount, 0)], t - a.write)
  {
    ChronologicalSnoc(h, a, t);
    if h == [] {
      assert h + [a] == [a];
    } else {
      assert (h + [a])[1..] == h[1..] + [a];
      TermsSnoc(h[1..], a, t);
      AgeSnoc(h, a, t);
      var first, rest := Term(h[0].amount, Age(h, a.read)), Terms(h[1..], a.read);
      assert ([first] + rest) + [Term(a.amount, 0)] == [first] + (rest + [Term(a.amount, 0)]);
      AgedCons(first, rest + [Term(a.amount, 0)], t - a.write);
    }
  }

  lemma SumWithNew(weight: Term -> real, terms: seq<Term>, amount: real)
    requires weight(Term(amount, 0)) == amount
    ensures SumOfTerms(weight, terms + [Term(amount, 0)]) == SumOfTerms(weight, terms) + amount
  {
    SumOfConcat(weight, terms, [Term(amount, 0)]);
    SumOfOne(weight, Term(amount, 0));
  }

  lemma NewTermCounts(q: real, amount: real)
    ensures Decayed(q)(Term(amount, 0)) == amount
  {
  }

  /** What one call of Add makes of the counter is the weighted sum of the longer history. */
  lemma WeightedSnoc(q: real, h: seq<Addition>, a: Addition, t: nat)
    requires Chronological(h, a.read) && a.read <= a.write <= t
    ensures Chronological(h + [a], t)
    ensures Weighted(q, h + [a], t) == Times(Weighted(q, h, a.read) + a.amount, Pow(q, t - a.write))
  {
    TermsSnoc(h, a, t);
    NewTermCounts(q, a.amount);
    SumWithNew(Decayed(q), Terms(h, a.read), a.amount);
    SumOfAged(q, Terms(h, a.read) + [Term(a.amount, 0)], t - a.write);
  }

  lemma {:induction false} TermsLater(h: seq<Addition>, t: nat, u: nat)
    requires Chronological(h, t) && t <= u
    ensures Chronological(h, u) && Terms(h, u) == Aged(Terms(h, t), u - t)
  {
    if h != [] { TermsLater(h[1..], t, u); }
  }

  /** Without an Add, the counter only decays. */
  lemma WeightedDecays(q: real, h: seq<Addition>, t: nat, u: nat)
    requires Chronological(h, t) && t <= u
    ensures Chronological(h, u)
    ensures Weighted(q, h, u) == Times(Weighted(q, h, t), Pow(q, u - t))
  {
    TermsLater(h, t, u);
    SumOfAged(q, Terms(h, t), u - t);
  }

  lemma {:induction false} SumIsNonNegative(weight: Term -> real, terms: seq<Term>)
    requires forall x <- terms :: weight(x) >= 0.0
    ensures SumOfTerms(weight, terms) >= 0.0
  {
    if terms != [] { SumIsNonNegative(weight, terms[1..]); }
  }

  lemma DecayedIsNonNegative(q: real, x: Term)
    requires 0.0 < q < 1.0 && x.amount >= 0.0
    ensures Decayed(q)(x) >= 0.0
  {
    PowBounds(q, x.age);
    ProductSign(Pow(q, x.age), x.amount);
  }

  lemma WeightedIsNonNegative(q: real, h: seq<Addition>, t: nat)
    requires 0.0 < q < 1.0 && Chronological(h, t) && forall a <- h :: a.amount >= 0.0
    ensures Weighted(q, h, t) >= 0.0
  {
    forall x | x in Terms(h, t) ensures Decayed(q)(x) >= 0.0 {
      DecayedIsNonNegative(q, x);
    }
    SumIsNonNegative(Decayed(q), Terms(h, t));
  }

  /** A counter of non-negative amounts never grows without an Add. */
  lemma NeverGrowsAlone(q: real, h: seq<Addition>, t: nat, u: nat)
    requires 0.0 < q < 1.0 && Chronological(h, t) && t <= u && forall a <- h :: a.amount >= 0.0
    ensures Chronological(h, u) && 0.0 <= Weighted(q, h, u) <= Weighted(q, h, t)
  {
    WeightedDecays(q, h, t, u);
    WeightedIsNonNegative(q, h, t);
    WeightedIsNonNegative(q, h, u);
    PowBounds(q, u - t);
    ShrinksBy(Weighted(q, h, t), Pow(q, u - t), Weighted(q, h, u));
  }

  lemma ShrinksBy(x: real, d: real, r: real)
    requires 0.0 <= x && 0.0 < d <= 1.0 && r == x * d
    ensures r <= x
  {
  }

  // ---- calls of Add that read the clock once

  ghost predicate SingleReading(h: seq<Addition>) {
    forall a <- h :: a.read == a.write
  }

  lemma {:induction false} NoGaps(h: seq<Addition>)
    requires SingleReading(h)
    ensures Gaps(h) == 0
  {
    if h != [] { NoGaps(h[1..]); }
  }

  /** Then the weight of an amount is just its decay over the time since its Add. */
  lemma AgeSinceAdd(h: seq<Addition>, t: nat)
    requires SingleReading(h) && Chronological(h, t) && h != []
    ensures Age(h, t) == t - h[0].write
  {
    NoGaps(h[1..]);
  }

  /** What is added at one tick. */
  ghost function AtTick(h: seq<Addition>, tick: nat): real {
    if h == [] then 0.0 else (if h[0].write == tick then h[0].amount else 0.0) + AtTick(h[1..], tick)
  }

  /** The part of a history before a tick. */
  ghost function Before(h: seq<Addition>, tick: nat): seq<Addition> {
    if h == [] || h[0].write >= tick then [] else [h[0]] + Before(h[1..], tick)
  }

  lemma {:induction false} BeforeIsChronological(h: seq<Addition>, tick: nat)
    requires SingleReading(h) && Chronological(h, tick) && tick > 0
    ensures SingleReading(Before(h, tick)) && Chronological(Before(h, tick), tick - 1)
    ensures forall a <- Before(h, tick) :: a in h
  {
    if h != [] && h[0].write < tick {
      BeforeIsChronological(h[1..], tick);
      var rest := Before(h[1..], tick);
      assert Before(h, tick)[1..] == rest;
      assert rest != [] ==> rest[0] == h[1];
    }
  }

  lemma FirstBefore(h: seq<Addition>, tick: nat)
    requires SingleReading(h) && Chronological(h, tick) && h != [] && h[0].write < tick
    ensures var shorter := Before(h, tick);
            shorter != [] && shorter[0] == h[0] && shorter[1..] == Before(h[1..], tick)
            && SingleReading(shorter) && Chronological(shorter, tick - 1)
            && Age(h, tick) == Age(shorter, tick - 1) + 1
  {
    var shorter := Before(h, tick);
    BeforeIsChronological(h, tick);
    assert shorter[1..] == Before(h[1..], tick);
    AgeSinceAdd(h, tick);
    AgeSinceAdd(shorter, tick - 1);
  }

  /** The amounts added at the tick itself have not decayed. */
  lemma {:induction false} AllAtTick(weight: Term -> real, h: seq<Addition>, tick: nat)
    requires SingleReading(h) && Chronological(h, tick) && (h != [] ==> h[0].write >= tick)
    requires forall a <- h :: weight(Term(a.amount, 0)) == a.amount
    ensures SumOfTerms(weight, Terms(h, tick)) == AtTick(h, tick) && Before(h, tick) == []
  {
    if h != [] {
      AgeSinceAdd(h, tick);
      AllAtTick(weight, h[1..], tick);
      assert Terms(h, tick)[1..] == Terms(h[1..], tick);
    }
  }

  /** The terms of the amounts added at a tick. */
  ghost function NewTerms(h: seq<Addition>, tick: nat): seq<Term>
    requires Chronological(h, tick)
  {
    if h == [] then [] else if h[0].write >= tick then Terms(h, tick) else NewTerms(h[1..], tick)
  }

  lemma {:induction false} SumOfNewTerms(weight: Term -> real, h: seq<Addition>, tick: nat)
    requires SingleReading(h) && Chronological(h, tick)
    requires forall a <- h :: weight(Term(a.amount, 0)) == a.amount
    ensures SumOfTerms(weight, NewTerms(h, tick)) == AtTick(h, tick)
  {
    if h == [] || h[0].write >= tick {
      AllAtTick(weight, h, tick);
    } else {
      SumOfNewTerms(weight, h[1..], tick);
    }
  }

  lemma TermsStep(h: seq<Addition>, tick: nat)
    requires SingleReading(h) && Chronological(h, tick) && h != [] && h[0].write < tick
    ensures var shorter := Before(h, tick);
            Chronological(shorter, tick - 1) && Chronological(Before(h[1..], tick), tick - 1)
            && Same(Terms(h, tick), [Term(h[0].amount, Age(h, tick))] + Terms(h[1..], tick))
            && Same(Aged(Terms(shorter, tick - 1), 1),
                    [Term(h[0].amount, Age(h, tick))] + Aged(Terms(Before(h[1..], tick), tick - 1), 1))
            && Same(NewTerms(h, tick), NewTerms(h[1..], tick))
  {
    FirstBefore(h, tick);
    BeforeIsChronological(h[1..], tick);
    var shorter := Before(h, tick);
    AgedCons(Term(h[0].amount, Age(shorter, tick - 1)), Terms(shorter[1..], tick - 1), 1);
  }

  lemma Regroup<T>(first: seq<T>, earlier: seq<T>, now: seq<T>, rest: seq<T>, all: seq<T>, before: seq<T>)
    requires Same(all, first + rest) && Same(rest, earlier + now) && Same(before, first + earlier)
    ensures Same(all, before + now)
  {
    assert first + (earlier + now) == (first + earlier) + now;
  }

  lemma {:induction false} TermsSplit(h: seq<Addition>, tick: nat)
    requires SingleReading(h) && Chronological(h, tick) && tick > 0
    ensures SingleReading(Before(h, tick)) && Chronological(Before(h, tick), tick - 1)
    ensures Same(Terms(h, tick), Aged(Terms(Before(h, tick), tick - 1), 1) + NewTerms(h, tick))
  {
    BeforeIsChronological(h, tick);
    if h == [] || h[0].write >= tick {
      assert Before(h, tick) == [] && NewTerms(h, tick) == Terms(h, tick);
      NothingAged(Terms(h, tick));
    } else {
      TermsStep(h, tick);
      TermsSplit(h[1..], tick);
      Regroup([Term(h[0].amount, Age(h, tick))], Aged(Terms(Before(h[1..], tick), tick - 1), 1), NewTerms(h[1..], tick),
              Terms(h[1..], tick), Terms(h, tick), Aged(Terms(Before(h, tick), tick - 1), 1));
    }
  }

  lemma NothingAged(terms: seq<Term>)
    ensures Same(terms, Aged([], 1) + terms)
  {
    assert terms == Aged([], 1) + terms;
  }

  lemma {:induction false} NewTermsCount(q: real, h: seq<Addition>, tick: nat)
    requires SingleReading(h) && Chronological(h, tick)
    ensures SumOfTerms(Decayed(q), NewTerms(h, tick)) == AtTick(h, tick)
  {
    forall a | a in h ensures Decayed(q)(Term(a.amount, 0)) == a.amount {
      NewTermCounts(q, a.amount);
    }
    SumOfNewTerms(Decayed(q), h, tick);
  }

  /** The value at a tick is what is added there and the decayed value of the tick before. */
  lemma TickByTick(q: real, h: seq<Addition>, tick: nat)
    requires SingleReading(h) && Chronological(h, tick) && tick > 0
    ensures SingleReading(Before(h, tick)) && Chronological(Before(h, tick), tick - 1)
    ensures Weighted(q, h, tick) == AtTick(h, tick) + Times(Weighted(q, Before(h, tick), tick - 1), q)
  {
    TermsSplit(h, tick);
    var earlier := Terms(Before(h, tick), tick - 1);
    NewTermsCount(q, h, tick);
    SumOfConcat(Decayed(q), Aged(earlier, 1), NewTerms(h, tick));
    SumOfAged(q, earlier, 1);
    OneTick(q);
  }

  lemma OneTick(q: real)
    ensures Pow(q, 1) == q
  {
    assert Pow(q, 1) == q * Pow(q, 0);
  }

  lemma {:induction false} AtTickBefore(h: seq<Addition>, tick: nat, s: nat)
    requires SingleReading(h) && Chronological(h, tick) && s < tick
    ensures AtTick(Before(h, tick), s) == AtTick(h, s)
  {
    if h != [] {
      if h[0].write < tick {
        AtTickBefore(h[1..], tick, s);
        assert Before(h, tick)[1..] == Before(h[1..], tick);
      } else {
        NothingBefore(h, tick, s);
      }
    }
  }

  lemma {:induction false} NothingBefore(h: seq<Addition>, tick: nat, s: nat)
    requires SingleReading(h) && Chronological(h, tick) && s < tick && (h != [] ==> h[0].write >= tick)
    ensures AtTick(h, s) == 0.0
  {
    if h != [] { NothingBefore(h[1..], tick, s); }
  }

  ghost predicate Rate(h: seq<Addition>, v: real) {
    forall s: nat :: AtTick(h, s) <= v
  }

  lemma RateBefore(h: seq<Addition>, tick: nat, v: real)
    requires SingleReading(h) && Chronological(h, tick) && Rate(h, v) && v >= 0.0
    ensures Rate(Before(h, tick), v)
  {
    forall s: nat ensures AtTick(Before(h, tick), s) <= v {
      if s < tick { AtTickBefore(h, tick, s); assert AtTick(h, s) <= v; } else { LateTick(h, tick, s); }
    }
  }

  /** When at most v is added per tick, the value stays at or below v / (1 - q). */
  lemma {:induction false} BoundedRate(q: real, h: seq<Addition>, t: nat, v: real)
    requires 0.0 < q < 1.0 && SingleReading(h) && Chronological(h, t) && Rate(h, v) && v >= 0.0
    ensures Weighted(q, h, t) <= v / (1.0 - q)
    decreases t
  {
    assert AtTick(h, t) <= v;
    if t == 0 {
      AllAtTick(Decayed(q), h, 0);
      QuotientOrder(v, 1.0 - q, 0.0);
      GeometricBound(q, v, 0.0, AtTick(h, 0));
    } else {
      TickByTick(q, h, t);
      RateBefore(h, t, v);
      BoundedRate(q, Before(h, t), t - 1, v);
      GeometricBound(q, v, Weighted(q, Before(h, t), t - 1), AtTick(h, t));
    }
  }

  lemma {:induction false} LateTick(h: seq<Addition>, tick: nat, s: nat)
    requires s >= tick
    ensures AtTick(Before(h, tick), s) == 0.0
  {
    if h != [] && h[0].write < tick {
      LateTick(h[1..], tick, s);
      assert Before(h, tick)[1..] == Before(h[1..], tick);
    }
  }

  lemma GeometricBound(q: real, v: real, x: real, added: real)
    requires 0.0 < q < 1.0 && added <= v && x <= v / (1.0 - q)
    ensures added + Times(x, q) <= v / (1.0 - q)
  {
    var bound := v / (1.0 - q);
    assert bound * (1.0 - q) == v;
    ProductOrder(q, x, bound);
    assert v + q * bound == bound;
  }

  // ---- the counter

  class Counter {
    /** Decay per tick: the exponential of minus one over the averaging interval. */
    const q: real
    const avgInterval: pos
    var lastValue: real
    var lastTime: nat
    ghost var history: seq<Addition>

    constructor (q: real, avgInterval: pos)
      requires 0.0 < q < 1.0
      ensures Valid() && history == [] && this.q == q && this.avgInterval == avgInterval && lastTime == 0
    {
      this.q, this.avgInterval, lastValue, lastTime, history := q, avgInterval, 0.0, 0, [];
    }

    /** The value stored is the weighted sum of everything added so far. */
    ghost predicate Valid()
      reads this
    {
      0.0 < q < 1.0 && Chronological(history, lastTime) && lastValue == Weighted(q, history, lastTime)
    }

    function ValueAfter(elapsed: nat): real
      reads this
    {
      if lastValue == 0.0 then 0.0 else lastValue * Pow(q, elapsed)
    }

    /** At any later time, the counter shows the sum of all amounts, each decayed since it was added. */
    method Value(now: nat) returns (v: real)
      requires Valid() && lastTime <= now
      ensures Chronological(history, now) && v == Weighted(q, history, now)
    {
      WeightedDecays(q, history, lastTime, now);
      v := ValueAfter(now - lastTime);
    }

    method ValuePer(interval: nat, now: nat) returns (v: real)
      requires Valid() && lastTime <= now
      ensures Chronological(history, now) && v * avgInterval as real == Weighted(q, history, now) * interval as real
    {
      var value := Value(now);
      v := value * interval as real / avgInterval as real;
    }

    method LastValue() returns (v: real)
      requires Valid()
      ensures v == Weighted(q, history, lastTime)
    {
      v := ValueAfter(0);
    }

    /** Adds an amount; the clock shows read when the decay is computed and write when the time is stored. */
    method Add(amount: real, read: nat, write: nat)
      requires Valid() && lastTime <= read <= write
      modifies this
      ensures Valid() && history == old(history) + [Addition(amount, read, write)] && lastTime == write
    {
      ghost var a := Addition(amount, read, write);
      var value := Value(read);
      WeightedSnoc(q, history, a, write);
      lastValue := value + amount;
      lastTime, history := write, history + [a];
    }
  }
}
