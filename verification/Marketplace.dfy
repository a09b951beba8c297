/** Runs of the whole market: the token, the rentals, and the factory through which they are bought. */
module Marketplaces {
  import opened Wrappers
  import opened Sums
  import opened Erc20
  import opened Rentals

  const CUT_NUMERATOR: nat := 25
  const CUT_DENOMINATOR: nat := 1000

  /** The part of a price that goes to the fund: a fortieth, rounded down. None when the product overflows. */
  function Cut(price: nat): (cut: Option<nat>)
    ensures cut.Some? <==> 25 * price <= MAX_UINT
    ensures cut.Some? ==> 40 * cut.value <= price < 40 * (cut.value + 1)
  {
    if price * CUT_NUMERATOR > MAX_UINT then None else Some(price * CUT_NUMERATOR / CUT_DENOMINATOR)
  }

  /** Addresses: contracts never send calls of their own to the token, except as written here. */
  datatype Places = Places(factory: Address, fund: Address, contracts: set<Address>)

  ghost predicate Proper(p: Places) {
    p.factory in p.contracts && p.fund !in p.contracts && ZERO !in p.contracts
  }

  datatype World = World(now: nat, token: Token, rentals: map<Address, Rental>, titanCut: bool)

  // ---- the purchase

  /** With the cut on, the fund is paid before the rental. */
  function PayForRental(t: Token, p: Places, titanCut: bool, buyer: Address, self: Address, price: nat): Option<Token> {
    if t.AllowanceOf(buyer, p.factory) < price then None
    else if !titanCut then MoveFrom(t, p.factory, buyer, self, price)
    else match Cut(price)
      case None => None
      case Some(cut) =>
        match MoveFrom(t, p.factory, buyer, p.fund, cut)
        case None => None
        case Some(paid) => MoveFrom(paid, p.factory, buyer, self, price - cut)
  }

  function Purchase(w: World, p: Places, buyer: Address, self: Address, poolData: string): Option<World> {
    if self !in w.rentals then None
    else match PayForRental(w.token, p, w.titanCut, buyer, self, w.rentals[self].terms.price)
      case None => None
      case Some(paid) =>
        match SetPurchase(w.rentals[self], p.factory, buyer, poolData, w.now)
        case None => None
        case Some(r) => Some(w.(token := paid, rentals := w.rentals[self := r]))
  }

  lemma CutIsPart(price: nat)
    ensures Cut(price).Some? ==> Cut(price).value <= price
  {
  }

  /** What a purchase does to balances: the buyer pays the price, of which the fund gets the cut. */
  ghost predicate Bought(t: Token, after: Token, p: Places, buyer: Address, self: Address, price: nat, cut: nat)
    requires cut <= price
  {
    forall a: Address :: after.BalanceOf(a) == t.BalanceOf(a) - (if a == buyer then price else 0)
      + (if a == self then price - cut else 0) + (if a == p.fund then cut else 0)
  }

  function CutTaken(titanCut: bool, price: nat): nat {
    if titanCut && Cut(price).Some? then Cut(price).value else 0
  }

  /** The amount is taken off what the buyer has allowed the factory; no other allowance, nor supply and pause, change. */
  ghost predicate AllowanceUsed(t: Token, after: Token, buyer: Address, factory: Address, amount: int) {
    && amount <= t.AllowanceOf(buyer, factory) && after.supply == t.supply && after.paused == t.paused
    && after.allowances == t.allowances[Allowance(buyer, factory) := t.AllowanceOf(buyer, factory) - amount]
  }

  lemma AllowanceUsedTwice(t: Token, paid: Token, after: Token, buyer: Address, factory: Address, a: nat, b: nat)
    requires AllowanceUsed(t, paid, buyer, factory, a) && AllowanceUsed(paid, after, buyer, factory, b)
    ensures AllowanceUsed(t, after, buyer, factory, a + b)
  {
    var key, now := Allowance(buyer, factory), t.AllowanceOf(buyer, factory);
    assert t.allowances[key := now - a][key := now - a - b] == t.allowances[key := now - a - b];
  }

  lemma PaidFromAllowance(t: Token, p: Places, buyer: Address, recipient: Address, amount: nat, after: Token)
    requires Sound(t) && MoveFrom(t, p.factory, buyer, recipient, amount) == Some(after)
    ensures Sound(after) && Moved(t, after.(allowances := t.allowances), buyer, recipient, amount)
    ensures AllowanceUsed(t, after, buyer, p.factory, amount)
  {
    MoveFromSucceeds(t, p.factory, buyer, recipient, amount);
  }

  lemma CutPaymentMoves(t: Token, paid: Token, after: Token, p: Places, buyer: Address, self: Address, price: nat, cut: nat)
    requires Sound(t) && cut <= price && MoveFrom(t, p.factory, buyer, p.fund, cut) == Some(paid)
    requires MoveFrom(paid, p.factory, buyer, self, price - cut) == Some(after)
    ensures Sound(after) && Bought(t, after, p, buyer, self, price, cut) && AllowanceUsed(t, after, buyer, p.factory, price)
  {
    PaidFromAllowance(t, p, buyer, p.fund, cut, paid);
    PaidFromAllowance(paid, p, buyer, self, price - cut, after);
    AllowanceUsedTwice(t, paid, after, buyer, p.factory, cut, price - cut);
    TwoPayments(t, paid, after, p, buyer, self, price, cut);
  }

  /** A payment leaves the token sound, and uses up the price of the buyer's allowance to the factory. */
  lemma PaymentMoves(t: Token, p: Places, titanCut: bool, buyer: Address, self: Address, price: nat)
    requires Sound(t) && PayForRental(t, p, titanCut, buyer, self, price).Some?
    ensures var after, cut := PayForRental(t, p, titanCut, buyer, self, price).value, CutTaken(titanCut, price);
            cut <= price && Sound(after) && Bought(t, after, p, buyer, self, price, cut)
            && AllowanceUsed(t, after, buyer, p.factory, price)
  {
    CutIsPart(price);
    if titanCut {
      var paid := MoveFrom(t, p.factory, buyer, p.fund, Cut(price).value).value;
      var after := MoveFrom(paid, p.factory, buyer, self, price - Cut(price).value).value;
      CutPaymentMoves(t, paid, after, p, buyer, self, price, Cut(price).value);
    } else {
      PaidFromAllowance(t, p, buyer, self, price, MoveFrom(t, p.factory, buyer, self, price).value);
      OnePayment(t, MoveFrom(t, p.factory, buyer, self, price).value, p, buyer, self, price);
    }
  }

  lemma OnePayment(t: Token, after: Token, p: Places, buyer: Address, self: Address, price: nat)
    requires Moved(t, after.(allowances := t.allowances), buyer, self, price)
    ensures Bought(t, after, p, buyer, self, price, 0)
  {
    forall a: Address ensures after.BalanceOf(a) == after.(allowances := t.allowances).BalanceOf(a) {}
  }

  lemma TwoPayments(t: Token, paid: Token, after: Token, p: Places, buyer: Address, self: Address, price: nat, cut: nat)
    requires cut <= price
    requires Moved(t, paid.(allowances := t.allowances), buyer, p.fund, cut)
    requires Moved(paid, after.(allowances := paid.allowances), buyer, self, price - cut)
    ensures Bought(t, after, p, buyer, self, price, cut)
  {
    forall a: Address
      ensures paid.BalanceOf(a) == paid.(allowances := t.allowances).BalanceOf(a)
      ensures after.BalanceOf(a) == after.(allowances := paid.allowances).BalanceOf(a)
    {}
  }

  /**
   * A payment goes through if and only if the buyer has allowed the factory the price and holds it, no address involved
   * is the zero address, the token is not paused and a cut can be computed. A buyer that is the fund itself needs no
   * tokens for the cut.
   */
  lemma PaymentSucceeds(t: Token, p: Places, titanCut: bool, buyer: Address, self: Address, price: nat)
    requires Sound(t)
    ensures PayForRental(t, p, titanCut, buyer, self, price).Some? <==>
      && buyer != ZERO && self != ZERO && p.factory != ZERO && !t.paused
      && price <= t.AllowanceOf(buyer, p.factory)
      && price - (if buyer == p.fund then CutTaken(titanCut, price) else 0) <= t.BalanceOf(buyer)
      && (titanCut ==> p.fund != ZERO && 25 * price <= MAX_UINT)
  {
    if titanCut && Cut(price).Some? {
      CutIsPart(price);
      CutPaymentSucceeds(t, p, buyer, self, price, Cut(price).value);
    } else if !titanCut {
      MoveFromSucceeds(t, p.factory, buyer, self, price);
      MoveSucceeds(t, buyer, self, price);
    }
  }

  /** Both payments of a purchase with a cut. */
  lemma CutPaymentSucceeds(t: Token, p: Places, buyer: Address, self: Address, price: nat, cut: nat)
    requires Sound(t) && 2 * cut <= price
    ensures price <= t.AllowanceOf(buyer, p.factory) ==>
      var paid := MoveFrom(t, p.factory, buyer, p.fund, cut);
      (paid.Some? && MoveFrom(paid.value, p.factory, buyer, self, price - cut).Some? <==>
        && buyer != ZERO && self != ZERO && p.factory != ZERO && p.fund != ZERO && !t.paused
        && price - (if buyer == p.fund then cut else 0) <= t.BalanceOf(buyer))
  {
    MoveFromSucceeds(t, p.factory, buyer, p.fund, cut);
    MoveSucceeds(t, buyer, p.fund, cut);
    var paid := MoveFrom(t, p.factory, buyer, p.fund, cut);
    if paid.Some? { PaymentAfterCut(t, paid.value, p, buyer, self, cut, price - cut); }
  }

  lemma PaymentAfterCut(t: Token, paid: Token, p: Places, buyer: Address, self: Address, cut: nat, rest: nat)
    requires Sound(paid) && Moved(t, paid.(allowances := t.allowances), buyer, p.fund, cut)
    requires AllowanceUsed(t, paid, buyer, p.factory, cut)
    ensures MoveFrom(paid, p.factory, buyer, self, rest).Some? <==>
      && buyer != ZERO && self != ZERO && p.factory != ZERO && !t.paused && cut + rest <= t.AllowanceOf(buyer, p.factory)
      && rest + cut - (if buyer == p.fund then cut else 0) <= t.BalanceOf(buyer)
  {
    assert paid.BalanceOf(buyer) == paid.(allowances := t.allowances).BalanceOf(buyer);
    MoveFromSucceeds(paid, p.factory, buyer, self, rest);
    MoveSucceeds(paid, buyer, self, rest);
  }

  /** A buyer other than the fund and the rental pays exactly the price, whether or not there is a cut. */
  lemma PurchaseDebitsPrice(w: World, p: Places, buyer: Address, self: Address, poolData: string)
    requires Sound(w.token) && Purchase(w, p, buyer, self, poolData).Some?
    requires buyer != p.fund && buyer != self && self != p.fund
    ensures var after, price := Purchase(w, p, buyer, self, poolData).value, w.rentals[self].terms.price;
            var cut := CutTaken(w.titanCut, price);
            && after.token.BalanceOf(buyer) == w.token.BalanceOf(buyer) - price
            && after.token.BalanceOf(self) == w.token.BalanceOf(self) + price - cut
            && after.token.BalanceOf(p.fund) == w.token.BalanceOf(p.fund) + cut
  {
    PaymentMoves(w.token, p, w.titanCut, buyer, self, w.rentals[self].terms.price);
  }

  /**
   * After a purchase the rental holds enough for an early end at once if and only if it held the cut
   * before (or has no length).
   */
  lemma FundedAfterPurchase(w: World, p: Places, buyer: Address, self: Address, poolData: string)
    requires Sound(w.token) && Purchase(w, p, buyer, self, poolData).Some?
    requires buyer != self && self != p.fund
    ensures var after, price := Purchase(w, p, buyer, self, poolData).value, w.rentals[self].terms.price;
            Funded(after.token, after.rentals[self], self, w.now)
            <==> w.rentals[self].terms.length == 0 || CutTaken(w.titanCut, price) <= w.token.BalanceOf(self)
  {
    var after := Purchase(w, p, buyer, self, poolData).value;
    PaymentMoves(w.token, p, w.titanCut, buyer, self, w.rentals[self].terms.price);
    FundedAtStart(after.token, after.rentals[self], self, w.now);
  }

  // ---- runs

  datatype Op =
    | Wait(seconds: nat)
    | SetPaused(paused: bool)
    | SetTitanCut(cut: bool)
    | OnToken(sender: Address, op: TokenOp)
    | Create(sender: Address, self: Address, terms: Terms, validator: Address)
    | Buy(sender: Address, self: Address, poolData: string)
    | Close(sender: Address, self: Address, kind: nat)
    | ChangePool(sender: Address, self: Address, poolData: string)
    | ChangeTerms(sender: Address, self: Address, terms: Terms, kind: nat)

  /** Calls come from accounts that are not contracts; a new rental gets an address of its own. */
  ghost predicate Legal(p: Places, op: Op) {
    match op
    case OnToken(sender, _) => sender !in p.contracts && sender != ZERO
    case Create(sender, self, _, _) => sender !in p.contracts && sender != ZERO && self in p.contracts && self != p.factory
    case Buy(sender, _, _) => sender !in p.contracts && sender != ZERO
    case Close(sender, _, _) => sender !in p.contracts && sender != ZERO
    case ChangePool(sender, _, _) => sender !in p.contracts && sender != ZERO
    case ChangeTerms(sender, _, _, _) => sender !in p.contracts && sender != ZERO
    case _ => true
  }

  function WithBooks(w: World, self: Address, books: Option<Books>): Option<World> {
    match books
    case None => None
    case Some(b) => Some(w.(token := b.token, rentals := w.rentals[self := b.rental]))
  }

  /** What a call makes of the world; None when it reverts. */
  function Apply(w: World, p: Places, op: Op): Option<World> {
    match op
    case Wait(seconds) => Some(w.(now := w.now + seconds))
    case SetPaused(paused) => Some(w.(token := w.token.(paused := paused)))
    case SetTitanCut(cut) => Some(w.(titanCut := cut))
    case OnToken(sender, top) =>
      (match Perform(w.token, sender, top)
       case None => None
       case Some(t) => Some(w.(token := t)))
    case Create(sender, self, terms, validator) =>
      if self in w.rentals then None
      else Some(w.(rentals := w.rentals[self := Initialized(terms, sender, p.factory, validator)]))
    case Buy(sender, self, poolData) => Purchase(w, p, sender, self, poolData)
    case Close(sender, self, kind) =>
      if self !in w.rentals then None
      else WithBooks(w, self, CloseOut(Books(w.token, w.rentals[self]), self, sender, w.now, kind))
    case ChangePool(sender, self, poolData) =>
      if self !in w.rentals then None
      else (match UpdateMining(w.rentals[self], sender, poolData)
            case None => None
            case Some(r) => Some(w.(rentals := w.rentals[self := r])))
    case ChangeTerms(sender, self, terms, kind) =>
      if self !in w.rentals then None
      else WithBooks(w, self, UpdatePurchase(Books(w.token, w.rentals[self]), self, sender, w.now, terms, kind))
  }

  function Step(w: World, p: Places, op: Op): World {
    match Apply(w, p, op) case None => w case Some(after) => after
  }

  function Run(w: World, p: Places, ops: seq<Op>): World
    decreases |ops|
  {
    if ops == [] then w else Run(Step(w, p, ops[0]), p, ops[1..])
  }

  /** What holds between any two calls. */
  ghost predicate Inv(w: World, p: Places) {
    && Proper(p) && Sound(w.token) && Untouchable(w.token, p.contracts)
    && w.rentals.Keys <= p.contracts
    && forall a <- w.rentals :: WellFormed(w.rentals[a], p.contracts, w.now) && w.rentals[a].factory == p.factory
  }

  ghost predicate AllFunded(w: World) {
    forall a <- w.rentals :: Funded(w.token, w.rentals[a], a, w.now)
  }

  /** A purchase takes no cut, or no more than the rental held before. */
  ghost predicate CutCovered(w: World, op: Op) {
    op.Buy? && op.self in w.rentals ==>
      CutTaken(w.titanCut, w.rentals[op.self].terms.price) <= w.token.BalanceOf(op.self)
  }

  // ---- each call keeps the invariant

  /** Tokens of every contract but one are at least what they were, and no contract has given an allowance. */
  ghost predicate Kept(t: Token, after: Token, contracts: set<Address>, except: set<Address>) {
    Sound(after) && Untouchable(after, contracts)
    && forall c <- contracts :: c !in except ==> after.BalanceOf(c) >= t.BalanceOf(c)
  }

  lemma OthersStayFunded(w: World, after: World, p: Places, self: Address)
    requires Inv(w, p) && Kept(w.token, after.token, p.contracts, {self}) && w.now <= after.now
    requires forall a <- after.rentals :: a != self ==> a in w.rentals && after.rentals[a] == w.rentals[a]
    ensures forall a <- after.rentals :: a != self ==>
      WellFormed(after.rentals[a], p.contracts, after.now) && after.rentals[a].factory == p.factory
    ensures AllFunded(w) ==> forall a <- after.rentals :: a != self ==> Funded(after.token, after.rentals[a], a, after.now)
  {
    forall a | a in after.rentals && a != self && AllFunded(w) ensures Funded(after.token, after.rentals[a], a, after.now) {
      assert Funded(w.token, w.rentals[a], a, w.now);
      FundedLater(w.token, after.token, w.rentals[a], a, w.now, after.now);
    }
  }

  lemma TokenCallKeeps(w: World, p: Places, sender: Address, op: TokenOp)
    requires Inv(w, p) && sender !in p.contracts && Perform(w.token, sender, op).Some?
    ensures Kept(w.token, Perform(w.token, sender, op).value, p.contracts, {})
  {
    PerformKeepsSound(w.token, sender, op);
    forall c | c in p.contracts ensures Perform(w.token, sender, op).value.BalanceOf(c) >= w.token.BalanceOf(c) {
      OthersCannotTake(w.token, sender, op, p.contracts, c);
    }
    OthersCannotTake(w.token, sender, op, p.contracts, p.factory);
  }

  lemma PaymentKeeps(t: Token, p: Places, titanCut: bool, buyer: Address, self: Address, price: nat)
    requires Proper(p) && Sound(t) && Untouchable(t, p.contracts) && buyer !in p.contracts
    requires PayForRental(t, p, titanCut, buyer, self, price).Some?
    ensures Kept(t, PayForRental(t, p, titanCut, buyer, self, price).value, p.contracts, {})
  {
    PaymentMoves(t, p, titanCut, buyer, self, price);
  }

  lemma PurchaseKeeps(w: World, p: Places, sender: Address, self: Address, poolData: string)
    requires Inv(w, p) && sender !in p.contracts && sender != ZERO && Purchase(w, p, sender, self, poolData).Some?
    ensures var after := Purchase(w, p, sender, self, poolData).value;
            && Kept(w.token, after.token, p.contracts, {}) && WellFormed(after.rentals[self], p.contracts, w.now)
            && after.rentals[self].factory == p.factory
            && (CutCovered(w, Buy(sender, self, poolData)) ==> Funded(after.token, after.rentals[self], self, w.now))
  {
    PaymentKeeps(w.token, p, w.titanCut, sender, self, w.rentals[self].terms.price);
    FundedAfterPurchase(w, p, sender, self, poolData);
    assert WellFormed(w.rentals[self], p.contracts, w.now);
  }

  lemma CloseKeeps(w: World, p: Places, sender: Address, self: Address, kind: nat)
    requires Inv(w, p) && self in w.rentals
    requires CloseOut(Books(w.token, w.rentals[self]), self, sender, w.now, kind).Some?
    ensures var after := CloseOut(Books(w.token, w.rentals[self]), self, sender, w.now, kind).value;
            && Kept(w.token, after.token, p.contracts, {self}) && WellFormed(after.rental, p.contracts, w.now)
            && (Funded(w.token, w.rentals[self], self, w.now) ==> Funded(after.token, after.rental, self, w.now))
            && (kind in {2, 3} ==> after.rental.state == Available) && SameParties(w.rentals[self], after.rental)
  {
    assert WellFormed(w.rentals[self], p.contracts, w.now);
    CloseOutKeeps(Books(w.token, w.rentals[self]), self, sender, w.now, kind, p.contracts);
    CloseOutKeepsSound(Books(w.token, w.rentals[self]), self, sender, w.now, kind);
  }

  /** One rental was changed, or none, and the rest of the world is fine: then so is the whole. */
  lemma OneChanged(w: World, after: World, p: Places, self: Address)
    requires Inv(w, p) && self in p.contracts && Kept(w.token, after.token, p.contracts, {self}) && w.now == after.now
    requires self in after.rentals && after.rentals.Keys <= w.rentals.Keys + {self}
    requires forall a <- after.rentals :: a != self ==> after.rentals[a] == w.rentals[a]
    requires WellFormed(after.rentals[self], p.contracts, after.now) && after.rentals[self].factory == p.factory
    ensures Inv(after, p)
    ensures AllFunded(w) && Funded(after.token, after.rentals[self], self, after.now) ==> AllFunded(after)
  {
    OthersStayFunded(w, after, p, self);
  }

  lemma WaitKeeps(w: World, after: World, p: Places)
    requires Inv(w, p) && Kept(w.token, after.token, p.contracts, {}) && w.now <= after.now && after.rentals == w.rentals
    ensures Inv(after, p) && (AllFunded(w) ==> AllFunded(after))
  {
    OthersStayFunded(w, after, p, ZERO);
  }

  lemma PauseKeepsSound(t: Token, paused: bool)
    requires Sound(t)
    ensures Sound(t.(paused := paused))
  {
    forall a: Address | a != ZERO ensures Accounted(t.(paused := paused), a) {
      assert Accounted(t, a);
    }
  }

  lemma ChangeTermsKeeps(w: World, p: Places, op: Op)
    requires Inv(w, p) && Legal(p, op) && op.ChangeTerms? && Apply(w, p, op).Some?
    ensures Inv(Apply(w, p, op).value, p) && (AllFunded(w) ==> AllFunded(Apply(w, p, op).value))
  {
    var after, books := Apply(w, p, op).value, Books(w.token, w.rentals[op.self]);
    CloseKeeps(w, p, op.sender, op.self, op.kind);
    var closed := CloseOut(books, op.self, op.sender, w.now, op.kind).value;
    assert after.rentals[op.self] == closed.rental.(terms := op.terms);
    OneChanged(w, after, p, op.self);
  }

  lemma CloseCallKeeps(w: World, p: Places, op: Op)
    requires Inv(w, p) && Legal(p, op) && op.Close? && Apply(w, p, op).Some?
    ensures Inv(Apply(w, p, op).value, p) && (AllFunded(w) ==> AllFunded(Apply(w, p, op).value))
  {
    CloseKeeps(w, p, op.sender, op.self, op.kind);
    OneChanged(w, Apply(w, p, op).value, p, op.self);
  }

  lemma BuyKeeps(w: World, p: Places, op: Op)
    requires Inv(w, p) && Legal(p, op) && op.Buy? && Apply(w, p, op).Some?
    ensures Inv(Apply(w, p, op).value, p)
    ensures AllFunded(w) && CutCovered(w, op) ==> AllFunded(Apply(w, p, op).value)
  {
    PurchaseKeeps(w, p, op.sender, op.self, op.poolData);
    OneChanged(w, Apply(w, p, op).value, p, op.self);
  }

  /** Every call that goes through keeps the invariant, and keeps rentals funded if a cut it takes is covered. */
  lemma ApplyKeeps(w: World, p: Places, op: Op)
    requires Inv(w, p) && Legal(p, op) && Apply(w, p, op).Some?
    ensures Inv(Apply(w, p, op).value, p)
    ensures AllFunded(w) && CutCovered(w, op) ==> AllFunded(Apply(w, p, op).value)
  {
    var after := Apply(w, p, op).value;
    match op
    case Wait(_) => WaitKeeps(w, after, p);
    case SetPaused(paused) =>
      PauseKeepsSound(w.token, paused);
      WaitKeeps(w, after, p);
    case SetTitanCut(_) => WaitKeeps(w, after, p);
    case OnToken(sender, top) =>
      TokenCallKeeps(w, p, sender, top);
      WaitKeeps(w, after, p);
    case Create(_, self, _, _) => OneChanged(w, after, p, self);
    case Buy(_, _, _) => BuyKeeps(w, p, op);
    case Close(_, _, _) => CloseCallKeeps(w, p, op);
    case ChangePool(_, self, _) =>
      assert WellFormed(w.rentals[self], p.contracts, w.now);
      OneChanged(w, after, p, self);
    case ChangeTerms(_, _, _, _) => ChangeTermsKeeps(w, p, op);
  }

  /** Every purchase of a run takes no more of a cut than the rental held before. */
  ghost predicate CutsCovered(w: World, p: Places, ops: seq<Op>)
    decreases |ops|
  {
    ops == [] || (CutCovered(w, ops[0]) && CutsCovered(Step(w, p, ops[0]), p, ops[1..]))
  }

  ghost predicate AllLegal(p: Places, ops: seq<Op>) {
    forall i :: 0 <= i < |ops| ==> Legal(p, ops[i])
  }

  /** The invariant holds after every run; so do the payouts' funds if every cut is covered. */
  lemma {:induction false} RunKeeps(w: World, p: Places, ops: seq<Op>)
    requires Inv(w, p) && AllLegal(p, ops)
    ensures Inv(Run(w, p, ops), p)
    ensures AllFunded(w) && CutsCovered(w, p, ops) ==> AllFunded(Run(w, p, ops))
    decreases |ops|
  {
    if ops != [] {
      assert Legal(p, ops[0]);
      if Apply(w, p, ops[0]).Some? { ApplyKeeps(w, p, ops[0]); }
      RunKeeps(Step(w, p, ops[0]), p, ops[1..]);
    }
  }

  ghost predicate NoCut(ops: seq<Op>) {
    forall i :: 0 <= i < |ops| ==> !(ops[i].SetTitanCut? && ops[i].cut)
  }

  lemma {:induction false} NoCutIsCovered(w: World, p: Places, ops: seq<Op>)
    requires !w.titanCut && NoCut(ops)
    ensures CutsCovered(w, p, ops)
    decreases |ops|
  {
    if ops != [] {
      StaysOff(w, p, ops[0]);
      NoCutIsCovered(Step(w, p, ops[0]), p, ops[1..]);
    }
  }

  lemma StaysOff(w: World, p: Places, op: Op)
    requires !w.titanCut && !(op.SetTitanCut? && op.cut)
    ensures !Step(w, p, op).titanCut
  {
  }

  /** A market starts with a new token and no rentals. */
  lemma MarketStartsSound(w: World, p: Places, deployer: Address)
    requires Proper(p) && deployer !in p.contracts && deployer != ZERO && w.rentals == map[]
    requires w.token == Token(map[deployer := INITIAL_SUPPLY], map[], INITIAL_SUPPLY, false,
                              [Transferred(ZERO, deployer, INITIAL_SUPPLY)])
    ensures Inv(w, p) && AllFunded(w)
  {
    var none := Token(map[], map[], 0, false, []);
    MintKeepsSound(none, deployer, INITIAL_SUPPLY);
    assert w.token == Mint(none, deployer, INITIAL_SUPPLY).value;
  }

  // ---- calls on one rental: who may make them, when they go through, and everything they change

  /** Nothing outside the token and one rental has changed. */
  ghost predicate OnlyRental(w: World, after: World, self: Address) {
    && after.now == w.now && after.titanCut == w.titanCut && self in w.rentals && after.rentals.Keys == w.rentals.Keys
    && forall a <- w.rentals :: a != self ==> after.rentals[a] == w.rentals[a]
  }

  /** Anyone can offer a rental at a new address. It is available on the given terms, and the caller is its seller. */
  lemma CreationOffers(w: World, p: Places, sender: Address, self: Address, terms: Terms, validator: Address)
    ensures var end := Apply(w, p, Create(sender, self, terms, validator));
            && (end.Some? <==> self !in w.rentals)
            && (end.Some? ==>
                  && self in end.value.rentals && end.value.(rentals := w.rentals) == w
                  && end.value.rentals.Keys == w.rentals.Keys + {self}
                  && (forall a <- w.rentals :: end.value.rentals[a] == w.rentals[a])
                  && var r := end.value.rentals[self];
                     && r.state == Available && r.terms == terms && r.seller == sender && r.factory == p.factory
                     && r.validator == validator && r.buyer == ZERO && r.start == 0 && r.contractTotal == 0)
  {
  }

  /**
   * A purchase goes through if and only if the rental is known and available, the buyer holds the price and has allowed
   * it to the factory, the token is not paused, the buyer exists, and a cut has a recipient and can be computed. The
   * fund, if it is the buyer, needs no tokens for the cut.
   */
  lemma PurchaseSucceeds(w: World, p: Places, buyer: Address, self: Address, poolData: string)
    requires Inv(w, p)
    ensures Apply(w, p, Buy(buyer, self, poolData)).Some? <==>
      && self in w.rentals && w.rentals[self].state == Available && buyer != ZERO && !w.token.paused
      && var price := w.rentals[self].terms.price;
         && price <= w.token.AllowanceOf(buyer, p.factory)
         && price - (if buyer == p.fund then CutTaken(w.titanCut, price) else 0) <= w.token.BalanceOf(buyer)
         && (w.titanCut ==> p.fund != ZERO && 25 * price <= MAX_UINT)
  {
    if self in w.rentals {
      PaymentSucceeds(w.token, p, w.titanCut, buyer, self, w.rentals[self].terms.price);
      SellingSucceeds(w.rentals[self], p.factory, buyer, poolData, w.now);
    }
  }

  /** Then the price has moved from the buyer to the rental and the fund, and the rental runs for the buyer from now on. */
  lemma PurchaseSells(w: World, p: Places, buyer: Address, self: Address, poolData: string)
    requires Inv(w, p) && Apply(w, p, Buy(buyer, self, poolData)).Some?
    ensures var after, r := Apply(w, p, Buy(buyer, self, poolData)).value, w.rentals[self];
            var cut := CutTaken(w.titanCut, r.terms.price);
            && OnlyRental(w, after, self) && SoldTo(r, after.rentals[self], buyer, poolData, w.now)
            && cut <= r.terms.price && Bought(w.token, after.token, p, buyer, self, r.terms.price, cut)
            && AllowanceUsed(w.token, after.token, buyer, p.factory, r.terms.price)
  {
    PaymentMoves(w.token, p, w.titanCut, buyer, self, w.rentals[self].terms.price);
    SellingSucceeds(w.rentals[self], p.factory, buyer, poolData, w.now);
  }

  /** Closeout 0, by the buyer or the validator: the buyer gets what is owed and the seller the rest, if anything is owed. */
  lemma EndsEarly(w: World, p: Places, sender: Address, self: Address)
    requires Inv(w, p) && self in w.rentals
    ensures w.rentals[self].start <= w.now
    ensures var r, held, end := w.rentals[self], w.token.BalanceOf(self), Apply(w, p, Close(sender, self, 0));
            var owed := Owed(r.terms, w.now - r.start);
            && (end.Some? <==>
                  && (sender == r.buyer || sender == r.validator) && Computable(r.terms, w.now - r.start)
                  && (owed > 0 ==> owed <= held && !w.token.paused && r.escrowSeller != ZERO && r.escrowPurchaser != ZERO))
            && (end.Some? ==> OnlyRental(w, end.value, self) && Freed(r, end.value.rentals[self]))
            && (end.Some? && owed > 0 ==> Paid(w.token, end.value.token, r, self, held - owed, owed))
            && (end.Some? && owed == 0 ==> end.value.token == w.token)
  {
    RentalIsPayable(w, p, self);
    EarlyCloseSucceeds(Books(w.token, w.rentals[self]), self, sender, w.now);
  }

  lemma RentalIsPayable(w: World, p: Places, self: Address)
    requires Inv(w, p) && self in w.rentals
    ensures Payable(Books(w.token, w.rentals[self]), self, w.now)
  {
    assert WellFormed(w.rentals[self], p.contracts, w.now) && self in p.contracts;
  }

  /** Closeout 1, by the seller: all but what is owed is paid to the seller, and the rental is as it was. */
  lemma PaysSeller(w: World, p: Places, sender: Address, self: Address)
    requires Inv(w, p) && self in w.rentals
    ensures w.rentals[self].start <= w.now
    ensures var r, held, end := w.rentals[self], w.token.BalanceOf(self), Apply(w, p, Close(sender, self, 1));
            var owed := Owed(r.terms, w.now - r.start);
            && (end.Some? <==> sender == r.seller && Computable(r.terms, w.now - r.start)
                               && owed <= held && !w.token.paused && r.escrowSeller != ZERO)
            && (end.Some? ==> end.value.rentals == w.rentals && OnlyRental(w, end.value, self)
                              && Paid(w.token, end.value.token, r, self, held - owed, 0))
  {
    RentalIsPayable(w, p, self);
    TakingEarnedSucceeds(Books(w.token, w.rentals[self]), self, sender, w.now);
    assert w.rentals[self := w.rentals[self]] == w.rentals;
  }

  /**
   * Closeouts 2 and 3, by anyone, once the term is over: the rental is available again, and with closeout 3 its
   * seller has been paid all that it held.
   */
  lemma EndsAtTerm(w: World, p: Places, sender: Address, self: Address)
    requires Inv(w, p) && self in w.rentals
    ensures var r, held := w.rentals[self], w.token.BalanceOf(self);
            var left, paid := Apply(w, p, Close(sender, self, 2)), Apply(w, p, Close(sender, self, 3));
            && (left.Some? <==> w.now - r.start >= r.terms.length)
            && (left.Some? ==> OnlyRental(w, left.value, self) && Freed(r, left.value.rentals[self])
                               && left.value.token == w.token)
            && (paid.Some? <==> w.now - r.start >= r.terms.length && !w.token.paused && r.escrowSeller != ZERO)
            && (paid.Some? ==> OnlyRental(w, paid.value, self) && Freed(r, paid.value.rentals[self])
                               && Paid(w.token, paid.value.token, r, self, held, 0))
  {
    RentalIsPayable(w, p, self);
    TermEndSucceeds(Books(w.token, w.rentals[self]), self, sender, w.now);
  }

  /** Other closeouts go through and change nothing. No closeout of an unknown rental goes through. */
  lemma OtherCloseouts(w: World, p: Places, sender: Address, self: Address, kind: nat)
    ensures self in w.rentals && kind > 3 ==> Apply(w, p, Close(sender, self, kind)) == Some(w)
    ensures self !in w.rentals ==> Apply(w, p, Close(sender, self, kind)) == None
  {
    if self in w.rentals { assert w.rentals[self := w.rentals[self]] == w.rentals; }
  }

  /** The seller can give a rental new terms once the term of a buyer is over, with the effect of closeout 2 or 3. */
  lemma TermsChange(w: World, p: Places, sender: Address, self: Address, terms: Terms, kind: nat)
    requires Inv(w, p) && self in w.rentals
    ensures var r, end := w.rentals[self], Apply(w, p, ChangeTerms(sender, self, terms, kind));
            && (end.Some? <==>
                  && sender == r.seller && r.state == Running && w.now - r.start >= r.terms.length
                  && (kind == 2 || (kind == 3 && !w.token.paused)))
            && (end.Some? ==> OnlyRental(w, end.value, self) && end.value.rentals[self].terms == terms
                              && Freed(r, end.value.rentals[self].(terms := r.terms)))
            && (end.Some? && kind == 2 ==> end.value.token == w.token)
            && (end.Some? && kind == 3 ==> Paid(w.token, end.value.token, r, self, w.token.BalanceOf(self), 0))
  {
    RentalIsPayable(w, p, self);
    NewTermsSucceed(Books(w.token, w.rentals[self]), self, sender, w.now, terms, kind);
    assert WellFormed(w.rentals[self], p.contracts, w.now);
  }

  /** The buyer of a running rental, and nobody else, can change its pool, which is all that changes. */
  lemma PoolChanges(w: World, p: Places, sender: Address, self: Address, poolData: string)
    ensures var end := Apply(w, p, ChangePool(sender, self, poolData));
            && (end.Some? <==> self in w.rentals && w.rentals[self].state == Running && sender == w.rentals[self].buyer)
            && (end.Some? ==> OnlyRental(w, end.value, self) && end.value.token == w.token
                              && end.value.rentals[self].poolData == poolData
                              && end.value.rentals[self].(poolData := w.rentals[self].poolData) == w.rentals[self])
  {
  }

  // ---- who can end a rental

  /** The rental runs on for the same buyer, on the same terms. */
  ghost predicate StillRented(r: Rental, after: Rental) {
    && after.state == Running && after.buyer == r.buyer && after.start == r.start && after.terms == r.terms
    && after.contractTotal == r.contractTotal && SameParties(r, after)
  }

  /** A call that may end the rental: by its buyer or validator at any time, by anyone and by its seller after its term. */
  ghost predicate MayEnd(w: World, op: Op, a: Address)
    requires a in w.rentals
  {
    var r := w.rentals[a];
    match op
    case Close(sender, self, kind) =>
      self == a && ((kind == 0 && (sender == r.buyer || sender == r.validator))
                    || ((kind == 2 || kind == 3) && w.now - r.start >= r.terms.length))
    case ChangeTerms(sender, self, _, _) => self == a && sender == r.seller && w.now - r.start >= r.terms.length
    case _ => false
  }

  lemma StepKeepsRented(w: World, p: Places, op: Op, a: Address)
    requires a in w.rentals && w.rentals[a].state == Running && !MayEnd(w, op, a)
    ensures var after := Step(w, p, op);
            after.now >= w.now && a in after.rentals && StillRented(w.rentals[a], after.rentals[a])
  {
  }

  ghost predicate NoneMayEnd(w: World, p: Places, ops: seq<Op>, a: Address)
    decreases |ops|
  {
    ops == [] || (a in w.rentals && !MayEnd(w, ops[0], a) && NoneMayEnd(Step(w, p, ops[0]), p, ops[1..], a))
  }

  /** Whatever else is called, and whoever tries to buy it: a rental that no call may end runs on as it was sold. */
  lemma {:induction false} RentalRunsOn(w: World, p: Places, ops: seq<Op>, a: Address)
    requires a in w.rentals && w.rentals[a].state == Running && NoneMayEnd(w, p, ops, a)
    ensures a in Run(w, p, ops).rentals && StillRented(w.rentals[a], Run(w, p, ops).rentals[a])
    decreases |ops|
  {
    if ops != [] {
      StepKeepsRented(w, p, ops[0], a);
      RentalRunsOn(Step(w, p, ops[0]), p, ops[1..], a);
    }
  }

  lemma {:induction false} TimePasses(w: World, p: Places, ops: seq<Op>)
    ensures Run(w, p, ops).now >= w.now
    decreases |ops|
  {
    if ops != [] { TimePasses(Step(w, p, ops[0]), p, ops[1..]); }
  }

  /** Neither the buyer nor the validator ends the rental early. */
  ghost predicate NoEarlyEnd(ops: seq<Op>, a: Address, r: Rental) {
    forall i :: 0 <= i < |ops| ==>
      !(ops[i].Close? && ops[i].self == a && ops[i].kind == 0 && (ops[i].sender == r.buyer || ops[i].sender == r.validator))
  }

  /** Until its term is over, nobody but the buyer and the validator can take a rental away from the buyer. */
  lemma {:induction false} BuyerKeepsRental(w: World, p: Places, ops: seq<Op>, a: Address)
    requires a in w.rentals && w.rentals[a].state == Running && NoEarlyEnd(ops, a, w.rentals[a])
    requires Run(w, p, ops).now - w.rentals[a].start < w.rentals[a].terms.length
    ensures a in Run(w, p, ops).rentals && StillRented(w.rentals[a], Run(w, p, ops).rentals[a])
    decreases |ops|
  {
    if ops != [] {
      TimePasses(w, p, ops);
      assert !MayEnd(w, ops[0], a);
      StepKeepsRented(w, p, ops[0], a);
      BuyerKeepsRental(Step(w, p, ops[0]), p, ops[1..], a);
    }
  }

  // ---- the main results

  /**
   * With the cut off, after every run and at whatever time, a running rental can be ended early by its buyer (closeout 0)
   * and its earnings taken by its seller (closeout 1): no balance is ever too small. What can fail is only the
   * computation of the refund itself, or a transfer while the token is paused.
   */
  lemma PayoutsAreFunded(w: World, p: Places, ops: seq<Op>, a: Address)
    requires Inv(w, p) && AllFunded(w) && !w.titanCut && AllLegal(p, ops) && NoCut(ops)
    requires a in Run(w, p, ops).rentals && Run(w, p, ops).rentals[a].state == Running
    ensures var end := Run(w, p, ops);
            var r := end.rentals[a];
            && r.start <= end.now && Owed(r.terms, end.now - r.start) <= end.token.BalanceOf(a)
            && (Apply(end, p, Close(r.buyer, a, 0)).Some? <==>
                  Computable(r.terms, end.now - r.start) && (Owed(r.terms, end.now - r.start) > 0 ==> !end.token.paused))
            && (Apply(end, p, Close(r.seller, a, 1)).Some? <==>
                  Computable(r.terms, end.now - r.start) && !end.token.paused)
  {
    var end := Run(w, p, ops);
    NoCutIsCovered(w, p, ops);
    RunKeeps(w, p, ops);
    FundedPayouts(end, p, a);
  }

  lemma FundedPayouts(w: World, p: Places, a: Address)
    requires Inv(w, p) && a in w.rentals && w.rentals[a].state == Running && Funded(w.token, w.rentals[a], a, w.now)
    ensures var r := w.rentals[a];
            && r.start <= w.now && Owed(r.terms, w.now - r.start) <= w.token.BalanceOf(a)
            && (Apply(w, p, Close(r.buyer, a, 0)).Some? <==>
                  Computable(r.terms, w.now - r.start) && (Owed(r.terms, w.now - r.start) > 0 ==> !w.token.paused))
            && (Apply(w, p, Close(r.seller, a, 1)).Some? <==> Computable(r.terms, w.now - r.start) && !w.token.paused)
  {
    assert WellFormed(w.rentals[a], p.contracts, w.now);
    EndsEarly(w, p, w.rentals[a].buyer, a);
    PaysSeller(w, p, w.rentals[a].seller, a);
  }

  /**
   * With the cut on, the buyer can end a rental in the very block of its purchase if and only if the
   * rental held the cut before.
   */
  lemma EarlyEndNeedsTheCut(w: World, p: Places, buyer: Address, self: Address, poolData: string)
    requires Inv(w, p) && buyer !in p.contracts && buyer != ZERO
    requires Purchase(w, p, buyer, self, poolData).Some?
    requires var terms := w.rentals[self].terms; terms.length > 0 && Product(terms.price, terms.length) <= MAX_UINT
    ensures var after, price := Purchase(w, p, buyer, self, poolData).value, w.rentals[self].terms.price;
            Apply(after, p, Close(buyer, self, 0)).Some? <==> CutTaken(w.titanCut, price) <= w.token.BalanceOf(self)
  {
    var after := Purchase(w, p, buyer, self, poolData).value;
    var r := after.rentals[self];
    PurchaseKeeps(w, p, buyer, self, poolData);
    FundedAfterPurchase(w, p, buyer, self, poolData);
    PaidWhileRunning(w, p, buyer, self, poolData);
    OwedShrinks(r.terms, 0, 0);
    BuyKeeps(w, p, Buy(buyer, self, poolData));
    EndsEarly(after, p, buyer, self);
  }

  // ---- a purchase that cannot be ended early

  const EXAMPLE_PLACES := Places(1, 2, {1, 5})
  const EXAMPLE_TERMS := Terms(1000, 0, 0, 100)

  /** A new market with the cut off, whose account 3 holds all tokens. */
  function ExampleStart(): World {
    World(0, Token(map[3 := INITIAL_SUPPLY], map[], INITIAL_SUPPLY, false, [Transferred(ZERO, 3, INITIAL_SUPPLY)]), map[], false)
  }

  /** The same market with the cut on, one rental offered by account 4, and its price allowed by account 3. */
  function ExampleOffer(): World {
    ExampleStart().(token := ExampleStart().token.(allowances := map[Allowance(3, 1) := 1000]),
                    rentals := map[5 := Initialized(EXAMPLE_TERMS, 4, 1, 4)], titanCut := true)
  }

  function ExampleOps(): seq<Op> {
    [SetTitanCut(true), Create(4, 5, EXAMPLE_TERMS, 4), OnToken(3, Allow(1, 1000))]
  }

  lemma RunOne(w: World, p: Places, op: Op, rest: seq<Op>)
    ensures Run(w, p, [op] + rest) == Run(Step(w, p, op), p, rest)
  {
    assert ([op] + rest)[1..] == rest;
  }

  lemma ExampleIsOffered(rest: seq<Op>)
    ensures Run(ExampleStart(), EXAMPLE_PLACES, ExampleOps() + rest) == Run(ExampleOffer(), EXAMPLE_PLACES, rest)
  {
    var p, w := EXAMPLE_PLACES, ExampleStart();
    var on, create, allow := SetTitanCut(true), Create(4, 5, EXAMPLE_TERMS, 4), OnToken(3, Allow(1, 1000));
    assert ExampleOps() + rest == [on] + ([create] + ([allow] + rest));
    RunOne(w, p, on, [create] + ([allow] + rest));
    RunOne(Step(w, p, on), p, create, [allow] + rest);
    RunOne(Step(Step(w, p, on), p, create), p, allow, rest);
    assert Step(Step(Step(w, p, on), p, create), p, allow) == ExampleOffer();
  }

  lemma ExampleIsSound()
    ensures Inv(ExampleStart(), EXAMPLE_PLACES) && AllLegal(EXAMPLE_PLACES, ExampleOps() + [Buy(3, 5, "")])
    ensures Inv(ExampleOffer(), EXAMPLE_PLACES)
  {
    var ops := ExampleOps();
    MarketStartsSound(ExampleStart(), EXAMPLE_PLACES, 3);
    RunKeeps(ExampleStart(), EXAMPLE_PLACES, ops);
    ExampleIsOffered([]);
    assert ops + [] == ops;
  }

  lemma ExampleIsBought()
    ensures Purchase(ExampleOffer(), EXAMPLE_PLACES, 3, 5, "").Some?
    ensures var after := Purchase(ExampleOffer(), EXAMPLE_PLACES, 3, 5, "").value;
            after.token.BalanceOf(5) == 975 && Apply(after, EXAMPLE_PLACES, Close(3, 5, 0)) == None
  {
    var w, p := ExampleOffer(), EXAMPLE_PLACES;
    ExampleIsSound();
    assert Cut(1000) == Some(25);
    MoveFromSucceeds(w.token, 1, 3, 2, 25);
    var paid := MoveFrom(w.token, 1, 3, 2, 25).value;
    MoveFromSucceeds(paid, 1, 3, 5, 975);
    PurchaseDebitsPrice(w, p, 3, 5, "");
    EarlyEndNeedsTheCut(w, p, 3, 5, "");
  }

  /**
   * From a new market, by legal calls: the cut is switched on, a rental for 1000 is offered and bought. It holds 975
   * tokens then, and in the same block its early end by the buyer, who is owed all 1000, reverts.
   */
  lemma EarlyEndCanRevert()
    ensures var p, ops := EXAMPLE_PLACES, ExampleOps() + [Buy(3, 5, "")];
            var end := Run(ExampleStart(), p, ops);
            && Inv(ExampleStart(), p) && AllLegal(p, ops)
            && 5 in end.rentals && end.rentals[5].state == Running && end.rentals[5].buyer == 3
            && end.token.BalanceOf(5) == 975 && Owed(end.rentals[5].terms, 0) == 1000
            && Apply(end, p, Close(3, 5, 0)) == None
  {
    ExampleIsSound();
    ExampleIsOffered([Buy(3, 5, "")]);
    RunOne(ExampleOffer(), EXAMPLE_PLACES, Buy(3, 5, ""), []);
    assert [Buy(3, 5, "")] + [] == [Buy(3, 5, "")];
    ExampleIsBought();
    OwedShrinks(EXAMPLE_TERMS, 0, 0);
  }

  lemma PaidWhileRunning(w: World, p: Places, buyer: Address, self: Address, poolData: string)
    requires Sound(w.token) && Purchase(w, p, buyer, self, poolData).Some?
    ensures var after := Purchase(w, p, buyer, self, poolData).value;
            !after.token.paused && after.rentals[self].start == w.now && after.rentals[self].buyer == buyer
            && after.rentals[self].state == Running && after.rentals[self].terms == w.rentals[self].terms
  {
    PaymentUnpaused(w.token, p, w.titanCut, buyer, self, w.rentals[self].terms.price);
  }

  lemma PaymentUnpaused(t: Token, p: Places, titanCut: bool, buyer: Address, self: Address, price: nat)
    requires Sound(t) && PayForRental(t, p, titanCut, buyer, self, price).Some?
    ensures !PayForRental(t, p, titanCut, buyer, self, price).value.paused
  {
    if titanCut {
      MoveFromSucceeds(t, p.factory, buyer, p.fund, Cut(price).value);
    }
  }

  /** After every run, tokens that entered a contract are those it has paid out and those it holds. */
  lemma LedgerBalances(w: World, p: Places, ops: seq<Op>, a: Address)
    requires Inv(w, p) && AllLegal(p, ops) && a in p.contracts
    ensures var t := Run(w, p, ops).token;
            In(t.log, a) == Out(t.log, a) + t.BalanceOf(a) && Sum(t.balances) == t.supply
  {
    RunKeeps(w, p, ops);
    assert Accounted(Run(w, p, ops).token, a);
  }

  function Least(a: nat, b: nat): nat {
    if a < b then a else b
  }

  /**
   * Since its purchase, a running rental has paid out at most what it held before, what was given to
   * it since, and the price for the time served, rounded up. The world is the one right after the purchase.
   */
  lemma PaidAtMostEarned(w: World, p: Places, ops: seq<Op>, a: Address, before: nat)
    requires Inv(w, p) && AllFunded(w) && !w.titanCut && AllLegal(p, ops) && NoCut(ops)
    requires a in w.rentals && w.token.BalanceOf(a) == before + w.rentals[a].terms.price && w.rentals[a].terms.length > 0
    requires var end := Run(w, p, ops);
             a in end.rentals && end.rentals[a].state == Running && end.rentals[a].terms == w.rentals[a].terms
    ensures var end, terms := Run(w, p, ops), w.rentals[a].terms;
            && end.rentals[a].start <= end.now
            && Out(end.token.log, a) - Out(w.token.log, a) <=
               before + (In(end.token.log, a) - In(w.token.log, a))
               + Earned(terms, Least(end.now - end.rentals[a].start, terms.length))
  {
    var end := Run(w, p, ops);
    RunIsFunded(w, p, ops, a);
    BalanceOverTime(w.token, end.token, a);
    OwedAndEarned(end.rentals[a].terms, Least(end.now - end.rentals[a].start, w.rentals[a].terms.length));
  }

  lemma BalanceOverTime(t: Token, after: Token, a: Address)
    requires Accounted(t, a) && Accounted(after, a)
    ensures Out(after.log, a) - Out(t.log, a) == In(after.log, a) - In(t.log, a) + t.BalanceOf(a) - after.BalanceOf(a)
  {
  }

  lemma RunIsFunded(w: World, p: Places, ops: seq<Op>, a: Address)
    requires Inv(w, p) && AllFunded(w) && !w.titanCut && AllLegal(p, ops) && NoCut(ops)
    requires a in w.rentals && a in Run(w, p, ops).rentals
    ensures Funded(Run(w, p, ops).token, Run(w, p, ops).rentals[a], a, Run(w, p, ops).now)
    ensures Accounted(w.token, a) && Accounted(Run(w, p, ops).token, a)
  {
    NoCutIsCovered(w, p, ops);
    RunKeeps(w, p, ops);
  }

  /** An available rental owes nothing once the clock is past its length. */
  lemma AvailableOwesNothing(w: World, p: Places, a: Address)
    requires Inv(w, p) && a in w.rentals && w.rentals[a].state == Available
    requires w.now >= w.rentals[a].terms.length && (w.now > 0 || w.rentals[a].terms.length > 0)
    ensures Refund(w.rentals[a], w.now) == Some(0)
  {
    assert WellFormed(w.rentals[a], p.contracts, w.now);
    RefundIsOwed(w.rentals[a], w.now);
    assert Product(w.rentals[a].terms.price, 0) == 0;
  }

  // ---- the factory

  class CloneFactory {
    const places: Places
    const lumerin: Lumerin
    var rentals: map<Address, RentalContract>
    var rentalContracts: seq<Address>
    var titanCut: bool
    /** Which address a rental contract belongs to. */
    ghost var home: map<RentalContract, Address>

    constructor (places: Places, lumerin: Lumerin)
      ensures this.places == places && this.lumerin == lumerin
      ensures Valid() && rentals == map[] && !titanCut
    {
      this.places, this.lumerin := places, lumerin;
      rentals, rentalContracts, titanCut, home := map[], [], false, map[];
    }

    /** Every rental lives at its own address, uses the factory's token, and is listed. */
    ghost predicate Valid()
      reads this
    {
      && (forall a <- rentals :: rentals[a].self == a && rentals[a].token == lumerin
                                 && rentals[a] in home && home[rentals[a]] == a)
      && rentals.Keys == set a <- rentalContracts
    }

    ghost function Views(): map<Address, Rental>
      reads this, rentals.Values
    {
      map a | a in rentals :: rentals[a].Value()
    }

    ghost function InWorld(now: nat): World
      reads this, lumerin, rentals.Values
    {
      World(now, lumerin.State(), Views(), titanCut)
    }

    method SetCreateNewRentalContract(sender: Address, address: Address, terms: Terms, validator: Address)
      requires Valid() && address !in rentals
      modifies this
      ensures Valid() && titanCut == old(titanCut) && Same(lumerin.State(), old(lumerin.State()))
      ensures Views() == old(Views())[address := Initialized(terms, sender, places.factory, validator)]
      ensures rentalContracts == old(rentalContracts) + [address]
    {
      var rental := new RentalContract(address, terms, sender, lumerin, places.factory, validator);
      AddToList(rentalContracts, address, rentals.Keys);
      rentals, rentalContracts := rentals[address := rental], rentalContracts + [address];
      home := home[rental := address];
    }

    method SetTitanCut(cut: bool)
      requires Valid()
      modifies this`titanCut
      ensures Valid() && titanCut == cut
    {
      titanCut := cut;
    }

    /** Moves the price from the buyer; a transfer to the fund is undone when the one to the rental fails. */
    method Collect(buyer: Address, address: Address, price: nat) returns (ok: bool)
      modifies lumerin
      ensures Became(PayForRental(old(lumerin.State()), places, titanCut, buyer, address, price),
                     old(lumerin.State()), lumerin.State(), ok)
    {
      if lumerin.AllowanceOf(buyer, places.factory) < price {
        return false;
      }
      if titanCut {
        var cut := Cut(price);
        if cut.None? {
          return false;
        }
        var savedBalances, savedAllowances := lumerin.balances, lumerin.allowances;
        ghost var savedLog := lumerin.log;
        ok := lumerin.TransferFrom(places.factory, buyer, places.fund, cut.value);
        if ok {
          CutIsPart(price);
          ok := lumerin.TransferFrom(places.factory, buyer, address, price - cut.value);
          if !ok {
            lumerin.Restore(savedBalances, savedAllowances, savedLog);
          }
        }
      } else {
        ok := lumerin.TransferFrom(places.factory, buyer, address, price);
      }
    }

    /** Marks a rental as bought. */
    method Sell(address: Address, buyer: Address, poolData: string, now: nat) returns (ok: bool)
      requires Valid() && address in rentals
      modifies rentals[address]
      ensures Same(lumerin.State(), old(lumerin.State()))
      ensures var sold := SetPurchase(old(Views())[address], places.factory, buyer, poolData, now);
              ok == sold.Some? && Same(Views(), if ok then old(Views())[address := sold.value] else old(Views()))
    {
      ghost var before := Views();
      ok := rentals[address].SetPurchaseContract(places.factory, poolData, buyer, now);
      assert Views() == before[address := rentals[address].Value()];
      if !ok { assert Views() == before; }
    }

    /** The tokens move first; if the rental then cannot be bought, everything is undone. */
    method SetPurchaseRentalContract(sender: Address, address: Address, poolData: string, now: nat) returns (ok: bool)
      requires Valid()
      modifies lumerin, rentals.Values
      ensures var bought := Purchase(old(InWorld(now)), places, sender, address, poolData);
              ok == bought.Some? && Same(InWorld(now), if ok then bought.value else old(InWorld(now)))
    {
      ok := false;
      if address in rentals {
        ghost var w := InWorld(now);
        ok := Buy(sender, address, poolData, now, w);
      }
    }

    method Buy(sender: Address, address: Address, poolData: string, now: nat, ghost w: World) returns (ok: bool)
      requires Valid() && address in rentals && w.now == now && w.titanCut == titanCut
      requires Same(w.token, lumerin.State()) && Same(w.rentals, Views())
      modifies lumerin, rentals.Values
      ensures var bought := Purchase(w, places, sender, address, poolData);
              ok == bought.Some?
              && Same(lumerin.State(), if ok then bought.value.token else w.token)
              && Same(Views(), if ok then bought.value.rentals else w.rentals)
    {
      var savedBalances, savedAllowances := lumerin.balances, lumerin.allowances;
      ghost var savedLog := lumerin.log;
      ok := CollectOnly(sender, address, rentals[address].terms.price);
      if ok {
        ok := Sell(address, sender, poolData, now);
        if !ok { UndoCollect(savedBalances, savedAllowances, savedLog, w.token); }
      }
    }

    method UndoCollect(balances: map<Address, nat>, allowances: map<Allowance, nat>, ghost log: seq<Event>, ghost t: Token)
      requires Valid() && t == Token(balances, allowances, lumerin.totalSupply, lumerin.paused, log)
      modifies lumerin
      ensures Same(Views(), old(Views())) && Same(lumerin.State(), t)
    {
      lumerin.Restore(balances, allowances, log);
      assert Views() == old(Views());
    }

    method CollectOnly(buyer: Address, address: Address, price: nat) returns (ok: bool)
      requires Valid()
      modifies lumerin
      ensures Same(Views(), old(Views()))
      ensures lumerin.paused == old(lumerin.paused) && lumerin.totalSupply == old(lumerin.totalSupply)
      ensures Became(PayForRental(old(lumerin.State()), places, titanCut, buyer, address, price),
                     old(lumerin.State()), lumerin.State(), ok)
    {
      PaymentKeepsSupply(lumerin.State(), places, titanCut, buyer, address, price);
      ok := Collect(buyer, address, price);
      assert Views() == old(Views());
    }
  }

  lemma PaymentKeepsSupply(t: Token, p: Places, titanCut: bool, buyer: Address, self: Address, price: nat)
    ensures var after := PayForRental(t, p, titanCut, buyer, self, price);
            after.Some? ==> after.value.supply == t.supply && after.value.paused == t.paused
  {
  }

  lemma AddToList(list: seq<Address>, a: Address, keys: set<Address>)
    requires keys == set b <- list
    ensures keys + {a} == set b <- list + [a]
  {
    assert (list + [a])[|list|] == a;
    assert forall i :: 0 <= i < |list| ==> (list + [a])[i] == list[i];
  }
}
