/** A hashrate rental contract: its states, its escrow, and what the buyer gets back. */
module Rentals {
  import opened Wrappers
  import opened Arithmetic
  import opened Erc20

  datatype ContractState = Available | Running

  /** Price and duration of a rental, and the limits it advertises. */
  datatype Terms = Terms(price: nat, limit: nat, speed: nat, length: nat)

  datatype Rental = Rental(
    state: ContractState, terms: Terms, start: nat, buyer: Address, seller: Address, factory: Address,
    validator: Address, poolData: string, escrowSeller: Address, escrowPurchaser: Address, contractTotal: nat)

  function Initialized(terms: Terms, seller: Address, factory: Address, validator: Address): Rental {
    Rental(Available, terms, 0, ZERO, seller, factory, validator, "", ZERO, ZERO, 0)
  }

  // ---- the refund

  function Product(a: nat, b: nat): nat {
    a * b
  }

  /** What the buyer is still owed; None when the clock is behind, the product overflows or the length is zero. */
  function Refund(r: Rental, now: nat): Option<nat> {
    if now < r.start then None
    else if now - r.start <= r.terms.length then
      var product := Product(r.terms.price, r.terms.length - (now - r.start));
      if product > MAX_UINT || r.terms.length == 0 then None else Some(product / r.terms.length)
    else Some(0)
  }

  /** The part of the price for the time not served yet, rounded down. */
  function Owed(terms: Terms, elapsed: nat): nat {
    if elapsed < terms.length then Product(terms.price, terms.length - elapsed) / terms.length else 0
  }

  /** The refund after some time can be computed: the product fits, and nothing is divided by zero. */
  ghost predicate Computable(terms: Terms, elapsed: nat) {
    elapsed <= terms.length ==> terms.length > 0 && Product(terms.price, terms.length - elapsed) <= MAX_UINT
  }

  /** The refund is what is owed, whenever it can be computed. */
  lemma RefundIsOwed(r: Rental, now: nat)
    requires r.start <= now
    ensures Refund(r, now) == if Computable(r.terms, now - r.start) then Some(Owed(r.terms, now - r.start)) else None
  {
    assert Product(r.terms.price, 0) == 0;
  }

  lemma ProductMonotone(p: nat, x: nat, y: nat)
    requires x <= y
    ensures Product(p, x) <= Product(p, y)
  {
  }

  lemma WholePrice(price: nat, length: nat)
    requires length > 0
    ensures Product(price, length) / length == price
  {
    QuotientIs(Product(price, length), length, price, 0);
  }

  /** Less and less is owed as time goes on; at the start all of the price is. */
  lemma OwedShrinks(terms: Terms, elapsed: nat, later: nat)
    requires elapsed <= later
    ensures Owed(terms, later) <= Owed(terms, elapsed) <= terms.price
    ensures terms.length > 0 ==> Owed(terms, 0) == terms.price
  {
    var p, l := terms.price, terms.length;
    if l > 0 { WholePrice(p, l); }
    if elapsed < l {
      ProductMonotone(p, l - elapsed, l);
      WholeQuotientOrder(Product(p, l - elapsed), Product(p, l), l);
      if later < l {
        ProductMonotone(p, l - later, l - elapsed);
        WholeQuotientOrder(Product(p, l - later), Product(p, l - elapsed), l);
      }
    }
  }

  /** What has been earned by the seller after some time: the price for that time, rounded up. */
  function Earned(terms: Terms, elapsed: nat): nat
    requires terms.length > 0
  {
    (Product(terms.price, elapsed) + terms.length - 1) / terms.length
  }

  /** The part owed and the part earned make up the price. */
  lemma OwedAndEarned(terms: Terms, elapsed: nat)
    requires elapsed <= terms.length && terms.length > 0
    ensures Owed(terms, elapsed) + Earned(terms, elapsed) == terms.price
  {
    var p, l := terms.price, terms.length;
    SplitProduct(p, l, elapsed);
    FloorAndCeiling(Product(p, l - elapsed), Product(p, elapsed), p, l);
    assert Product(p, 0) == 0;
  }

  lemma SplitProduct(p: nat, l: nat, e: nat)
    requires e <= l
    ensures Product(p, l - e) + Product(p, e) == p * l
  {
  }

  lemma FloorAndCeiling(x: nat, y: nat, p: nat, l: nat)
    requires l > 0 && x + y == p * l
    ensures x / l + (y + l - 1) / l == p
  {
    var q, r := x / l, x % l;
    var c: int := p - q;
    assert x == l * q + r;
    assert l * c == l * p - l * q;
    QuotientIs(y + l - 1, l, c, l - 1 - r);
  }

  // ---- the operations; None stands for a revert

  /** Both transfers of a payout; nothing is sent to the buyer when nothing is due. */
  function WithdrawFunds(t: Token, r: Rental, self: Address, forSeller: nat, forBuyer: nat): Option<Token> {
    match Move(t, self, r.escrowSeller, forSeller)
    case None => None
    case Some(paid) => if forBuyer == 0 then Some(paid) else Move(paid, self, r.escrowPurchaser, forBuyer)
  }

  function Reset(r: Rental): Rental {
    r.(buyer := r.seller, poolData := "", state := Available, start := 0)
  }

  datatype Books = Books(token: Token, rental: Rental)

  /** The buyer is paid the refund and the seller the rest; nothing is paid when nothing is due to the buyer. */
  function PayBoth(b: Books, self: Address, refund: Option<nat>): Option<Books> {
    match refund
    case None => None
    case Some(due) =>
      if due == 0 then Some(b.(rental := Reset(b.rental)))
      else if b.token.BalanceOf(self) < due then None
      else match WithdrawFunds(b.token, b.rental, self, b.token.BalanceOf(self) - due, due)
        case None => None
        case Some(paid) => Some(Books(paid, Reset(b.rental)))
  }

  /** The seller is paid all but the refund. */
  function PaySeller(b: Books, self: Address, refund: Option<nat>): Option<Books> {
    match refund
    case None => None
    case Some(due) =>
      if b.token.BalanceOf(self) < due then None
      else match Move(b.token, self, b.rental.escrowSeller, b.token.BalanceOf(self) - due)
        case None => None
        case Some(paid) => Some(b.(token := paid))
  }

  /** Early end by the buyer or the validator. */
  function CloseEarly(b: Books, self: Address, sender: Address, now: nat): Option<Books> {
    if sender != b.rental.buyer && sender != b.rental.validator then None
    else PayBoth(b, self, Refund(b.rental, now))
  }

  /** The seller takes what is not owed to the buyer. */
  function TakeEarned(b: Books, self: Address, sender: Address, now: nat): Option<Books> {
    if sender != b.rental.seller then None else PaySeller(b, self, Refund(b.rental, now))
  }

  /** The end of the term: the seller is paid all there is (kind 3), or is left to take it later (kind 2). */
  function CloseAtTerm(b: Books, self: Address, now: nat, pay: bool): Option<Books> {
    if now < b.rental.start || now - b.rental.start < b.rental.terms.length then None
    else if !pay then Some(b.(rental := Reset(b.rental)))
    else match WithdrawFunds(b.token, b.rental, self, b.token.BalanceOf(self), 0)
      case None => None
      case Some(paid) => Some(Books(paid, Reset(b.rental)))
  }

  /** Other kinds of closeout do nothing, without an error. */
  function CloseOut(b: Books, self: Address, sender: Address, now: nat, kind: nat): Option<Books> {
    if kind == 0 then CloseEarly(b, self, sender, now)
    else if kind == 1 then TakeEarned(b, self, sender, now)
    else if kind == 2 || kind == 3 then CloseAtTerm(b, self, now, kind == 3)
    else Some(b)
  }

  function UpdatePurchase(b: Books, self: Address, sender: Address, now: nat, terms: Terms, kind: nat): Option<Books> {
    if now < b.rental.start || sender != b.rental.seller || b.rental.state != Running then None
    else if (kind != 2 && kind != 3) || now - b.rental.start < b.rental.terms.length then None
    else match CloseOut(b, self, sender, now, kind)
      case None => None
      case Some(closed) => Some(closed.(rental := closed.rental.(terms := terms)))
  }

  function UpdateMining(r: Rental, sender: Address, poolData: string): Option<Rental> {
    if sender != r.buyer || r.state != Running then None else Some(r.(poolData := poolData))
  }

  function SetPurchase(r: Rental, sender: Address, buyer: Address, poolData: string, now: nat): Option<Rental> {
    if r.state != Available || sender != r.factory then None
    else Some(r.(poolData := poolData, buyer := buyer, start := now, state := Running,
                 escrowSeller := r.seller, escrowPurchaser := buyer, contractTotal := r.terms.price))
  }

  /** The rental runs for the buyer from now on, and its escrow is for this sale. Terms and owners are as they were. */
  ghost predicate SoldTo(r: Rental, after: Rental, buyer: Address, poolData: string, now: nat) {
    && after.state == Running && after.buyer == buyer && after.start == now && after.poolData == poolData
    && after.escrowSeller == r.seller && after.escrowPurchaser == buyer && after.contractTotal == r.terms.price
    && after.terms == r.terms && after.seller == r.seller && after.factory == r.factory && after.validator == r.validator
  }

  /** A rental is sold if and only if it is available and its factory asks for it. */
  lemma SellingSucceeds(r: Rental, sender: Address, buyer: Address, poolData: string, now: nat)
    ensures var sold := SetPurchase(r, sender, buyer, poolData, now);
            && (sold.Some? <==> r.state == Available && sender == r.factory)
            && (sold.Some? ==> SoldTo(r, sold.value, buyer, poolData, now))
  {
  }

  // ---- payouts

  /** Addresses outside the contracts that are paid, and the rental's state fits its clock. */
  ghost predicate WellFormed(r: Rental, contracts: set<Address>, now: nat) {
    && r.seller != ZERO && r.seller !in contracts
    && r.escrowSeller !in contracts && r.escrowPurchaser !in contracts && r.buyer !in contracts
    && (r.state == Available ==> r.start == 0)
    && (r.state == Running ==> r.start <= now && r.buyer != ZERO
                               && r.escrowSeller == r.seller && r.escrowPurchaser == r.buyer)
  }

  /** A running rental holds at least what its buyer is owed. */
  ghost predicate Funded(t: Token, r: Rental, self: Address, now: nat) {
    r.state == Running ==> r.start <= now && Owed(r.terms, now - r.start) <= t.BalanceOf(self)
  }

  lemma SellerPaymentSucceeds(t: Token, r: Rental, self: Address, forSeller: nat)
    requires Sound(t) && self != ZERO && r.escrowSeller != self && forSeller <= t.BalanceOf(self)
    ensures var paid := Move(t, self, r.escrowSeller, forSeller);
            && (paid.Some? <==> !t.paused && r.escrowSeller != ZERO)
            && (paid.Some? ==> Paid(t, paid.value, r, self, forSeller, 0))
  {
    MoveSucceeds(t, self, r.escrowSeller, forSeller);
  }

  /** The two transfers of a payout empty the rental and reach their recipients. */
  lemma PayoutSucceeds(t: Token, r: Rental, self: Address, forSeller: nat, forBuyer: nat)
    requires Sound(t) && self != ZERO && r.escrowSeller != self && r.escrowPurchaser != self
    requires forSeller + forBuyer <= t.BalanceOf(self)
    ensures var paid := WithdrawFunds(t, r, self, forSeller, forBuyer);
            && (paid.Some? <==> !t.paused && r.escrowSeller != ZERO && (forBuyer > 0 ==> r.escrowPurchaser != ZERO))
            && (paid.Some? ==> Paid(t, paid.value, r, self, forSeller, forBuyer))
  {
    SellerPaymentSucceeds(t, r, self, forSeller);
    if Move(t, self, r.escrowSeller, forSeller).Some? {
      MoveKeepsSound(t, self, r.escrowSeller, forSeller);
      MoveSucceeds(Move(t, self, r.escrowSeller, forSeller).value, self, r.escrowPurchaser, forBuyer);
    }
  }

  lemma PayoutKeepsSound(t: Token, r: Rental, self: Address, forSeller: nat, forBuyer: nat)
    requires Sound(t) && WithdrawFunds(t, r, self, forSeller, forBuyer).Some?
    ensures Sound(WithdrawFunds(t, r, self, forSeller, forBuyer).value)
  {
    MoveKeepsSound(t, self, r.escrowSeller, forSeller);
    if forBuyer > 0 { MoveKeepsSound(Move(t, self, r.escrowSeller, forSeller).value, self, r.escrowPurchaser, forBuyer); }
  }

  ghost predicate Paid(t: Token, after: Token, r: Rental, self: Address, forSeller: nat, forBuyer: nat) {
    && after.allowances == t.allowances && after.supply == t.supply && after.paused == t.paused
    && forall a: Address :: after.BalanceOf(a) == t.BalanceOf(a) - (if a == self then forSeller + forBuyer else 0)
         + (if a == r.escrowSeller then forSeller else 0) + (if a == r.escrowPurchaser then forBuyer else 0)
  }

  lemma PayingBothSucceeds(b: Books, self: Address, refund: Option<nat>)
    requires Erc20.Sound(b.token) && self != ZERO && b.rental.escrowSeller != self && b.rental.escrowPurchaser != self
    ensures var r, held := PayBoth(b, self, refund), b.token.BalanceOf(self);
            && (r.Some? <==> refund.Some? && (refund.value > 0 ==>
                  refund.value <= held && !b.token.paused && b.rental.escrowSeller != ZERO && b.rental.escrowPurchaser != ZERO))
            && (r.Some? ==> r.value.rental == Reset(b.rental))
            && (r.Some? && refund.value > 0 ==>
                  Paid(b.token, r.value.token, b.rental, self, held - refund.value, refund.value))
            && (r.Some? && refund.value == 0 ==> r.value.token == b.token)
  {
    if refund.Some? && refund.value <= b.token.BalanceOf(self) {
      PayoutSucceeds(b.token, b.rental, self, b.token.BalanceOf(self) - refund.value, refund.value);
    }
  }

  lemma PayingSellerSucceeds(b: Books, self: Address, refund: Option<nat>)
    requires Erc20.Sound(b.token) && self != ZERO && b.rental.escrowSeller != self
    ensures var r, held := PaySeller(b, self, refund), b.token.BalanceOf(self);
            && (r.Some? <==> refund.Some? && refund.value <= held && !b.token.paused && b.rental.escrowSeller != ZERO)
            && (r.Some? ==> r.value.rental == b.rental
                            && Paid(b.token, r.value.token, b.rental, self, held - refund.value, 0)
                            && r.value.token.BalanceOf(self) == refund.value)
  {
    if refund.Some? && refund.value <= b.token.BalanceOf(self) {
      SellerPaymentSucceeds(b.token, b.rental, self, b.token.BalanceOf(self) - refund.value);
    }
  }

  /** Every way of closing out keeps the token sound. */
  lemma CloseOutKeepsSound(b: Books, self: Address, sender: Address, now: nat, kind: nat)
    requires Erc20.Sound(b.token) && CloseOut(b, self, sender, now, kind).Some?
    ensures Erc20.Sound(CloseOut(b, self, sender, now, kind).value.token)
  {
    var balance := b.token.BalanceOf(self);
    if kind == 0 {
      PayBothKeepsSound(b, self, Refund(b.rental, now));
    } else if kind == 1 {
      PaySellerKeepsSound(b, self, Refund(b.rental, now));
    } else if kind == 3 {
      PayoutKeepsSound(b.token, b.rental, self, balance, 0);
    }
  }

  lemma PayBothKeepsSound(b: Books, self: Address, refund: Option<nat>)
    requires Erc20.Sound(b.token) && PayBoth(b, self, refund).Some?
    ensures Erc20.Sound(PayBoth(b, self, refund).value.token)
  {
    if refund.value > 0 { PayoutKeepsSound(b.token, b.rental, self, b.token.BalanceOf(self) - refund.value, refund.value); }
  }

  lemma PaySellerKeepsSound(b: Books, self: Address, refund: Option<nat>)
    requires Erc20.Sound(b.token) && PaySeller(b, self, refund).Some?
    ensures Erc20.Sound(PaySeller(b, self, refund).value.token)
  {
    MoveKeepsSound(b.token, self, b.rental.escrowSeller, b.token.BalanceOf(self) - refund.value);
  }

  // ---- the closeouts by number: who may call, when they go through, and what they do

  ghost predicate SameParties(r: Rental, after: Rental) {
    after.seller == r.seller && after.factory == r.factory && after.validator == r.validator
    && after.escrowSeller == r.escrowSeller && after.escrowPurchaser == r.escrowPurchaser
  }

  /** The rental is available again and back with its seller, without a pool. Nothing else of it has changed. */
  ghost predicate Freed(r: Rental, after: Rental) {
    && after.state == Available && after.buyer == r.seller && after.start == 0 && after.poolData == ""
    && after.terms == r.terms && after.contractTotal == r.contractTotal && SameParties(r, after)
  }

  /** A rental at an address of its own, whose clock has not run backwards. */
  ghost predicate Payable(b: Books, self: Address, now: nat) {
    && Erc20.Sound(b.token) && self != ZERO && b.rental.start <= now
    && b.rental.escrowSeller != self && b.rental.escrowPurchaser != self
  }

  /**
   * Closeout 0. The buyer or the validator can end a rental whenever the refund can be computed and, if there is
   * one, is held by the rental and can be sent. The buyer gets what is owed and the seller the rest; nothing is moved when
   * nothing is owed.
   */
  lemma EarlyCloseSucceeds(b: Books, self: Address, sender: Address, now: nat)
    requires Payable(b, self, now)
    ensures var r, held, owed := b.rental, b.token.BalanceOf(self), Owed(b.rental.terms, now - b.rental.start);
            var end := CloseOut(b, self, sender, now, 0);
            && (end.Some? <==>
                  && (sender == r.buyer || sender == r.validator) && Computable(r.terms, now - r.start)
                  && (owed > 0 ==> owed <= held && !b.token.paused && r.escrowSeller != ZERO && r.escrowPurchaser != ZERO))
            && (end.Some? ==> Freed(r, end.value.rental))
            && (end.Some? && owed > 0 ==> Paid(b.token, end.value.token, r, self, held - owed, owed))
            && (end.Some? && owed == 0 ==> end.value.token == b.token)
  {
    RefundIsOwed(b.rental, now);
    PayingBothSucceeds(b, self, Refund(b.rental, now));
  }

  /** Closeout 1. The seller can take all but what is owed, whenever that can be computed, and the rental goes on. */
  lemma TakingEarnedSucceeds(b: Books, self: Address, sender: Address, now: nat)
    requires Payable(b, self, now)
    ensures var r, held, owed := b.rental, b.token.BalanceOf(self), Owed(b.rental.terms, now - b.rental.start);
            var end := CloseOut(b, self, sender, now, 1);
            && (end.Some? <==> sender == r.seller && Computable(r.terms, now - r.start)
                               && owed <= held && !b.token.paused && r.escrowSeller != ZERO)
            && (end.Some? ==> end.value.rental == r && Paid(b.token, end.value.token, r, self, held - owed, 0)
                              && end.value.token.BalanceOf(self) == owed)
  {
    RefundIsOwed(b.rental, now);
    PayingSellerSucceeds(b, self, Refund(b.rental, now));
  }

  /**
   * Closeouts 2 and 3. Anyone can end a rental once its term is over, and not before. Closeout 3 pays all that the
   * rental holds to the seller; closeout 2 moves nothing.
   */
  lemma TermEndSucceeds(b: Books, self: Address, sender: Address, now: nat)
    requires Payable(b, self, now)
    ensures var r, held := b.rental, b.token.BalanceOf(self);
            var left, paid := CloseOut(b, self, sender, now, 2), CloseOut(b, self, sender, now, 3);
            && (left.Some? <==> now - r.start >= r.terms.length)
            && (left.Some? ==> Freed(r, left.value.rental) && left.value.token == b.token)
            && (paid.Some? <==> now - r.start >= r.terms.length && !b.token.paused && r.escrowSeller != ZERO)
            && (paid.Some? ==> Freed(r, paid.value.rental) && Paid(b.token, paid.value.token, r, self, held, 0)
                               && paid.value.token.BalanceOf(self) == 0)
  {
    PayoutSucceeds(b.token, b.rental, self, b.token.BalanceOf(self), 0);
  }

  /**
   * New terms. The seller can set them once the term of a running rental is over, together with closeout 2 or 3,
   * which has its usual effect.
   */
  lemma NewTermsSucceed(b: Books, self: Address, sender: Address, now: nat, terms: Terms, kind: nat)
    requires Payable(b, self, now)
    ensures var r, end := b.rental, UpdatePurchase(b, self, sender, now, terms, kind);
            && (end.Some? <==>
                  && sender == r.seller && r.state == Running && now - r.start >= r.terms.length
                  && (kind == 2 || (kind == 3 && !b.token.paused && r.escrowSeller != ZERO)))
            && (end.Some? ==> end.value.rental.terms == terms && Freed(r, end.value.rental.(terms := r.terms)))
            && (end.Some? && kind == 2 ==> end.value.token == b.token)
            && (end.Some? && kind == 3 ==> Paid(b.token, end.value.token, r, self, b.token.BalanceOf(self), 0))
  {
    TermEndSucceeds(b, self, sender, now);
  }

  // ---- what every closeout keeps

  lemma PayoutIsPaid(t: Token, r: Rental, self: Address, forSeller: nat, forBuyer: nat)
    requires Sound(t) && WithdrawFunds(t, r, self, forSeller, forBuyer).Some?
    ensures Paid(t, WithdrawFunds(t, r, self, forSeller, forBuyer).value, r, self, forSeller, forBuyer)
  {
    MoveSucceeds(t, self, r.escrowSeller, forSeller);
    MoveKeepsSound(t, self, r.escrowSeller, forSeller);
    MoveSucceeds(Move(t, self, r.escrowSeller, forSeller).value, self, r.escrowPurchaser, forBuyer);
  }

  /** Nothing but the tokens of one rental has moved, and not to another contract. */
  ghost predicate OnlyFrom(t: Token, after: Token, self: Address, contracts: set<Address>) {
    && after.allowances == t.allowances
    && forall c <- contracts :: c != self ==> after.BalanceOf(c) == t.BalanceOf(c)
  }

  /** Whoever closes out, and in whatever way: nothing leaves other contracts, and a running rental stays funded. */
  lemma CloseOutKeeps(b: Books, self: Address, sender: Address, now: nat, kind: nat, contracts: set<Address>)
    requires Erc20.Sound(b.token) && WellFormed(b.rental, contracts, now) && self in contracts
    requires CloseOut(b, self, sender, now, kind).Some?
    ensures var after := CloseOut(b, self, sender, now, kind).value;
            && OnlyFrom(b.token, after.token, self, contracts) && SameParties(b.rental, after.rental)
            && WellFormed(after.rental, contracts, now) && after.rental.terms == b.rental.terms
            && (Funded(b.token, b.rental, self, now) ==> Funded(after.token, after.rental, self, now))
            && (kind in {2, 3} ==> after.rental.state == Available)
  {
    if kind == 0 {
      PayBothKeeps(b, self, Refund(b.rental, now), contracts);
    } else if kind == 1 {
      PaySellerKeeps(b, self, Refund(b.rental, now), contracts);
      RefundIsOwed(b.rental, now);
    } else if kind == 3 {
      PayoutIsPaid(b.token, b.rental, self, b.token.BalanceOf(self), 0);
    }
  }

  lemma PayBothKeeps(b: Books, self: Address, refund: Option<nat>, contracts: set<Address>)
    requires Erc20.Sound(b.token) && PayBoth(b, self, refund).Some?
    requires b.rental.escrowSeller !in contracts && b.rental.escrowPurchaser !in contracts
    ensures var after := PayBoth(b, self, refund).value;
            OnlyFrom(b.token, after.token, self, contracts) && after.rental == Reset(b.rental)
  {
    var due := refund.value;
    if due > 0 { PayoutIsPaid(b.token, b.rental, self, b.token.BalanceOf(self) - due, due); }
  }

  lemma PaySellerKeeps(b: Books, self: Address, refund: Option<nat>, contracts: set<Address>)
    requires Erc20.Sound(b.token) && PaySeller(b, self, refund).Some?
    requires self in contracts && b.rental.escrowSeller !in contracts
    ensures var after := PaySeller(b, self, refund).value;
            OnlyFrom(b.token, after.token, self, contracts) && after.rental == b.rental
            && after.token.BalanceOf(self) == refund.value
  {
    MoveSucceeds(b.token, self, b.rental.escrowSeller, b.token.BalanceOf(self) - refund.value);
  }

  /** Time passing keeps a running rental funded, as does anything that takes no tokens from it. */
  lemma FundedLater(t: Token, after: Token, r: Rental, self: Address, now: nat, later: nat)
    requires Funded(t, r, self, now) && now <= later && after.BalanceOf(self) >= t.BalanceOf(self)
    ensures Funded(after, r, self, later)
  {
    if r.state == Running { OwedShrinks(r.terms, now - r.start, later - r.start); }
  }

  /** A rental that starts to run is funded at once if and only if it holds the price (or has no length). */
  lemma FundedAtStart(t: Token, r: Rental, self: Address, now: nat)
    requires r.state == Running && r.start == now
    ensures Funded(t, r, self, now) <==> r.terms.length == 0 || r.terms.price <= t.BalanceOf(self)
  {
    OwedShrinks(r.terms, 0, 0);
  }

  // ---- the contract

  class RentalContract {
    const self: Address
    const token: Lumerin
    const seller: Address
    const cloneFactory: Address
    const validator: Address
    var state: ContractState
    var terms: Terms
    var startingBlockTimestamp: nat
    var buyer: Address
    var encryptedPoolData: string
    var escrowSeller: Address
    var escrowPurchaser: Address
    var contractTotal: nat

    function Value(): Rental
      reads this
    {
      Rental(state, terms, startingBlockTimestamp, buyer, seller, cloneFactory, validator, encryptedPoolData,
             escrowSeller, escrowPurchaser, contractTotal)
    }

    ghost function InBooks(): Books
      reads this, token
    {
      Books(token.State(), Value())
    }

    constructor (self: Address, terms: Terms, seller: Address, token: Lumerin, cloneFactory: Address, validator: Address)
      ensures this.self == self && this.token == token
      ensures Value() == Initialized(terms, seller, cloneFactory, validator)
    {
      this.self, this.terms, this.seller, this.token := self, terms, seller, token;
      this.cloneFactory, this.validator := cloneFactory, validator;
      state, startingBlockTimestamp, buyer, encryptedPoolData := Available, 0, ZERO, "";
      escrowSeller, escrowPurchaser, contractTotal := ZERO, ZERO, 0;
    }

    method BuyerPayoutCalc(now: nat) returns (payout: Option<nat>)
      ensures payout == Refund(Value(), now)
    {
      if now < startingBlockTimestamp {
        return None;
      }
      var durationOfContract := now - startingBlockTimestamp;
      if durationOfContract <= terms.length {
        var product := Product(terms.price, terms.length - durationOfContract);
        if product > MAX_UINT || terms.length == 0 {
          return None;
        }
        return Some(product / terms.length);
      }
      payout := Some(0);
    }

    method GetDepositContractHodlingsToSeller(remaining: nat) returns (ok: bool)
      modifies token
      ensures Became(PaySeller(old(InBooks()), self, Some(remaining)), old(InBooks()), InBooks(), ok)
    {
      var balance := token.BalanceOf(self);
      if balance < remaining {
        return false;
      }
      ok := token.Transfer(self, escrowSeller, balance - remaining);
    }

    /** The transfer to the seller is undone when the one to the buyer fails. */
    method PayOut(forSeller: nat, forBuyer: nat) returns (ok: bool)
      modifies token
      ensures Became(WithdrawFunds(old(token.State()), Value(), self, forSeller, forBuyer),
                     old(token.State()), token.State(), ok)
    {
      var saved := token.balances;
      ghost var savedLog := token.log;
      ok := token.Transfer(self, escrowSeller, forSeller);
      if ok && forBuyer != 0 {
        ok := token.Transfer(self, escrowPurchaser, forBuyer);
        if !ok {
          token.balances, token.log := saved, savedLog;
        }
      }
    }

    method SetContractVariableUpdate()
      modifies this
      ensures Value() == Reset(old(Value()))
    {
      buyer, encryptedPoolData, state, startingBlockTimestamp := seller, "", Available, 0;
    }

    method CloseByBuyer(now: nat) returns (ok: bool)
      modifies this, token
      ensures Became(PayBoth(old(InBooks()), self, Refund(old(Value()), now)), old(InBooks()), InBooks(), ok)
    {
      var buyerPayout := BuyerPayoutCalc(now);
      if buyerPayout.None? {
        return false;
      }
      if buyerPayout.value > 0 {
        var balance := token.BalanceOf(self);
        if balance < buyerPayout.value {
          return false;
        }
        ok := PayOut(balance - buyerPayout.value, buyerPayout.value);
        if !ok {
          return;
        }
      }
      SetContractVariableUpdate();
      ok := true;
    }

    method CloseForGood(now: nat, pay: bool) returns (ok: bool)
      modifies this, token
      ensures Became(CloseAtTerm(old(InBooks()), self, now, pay), old(InBooks()), InBooks(), ok)
    {
      if now < startingBlockTimestamp || now - startingBlockTimestamp < terms.length {
        return false;
      }
      if pay {
        ok := PayOut(token.BalanceOf(self), 0);
        if !ok {
          return;
        }
      }
      SetContractVariableUpdate();
      ok := true;
    }

    method SetContractCloseOut(sender: Address, now: nat, kind: nat) returns (ok: bool)
      modifies this, token
      ensures Became(CloseOut(old(InBooks()), self, sender, now, kind), old(InBooks()), InBooks(), ok)
    {
      if kind == 0 {
        if sender != buyer && sender != validator {
          return false;
        }
        ok := CloseByBuyer(now);
      } else if kind == 1 {
        if sender != seller {
          return false;
        }
        var buyerPayout := BuyerPayoutCalc(now);
        if buyerPayout.None? {
          return false;
        }
        ok := GetDepositContractHodlingsToSeller(buyerPayout.value);
      } else if kind == 2 || kind == 3 {
        ok := CloseForGood(now, kind == 3);
      } else {
        ok := true;
      }
    }

    method SetUpdatePurchaseInformation(sender: Address, now: nat, terms: Terms, kind: nat) returns (ok: bool)
      modifies this, token
      ensures Became(UpdatePurchase(old(InBooks()), self, sender, now, terms, kind), old(InBooks()), InBooks(), ok)
    {
      if now < startingBlockTimestamp || sender != seller || state != Running || (kind != 2 && kind != 3)
         || now - startingBlockTimestamp < this.terms.length {
        return false;
      }
      ok := SetContractCloseOut(sender, now, kind);
      if ok {
        this.terms := terms;
      }
    }

    method SetUpdateMiningInformation(sender: Address, poolData: string) returns (ok: bool)
      modifies this
      ensures Became(UpdateMining(old(Value()), sender, poolData), old(Value()), Value(), ok)
    {
      if sender != buyer || state != Running {
        return false;
      }
      encryptedPoolData := poolData;
      ok := true;
    }

    method SetPurchaseContract(sender: Address, poolData: string, buyer: Address, now: nat) returns (ok: bool)
      modifies this
      ensures Became(SetPurchase(old(Value()), sender, buyer, poolData, now), old(Value()), Value(), ok)
    {
      if state != Available || sender != cloneFactory {
        return false;
      }
      encryptedPoolData, this.buyer, startingBlockTimestamp, state := poolData, buyer, now, Running;
      escrowSeller, escrowPurchaser, contractTotal := seller, buyer, terms.price;
      ok := true;
    }
  }
}
