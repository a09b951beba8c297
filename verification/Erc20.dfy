/** The Lumerin token: balances, allowances, and the transfers that were announced. */
module Erc20 {
  import opened Wrappers
  import opened Sums

  type Address = nat
  const ZERO: Address := 0
  const MAX_UINT: nat := 0x1_0000_0000_0000_0000_0000_0000_0000_0000_0000_0000_0000_0000_0000_0000_0000_0000 - 1
  const INITIAL_SUPPLY: nat := 1000000000 * 100000000

  /** The Transfer event; minting comes from the zero address, burning goes to it. */
  datatype Event = Transferred(sender: Address, recipient: Address, amount: nat)

  datatype Allowance = Allowance(owner: Address, spender: Address)

  datatype Token = Token(balances: map<Address, nat>, allowances: map<Allowance, nat>, supply: nat, paused: bool, log: seq<Event>) {
    function BalanceOf(a: Address): nat {
      if a in balances then balances[a] else 0
    }

    function AllowanceOf(owner: Address, spender: Address): nat {
      var key := Allowance(owner, spender);
      if key in allowances then allowances[key] else 0
    }
  }

  // ---- the operations; None stands for a revert

  /** Moves tokens: the sender's balance is written before the recipient's is read. */
  function Move(t: Token, sender: Address, recipient: Address, amount: nat): Option<Token> {
    if sender == ZERO || recipient == ZERO || t.paused || t.BalanceOf(sender) < amount then None
    else
      var debited := t.(balances := t.balances[sender := t.BalanceOf(sender) - amount]);
      var credit := debited.BalanceOf(recipient) + amount;
      if credit > MAX_UINT then None
      else Some(debited.(balances := debited.balances[recipient := credit],
                         log := t.log + [Transferred(sender, recipient, amount)]))
  }

  function Approve(t: Token, owner: Address, spender: Address, amount: nat): Option<Token> {
    if owner == ZERO || spender == ZERO then None
    else Some(t.(allowances := t.allowances[Allowance(owner, spender) := amount]))
  }

  function IncreaseAllowance(t: Token, owner: Address, spender: Address, added: nat): Option<Token> {
    if t.AllowanceOf(owner, spender) + added > MAX_UINT then None
    else Approve(t, owner, spender, t.AllowanceOf(owner, spender) + added)
  }

  function DecreaseAllowance(t: Token, owner: Address, spender: Address, taken: nat): Option<Token> {
    if t.AllowanceOf(owner, spender) < taken then None
    else Approve(t, owner, spender, t.AllowanceOf(owner, spender) - taken)
  }

  /** Moves an owner's tokens on behalf of a spender, and then takes the amount off the allowance. */
  function MoveFrom(t: Token, spender: Address, owner: Address, recipient: Address, amount: nat): Option<Token> {
    match Move(t, owner, recipient, amount)
    case None => None
    case Some(moved) => DecreaseAllowance(moved, owner, spender, amount)
  }

  function Mint(t: Token, account: Address, amount: nat): Option<Token> {
    if account == ZERO || t.paused || t.supply + amount > MAX_UINT || t.BalanceOf(account) + amount > MAX_UINT then None
    else Some(t.(supply := t.supply + amount, balances := t.balances[account := t.BalanceOf(account) + amount],
                 log := t.log + [Transferred(ZERO, account, amount)]))
  }

  function Burn(t: Token, account: Address, amount: nat): Option<Token> {
    if account == ZERO || t.paused || t.BalanceOf(account) < amount || t.supply < amount then None
    else Some(t.(supply := t.supply - amount, balances := t.balances[account := t.BalanceOf(account) - amount],
                 log := t.log + [Transferred(account, ZERO, amount)]))
  }

  /** The allowance is taken before the tokens are burnt. */
  function BurnFrom(t: Token, spender: Address, account: Address, amount: nat): Option<Token> {
    match DecreaseAllowance(t, account, spender, amount)
    case None => None
    case Some(taken) => Burn(taken, account, amount)
  }

  // ---- what the events say

  /** Tokens announced as sent to an address. */
  function In(log: seq<Event>, a: Address): nat {
    if log == [] then 0
    else In(log[..|log| - 1], a) + if log[|log| - 1].recipient == a then log[|log| - 1].amount else 0
  }

  /** Tokens announced as sent from an address. */
  function Out(log: seq<Event>, a: Address): nat {
    if log == [] then 0
    else Out(log[..|log| - 1], a) + if log[|log| - 1].sender == a then log[|log| - 1].amount else 0
  }

  lemma LogSnoc(log: seq<Event>, e: Event, a: Address)
    ensures In(log + [e], a) == In(log, a) + if e.recipient == a then e.amount else 0
    ensures Out(log + [e], a) == Out(log, a) + if e.sender == a then e.amount else 0
  {
    assert (log + [e])[..|log|] == log;
  }

  ghost predicate Accounted(t: Token, a: Address) {
    t.BalanceOf(a) == In(t.log, a) - Out(t.log, a)
  }

  /**
   * All balances add up to the supply, which fits 256 bits. Every balance is what the events say came in less what went
   * out, and the supply is what was minted less what was burnt.
   */
  ghost predicate Sound(t: Token) {
    && Sum(t.balances) == t.supply <= MAX_UINT
    && t.BalanceOf(ZERO) == 0
    && (forall a: Address :: a != ZERO ==> Accounted(t, a))
    && t.supply == Out(t.log, ZERO) - In(t.log, ZERO)
  }

  lemma BalanceWithinSupply(t: Token, a: Address)
    requires Sound(t)
    ensures t.BalanceOf(a) <= t.supply
  {
    if a in t.balances {
      SumWithout(t.balances, a);
      SumNonNegative(t.balances - {a});
    }
  }

  /** Setting one balance changes the sum by the difference. */
  lemma SumOfBalances(t: Token, a: Address, amount: nat)
    ensures Sum(t.balances[a := amount]) == Sum(t.balances) - t.BalanceOf(a) + amount
  {
    SumUpdate(t.balances, a, amount);
  }

  /** What a transfer does to the balances: it moves the amount, unless it goes to its sender. */
  ghost predicate Moved(t: Token, after: Token, sender: Address, recipient: Address, amount: nat) {
    && after.supply == t.supply && after.paused == t.paused && after.allowances == t.allowances
    && after.log == t.log + [Transferred(sender, recipient, amount)]
    && forall a: Address :: after.BalanceOf(a) == t.BalanceOf(a) - (if a == sender then amount else 0) + (if a == recipient then amount else 0)
  }

  /**
   * A transfer succeeds if and only if neither side is the zero address, the token is not paused and the balance is
   * enough; a credit never overflows.
   */
  lemma MoveSucceeds(t: Token, sender: Address, recipient: Address, amount: nat)
    requires Sound(t)
    ensures Move(t, sender, recipient, amount).Some?
            <==> sender != ZERO && recipient != ZERO && !t.paused && amount <= t.BalanceOf(sender)
    ensures Move(t, sender, recipient, amount).Some?
            ==> Moved(t, Move(t, sender, recipient, amount).value, sender, recipient, amount)
  {
    BalanceWithinSupply(t, sender);
    if sender != recipient { TwoBalancesWithinSupply(t, sender, recipient); }
  }

  lemma TwoBalancesWithinSupply(t: Token, a: Address, b: Address)
    requires Sound(t) && a != b
    ensures t.BalanceOf(a) + t.BalanceOf(b) <= t.supply
  {
    if a in t.balances && b in t.balances {
      SumWithout(t.balances, a);
      SumWithout(t.balances - {a}, b);
      SumNonNegative(t.balances - {a} - {b});
    } else {
      BalanceWithinSupply(t, a);
      BalanceWithinSupply(t, b);
    }
  }

  lemma AccountedAfter(t: Token, after: Token, e: Event, a: Address)
    requires after.log == t.log + [e] && Accounted(t, a)
    requires after.BalanceOf(a) == t.BalanceOf(a) - (if a == e.sender then e.amount else 0) + (if a == e.recipient then e.amount else 0)
    ensures Accounted(after, a)
  {
    LogSnoc(t.log, e, a);
  }

  lemma MoveKeepsSum(t: Token, sender: Address, recipient: Address, amount: nat)
    requires Move(t, sender, recipient, amount).Some?
    ensures Sum(Move(t, sender, recipient, amount).value.balances) == Sum(t.balances)
  {
    var debited := t.(balances := t.balances[sender := t.BalanceOf(sender) - amount]);
    SumOfBalances(t, sender, t.BalanceOf(sender) - amount);
    SumOfBalances(debited, recipient, debited.BalanceOf(recipient) + amount);
  }

  /** Changing allowances touches nothing else. */
  lemma AllowanceKeepsSound(t: Token, after: Token)
    requires Sound(t) && after == t.(allowances := after.allowances)
    ensures Sound(after)
  {
    forall a: Address | a != ZERO ensures Accounted(after, a) {
      assert Accounted(t, a);
    }
  }

  /** One balance was set, and the event says by how much it changed. */
  ghost predicate Changed(t: Token, after: Token, e: Event) {
    && after.log == t.log + [e]
    && forall a: Address :: a != ZERO ==>
      after.BalanceOf(a) == t.BalanceOf(a) - (if a == e.sender then e.amount else 0) + (if a == e.recipient then e.amount else 0)
  }

  lemma ChangeKeepsAccounts(t: Token, after: Token, e: Event)
    requires (forall a: Address :: a != ZERO ==> Accounted(t, a)) && Changed(t, after, e)
    ensures forall a: Address :: a != ZERO ==> Accounted(after, a)
    ensures Out(after.log, ZERO) - In(after.log, ZERO) == Out(t.log, ZERO) - In(t.log, ZERO)
            + (if e.sender == ZERO then e.amount else 0) - (if e.recipient == ZERO then e.amount else 0)
  {
    forall a: Address | a != ZERO ensures Accounted(after, a) {
      AccountedAfter(t, after, e, a);
    }
    LogSnoc(t.log, e, ZERO);
  }

  lemma MoveKeepsSound(t: Token, sender: Address, recipient: Address, amount: nat)
    requires Sound(t) && Move(t, sender, recipient, amount).Some?
    ensures Sound(Move(t, sender, recipient, amount).value)
  {
    var after, e := Move(t, sender, recipient, amount).value, Transferred(sender, recipient, amount);
    MoveKeepsSum(t, sender, recipient, amount);
    MoveSucceeds(t, sender, recipient, amount);
    assert Changed(t, after, e);
    ChangeKeepsAccounts(t, after, e);
  }

  lemma BurnKeepsSound(t: Token, account: Address, amount: nat)
    requires Sound(t) && Burn(t, account, amount).Some?
    ensures Sound(Burn(t, account, amount).value)
  {
    var after, e := Burn(t, account, amount).value, Transferred(account, ZERO, amount);
    SumOfBalances(t, account, t.BalanceOf(account) - amount);
    assert Changed(t, after, e);
    ChangeKeepsAccounts(t, after, e);
  }

  /** Tokens of one account are gone, from its balance and from the supply. */
  ghost predicate Burnt(t: Token, after: Token, account: Address, amount: nat) {
    && after.supply == t.supply - amount && after.paused == t.paused
    && after.log == t.log + [Transferred(account, ZERO, amount)]
    && forall a: Address :: after.BalanceOf(a) == t.BalanceOf(a) - if a == account then amount else 0
  }

  /** Burning succeeds whenever a transfer of the amount would; the supply is always enough. */
  lemma BurnSucceeds(t: Token, account: Address, amount: nat)
    requires Sound(t)
    ensures var r := Burn(t, account, amount);
            && (r.Some? <==> account != ZERO && !t.paused && amount <= t.BalanceOf(account))
            && (r.Some? ==> Burnt(t, r.value, account, amount) && r.value.allowances == t.allowances)
  {
    BalanceWithinSupply(t, account);
  }

  /** Burning on behalf of another also needs, and uses up, that much of the allowance. */
  lemma BurnFromSucceeds(t: Token, spender: Address, account: Address, amount: nat)
    requires Sound(t)
    ensures var r, allowed := BurnFrom(t, spender, account, amount), t.AllowanceOf(account, spender);
            && (r.Some? <==> account != ZERO && spender != ZERO && !t.paused
                             && amount <= t.BalanceOf(account) && amount <= allowed)
            && (r.Some? ==> Burnt(t, r.value, account, amount)
                            && r.value.allowances == t.allowances[Allowance(account, spender) := allowed - amount])
  {
    var taken := DecreaseAllowance(t, account, spender, amount);
    if taken.Some? {
      AllowanceKeepsSound(t, taken.value);
      BurnSucceeds(taken.value, account, amount);
      assert forall a: Address :: taken.value.BalanceOf(a) == t.BalanceOf(a);
    }
  }

  lemma MintChanges(t: Token, account: Address, amount: nat)
    requires Mint(t, account, amount).Some?
    ensures var after := Mint(t, account, amount).value;
            && Changed(t, after, Transferred(ZERO, account, amount)) && after.BalanceOf(ZERO) == t.BalanceOf(ZERO)
            && Sum(after.balances) == Sum(t.balances) + amount && after.supply == t.supply + amount <= MAX_UINT
  {
    SumOfBalances(t, account, t.BalanceOf(account) + amount);
  }

  lemma MintKeepsSound(t: Token, account: Address, amount: nat)
    requires Sound(t) && Mint(t, account, amount).Some?
    ensures Sound(Mint(t, account, amount).value)
  {
    MintChanges(t, account, amount);
    MintedIsSound(t, Mint(t, account, amount).value, account, amount);
  }

  lemma MintedIsSound(t: Token, after: Token, account: Address, amount: nat)
    requires Sound(t) && account != ZERO && Changed(t, after, Transferred(ZERO, account, amount))
    requires after.BalanceOf(ZERO) == t.BalanceOf(ZERO)
    requires Sum(after.balances) == Sum(t.balances) + amount && after.supply == t.supply + amount <= MAX_UINT
    ensures Sound(after)
  {
    ChangeKeepsAccounts(t, after, Transferred(ZERO, account, amount));
  }

  /** An allowance was set to an amount, and no other allowance has changed. */
  ghost predicate AllowanceSet(t: Token, after: Token, owner: Address, spender: Address, amount: int) {
    && after == t.(allowances := after.allowances)
    && forall o: Address, s: Address ::
      after.AllowanceOf(o, s) == if o == owner && s == spender then amount else t.AllowanceOf(o, s)
  }

  /** When the three ways to change an allowance go through, and what they set it to. */
  lemma AllowanceCalls(t: Token, owner: Address, spender: Address, amount: nat)
    ensures var given, more, less, now := Approve(t, owner, spender, amount), IncreaseAllowance(t, owner, spender, amount),
              DecreaseAllowance(t, owner, spender, amount), t.AllowanceOf(owner, spender);
            && (given.Some? <==> owner != ZERO && spender != ZERO)
            && (given.Some? ==> AllowanceSet(t, given.value, owner, spender, amount))
            && (more.Some? <==> given.Some? && now + amount <= MAX_UINT)
            && (more.Some? ==> AllowanceSet(t, more.value, owner, spender, now + amount))
            && (less.Some? <==> given.Some? && amount <= now)
            && (less.Some? ==> AllowanceSet(t, less.value, owner, spender, now - amount))
  {
    var now := t.AllowanceOf(owner, spender);
    ApproveSets(t, owner, spender, amount);
    ApproveSets(t, owner, spender, now + amount);
    if amount <= now { ApproveSets(t, owner, spender, now - amount); }
  }

  lemma ApproveSets(t: Token, owner: Address, spender: Address, amount: nat)
    ensures var r := Approve(t, owner, spender, amount);
            (r.Some? <==> owner != ZERO && spender != ZERO) && (r.Some? ==> AllowanceSet(t, r.value, owner, spender, amount))
  {
  }

  /** What a transfer on behalf of another does: it needs, and uses up, that much of the allowance. */
  lemma MoveFromSucceeds(t: Token, spender: Address, owner: Address, recipient: Address, amount: nat)
    requires Sound(t)
    ensures MoveFrom(t, spender, owner, recipient, amount).Some?
            <==> Move(t, owner, recipient, amount).Some? && spender != ZERO && amount <= t.AllowanceOf(owner, spender)
    ensures var r := MoveFrom(t, spender, owner, recipient, amount);
            r.Some? ==>
              && Moved(t, r.value.(allowances := t.allowances), owner, recipient, amount)
              && r.value.allowances == t.allowances[Allowance(owner, spender) := t.AllowanceOf(owner, spender) - amount]
              && Sound(r.value)
  {
    MoveSucceeds(t, owner, recipient, amount);
    if MoveFrom(t, spender, owner, recipient, amount).Some? {
      MoveKeepsSound(t, owner, recipient, amount);
      AllowanceKeepsSound(Move(t, owner, recipient, amount).value, MoveFrom(t, spender, owner, recipient, amount).value);
    }
  }

  // ---- runs of the token alone

  datatype TokenOp =
    | Transfer(recipient: Address, amount: nat)
    | TransferFrom(owner: Address, recipient: Address, amount: nat)
    | Allow(spender: Address, amount: nat)
    | AllowMore(spender: Address, added: nat)
    | AllowLess(spender: Address, taken: nat)
    | BurnOwn(amount: nat)
    | BurnOf(account: Address, amount: nat)

  function Perform(t: Token, sender: Address, op: TokenOp): Option<Token> {
    match op
    case Transfer(recipient, amount) => Move(t, sender, recipient, amount)
    case TransferFrom(owner, recipient, amount) => MoveFrom(t, sender, owner, recipient, amount)
    case Allow(spender, amount) => Approve(t, sender, spender, amount)
    case AllowMore(spender, added) => IncreaseAllowance(t, sender, spender, added)
    case AllowLess(spender, taken) => DecreaseAllowance(t, sender, spender, taken)
    case BurnOwn(amount) => Burn(t, sender, amount)
    case BurnOf(account, amount) => BurnFrom(t, sender, account, amount)
  }

  /** Every operation of the token keeps it sound. */
  lemma PerformKeepsSound(t: Token, sender: Address, op: TokenOp)
    requires Sound(t) && Perform(t, sender, op).Some?
    ensures Sound(Perform(t, sender, op).value)
  {
    var after := Perform(t, sender, op).value;
    match op
    case Transfer(recipient, amount) => MoveKeepsSound(t, sender, recipient, amount);
    case TransferFrom(owner, recipient, amount) => MoveFromSucceeds(t, sender, owner, recipient, amount);
    case Allow(_, _) => AllowanceKeepsSound(t, after);
    case AllowMore(_, _) => AllowanceKeepsSound(t, after);
    case AllowLess(_, _) => AllowanceKeepsSound(t, after);
    case BurnOwn(amount) => BurnKeepsSound(t, sender, amount);
    case BurnOf(account, amount) =>
      var taken := DecreaseAllowance(t, account, sender, amount).value;
      AllowanceKeepsSound(t, taken);
      BurnKeepsSound(taken, account, amount);
  }

  /**
   * Addresses that never send a call themselves. They have given no allowance, so nobody else can take
   * anything from them.
   */
  ghost predicate Untouchable(t: Token, contracts: set<Address>) {
    forall key <- t.allowances :: key.owner in contracts ==> t.allowances[key] == 0
  }

  lemma NothingAllowed(t: Token, contracts: set<Address>, owner: Address, spender: Address)
    requires Untouchable(t, contracts) && owner in contracts
    ensures t.AllowanceOf(owner, spender) == 0
  {
  }

  lemma OthersCannotMoveFrom(t: Token, sender: Address, owner: Address, recipient: Address, amount: nat,
                             contracts: set<Address>, c: Address)
    requires Sound(t) && Untouchable(t, contracts) && c in contracts
    requires MoveFrom(t, sender, owner, recipient, amount).Some?
    ensures var after := MoveFrom(t, sender, owner, recipient, amount).value;
            Untouchable(after, contracts) && after.BalanceOf(c) >= t.BalanceOf(c)
  {
    var after := MoveFrom(t, sender, owner, recipient, amount).value;
    MoveFromSucceeds(t, sender, owner, recipient, amount);
    assert after.BalanceOf(c) == after.(allowances := t.allowances).BalanceOf(c);
    if owner in contracts { NothingAllowed(t, contracts, owner, sender); }
  }

  /** Whatever others do with the token, such an address does not lose tokens. */
  lemma OthersCannotTake(t: Token, sender: Address, op: TokenOp, contracts: set<Address>, c: Address)
    requires Sound(t) && Untouchable(t, contracts) && sender !in contracts && c in contracts
    requires Perform(t, sender, op).Some?
    ensures var after := Perform(t, sender, op).value;
            Untouchable(after, contracts) && after.BalanceOf(c) >= t.BalanceOf(c)
  {
    match op
    case Transfer(recipient, amount) => MoveSucceeds(t, sender, recipient, amount);
    case TransferFrom(owner, recipient, amount) => OthersCannotMoveFrom(t, sender, owner, recipient, amount, contracts, c);
    case BurnOf(account, amount) =>
      if account in contracts { NothingAllowed(t, contracts, account, sender); }
    case _ =>
  }

  // ---- the token contract

  /** A call either goes through, or reverts and leaves everything as it was. */
  ghost predicate Became<T(!new)>(result: Option<T>, before: T, after: T, ok: bool) {
    ok == result.Some? && after == if result.Some? then result.value else before
  }

  class Lumerin {
    var balances: map<Address, nat>
    var allowances: map<Allowance, nat>
    var totalSupply: nat
    var paused: bool
    ghost var log: seq<Event>

    ghost function State(): Token
      reads this
    {
      Token(balances, allowances, totalSupply, paused, log)
    }

    constructor (deployer: Address)
      requires deployer != ZERO
      ensures Sound(State()) && totalSupply == BalanceOf(deployer) == 100_000_000_000_000_000
      ensures allowances == map[] && !paused
    {
      balances, allowances := map[deployer := INITIAL_SUPPLY], map[];
      totalSupply, paused := INITIAL_SUPPLY, false;
      log := [Transferred(ZERO, deployer, INITIAL_SUPPLY)];
      new;
      ghost var none := Token(map[], map[], 0, false, []);
      MintKeepsSound(none, deployer, INITIAL_SUPPLY);
      assert State() == Mint(none, deployer, INITIAL_SUPPLY).value;
    }

    function BalanceOf(account: Address): nat
      reads this
    {
      if account in balances then balances[account] else 0
    }

    function AllowanceOf(owner: Address, spender: Address): nat
      reads this
    {
      var key := Allowance(owner, spender);
      if key in allowances then allowances[key] else 0
    }

    /** Undoes a call that did not go through. */
    method Restore(balances: map<Address, nat>, allowances: map<Allowance, nat>, ghost log: seq<Event>)
      modifies this
      ensures State() == old(State()).(balances := balances, allowances := allowances, log := log)
    {
      this.balances, this.allowances, this.log := balances, allowances, log;
    }

    method MoveTokens(sender: Address, recipient: Address, amount: nat) returns (ok: bool)
      modifies this
      ensures Became(Move(old(State()), sender, recipient, amount), old(State()), State(), ok)
    {
      if sender == ZERO || recipient == ZERO || paused {
        return false;
      }
      var senderBalance := BalanceOf(sender);
      if senderBalance < amount {
        return false;
      }
      var saved := balances;
      balances := balances[sender := senderBalance - amount];
      if BalanceOf(recipient) + amount > MAX_UINT {
        balances := saved;
        return false;
      }
      balances := balances[recipient := BalanceOf(recipient) + amount];
      log := log + [Transferred(sender, recipient, amount)];
      ok := true;
    }

    method SetAllowance(owner: Address, spender: Address, amount: nat) returns (ok: bool)
      modifies this
      ensures Became(Approve(old(State()), owner, spender, amount), old(State()), State(), ok)
    {
      if owner == ZERO || spender == ZERO {
        return false;
      }
      allowances := allowances[Allowance(owner, spender) := amount];
      ok := true;
    }

    method Transfer(sender: Address, recipient: Address, amount: nat) returns (ok: bool)
      modifies this
      ensures Became(Move(old(State()), sender, recipient, amount), old(State()), State(), ok)
    {
      ok := MoveTokens(sender, recipient, amount);
    }

    /** The transfer comes first; if the allowance then turns out too small it is undone. */
    method TransferFrom(spender: Address, owner: Address, recipient: Address, amount: nat) returns (ok: bool)
      modifies this
      ensures Became(MoveFrom(old(State()), spender, owner, recipient, amount), old(State()), State(), ok)
    {
      var savedBalances := balances;
      ghost var savedLog := log;
      ok := MoveTokens(owner, recipient, amount);
      if ok {
        var currentAllowance := AllowanceOf(owner, spender);
        if currentAllowance >= amount {
          ok := SetAllowance(owner, spender, currentAllowance - amount);
        } else {
          ok := false;
        }
        if !ok {
          balances, log := savedBalances, savedLog;
        }
      }
    }

    method IncreaseAllowanceBy(owner: Address, spender: Address, added: nat) returns (ok: bool)
      modifies this
      ensures Became(IncreaseAllowance(old(State()), owner, spender, added), old(State()), State(), ok)
    {
      var currentAllowance := AllowanceOf(owner, spender);
      if currentAllowance + added > MAX_UINT {
        return false;
      }
      ok := SetAllowance(owner, spender, currentAllowance + added);
    }

    method DecreaseAllowanceBy(owner: Address, spender: Address, taken: nat) returns (ok: bool)
      modifies this
      ensures Became(DecreaseAllowance(old(State()), owner, spender, taken), old(State()), State(), ok)
    {
      var currentAllowance := AllowanceOf(owner, spender);
      if currentAllowance < taken {
        return false;
      }
      ok := SetAllowance(owner, spender, currentAllowance - taken);
    }

    method BurnTokens(account: Address, amount: nat) returns (ok: bool)
      modifies this
      ensures Became(Burn(old(State()), account, amount), old(State()), State(), ok)
    {
      if account == ZERO || paused || BalanceOf(account) < amount || totalSupply < amount {
        return false;
      }
      balances := balances[account := BalanceOf(account) - amount];
      totalSupply := totalSupply - amount;
      log := log + [Transferred(account, ZERO, amount)];
      ok := true;
    }

    method BurnTokensFrom(spender: Address, account: Address, amount: nat) returns (ok: bool)
      modifies this
      ensures Became(BurnFrom(old(State()), spender, account, amount), old(State()), State(), ok)
    {
      var saved := allowances;
      ok := DecreaseAllowanceBy(account, spender, amount);
      if ok {
        ok := BurnTokens(account, amount);
        if !ok {
          allowances := saved;
        }
      }
    }
  }
}
