/**
  The account ledger as values: the repository's table of accounts keyed by
  id, and the account service's operations as functions from the table
  before the call to either an error or the table the call commits.

  Java's null is modelled by Option (None is null); each thrown exception is
  an Err carrying the exception's kind. A failed operation yields no table:
  the unit of work it ran in commits nothing (see Commit).
*/
module Ledger {
  import opened Decimals

  datatype Option<T> = None | Some(value: T)

  /** An account row: a nullable boxed id, a nullable owner, a nullable balance. */
  datatype Account = Account(id: Option<int>, owner: Option<string>, balance: Option<Decimal>)

  /** The exceptions the service throws (insufficient funds is an IllegalArgument). */
  datatype Error =
    | IllegalArgument(message: string)
    | NotFound(id: int)
    | NullPointer

  datatype Result<T> = Ok(value: T) | Err(error: Error)

  /** What a void service method does: return normally, or throw. */
  datatype Outcome = Pass | Fail(error: Error)

  const NullAccountMessage := "Account cannot be null"
  const NegativeBalanceMessage := "Initial balance cannot be negative"
  const InvalidIdMessage := "Invalid account ID"
  const InvalidAmountMessage := "Amount must be positive and with max 2 decimal places"
  const InsufficientFundsMessage := "Insufficient funds"
  const NullAccountsMessage := "Accounts cannot be null"
  const SameAccountMessage := "Cannot transfer to the same account"

  /** The repository's rows, keyed by account id. */
  type Table = map<int, Account>

  /** The repository's own integrity: positive generated ids below the next one, each row under its id. */
  ghost predicate Keyed(t: Table, nextId: int)
  {
    && nextId > 0
    && forall k :: k in t ==> 0 < k < nextId && t[k].id == Some(k)
  }

  /** The ledger invariant: every stored balance is present and non-negative. */
  ghost predicate Solvent(t: Table)
  {
    forall k :: k in t ==> t[k].balance.Some? && Value(t[k].balance.value) >= 0.0
  }

  /** An amount the service accepts: present, strictly positive, at most two fractional digits. */
  ghost predicate ValidAmount(amount: Option<Decimal>)
  {
    amount.Some? && Value(amount.value) > 0.0 && amount.value.scale <= 2
  }

  predicate ValidId(id: Option<int>)
  {
    id.Some? && id.value > 0
  }

  /** An id that getById resolves in table t. */
  predicate Stored(t: Table, id: Option<int>)
  {
    ValidId(id) && id.value in t
  }

  /** t2 is t with at most the balance of row k replaced by a present one, and nothing else changed. */
  ghost predicate OnlyBalanceChanged(t: Table, t2: Table, k: int)
  {
    && t2.Keys == t.Keys
    && k in t
    && t2[k].balance.Some?
    && t2[k] == t[k].(balance := t2[k].balance)
    && forall j :: j in t && j != k ==> t2[j] == t[j]
  }

  /** The void method's outcome of an operation. */
  function OutcomeOf(r: Result<Table>): Outcome
  {
    if r.Ok? then Pass else Fail(r.error)
  }

  /** The unit of work: a success commits its table, a failure leaves the table as it was. */
  function Commit(t: Table, r: Result<Table>): Table
  {
    if r.Ok? then r.value else t
  }

  /** validateAmount. */
  function ValidateAmount(amount: Option<Decimal>): (r: Outcome)
    ensures r.Pass? <==> ValidAmount(amount)
    ensures r.Fail? ==> r.error == IllegalArgument(InvalidAmountMessage)
  {
    if amount.None? || CompareTo(amount.value, Zero) <= 0 || amount.value.scale > 2 then
      Fail(IllegalArgument(InvalidAmountMessage))
    else
      Pass
  }

  /** validateSufficientFunds. */
  function ValidateSufficientFunds(balance: Option<Decimal>, amount: Decimal): (r: Outcome)
    ensures r.Pass? <==> balance.Some? && Value(balance.value) >= Value(amount)
    ensures r.Fail? ==> r.error == IllegalArgument(InsufficientFundsMessage)
  {
    if balance.None? || CompareTo(balance.value, amount) < 0 then
      Fail(IllegalArgument(InsufficientFundsMessage))
    else
      Pass
  }

  /** findById: the row under a valid id, if any. */
  function FindById(t: Table, id: Option<int>): (r: Result<Option<Account>>)
    ensures r.Err? <==> !ValidId(id)
    ensures r.Err? ==> r.error == IllegalArgument(InvalidIdMessage)
    ensures r.Ok? ==> (r.value.Some? <==> id.value in t)
    ensures r.Ok? && r.value.Some? ==> r.value.value == t[id.value]
  {
    if id.None? || id.value <= 0 then
      Err(IllegalArgument(InvalidIdMessage))
    else if id.value in t then
      Ok(Some(t[id.value]))
    else
      Ok(None)
  }

  /** getById: findById, with an absent row turned into NotFound. */
  function GetById(t: Table, id: Option<int>): (r: Result<Account>)
    ensures r.Ok? <==> Stored(t, id)
    ensures r.Ok? ==> r.value == t[id.value]
    ensures !ValidId(id) ==> r == Err(IllegalArgument(InvalidIdMessage))
    ensures ValidId(id) && id.value !in t ==> r == Err(NotFound(id.value))
  {
    match FindById(t, id)
    case Err(e) => Err(e)
    case Ok(found) => if found.Some? then Ok(found.value) else Err(NotFound(id.value))
  }

  /** The repository after a save, and the saved row. */
  datatype Saved = Saved(table: Table, nextId: int, account: Account)

  /**
    AccountRepository.save: a row whose id is already stored is replaced
    in place; any other row is inserted under a freshly generated id.
  */
  function Persist(t: Table, nextId: int, a: Account): (s: Saved)
    requires Keyed(t, nextId)
    ensures Keyed(s.table, s.nextId)
    ensures s.account == a.(id := s.account.id)
    ensures s.account.id.Some? && s.table.Keys == t.Keys + {s.account.id.value}
    ensures s.table[s.account.id.value] == s.account
    ensures forall k :: k in t && Some(k) != s.account.id ==> s.table[k] == t[k]
    ensures Stored(t, a.id) ==> s.account.id == a.id && s.nextId == nextId
    ensures !Stored(t, a.id) ==> s.account.id.value !in t && s.nextId > nextId
  {
    if a.id.Some? && a.id.value in t then
      Saved(t[a.id.value := a], nextId, a)
    else
      var b := a.(id := Some(nextId));
      Saved(t[nextId := b], nextId + 1, b)
  }

  /** save: reject null and negative balances, default a null balance to zero, persist. */
  function Save(t: Table, nextId: int, account: Option<Account>): (r: Result<Saved>)
    requires Keyed(t, nextId)
    ensures account.None? ==> r == Err(IllegalArgument(NullAccountMessage))
    ensures account.Some? && account.value.balance.Some? && Value(account.value.balance.value) < 0.0 ==>
              r == Err(IllegalArgument(NegativeBalanceMessage))
    ensures r.Ok? <==> account.Some? && (account.value.balance.None? || Value(account.value.balance.value) >= 0.0)
    ensures r.Ok? ==>
              var s := r.value;
              && Keyed(s.table, s.nextId)
              && s.account.id.Some? && s.table.Keys == t.Keys + {s.account.id.value}
              && s.table[s.account.id.value] == s.account
              && (Stored(t, account.value.id) ==> s.account.id == account.value.id)
              && (!Stored(t, account.value.id) ==> s.account.id.value !in t)
              && s.account.owner == account.value.owner
              && s.account.balance == (if account.value.balance.None? then Some(Zero) else account.value.balance)
              && Value(s.account.balance.value) >= 0.0
              && forall k :: k in t && Some(k) != s.account.id ==> k in s.table && s.table[k] == t[k]
    ensures r.Ok? && Solvent(t) ==> Solvent(r.value.table)
  {
    if account.None? then
      Err(IllegalArgument(NullAccountMessage))
    else if account.value.balance.None? then
      Ok(Persist(t, nextId, account.value.(balance := Some(Zero))))
    else if CompareTo(account.value.balance.value, Zero) < 0 then
      Err(IllegalArgument(NegativeBalanceMessage))
    else
      Ok(Persist(t, nextId, account.value))
  }

  /**
    withdraw: validate the amount, reload the row by the caller's id, check
    funds, and store the row with its balance reduced by the amount.
  */
  function Withdraw(t: Table, account: Option<Account>, amount: Option<Decimal>): (r: Result<Table>)
    ensures account.None? ==> r == Err(IllegalArgument(NullAccountMessage))
    ensures account.Some? && !ValidAmount(amount) ==> r == Err(IllegalArgument(InvalidAmountMessage))
    ensures account.Some? && ValidAmount(amount) && !Stored(t, account.value.id) ==>
              r == Err(GetById(t, account.value.id).error)
    ensures account.Some? && ValidAmount(amount) && Stored(t, account.value.id) && r.Err? ==>
              r.error == IllegalArgument(InsufficientFundsMessage)
    ensures r.Ok? <==>
              && account.Some? && ValidAmount(amount) && Stored(t, account.value.id)
              && t[account.value.id.value].balance.Some?
              && Value(t[account.value.id.value].balance.value) >= Value(amount.value)
    ensures r.Ok? ==>
              var k := account.value.id.value;
              && OnlyBalanceChanged(t, r.value, k)
              && Value(r.value[k].balance.value) == Value(t[k].balance.value) - Value(amount.value)
              && Value(r.value[k].balance.value) >= 0.0
    ensures r.Ok? && Solvent(t) ==> Solvent(r.value)
  {
    if account.None? then
      Err(IllegalArgument(NullAccountMessage))
    else
      match ValidateAmount(amount)
      case Fail(e) => Err(e)
      case Pass => (
        match GetById(t, account.value.id)
        case Err(e) => Err(e)
        case Ok(loaded) => (
          match ValidateSufficientFunds(loaded.balance, amount.value)
          case Fail(e) => Err(e)
          case Pass =>
            Ok(t[account.value.id.value := loaded.(balance := Some(Subtract(loaded.balance.value, amount.value)))])))
  }

  /**
    deposit: validate the amount, reload the row by the caller's id, and
    store it with its balance increased by the amount. A row with a null
    balance makes the addition throw a NullPointerException.
  */
  function Deposit(t: Table, account: Option<Account>, amount: Option<Decimal>): (r: Result<Table>)
    ensures account.None? ==> r == Err(IllegalArgument(NullAccountMessage))
    ensures account.Some? && !ValidAmount(amount) ==> r == Err(IllegalArgument(InvalidAmountMessage))
    ensures account.Some? && ValidAmount(amount) && !Stored(t, account.value.id) ==>
              r == Err(GetById(t, account.value.id).error)
    ensures account.Some? && ValidAmount(amount) && Stored(t, account.value.id) && r.Err? ==>
              r.error == NullPointer
    ensures r.Ok? <==>
              && account.Some? && ValidAmount(amount) && Stored(t, account.value.id)
              && t[account.value.id.value].balance.Some?
    ensures r.Ok? ==>
              var k := account.value.id.value;
              && OnlyBalanceChanged(t, r.value, k)
              && Value(r.value[k].balance.value) == Value(t[k].balance.value) + Value(amount.value)
    ensures r.Ok? && Solvent(t) ==> Solvent(r.value)
  {
    if account.None? then
      Err(IllegalArgument(NullAccountMessage))
    else
      match ValidateAmount(amount)
      case Fail(e) => Err(e)
      case Pass => (
        match GetById(t, account.value.id)
        case Err(e) => Err(e)
        case Ok(loaded) =>
          if loaded.balance.None? then
            Err(NullPointer)
          else
            Ok(t[account.value.id.value := loaded.(balance := Some(Add(loaded.balance.value, amount.value)))]))
  }

  /** The precondition under which a transfer commits. */
  ghost predicate TransferSucceeds(t: Table, from: Option<Account>, to: Option<Account>, amount: Option<Decimal>)
  {
    && from.Some? && to.Some?
    && Stored(t, from.value.id) && Stored(t, to.value.id)
    && from.value.id != to.value.id
    && ValidAmount(amount)
    && t[from.value.id.value].balance.Some?
    && Value(t[from.value.id.value].balance.value) >= Value(amount.value)
    && t[to.value.id.value].balance.Some?
  }

  /**
    transfer: reject null accounts and a transfer to the same id, then
    withdraw from the source and deposit to the destination. A failure of
    either step fails the whole transfer, which then commits nothing.
    Comparing the ids calls equals on the source's boxed id, so a null
    source id throws a NullPointerException.
  */
  function Transfer(t: Table, from: Option<Account>, to: Option<Account>, amount: Option<Decimal>): (r: Result<Table>)
    ensures from.None? || to.None? ==> r == Err(IllegalArgument(NullAccountsMessage))
    ensures from.Some? && to.Some? && from.value.id.None? ==> r == Err(NullPointer)
    ensures from.Some? && to.Some? && from.value.id.Some? && from.value.id == to.value.id ==>
              r == Err(IllegalArgument(SameAccountMessage))
    ensures from.Some? && to.Some? && from.value.id.Some? && from.value.id != to.value.id ==>
              && (Withdraw(t, from, amount).Err? ==> r == Withdraw(t, from, amount))
              && (Withdraw(t, from, amount).Ok? && !ValidId(to.value.id) ==>
                    r == Err(IllegalArgument(InvalidIdMessage)))
              && (Withdraw(t, from, amount).Ok? && ValidId(to.value.id) && to.value.id.value !in t ==>
                    r == Err(NotFound(to.value.id.value)))
              && (Withdraw(t, from, amount).Ok? && Stored(t, to.value.id) && t[to.value.id.value].balance.None? ==>
                    r == Err(NullPointer))
    ensures r.Ok? <==> TransferSucceeds(t, from, to, amount)
    ensures r.Ok? ==>
              var f, d := from.value.id.value, to.value.id.value;
              && r.value.Keys == t.Keys
              && r.value[f] == t[f].(balance := r.value[f].balance)
              && r.value[d] == t[d].(balance := r.value[d].balance)
              && (forall j :: j in t && j != f && j != d ==> r.value[j] == t[j])
              && r.value[f].balance.Some? && r.value[d].balance.Some?
              && Value(r.value[f].balance.value) == Value(t[f].balance.value) - Value(amount.value)
              && Value(r.value[d].balance.value) == Value(t[d].balance.value) + Value(amount.value)
              && Value(r.value[f].balance.value) + Value(r.value[d].balance.value)
                 == Value(t[f].balance.value) + Value(t[d].balance.value)
    ensures r.Ok? && Solvent(t) ==> Solvent(r.value)
  {
    if from.None? || to.None? then
      Err(IllegalArgument(NullAccountsMessage))
    else if from.value.id.None? then
      Err(NullPointer)
    else if from.value.id == to.value.id then
      Err(IllegalArgument(SameAccountMessage))
    else
      match Withdraw(t, from, amount)
      case Err(e) => Err(e)
      case Ok(t1) => Deposit(t1, to, amount)
  }

  /**
    Depositing a valid amount into a stored account with a non-negative
    balance and then withdrawing the same amount through the same account
    gives the original balance back: equal in value, and the very
    same table when the balance already had at least the amount's scale.
  */
  lemma DepositThenWithdraw(t: Table, account: Option<Account>, amount: Option<Decimal>)
    requires account.Some? && Stored(t, account.value.id) && ValidAmount(amount)
    requires t[account.value.id.value].balance.Some? && Value(t[account.value.id.value].balance.value) >= 0.0
    ensures Deposit(t, account, amount).Ok?
    ensures Withdraw(Deposit(t, account, amount).value, account, amount).Ok?
    ensures
      var t2 := Withdraw(Deposit(t, account, amount).value, account, amount).value;
      var k, b := account.value.id.value, t[account.value.id.value].balance.value;
      && t2 == t[k := t[k].(balance := Some(Align(b, Max(b.scale, amount.value.scale))))]
      && Value(t2[k].balance.value) == Value(b)
      && (b.scale >= amount.value.scale ==> t2 == t)
  {
    var k, b, a := account.value.id.value, t[account.value.id.value].balance.value, amount.value;
    DepositThenWithdrawTable(t, account, amount);
    AddThenSubtract(b, a);
    if b.scale >= a.scale {
      assert t[k].(balance := Some(b)) == t[k];
    }
  }

  /** Both steps of the round trip succeed, and the table they commit, written out. */
  lemma DepositThenWithdrawTable(t: Table, account: Option<Account>, amount: Option<Decimal>)
    requires account.Some? && Stored(t, account.value.id) && ValidAmount(amount)
    requires t[account.value.id.value].balance.Some? && Value(t[account.value.id.value].balance.value) >= 0.0
    ensures Deposit(t, account, amount).Ok?
    ensures Withdraw(Deposit(t, account, amount).value, account, amount).Ok?
    ensures
      var k, b := account.value.id.value, t[account.value.id.value].balance.value;
      Withdraw(Deposit(t, account, amount).value, account, amount).value
        == t[k := t[k].(balance := Some(Subtract(Add(b, amount.value), amount.value)))]
  {
    var k, b, a := account.value.id.value, t[account.value.id.value].balance.value, amount.value;
    DepositStores(t, account, amount);
    var t1 := Deposit(t, account, amount).value;
    assert t1[k].balance == Some(Add(b, a));
    assert Value(Add(b, a)) >= Value(a);
    WithdrawStores(t1, account, amount);
  }

  /** The table a successful deposit commits, written out. */
  lemma DepositStores(t: Table, account: Option<Account>, amount: Option<Decimal>)
    requires account.Some? && Stored(t, account.value.id) && ValidAmount(amount)
    requires t[account.value.id.value].balance.Some?
    ensures Deposit(t, account, amount).Ok?
    ensures
      var k := account.value.id.value;
      Deposit(t, account, amount).value == t[k := t[k].(balance := Some(Add(t[k].balance.value, amount.value)))]
  {
  }

  /** The table a successful withdrawal commits, written out. */
  lemma WithdrawStores(t: Table, account: Option<Account>, amount: Option<Decimal>)
    requires account.Some? && Stored(t, account.value.id) && ValidAmount(amount)
    requires t[account.value.id.value].balance.Some?
    requires Value(t[account.value.id.value].balance.value) >= Value(amount.value)
    ensures Withdraw(t, account, amount).Ok?
    ensures
      var k := account.value.id.value;
      Withdraw(t, account, amount).value == t[k := t[k].(balance := Some(Subtract(t[k].balance.value, amount.value)))]
  {
  }

  /** Withdrawing exactly the whole balance is allowed and leaves zero at the balance's scale. */
  lemma WithdrawWholeBalance(t: Table, account: Option<Account>, b: Decimal)
    requires account.Some? && Stored(t, account.value.id)
    requires t[account.value.id.value].balance == Some(b)
    requires ValidAmount(Some(b))
    ensures Withdraw(t, account, Some(b)).Ok?
    ensures Withdraw(t, account, Some(b)).value[account.value.id.value].balance == Some(Decimal(0, b.scale))
  {
    assert Subtract(b, b) == Decimal(0, b.scale);
  }

  /** The caller's copy of the account only contributes its id: its stale balance and owner are ignored. */
  lemma OnlyCallerIdMatters(t: Table, a1: Account, a2: Account, amount: Option<Decimal>)
    requires a1.id == a2.id
    ensures Withdraw(t, Some(a1), amount) == Withdraw(t, Some(a2), amount)
    ensures Deposit(t, Some(a1), amount) == Deposit(t, Some(a2), amount)
  {
  }
}
