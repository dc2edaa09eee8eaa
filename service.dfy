/**
  The single-threaded account service over a mutable repository.

  The repository is the map `accounts` and the id generator `nextId`,
  both updated in place. Every method is proved against the matching
  function of module Ledger: on success the repository is the table that
  function commits, on failure it is the table as it was on entry.
*/
module Service {
  import opened Decimals
  import opened Ledger

  class AccountService {
    var accounts: Table
    var nextId: int

    /** The repository's keying and the ledger's non-negative balances, kept by every method. */
    ghost predicate Valid()
      reads this
    {
      Keyed(accounts, nextId) && Solvent(accounts)
    }

    /** An empty repository whose first generated id is 1. */
    constructor ()
      ensures Valid()
      ensures accounts == map[] && nextId == 1
    {
      accounts := map[];
      nextId := 1;
    }

    /** save, in its own unit of work. */
    method Save(account: Option<Account>) returns (r: Result<Account>)
      requires Valid()
      modifies this
      ensures Valid()
      ensures Ledger.Save(old(accounts), old(nextId), account).Ok? ==>
                var s := Ledger.Save(old(accounts), old(nextId), account).value;
                r == Ok(s.account) && accounts == s.table && nextId == s.nextId
      ensures Ledger.Save(old(accounts), old(nextId), account).Err? ==>
                r == Err(Ledger.Save(old(accounts), old(nextId), account).error)
                && accounts == old(accounts) && nextId == old(nextId)
    {
      ghost var committed := Ledger.Save(accounts, nextId, account);
      if account.None? {
        return Err(IllegalArgument(NullAccountMessage));
      }
      var a := account.value;
      if a.balance.None? {
        a := a.(balance := Some(Zero));
      } else if CompareTo(a.balance.value, Zero) < 0 {
        return Err(IllegalArgument(NegativeBalanceMessage));
      }
      var saved := Persist(accounts, nextId, a);
      assert committed == Ok(saved);
      accounts, nextId := saved.table, saved.nextId;
      r := Ok(saved.account);
    }

    /** findById: reads the repository and changes nothing. */
    method FindById(id: Option<int>) returns (r: Result<Option<Account>>)
      ensures r == Ledger.FindById(accounts, id)
    {
      if id.None? || id.value <= 0 {
        return Err(IllegalArgument(InvalidIdMessage));
      }
      if id.value in accounts {
        r := Ok(Some(accounts[id.value]));
      } else {
        r := Ok(None);
      }
    }

    /** getById: reads the repository and changes nothing. */
    method GetById(id: Option<int>) returns (r: Result<Account>)
      ensures r == Ledger.GetById(accounts, id)
    {
      var found := FindById(id);
      match found
      case Err(e) => r := Err(e);
      case Ok(row) =>
        if row.Some? {
          r := Ok(row.value);
        } else {
          r := Err(NotFound(id.value));
        }
    }

    /** withdraw: every check precedes the one write, so a failure leaves the repository as it was. */
    method Withdraw(account: Option<Account>, amount: Option<Decimal>) returns (r: Outcome)
      requires Valid()
      modifies this
      ensures Valid() && nextId == old(nextId)
      ensures r == OutcomeOf(Ledger.Withdraw(old(accounts), account, amount))
      ensures accounts == Commit(old(accounts), Ledger.Withdraw(old(accounts), account, amount))
    {
      ghost var committed := Ledger.Withdraw(accounts, account, amount);
      if account.None? {
        return Fail(IllegalArgument(NullAccountMessage));
      }
      r := ValidateAmount(amount);
      if r.Fail? {
        return;
      }
      var loaded := GetById(account.value.id);
      if loaded.Err? {
        return Fail(loaded.error);
      }
      var row := loaded.value;
      r := ValidateSufficientFunds(row.balance, amount.value);
      if r.Fail? {
        return;
      }
      row := row.(balance := Some(Subtract(row.balance.value, amount.value)));
      accounts := accounts[account.value.id.value := row];
      assert committed == Ok(accounts);
      assert Keyed(accounts, nextId) by {
        assert OnlyBalanceChanged(old(accounts), accounts, account.value.id.value);
      }
    }

    /** deposit: every check precedes the one write, so a failure leaves the repository as it was. */
    method Deposit(account: Option<Account>, amount: Option<Decimal>) returns (r: Outcome)
      requires Valid()
      modifies this
      ensures Valid() && nextId == old(nextId)
      ensures r == OutcomeOf(Ledger.Deposit(old(accounts), account, amount))
      ensures accounts == Commit(old(accounts), Ledger.Deposit(old(accounts), account, amount))
    {
      ghost var committed := Ledger.Deposit(accounts, account, amount);
      if account.None? {
        return Fail(IllegalArgument(NullAccountMessage));
      }
      r := ValidateAmount(amount);
      if r.Fail? {
        return;
      }
      var loaded := GetById(account.value.id);
      if loaded.Err? {
        return Fail(loaded.error);
      }
      var row := loaded.value;
      if row.balance.None? {
        return Fail(NullPointer);
      }
      row := row.(balance := Some(Add(row.balance.value, amount.value)));
      accounts := accounts[account.value.id.value := row];
      assert committed == Ok(accounts);
      assert Keyed(accounts, nextId) by {
        assert OnlyBalanceChanged(old(accounts), accounts, account.value.id.value);
      }
    }

    /**
      transfer: one unit of work around a withdrawal and a deposit. The
      repository is snapshot on entry and restored when either step fails,
      so a failed deposit also undoes the withdrawal before it.
    */
    method Transfer(from: Option<Account>, to: Option<Account>, amount: Option<Decimal>) returns (r: Outcome)
      requires Valid()
      modifies this
      ensures Valid() && nextId == old(nextId)
      ensures r == OutcomeOf(Ledger.Transfer(old(accounts), from, to, amount))
      ensures accounts == Commit(old(accounts), Ledger.Transfer(old(accounts), from, to, amount))
      ensures r.Fail? ==> accounts == old(accounts)
    {
      var snapshot := accounts;
      if from.None? || to.None? {
        return Fail(IllegalArgument(NullAccountsMessage));
      }
      if from.value.id.None? {
        return Fail(NullPointer);
      }
      if from.value.id == to.value.id {
        return Fail(IllegalArgument(SameAccountMessage));
      }
      r := Withdraw(from, amount);
      if r.Pass? {
        r := Deposit(to, amount);
      }
      if r.Fail? {
        accounts := snapshot;
      }
    }
  }

  /** A decimal at scale 2 denotes its unscaled part in hundredths. */
  lemma Hundredths(u: int)
    ensures Value(Decimal(u, 2)) == (u as real) / 100.0
  {
    assert Ten(-2) == 1.0 / 100.0;
  }

  /**
    The service tests' scenarios. The set-up saves UserA with 1000.23 and
    UserB with 1100.23, both with null ids, on a fresh repository; they
    receive ids 1 and 2. Each scenario then reads the accounts back, or
    withdraws 10.78, deposits 14.34 or transfers 23.43, and returns what the
    test compares.
  */
  method SetUp() returns (service: AccountService, userA: Account, userB: Account)
    ensures fresh(service) && service.Valid()
    ensures userA == Account(Some(1), Some("UserA"), Some(Decimal(100023, 2)))
    ensures userB == Account(Some(2), Some("UserB"), Some(Decimal(110023, 2)))
    ensures service.accounts == map[1 := userA, 2 := userB]
  {
    service := new AccountService();
    userA := Account(Some(1), Some("UserA"), Some(Decimal(100023, 2)));
    userB := Account(Some(2), Some("UserB"), Some(Decimal(110023, 2)));
    var a := service.Save(Some(userA.(id := None)));
    assert a == Ok(userA) && service.accounts == map[1 := userA] && service.nextId == 2;
    var b := service.Save(Some(userB.(id := None)));
    assert b == Ok(userB);
  }

  /** Reading UserA back gives its owner and a balance equal to the one saved. */
  method CheckDatabaseScenario() returns (acc: Result<Account>)
    ensures acc.Ok? && acc.value.owner == Some("UserA")
    ensures acc.value.balance.Some? && CompareTo(acc.value.balance.value, Decimal(100023, 2)) == 0
  {
    var service, userA, userB := SetUp();
    acc := service.GetById(userA.id);
  }

  /** Withdrawing 10.78 from UserA leaves 989.45. */
  method WithdrawScenario() returns (r: Outcome, copyA: Result<Account>)
    ensures r == Pass
    ensures copyA.Ok? && copyA.value.balance.Some?
    ensures CompareTo(copyA.value.balance.value, Decimal(98945, 2)) == 0
  {
    var service, userA, userB := SetUp();
    Hundredths(100023); Hundredths(1078); Hundredths(98945);
    r := service.Withdraw(Some(userA), Some(Decimal(1078, 2)));
    copyA := service.GetById(userA.id);
  }

  /** Depositing 14.34 into UserA gives 1014.57. */
  method DepositScenario() returns (r: Outcome, copyA: Result<Account>)
    ensures r == Pass
    ensures copyA.Ok? && copyA.value.balance.Some?
    ensures CompareTo(copyA.value.balance.value, Decimal(101457, 2)) == 0
  {
    var service, userA, userB := SetUp();
    Hundredths(100023); Hundredths(1434); Hundredths(101457);
    r := service.Deposit(Some(userA), Some(Decimal(1434, 2)));
    copyA := service.GetById(userA.id);
  }

  /** Transferring 23.43 from UserA to UserB leaves 976.80 and 1123.66. */
  method TransferScenario() returns (r: Outcome, copyA: Result<Account>, copyB: Result<Account>)
    ensures r == Pass
    ensures copyA.Ok? && copyA.value.balance.Some?
    ensures CompareTo(copyA.value.balance.value, Decimal(97680, 2)) == 0
    ensures copyB.Ok? && copyB.value.balance.Some?
    ensures CompareTo(copyB.value.balance.value, Decimal(112366, 2)) == 0
  {
    var service, userA, userB := SetUp();
    Hundredths(100023); Hundredths(110023); Hundredths(2343); Hundredths(97680); Hundredths(112366);
    r := service.Transfer(Some(userA), Some(userB), Some(Decimal(2343, 2)));
    copyA := service.GetById(userA.id);
    copyB := service.GetById(userB.id);
  }
}
