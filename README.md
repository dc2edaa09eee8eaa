# Account ledger service, modelled in Dafny

This project models the account ledger of `SingleThreadedJpaAccountService`.
The ledger is a table of accounts keyed by id. Each account has an id, an
owner and a `BigDecimal` balance. The service creates accounts, looks them up
by id, and withdraws, deposits and transfers money under a transaction
boundary that rolls back on any exception.

The project has three modules:

- `Decimals` (`decimal.dfy`) models the `java.math.BigDecimal` operations the
  service uses. A decimal is an unscaled integer plus a scale, which may be
  negative. The module covers `compareTo`, `add`, `subtract`, `scale()` and
  `ZERO`. Each operation is proved against `Value`, the real number a decimal
  denotes. Addition and subtraction are exact and produce the larger of the
  two scales.
- `Ledger` (`ledger.dfy`) models the service's operations as functions. Each
  takes the repository table before the call and returns either the table
  the call commits or the exception it throws. The invariants each
  operation keeps are `ensures` clauses of these functions. The lemmas
  state the deposit-then-withdraw round trip and the other properties that
  relate several calls. Atomicity follows from two facts: a failed operation
  returns `Err` with no table, and `Commit` then keeps the table as it was.
  `Service.AccountService.Transfer` proves it for the class.
- `Service` (`service.dfy`) holds the class `AccountService`. Its fields are
  the repository's map and its id generator, and its methods update them in
  place. Each method is proved to leave the repository equal to the table
  its `Ledger` function commits, or unchanged when that function fails.
  `Transfer` saves a snapshot of the map on entry and restores it when the
  withdrawal or the deposit fails. This stands in for the `@Transactional`
  boundary. The class invariant `Valid()` is the repository's keying
  together with the ledger's non-negative balances, and every method keeps
  it. The module also has four client methods from the service tests:
  `CheckDatabaseScenario`, `WithdrawScenario`, `DepositScenario` and
  `TransferScenario`. Each starts from `SetUp`, which saves UserA with
  1000.23 and UserB with 1100.23 on a fresh repository, as the tests'
  set-up does. Each then proves what its test asserts: the stored owner and
  balance, or the balances 989.45, 1014.57, and 976.80 with 1123.66.

How the Java is modelled:

- Java's `null` is `Option.None`.
- A thrown exception is `Err`/`Fail` with an `Error`. The kinds are
  `IllegalArgument`, which carries the source's message, `NotFound` and
  `NullPointer`.
- Insufficient funds is an `IllegalArgument` with message
  "Insufficient funds". There is no separate error kind for it: the code
  throws `IllegalArgumentException` at `SingleThreadedJpaAccountService.java:57`.
- `save` checks the balance's sign but not its scale, so a stored balance can
  have more than two fractional digits.
- The service imports `example.transactions.model.Account`, which is not part
  of this model. `entity/Account.java` declares the id as a primitive `long`.
  But `transfer` calls `getId().equals(...)`, and that only compiles for a
  boxed `Long`. So the model's account id is a nullable integer. A null
  source id in `transfer` throws a `NullPointerException`, and the model
  reports `NullPointer`.
- A balance read from the repository may be `null`. This can happen when a
  row was written by other code. `withdraw` then fails with "Insufficient
  funds" (code line 56). `deposit` fails with a `NullPointerException` from
  `getBalance().add(...)` (code line 85).
- The repository's `save` is modelled by `Ledger.Persist`. A row whose id is
  already stored is replaced in place. Any other row is inserted under the
  next generated id, starting from 1. For a new entity (a null id) this is
  what the JPA repository's `persist` does. For a non-null id that is not
  stored, `Ledger.Persist` assumes the same insert; see "Left out". `withdraw` and
  `deposit` save a row they just loaded, so the model writes that row back
  under its own id.
- `save`, `withdraw` and `deposit` each throw, if at all, before their only
  write. So their unit of work has nothing to undo, and the methods simply
  leave the map untouched on failure. `transfer` writes in its first step and
  can fail in its second, so it snapshots and restores the map.

## Model

| member | source | states |
|---|---|---|
| `Decimals.CompareTo` | src/main/java/example/transactions/service/SingleThreadedJpaAccountService.java:56 | The sign of the result is the order of the two denoted numbers, whatever their scales. |
| `Decimals.Add` | src/main/java/example/transactions/service/SingleThreadedJpaAccountService.java:85 | The sum is exact (its value is the sum of the values) and its scale is the larger of the two scales. |
| `Decimals.Subtract` | src/main/java/example/transactions/service/SingleThreadedJpaAccountService.java:71 | The difference is exact (its value is the difference of the values) and its scale is the larger of the two scales. |
| `Decimals.AddThenSubtract` | src/main/java/example/transactions/service/SingleThreadedJpaAccountService.java:71-85 | Adding and then subtracting the same decimal gives the first decimal back at the larger scale. The value is always equal, and it is the same decimal when its scale was already the larger one. |
| `Ledger.ValidateAmount` | src/main/java/example/transactions/service/SingleThreadedJpaAccountService.java:48-53 | An amount passes exactly when it is non-null, strictly positive and has scale at most 2. Otherwise the error is IllegalArgument with the amount message. |
| `Ledger.ValidateSufficientFunds` | src/main/java/example/transactions/service/SingleThreadedJpaAccountService.java:55-59 | Passes exactly when the balance is non-null and at least the amount. Otherwise the error is IllegalArgument("Insufficient funds"). |
| `Ledger.FindById` | src/main/java/example/transactions/service/SingleThreadedJpaAccountService.java:37-42 | A null or non-positive id is IllegalArgument. Otherwise the result is the stored row, or nothing when the id is absent. |
| `Ledger.GetById` | src/main/java/example/transactions/service/SingleThreadedJpaAccountService.java:44-46 | Succeeds exactly when the id is valid and stored, and returns that row. A bad id is IllegalArgument and an absent id is NotFound(id). |
| `Ledger.Persist` | src/main/java/example/transactions/service/SingleThreadedJpaAccountService.java:32 | The repository save: it keeps ids unique and keyed, and changes only the saved row. A stored id is replaced in place; any other row gets a fresh id. |
| `Ledger.Save` | src/main/java/example/transactions/service/SingleThreadedJpaAccountService.java:23-35 | A null account is IllegalArgument and a negative balance is IllegalArgument, with nothing stored. On success a null balance is stored as ZERO, the stored balance is at least 0, and the saved row is returned. Exactly one row is added or replaced: a stored id is kept, any other row gets an id not in the table, and no other row changes. |
| `Ledger.Withdraw` | src/main/java/example/transactions/service/SingleThreadedJpaAccountService.java:64-74 | A null account, a bad amount, a bad or absent id, and insufficient funds each give the source's error, in the source's order. The amount is checked before the table is read. Success happens exactly when the freshly loaded balance covers the amount. Only that row's balance changes, by exactly minus the amount, and it stays at least 0. Solvency is preserved. |
| `Ledger.Deposit` | src/main/java/example/transactions/service/SingleThreadedJpaAccountService.java:79-88 | A null account, a bad amount and a bad or absent id each give the source's error, and a null stored balance gives NullPointer. On success only the freshly loaded row's balance changes, by exactly plus the amount. Solvency is preserved. |
| `Ledger.Transfer` | src/main/java/example/transactions/service/SingleThreadedJpaAccountService.java:91-104 | Null accounts and the same id are rejected before any step, whatever the amount. A failed withdrawal is reported as is; after it, a bad destination id is IllegalArgument, an absent one NotFound(id) and a null destination balance NullPointer. Success happens exactly when both ids are distinct and stored, the amount is valid, the source covers it and the destination balance is non-null. On success the source drops by the amount, the destination rises by the amount, their sum is preserved and every other row is untouched. Solvency is preserved. |
| `Ledger.DepositThenWithdraw` | src/main/java/example/transactions/service/SingleThreadedJpaAccountService.java:64-88 | Depositing and then withdrawing the same valid amount on a non-negative balance both succeed. The balance ends equal in value to the original, and the table is identical when the balance's scale was at least the amount's. |
| `Ledger.WithdrawWholeBalance` | src/main/java/example/transactions/service/SingleThreadedJpaAccountService.java:55-71 | Withdrawing exactly the whole balance is allowed and leaves zero. |
| `Ledger.OnlyCallerIdMatters` | src/main/java/example/transactions/service/SingleThreadedJpaAccountService.java:64-88 | Withdraw and deposit depend only on the id of the caller's account copy. Its stale balance and owner are ignored. |
| `Service.AccountService.constructor` | src/main/java/example/transactions/service/SingleThreadedJpaAccountService.java:19 | An empty repository that satisfies the class invariant. |
| `Service.AccountService.Save` | src/main/java/example/transactions/service/SingleThreadedJpaAccountService.java:21-35 | On success the repository and id generator become what `Ledger.Save` commits. On error both are unchanged. |
| `Service.AccountService.FindById` | src/main/java/example/transactions/service/SingleThreadedJpaAccountService.java:37-42 | Returns `Ledger.FindById` of the current repository and changes nothing. |
| `Service.AccountService.GetById` | src/main/java/example/transactions/service/SingleThreadedJpaAccountService.java:44-46 | Returns `Ledger.GetById` of the current repository and changes nothing. |
| `Service.AccountService.Withdraw` | src/main/java/example/transactions/service/SingleThreadedJpaAccountService.java:61-74 | Throws exactly what `Ledger.Withdraw` reports. The repository becomes the committed table on success and is unchanged on failure. |
| `Service.AccountService.Deposit` | src/main/java/example/transactions/service/SingleThreadedJpaAccountService.java:76-88 | Throws exactly what `Ledger.Deposit` reports. The repository becomes the committed table on success and is unchanged on failure. |
| `Service.AccountService.Transfer` | src/main/java/example/transactions/service/SingleThreadedJpaAccountService.java:90-104 | Withdraw then deposit in one unit of work. It throws exactly what `Ledger.Transfer` reports, and on any failure the whole repository equals its state on entry. |
| `Service.SetUp` | src/test/java/example/transactions/SingleThreadedJpaAccountServiceTests.java:25-32 | Saves UserA with 1000.23 and UserB with 1100.23, both with null ids, on a fresh repository. They get ids 1 and 2, and the repository holds exactly those two rows. |
| `Service.CheckDatabaseScenario` | src/test/java/example/transactions/SingleThreadedJpaAccountServiceTests.java:34-43 | Reading UserA back by its id succeeds, with owner "UserA" and a balance that compares equal to 1000.23. |
| `Service.WithdrawScenario` | src/test/java/example/transactions/SingleThreadedJpaAccountServiceTests.java:45-56 | Withdrawing 10.78 from UserA succeeds, and the balance read back compares equal to 989.45. |
| `Service.DepositScenario` | src/test/java/example/transactions/SingleThreadedJpaAccountServiceTests.java:58-69 | Depositing 14.34 into UserA succeeds, and the balance read back compares equal to 1014.57. |
| `Service.TransferScenario` | src/test/java/example/transactions/SingleThreadedJpaAccountServiceTests.java:71-84 | Transferring 23.43 from UserA to UserB succeeds. The balances read back compare equal to 976.80 and 1123.66. |

## Left out

- Spring and JPA machinery is not modelled: the `@Transactional` proxies, the read-committed isolation level, the 30-second timeout, and the persistence and flushing behind `AccountRepository`. The repository is an in-memory map, and the transaction is a snapshot restored on failure.
- Concurrency is out of scope: races between threads and the database's isolation guarantees. The service's own logic is sequential.
- Logging (`@Slf4j`, `log.info`) is left out because it has no effect on state.
- `Ledger.Persist`: a save of a detached row whose non-null id is not stored is modelled as an insert under a fresh id. Depending on the Hibernate version, `merge` may instead throw an optimistic-locking exception for a generated id with no matching row. That case is not modelled.
- `Ledger.Save`: the caller's `Account` object is not updated in place. In Java, `save` sets the default balance on the caller's instance, and `persist` sets its generated id. The model returns a new row, so a caller must use the returned row and not its own copy. Aliasing between the caller's object and the stored row is not modelled.
- The `NotFound` error carries the id but not the formatted message text.
- Ids are unbounded integers. The 64-bit range of `Long` ids and the 32-bit range of `BigDecimal` scales are not modelled, so neither can overflow.
- `JpaAccountService.java` is not part of this model: it passes calls through to the repository, and its withdraw, deposit and transfer are empty.
- `UberService`, `OptinalExample`, the helper data classes and the commentary-only `examples` files are not part of this model. They contain no ledger logic.
- The service tests run against a database through Spring, and that set-up is not modelled. What each test asserts is proved by the scenario methods in `Service` (the last five rows of the table).
