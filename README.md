# acccore in-memory ledger, modelled in Dafny

This project models the in-memory storage back end of the acccore
double-entry bookkeeping library (`ManagerInMemoryImpl.go`). The back end
keeps three package-level tables:

- journals, keyed by journal ID;
- accounts, keyed by account number;
- transactions (postings), keyed by transaction ID.

Three managers read and write those tables.

- **Journal manager.** `PersistJournal` validates a journal in nine
  fail-fast steps, then writes it. Writing stores the journal record, then
  stores each posting with the balance it produces and updates that
  posting's account. The manager also provides `IsJournalIdExist`,
  `IsJournalIdReversed` and `GetJournalById`, plus the helpers
  `GetTotalDebit` and `GetTotalCredit`.
- **Account manager.** `PersistAccount`, `UpdateAccount`,
  `IsAccountIdExist` and `GetAccountById`.
- **Transaction manager.** `IsTransactionIdExist` and
  `GetTransactionById`.

The files:

- `int64.dfy` (`Int64Arith`) models Go's `int64`. `+` and `-` wrap around
  modulo 2^64. `Wrap` gives the wrapped value, and the lemmas show that
  wrapping after every addition equals wrapping once at the end.
- `model.dfy` (`Model`) holds the records, the three tables as one
  `Tables` value and the error values.
- `queries.dfy` (`Queries`) holds the read-only lookups, each as a
  function of the tables. It also defines `Consistent`, the invariant of
  every state the managers can reach.
- `journal_rules.dfy` (`JournalRules`) specifies `PersistJournal` on table
  values:
  - `JournalError` gives the nine checks in source order;
  - `Commit` and `PostAll` give the write phase;
  - `PersistJournalStep` combines them;
  - the lemmas about these are alongside.
- `account_rules.dfy` (`AccountRules`) specifies `PersistAccount` and
  `UpdateAccount` in the same way.
- `ledger.dfy` (`InMemory`) is the imperative model. Class `Ledger` holds
  the three tables as fields. Its methods update them in place, with the
  source's loops. Each method is proved equal to the value-level
  specification above. The three entry points that change the tables,
  `PersistJournal`, `PersistAccount` and `UpdateAccount`, are also proved
  to keep `Consistent`.
- `scenarios.dfy` (`Scenarios`) proves concrete runs on a ledger with two
  accounts:
  - a balanced journal raises both balances;
  - a reversal of that journal (CREDIT on A1, DEBIT on A2) is rejected;
  - a repeated posting ID overwrites the earlier posting;
  - negative amounts are accepted.

The model follows what the code does, including where it departs from the
intent stated in its own comments:

- **Step 9 queries the wrong journal.** The comment at
  `ManagerInMemoryImpl.go:162` says the step makes sure the journal *being
  reversed* has not been reversed before. The code asks
  `IsJournalIdReversed` about the *new* journal's own ID. Step 2 has just
  shown that ID is not stored, so every journal that carries a reversed
  journal is rejected with `JournalIdNotFound`. The double-reversal error
  is never returned. A stored journal is therefore never a reversal (see
  `Consistent`).
- **Step 9 triggers on the link, not the flag.** It fires when the input
  journal has a reversed journal (a non-nil interface). The input's
  `reversal` flag plays no part.
- **Amounts are not checked.** Nothing in the code checks the sign of an
  amount, so negative postings are accepted.
- **The balance check is done in `int64`.** The debit and credit totals
  wrap around, so exactly unequal totals can pass step 5.
- **Duplicate posting IDs are not rejected.** Two postings of one journal
  may share a transaction ID. Both are applied to their accounts, and the
  later posting overwrites the earlier one in the transaction table.

## Model

| member | source | states |
|---|---|---|
| Int64Arith.Wrap | ManagerInMemoryImpl.go:118-126 | the int64 result of a Go `+=` or `-`: congruent to the exact value modulo 2^64, and equal to it whenever it fits in int64 |
| Int64Arith.WrapCongruent | ManagerInMemoryImpl.go:118-126 | values congruent modulo 2^64 wrap to the same int64 |
| Int64Arith.WrapAdd | ManagerInMemoryImpl.go:118-126 | wrapping after each addition of an accumulator equals wrapping the exact sum once |
| JournalRules.WrappedTotal | ManagerInMemoryImpl.go:337-357 | the int64 running total of the postings of a type, accumulated left to right, is the exact sum of their amounts wrapped once |
| JournalRules.WrappedTotalExact | ManagerInMemoryImpl.go:337-357 | when the exact sum fits in int64 the running total equals it, however the partial sums overflowed |
| JournalRules.OtherTypesIgnored | ManagerInMemoryImpl.go:119-127 | a posting whose TransactionType is neither DEBIT nor CREDIT changes neither total |
| InMemory.SumOfType | ManagerInMemoryImpl.go:337-357 | the accumulator loop returns the int64 running total of the amounts of one type, and the exact sum when it fits |
| InMemory.GetTotalDebit | ManagerInMemoryImpl.go:337-346 | the int64 sum of the journal's DEBIT amounts, and the exact sum when it fits |
| InMemory.GetTotalCredit | ManagerInMemoryImpl.go:348-357 | the int64 sum of the journal's CREDIT amounts, and the exact sum when it fits |
| JournalRules.JournalError | ManagerInMemoryImpl.go:81-171 | a journal passes validation exactly when it is non-nil, passes steps 1 to 8 (ID, postings, author, new ID, posting IDs, postings new, balanced, distinct accounts, accounts stored, one currency) and reverses nothing |
| JournalRules.PostedBalance | ManagerInMemoryImpl.go:209-219 | the balance rule: the amount is added when the posting's type equals the account's base type and subtracted otherwise, exactly whenever the result fits in int64 |
| JournalRules.Post | ManagerInMemoryImpl.go:196-229 | one turn of the write loop: the posting is stored under its ID, linked to the journal, with its account's new balance as snapshot; that account gets the balance rule and the posting's author as updater; every other account and transaction, and the journal table, are unchanged |
| JournalRules.PostAll | ManagerInMemoryImpl.go:196-229 | the write loop leaves the journal table alone, keeps the set of accounts, and adds exactly the postings' IDs to the transaction table |
| JournalRules.PostAllStep | ManagerInMemoryImpl.go:196-229 | one more turn of the write loop posts the next posting to the state the earlier turns left, and its account is still stored |
| JournalRules.NewJournalRecord | ManagerInMemoryImpl.go:177-191 | the journal record stored on success carries the journal's ID, description and author, the credit total as amount, and the reversal flag and reversed ID exactly when the journal names a reversed journal |
| JournalRules.Commit | ManagerInMemoryImpl.go:175-229 | the write phase adds the new record to the journal table, keeps the set of accounts, and adds exactly the postings' IDs to the transaction table |
| JournalRules.PersistJournalStep | ManagerInMemoryImpl.go:81-234 | fail-closed: a rejected journal leaves all three tables unchanged; an accepted one was new and adds exactly its ID to the journal table |
| JournalRules.ExistingJournalRejected | ManagerInMemoryImpl.go:84-102 | a journal with ID, postings and author whose ID is stored is rejected with JournalAlreadyPersisted and changes nothing, whatever its postings say |
| JournalRules.ReversalAlwaysRejected | ManagerInMemoryImpl.go:160-171 | every journal that reverses another is rejected, never with JournalCanNotDoubleReverse, and with JournalIdNotFound whenever steps 1 to 8 pass |
| JournalRules.UnbalancedPassesOnOverflow | ManagerInMemoryImpl.go:117-130 | debits MAX64, MAX64 and 2 against a credit of 0 pass the balance check although the exact totals are 2^64 and 0 |
| JournalRules.LastIndexWithId | ManagerInMemoryImpl.go:196-222 | every posting ID has a last posting that carries it, the one whose record the transaction table keeps |
| JournalRules.PostAllUntouchedAccounts | ManagerInMemoryImpl.go:196-229 | an account that no posting names keeps its record through the write loop |
| JournalRules.PostAllPostedAccount | ManagerInMemoryImpl.go:209-228 | the account of each posting ends with that posting's balance rule applied to its old record, balance and updater |
| JournalRules.PostAllUntouchedTransactions | ManagerInMemoryImpl.go:196-222 | stored transactions whose IDs no posting carries keep their records |
| JournalRules.PostAllStoredPosting | ManagerInMemoryImpl.go:197-222 | the transaction table holds, under each posting ID, the last posting with that ID, linked to the journal and carrying its account's new balance |
| JournalRules.CommitJournalRecord | ManagerInMemoryImpl.go:177-193 | an accepted journal is stored as a non-reversal record whose amount is the credit total, which equals the debit total |
| JournalRules.CommitConservesExactly | ManagerInMemoryImpl.go:117-130 | when both exact totals fit in int64, the stored amount equals the exact debit total and the exact credit total |
| JournalRules.CommitTransactionTable | ManagerInMemoryImpl.go:196-222 | the transaction table gains exactly the postings' IDs, keeps every earlier record, and every new record names the new journal |
| JournalRules.CommitAccountTable | ManagerInMemoryImpl.go:196-229 | the account keys are unchanged, accounts outside the journal keep their records, and each posted account is posted by the balance rule |
| JournalRules.CommitSnapshot | ManagerInMemoryImpl.go:209-226 | the balance stored on a posting equals its account's new balance, which is the balance rule applied to the old balance |
| JournalRules.CommitAccountsKeyed | ManagerInMemoryImpl.go:196-229 | after the write phase every account is still stored under its own number |
| JournalRules.CommitPostingsKeyed | ManagerInMemoryImpl.go:196-222 | after the write phase every new transaction record is stored under its own ID and names a stored account |
| JournalRules.CommitConsistent | ManagerInMemoryImpl.go:175-229 | the write phase of an accepted journal keeps the ledger consistent |
| JournalRules.PersistJournalConsistent | ManagerInMemoryImpl.go:81-234 | PersistJournal keeps the ledger consistent: IDs match keys, postings point at stored journals and accounts, and no stored journal is a reversal |
| Queries.IsJournalIdExist | ManagerInMemoryImpl.go:255-261 | true exactly when GetJournalById does not report the journal missing |
| Queries.IsAccountIdExist | ManagerInMemoryImpl.go:498-502 | true exactly when GetAccountById succeeds |
| Queries.IsTransactionIdExist | ManagerInMemoryImpl.go:640-643 | true exactly when GetTransactionById succeeds |
| Queries.GetAccountById | ManagerInMemoryImpl.go:505-523 | AccountIdNotFound exactly for a number with no record; otherwise the record stored under that number |
| Queries.GetTransactionById | ManagerInMemoryImpl.go:646-665 | TransactionNotFound exactly for an ID with no record; otherwise the record stored under that ID |
| Queries.JournalReversal | ManagerInMemoryImpl.go:360-375 | JournalIdNotFound exactly when the journal is not stored; otherwise true when some stored record names it as the journal it reverses, false when none does |
| Queries.GetJournalById | ManagerInMemoryImpl.go:265-306 | JournalIdNotFound exactly for an ID with no record, otherwise success or JournalLoadReversalInconsistent; a loaded journal has its record's ID, exactly the stored postings naming it, and a back-link exactly when its record is a reversal |
| Queries.Consistent | ManagerInMemoryImpl.go:51-55 | the invariant of reachable states: records stored under their own non-empty IDs, postings pointing at stored journals and accounts, no stored reversal; hence every stored posting's journal and account can be looked up and no stored journal counts as reversed |
| Queries.LoadedJournalFields | ManagerInMemoryImpl.go:265-306 | a loaded journal carries its record's fields and exactly the stored postings naming it, and has a back-link exactly when its record is a reversal, pointing at the stored reversed journal |
| Queries.BrokenReversalLink | ManagerInMemoryImpl.go:274-279 | a reversal record whose target is not stored fails to load with JournalLoadReversalInconsistent |
| Queries.LoadConsistent | ManagerInMemoryImpl.go:265-306 | on a consistent ledger every stored journal loads without a back-link, with the postings stored under its ID |
| Queries.NeverReversed | ManagerInMemoryImpl.go:360-375 | on a consistent ledger no stored journal has been reversed |
| InMemory.Ledger.constructor | ManagerInMemoryImpl.go:57-61 | the tables start empty, a consistent state |
| InMemory.Ledger.IsJournalIdReversed | ManagerInMemoryImpl.go:360-375 | not found exactly when the journal is not stored; otherwise true exactly when some stored journal names it as the journal it reverses |
| InMemory.Ledger.PersistJournal | ManagerInMemoryImpl.go:81-234 | returns the error and leaves the tables that the specification PersistJournalStep gives, and keeps the ledger consistent |
| InMemory.Ledger.CheckJournal | ManagerInMemoryImpl.go:84-171 | returns the first failing check's error in source order, or Pass with the credit total |
| InMemory.Ledger.WriteJournal | ManagerInMemoryImpl.go:175-229 | stores the journal record and then each posting and account update, in order, leaving the tables that Commit gives |
| InMemory.AllIdsPresentScan | ManagerInMemoryImpl.go:104-109 | step 3: true exactly when every posting has a non-empty ID |
| InMemory.NoneStoredScan | ManagerInMemoryImpl.go:111-116 | step 4: true exactly when no posting's ID is in the transaction table |
| InMemory.TotalsScan | ManagerInMemoryImpl.go:118-127 | step 5: the int64 running DEBIT and CREDIT totals |
| InMemory.DistinctAccountsScan | ManagerInMemoryImpl.go:132-139 | step 6: true exactly when no two postings name the same account |
| InMemory.AccountsStoredScan | ManagerInMemoryImpl.go:141-146 | step 7: true exactly when every posting's account is stored |
| InMemory.SameCurrencyScan | ManagerInMemoryImpl.go:148-159 | step 8: true exactly when every posting's account has the first posting's account's currency |
| AccountRules.AccountFieldError | ManagerInMemoryImpl.go:411-423 | an account passes the field checks exactly when number, name, description and creator are all non-empty; otherwise the error names the first empty field in the order number, name, description, creator |
| AccountRules.PersistAccountStep | ManagerInMemoryImpl.go:411-451 | fail-closed; on success the number was new and the account keys gain exactly it |
| AccountRules.UpdateAccountStep | ManagerInMemoryImpl.go:455-495 | fail-closed; on success the number was stored and the account keys are unchanged |
| AccountRules.PersistThenGet | ManagerInMemoryImpl.go:411-451 | a persisted account reads back as written, balance included; every other lookup and the other two tables are unchanged |
| AccountRules.UpdateThenGet | ManagerInMemoryImpl.go:455-495 | an updated account reads back as written, balance included; every other lookup and the other two tables are unchanged |
| AccountRules.PersistTwiceRejected | ManagerInMemoryImpl.go:425-432 | persisting the same number again is rejected with AccountAlreadyPersisted and changes nothing |
| AccountRules.PersistOrUpdate | ManagerInMemoryImpl.go:425-475 | for a complete account, exactly one of persist and update succeeds, and each fails exactly when the other succeeds |
| AccountRules.FieldErrorFirst | ManagerInMemoryImpl.go:411-467 | a missing field is reported before the existence guard is consulted, by both operations |
| AccountRules.AccountStepsConsistent | ManagerInMemoryImpl.go:411-495 | persisting and updating an account keep the ledger consistent |
| InMemory.Ledger.PersistAccount | ManagerInMemoryImpl.go:411-451 | returns the error and leaves the tables that PersistAccountStep gives, and keeps the ledger consistent |
| InMemory.Ledger.UpdateAccount | ManagerInMemoryImpl.go:455-495 | returns the error and leaves the tables that UpdateAccountStep gives, and keeps the ledger consistent |
| Scenarios.TwoPostingTotal | ManagerInMemoryImpl.go:118-126 | the running total of two postings, unrolled |
| Scenarios.PairAccepted | ManagerInMemoryImpl.go:81-234 | a DEBIT on one account and a CREDIT of the same amount on another in one currency are accepted, the journal records the amount, and each account is posted once |
| Scenarios.FirstJournalRaisesBothBalances | ManagerInMemoryImpl.go:209-226 | a DEBIT on a DEBIT-based account and a CREDIT on a CREDIT-based account both raise the balances by the amount, and the postings record those balances |
| Scenarios.ReversalOfFirstJournalRejected | ManagerInMemoryImpl.go:160-171 | the reversal of a stored journal is rejected, not with JournalCanNotDoubleReverse, and the ledger is unchanged |
| Scenarios.RepeatedTransactionIdOverwrites | ManagerInMemoryImpl.go:196-228 | two postings sharing an ID are both accepted; the table keeps one record, the later posting's, and both accounts are posted |
| Scenarios.NegativeAmountsAccepted | ManagerInMemoryImpl.go:104-171 | postings of negative amounts are accepted and lower both balances |

## Left out

- Timestamps. Journaling, transaction, create and update times come from
  the clock and are not part of this model. Neither are the
  `JournalingTime` and `CreateTime` fields of the records.
- `ListJournals`, `ListAccounts`, `ListAccountByCOA`, `FindAccounts` and
  `ListTransactionsOnAccount` are not part of this model. They are
  time-ordered, paged range scans, and `PageResultFor` is not part of this
  model either.
- `RenderJournal` and `RenderTransactionsOnAccount` are not part of this
  model. They are text formatting.
- `CommitJournal` and `CancelJournal` are not part of this model. In the
  in-memory back end they do nothing and return nil.
- `NewJournal`, `NewAccount` and `NewTransaction` (blank records), and the
  getters and setters of `ModelSpec.go`, are not part of this model.
  Records are Dafny values with named fields.
- Concurrency. The tables are unguarded package-level maps; the model
  runs each operation on its own.
- Aliasing of account records. Go stores pointers and updates an account's
  balance through one. The model stores account values and replaces them,
  which is equivalent because no pointer escapes the back end.
- A nil element inside a journal's slice of postings is not modelled;
  Go would panic on it.
- Nil arguments are not modelled, apart from the nil journal that
  `PersistJournal` rejects. Go panics on a nil account passed to
  `PersistAccount` or `UpdateAccount`, and on a nil journal passed to
  `GetTotalDebit` or `GetTotalCredit`. The model's parameter types have no
  nil.
- Queries.GetJournalById: Go follows a reversal link by recursing over the
  whole table, and would not terminate on a cycle of reversal records. The
  model recurses on the table minus the journal already visited. That is
  the same on every acyclic chain, which includes every state the
  managers can reach, since no stored journal is a reversal.
- Queries.GetJournalById: Go returns the postings as a slice in map
  iteration order, which is unspecified. The model returns them as a set.
- `IsJournalIdExist`, `IsAccountIdExist` and `IsTransactionIdExist` return
  `(bool, error)` with an error that is always nil. They are modelled as
  `bool`.
- The input journal's `reversal` flag and `amount` field are carried but
  never read, as in the source. The stored record takes them from the
  reversed-journal link and the credit total.
- The `debitSum` that `PersistJournal` computes is used only in the
  balance check. The write phase uses `creditSum`, and so does the model.
