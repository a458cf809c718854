/** The records of the in-memory ledger: accounts, transactions (postings)
    and journals, the three tables that hold them, and the errors the
    managers return. Timestamps are not part of this model. */
module Model {
  import opened Int64Arith

  /** Go declares `type TransactionType int` with DEBIT = 0 and CREDIT = 1;
      any other int is a legal value of the type. */
  type TransactionType = int

  const DEBIT: TransactionType := 0
  const CREDIT: TransactionType := 1

  datatype Option<T> = None | Some(value: T)

  datatype Error =
    | JournalNil
    | JournalMissingId
    | JournalNoTransaction
    | JournalMissingAuthor
    | JournalAlreadyPersisted
    | JournalTransactionMissingId
    | JournalTransactionAlreadyPersisted
    | JournalNotBalance
    | JournalTransactionAccountDuplicate
    | JournalTransactionAccountNotPersist
    | JournalTransactionMixCurrency
    | JournalCanNotDoubleReverse
    | JournalIdNotFound
    | JournalLoadReversalInconsistent
    | AccountMissingId
    | AccountMissingName
    | AccountMissingDescription
    | AccountMissingCreator
    | AccountAlreadyPersisted
    | AccountIsNotPersisted
    | AccountIdNotFound
    | TransactionNotFound

  /** A Go `error` return: nil (Pass) or an error value. */
  datatype Outcome = Pass | Fail(error: Error)

  /** A Go `(value, error)` return. */
  datatype Result<T> = Success(value: T) | Failure(error: Error)

  /** An account, both as the caller builds it and as the account table
      stores it (the two carry the same fields once times are dropped). */
  datatype Account = Account(
    currency: string,
    accountNumber: string,
    name: string,
    description: string,
    baseTransactionType: TransactionType,
    balance: Int64,
    coa: string,
    createBy: string,
    updateBy: string)

  /** A posting, both as the caller attaches it to a journal and as the
      transaction table stores it. */
  datatype Transaction = Transaction(
    transactionId: string,
    accountNumber: string,
    journalId: string,
    description: string,
    transactionType: TransactionType,
    amount: Int64,
    accountBalance: Int64,
    createBy: string)

  /** A journal as the caller hands it to PersistJournal; `reversedJournal`
      is the Go interface that is nil unless this journal reverses another. */
  datatype Journal = Journal(
    journalId: string,
    description: string,
    reversal: bool,
    reversedJournal: Option<Journal>,
    amount: Int64,
    transactions: seq<Transaction>,
    createBy: string)

  /** A row of the journal table. */
  datatype JournalRecord = JournalRecord(
    journalId: string,
    description: string,
    reversal: bool,
    reversedJournalId: string,
    amount: Int64,
    createBy: string)

  /** A journal as GetJournalById rebuilds it; its transactions come from a
      scan of the transaction table in map order, so they form a set. */
  datatype LoadedJournal = LoadedJournal(
    journalId: string,
    description: string,
    reversal: bool,
    reversedJournal: Option<LoadedJournal>,
    amount: Int64,
    transactions: set<Transaction>,
    createBy: string)

  /** The three package-level tables, keyed by journal ID, account number
      and transaction ID. */
  datatype Tables = Tables(
    journals: map<string, JournalRecord>,
    accounts: map<string, Account>,
    transactions: map<string, Transaction>)

  /** What a mutating operation returns, together with the tables after it. */
  datatype Effect = Effect(outcome: Outcome, after: Tables)
}
