/** The in-memory managers: the three package-level tables as the fields of
    one object, and the operations that read and update them in place. */
module InMemory {
  import opened Int64Arith
  import opened Model
  import opened Queries
  import opened JournalRules
  import opened AccountRules

  /** GetTotalDebit: the int64 sum of the journal's DEBIT amounts. */
  method GetTotalDebit(journal: Journal) returns (total: Int64)
    ensures total == WrappedTotal(journal.transactions, DEBIT)
    ensures InRange(ExactTotal(journal.transactions, DEBIT)) ==> total == ExactTotal(journal.transactions, DEBIT)
  {
    total := SumOfType(journal.transactions, DEBIT);
  }

  /** GetTotalCredit: the int64 sum of the journal's CREDIT amounts. */
  method GetTotalCredit(journal: Journal) returns (total: Int64)
    ensures total == WrappedTotal(journal.transactions, CREDIT)
    ensures InRange(ExactTotal(journal.transactions, CREDIT)) ==> total == ExactTotal(journal.transactions, CREDIT)
  {
    total := SumOfType(journal.transactions, CREDIT);
  }

  /** The accumulator loop the two totals share. */
  method SumOfType(ps: seq<Transaction>, ty: TransactionType) returns (total: Int64)
    ensures total == WrappedTotal(ps, ty)
    ensures InRange(ExactTotal(ps, ty)) ==> total == ExactTotal(ps, ty)
  {
    total := 0;
    for i := 0 to |ps|
      invariant total == WrappedTotal(ps[..i], ty)
    {
      assert ps[..i + 1][..i] == ps[..i];
      if ps[i].transactionType == ty {
        total := Wrap(total + ps[i].amount);
      }
    }
    assert ps[..|ps|] == ps;
  }

  class Ledger {
    var journals: map<string, JournalRecord>
    var accounts: map<string, Account>
    var transactions: map<string, Transaction>

    function State(): Tables
      reads this
    {
      Tables(journals, accounts, transactions)
    }

    /** The tables as the package initialiser leaves them: empty. */
    constructor ()
      ensures State() == Tables(map[], map[], map[])
      ensures Consistent(State())
    {
      journals := map[];
      accounts := map[];
      transactions := map[];
    }

    /** IsJournalIdReversed: not found when the journal is not stored;
        otherwise scans the journal table for a record naming it as the
        journal it reverses. Changes nothing. */
    method IsJournalIdReversed(journalId: string) returns (r: Result<bool>)
      ensures r == JournalReversal(State(), journalId)
      ensures r.Failure? <==> journalId !in journals
      ensures r.Success? ==> (r.value <==> exists k :: k in journals && journals[k].reversedJournalId == journalId)
    {
      if journalId !in journals {
        return Failure(JournalIdNotFound);
      }
      var unseen := journals.Keys;
      while unseen != {}
        invariant unseen <= journals.Keys
        invariant forall k :: k in journals && k !in unseen ==> journals[k].reversedJournalId != journalId
        decreases unseen
      {
        var k :| k in unseen;
        if journals[k].reversedJournalId == journalId {
          return Success(true);
        }
        unseen := unseen - {k};
      }
      return Success(false);
    }

    /** PersistJournal: the nine checks in order, then the writes. */
    method PersistJournal(journal: Option<Journal>) returns (err: Outcome)
      modifies this
      ensures Effect(err, State()) == PersistJournalStep(old(State()), journal)
      ensures Consistent(old(State())) ==> Consistent(State())
    {
      if Consistent(State()) {
        PersistJournalConsistent(State(), journal);
      }
      var creditSum;
      err, creditSum := CheckJournal(journal);
      if err.Fail? {
        return;
      }
      WriteJournal(journal.value, creditSum);
    }

    /** The read-only first half of PersistJournal: the nine checks, each
        returning its own error, in the engine's order. On success it also
        yields the credit total that becomes the journal's amount. */
    method CheckJournal(journal: Option<Journal>) returns (err: Outcome, creditSum: Int64)
      ensures err == JournalError(State(), journal)
      ensures err.Pass? ==> creditSum == WrappedTotal(journal.value.transactions, CREDIT)
    {
      creditSum := 0;
      // 1. mandatory fields
      if journal.None? {
        return Fail(JournalNil), creditSum;
      }
      var j := journal.value;
      var ps := j.transactions;
      if |j.journalId| == 0 {
        return Fail(JournalMissingId), creditSum;
      }
      if |ps| == 0 {
        return Fail(JournalNoTransaction), creditSum;
      }
      if |j.createBy| == 0 {
        return Fail(JournalMissingAuthor), creditSum;
      }
      // 2. the journal is not stored yet
      if j.journalId in journals {
        return Fail(JournalAlreadyPersisted), creditSum;
      }
      // 3. every posting has an ID
      var ok := AllIdsPresentScan(ps);
      if !ok {
        return Fail(JournalTransactionMissingId), creditSum;
      }
      // 4. no posting is stored yet
      ok := NoneStoredScan(transactions, ps);
      if !ok {
        return Fail(JournalTransactionAlreadyPersisted), creditSum;
      }
      // 5. debit and credit totals agree
      var debitSum;
      debitSum, creditSum := TotalsScan(ps);
      if creditSum != debitSum {
        return Fail(JournalNotBalance), creditSum;
      }
      // 6. no account appears twice
      ok := DistinctAccountsScan(ps);
      if !ok {
        return Fail(JournalTransactionAccountDuplicate), creditSum;
      }
      // 7. every account is stored
      ok := AccountsStoredScan(accounts, ps);
      if !ok {
        return Fail(JournalTransactionAccountNotPersist), creditSum;
      }
      // 8. one currency
      ok := SameCurrencyScan(accounts, ps);
      if !ok {
        return Fail(JournalTransactionMixCurrency), creditSum;
      }
      // 9. the reversal guard, asked about this journal's own ID
      if j.reversedJournal.Some? {
        var reversed := IsJournalIdReversed(j.journalId);
        match reversed {
          case Failure(e) =>
            return Fail(e), creditSum;
          case Success(b) =>
            if b {
              return Fail(JournalCanNotDoubleReverse), creditSum;
            }
        }
      }
      return Pass, creditSum;
    }

    /** The second half of PersistJournal: store the journal record, then
        for each posting in order store its record with the balance it
        produces and update its account. */
    method WriteJournal(j: Journal, creditSum: Int64)
      requires AllAccountsStored(accounts, j.transactions)
      requires creditSum == WrappedTotal(j.transactions, CREDIT)
      modifies this
      ensures State() == Commit(old(State()), j)
    {
      var ps := j.transactions;
      var record := JournalRecord(j.journalId, j.description, false, "", creditSum, j.createBy);
      match j.reversedJournal {
        case None =>
        case Some(rj) =>
          record := record.(reversedJournalId := rj.journalId, reversal := true);
      }
      journals := journals[record.journalId := record];
      ghost var start := State();
      assert start == WithJournal(old(State()), j);
      for i := 0 to |ps|
        invariant State() == PostAll(start, j.journalId, ps[..i])
      {
        PostAllStep(start, j.journalId, ps, i);
        var p := ps[i];
        var account := accounts[p.accountNumber];
        var newBalance := PostedBalance(account, p);
        transactions := transactions[p.transactionId := p.(journalId := j.journalId, accountBalance := newBalance)];
        accounts := accounts[p.accountNumber := account.(balance := newBalance, updateBy := p.createBy)];
      }
      assert ps[..|ps|] == ps;
    }

    /** PersistAccount: field checks, then the account must be new. */
    method PersistAccount(account: Account) returns (err: Outcome)
      modifies this
      ensures Effect(err, State()) == PersistAccountStep(old(State()), account)
      ensures Consistent(old(State())) ==> Consistent(State())
    {
      if Consistent(State()) {
        AccountStepsConsistent(State(), account);
      }
      err := AccountFieldError(account);
      if err.Fail? {
        return;
      }
      if account.accountNumber in accounts {
        return Fail(AccountAlreadyPersisted);
      }
      accounts := accounts[account.accountNumber := account];
    }

    /** UpdateAccount: field checks, then the account must be stored. */
    method UpdateAccount(account: Account) returns (err: Outcome)
      modifies this
      ensures Effect(err, State()) == UpdateAccountStep(old(State()), account)
      ensures Consistent(old(State())) ==> Consistent(State())
    {
      if Consistent(State()) {
        AccountStepsConsistent(State(), account);
      }
      err := AccountFieldError(account);
      if err.Fail? {
        return;
      }
      if account.accountNumber !in accounts {
        return Fail(AccountIsNotPersisted);
      }
      accounts := accounts[account.accountNumber := account];
    }
  }

  // The scans of steps 3 to 8 of PersistJournal, each a loop over the
  // postings that stops at the first offending one.

  /** Step 3: every posting has a non-empty ID. */
  method AllIdsPresentScan(ps: seq<Transaction>) returns (ok: bool)
    ensures ok == AllIdsPresent(ps)
  {
    for i := 0 to |ps|
      invariant forall n :: 0 <= n < i ==> |ps[n].transactionId| > 0
    {
      if |ps[i].transactionId| == 0 {
        return false;
      }
    }
    return true;
  }

  /** Step 4: no posting's ID is in the transaction table. */
  method NoneStoredScan(transactions: map<string, Transaction>, ps: seq<Transaction>) returns (ok: bool)
    ensures ok == NoneStored(transactions, ps)
  {
    for i := 0 to |ps|
      invariant forall n :: 0 <= n < i ==> ps[n].transactionId !in transactions
    {
      if ps[i].transactionId in transactions {
        return false;
      }
    }
    return true;
  }

  /** Step 5: the DEBIT and CREDIT totals, accumulated in one pass. */
  method TotalsScan(ps: seq<Transaction>) returns (debitSum: Int64, creditSum: Int64)
    ensures debitSum == WrappedTotal(ps, DEBIT)
    ensures creditSum == WrappedTotal(ps, CREDIT)
  {
    debitSum, creditSum := 0, 0;
    for i := 0 to |ps|
      invariant debitSum == WrappedTotal(ps[..i], DEBIT)
      invariant creditSum == WrappedTotal(ps[..i], CREDIT)
    {
      assert ps[..i + 1][..i] == ps[..i];
      if ps[i].transactionType == DEBIT {
        debitSum := Wrap(debitSum + ps[i].amount);
      }
      if ps[i].transactionType == CREDIT {
        creditSum := Wrap(creditSum + ps[i].amount);
      }
    }
    assert ps[..|ps|] == ps;
  }

  /** Step 6: no two postings name the same account, found with a map of
      the account numbers seen so far. */
  method DistinctAccountsScan(ps: seq<Transaction>) returns (ok: bool)
    ensures ok == DistinctAccounts(ps)
  {
    var accountDupCheck: map<string, bool> := map[];
    for i := 0 to |ps|
      invariant accountDupCheck.Keys == AccountNumbers(ps[..i])
      invariant DistinctAccounts(ps[..i])
    {
      assert forall n :: 0 <= n < i ==> ps[..i][n] == ps[n];
      assert forall n :: 0 <= n <= i ==> ps[..i + 1][n] == ps[n];
      if ps[i].accountNumber in accountDupCheck {
        return false;
      }
      accountDupCheck := accountDupCheck[ps[i].accountNumber := true];
    }
    assert ps[..|ps|] == ps;
    return true;
  }

  /** Step 7: every posting's account is in the account table. */
  method AccountsStoredScan(accounts: map<string, Account>, ps: seq<Transaction>) returns (ok: bool)
    ensures ok == AllAccountsStored(accounts, ps)
  {
    for i := 0 to |ps|
      invariant forall n :: 0 <= n < i ==> ps[n].accountNumber in accounts
    {
      if ps[i].accountNumber !in accounts {
        return false;
      }
    }
    return true;
  }

  /** Step 8: every posting's account has the currency of the first. */
  method SameCurrencyScan(accounts: map<string, Account>, ps: seq<Transaction>) returns (ok: bool)
    requires AllAccountsStored(accounts, ps)
    ensures ok == SameCurrency(accounts, ps)
  {
    var currency: string := "";
    for i := 0 to |ps|
      invariant i > 0 ==> currency == accounts[ps[0].accountNumber].currency
      invariant forall n :: 0 < n < i ==> accounts[ps[n].accountNumber].currency == currency
    {
      var cur := accounts[ps[i].accountNumber].currency;
      if i == 0 {
        currency := cur;
      } else if cur != currency {
        return false;
      }
    }
    return true;
  }
}
