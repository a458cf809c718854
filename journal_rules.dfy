/** The specification of PersistJournal: the nine validation steps in the
    order the engine runs them, the write phase (journal record, one
    transaction record per posting, balance propagation), and the
    properties that follow from them. */
module JournalRules {
  import opened Int64Arith
  import opened Model
  import opened Queries

  // ---------------------------------------------------------------------
  // Sums of posting amounts

  /** The int64 sum of the amounts of the postings of type `ty`, accumulated
      left to right with wrap-around, as GetTotalDebit, GetTotalCredit and
      step 5 compute it. */
  function WrappedTotal(ps: seq<Transaction>, ty: TransactionType): (r: Int64)
    ensures r == Wrap(ExactTotal(ps, ty))
    decreases |ps|
  {
    if ps == [] then 0
    else
      var init, last := ps[..|ps| - 1], ps[|ps| - 1];
      var sum := WrappedTotal(init, ty);
      if last.transactionType == ty then
        WrapAdd(ExactTotal(init, ty), last.amount);
        Wrap(sum + last.amount)
      else sum
  }

  /** The mathematical sum of the amounts of the postings of type `ty`. */
  function ExactTotal(ps: seq<Transaction>, ty: TransactionType): int
    decreases |ps|
  {
    if ps == [] then 0
    else ExactTotal(ps[..|ps| - 1], ty)
         + (if ps[|ps| - 1].transactionType == ty then ps[|ps| - 1].amount else 0)
  }

  /** The accumulated total is exact whenever the exact total fits in
      an int64, however the partial sums overflow on the way. */
  lemma WrappedTotalExact(ps: seq<Transaction>, ty: TransactionType)
    requires InRange(ExactTotal(ps, ty))
    ensures WrappedTotal(ps, ty) == ExactTotal(ps, ty)
  {
  }

  /** A posting whose type is neither DEBIT nor CREDIT counts toward neither
      total. */
  lemma {:induction false} OtherTypesIgnored(ps: seq<Transaction>, p: Transaction)
    requires p.transactionType != DEBIT && p.transactionType != CREDIT
    ensures WrappedTotal(ps + [p], DEBIT) == WrappedTotal(ps, DEBIT)
    ensures WrappedTotal(ps + [p], CREDIT) == WrappedTotal(ps, CREDIT)
  {
    assert (ps + [p])[..|ps|] == ps;
  }

  // ---------------------------------------------------------------------
  // The validation steps

  predicate AllIdsPresent(ps: seq<Transaction>) {
    forall i :: 0 <= i < |ps| ==> |ps[i].transactionId| > 0
  }

  predicate NoneStored(transactions: map<string, Transaction>, ps: seq<Transaction>) {
    forall i :: 0 <= i < |ps| ==> ps[i].transactionId !in transactions
  }

  predicate Balanced(ps: seq<Transaction>) {
    WrappedTotal(ps, DEBIT) == WrappedTotal(ps, CREDIT)
  }

  predicate DistinctAccounts(ps: seq<Transaction>) {
    forall i, k :: 0 <= i < k < |ps| ==> ps[i].accountNumber != ps[k].accountNumber
  }

  predicate AllAccountsStored(accounts: map<string, Account>, ps: seq<Transaction>) {
    forall i :: 0 <= i < |ps| ==> ps[i].accountNumber in accounts
  }

  predicate SameCurrency(accounts: map<string, Account>, ps: seq<Transaction>)
    requires AllAccountsStored(accounts, ps)
  {
    forall i :: 0 < i < |ps| ==>
      accounts[ps[i].accountNumber].currency == accounts[ps[0].accountNumber].currency
  }

  /** Steps 1 to 8 all pass. */
  predicate ChecksPass(t: Tables, j: Journal) {
    && |j.journalId| > 0
    && |j.transactions| > 0
    && |j.createBy| > 0
    && j.journalId !in t.journals
    && AllIdsPresent(j.transactions)
    && NoneStored(t.transactions, j.transactions)
    && Balanced(j.transactions)
    && DistinctAccounts(j.transactions)
    && AllAccountsStored(t.accounts, j.transactions)
    && SameCurrency(t.accounts, j.transactions)
  }

  /** The error PersistJournal returns: that of the first failing step, in
      the engine's order, or Pass. Step 9 asks whether the journal being
      persisted (not the journal it reverses) has been reversed. The
      contract states the resulting acceptance condition without the order:
      a journal is accepted exactly when steps 1 to 8 pass and it reverses
      nothing. */
  ghost function JournalError(t: Tables, journal: Option<Journal>): (r: Outcome)
    ensures r.Pass? <==> journal.Some? && ChecksPass(t, journal.value) && journal.value.reversedJournal.None?
  {
    match journal
    case None => Fail(JournalNil)
    case Some(j) =>
      var ps := j.transactions;
      if |j.journalId| == 0 then Fail(JournalMissingId)
      else if |ps| == 0 then Fail(JournalNoTransaction)
      else if |j.createBy| == 0 then Fail(JournalMissingAuthor)
      else if j.journalId in t.journals then Fail(JournalAlreadyPersisted)
      else if !AllIdsPresent(ps) then Fail(JournalTransactionMissingId)
      else if !NoneStored(t.transactions, ps) then Fail(JournalTransactionAlreadyPersisted)
      else if !Balanced(ps) then Fail(JournalNotBalance)
      else if !DistinctAccounts(ps) then Fail(JournalTransactionAccountDuplicate)
      else if !AllAccountsStored(t.accounts, ps) then Fail(JournalTransactionAccountNotPersist)
      else if !SameCurrency(t.accounts, ps) then Fail(JournalTransactionMixCurrency)
      else if j.reversedJournal.Some? then
        match JournalReversal(t, j.journalId)
        case Failure(e) => Fail(e)
        case Success(reversed) => if reversed then Fail(JournalCanNotDoubleReverse) else Pass
      else Pass
  }

  // ---------------------------------------------------------------------
  // The write phase

  /** The balance rule: the amount is added when the posting's type equals
      the account's base type and subtracted otherwise, in int64. */
  function PostedBalance(account: Account, p: Transaction): (r: Int64)
    ensures (p.transactionType == account.baseTransactionType && InRange(account.balance + p.amount))
              ==> r == account.balance + p.amount
    ensures (p.transactionType != account.baseTransactionType && InRange(account.balance - p.amount))
              ==> r == account.balance - p.amount
  {
    if p.transactionType == account.baseTransactionType
    then Wrap(account.balance + p.amount)
    else Wrap(account.balance - p.amount)
  }

  function PostedAccount(account: Account, p: Transaction): Account {
    account.(balance := PostedBalance(account, p), updateBy := p.createBy)
  }

  /** The transaction record written for posting `p` of journal `journalId`. */
  function StoredPosting(p: Transaction, journalId: string, balance: Int64): Transaction {
    p.(journalId := journalId, accountBalance := balance)
  }

  /** One iteration of the write loop. */
  function Post(t: Tables, journalId: string, p: Transaction): (r: Tables)
    requires p.accountNumber in t.accounts
    ensures r.journals == t.journals
    ensures r.accounts.Keys == t.accounts.Keys
    ensures forall k :: k in t.accounts && k != p.accountNumber ==> r.accounts[k] == t.accounts[k]
    ensures r.accounts[p.accountNumber].balance == PostedBalance(t.accounts[p.accountNumber], p)
    ensures r.accounts[p.accountNumber].updateBy == p.createBy
    ensures r.transactions.Keys == t.transactions.Keys + {p.transactionId}
    ensures forall k :: k in t.transactions && k != p.transactionId ==> r.transactions[k] == t.transactions[k]
    ensures r.transactions[p.transactionId].journalId == journalId
    ensures r.transactions[p.transactionId].accountBalance == r.accounts[p.accountNumber].balance
  {
    var account := t.accounts[p.accountNumber];
    t.(transactions := t.transactions[p.transactionId := StoredPosting(p, journalId, PostedBalance(account, p))],
       accounts := t.accounts[p.accountNumber := PostedAccount(account, p)])
  }

  function TransactionIds(ps: seq<Transaction>): set<string> {
    set i | 0 <= i < |ps| :: ps[i].transactionId
  }

  function AccountNumbers(ps: seq<Transaction>): set<string> {
    set i | 0 <= i < |ps| :: ps[i].accountNumber
  }

  /** The write loop over the postings, in the caller's order. It leaves
      the journal table alone, keeps the set of accounts, and adds exactly
      the postings' IDs to the transaction table. */
  function PostAll(t: Tables, journalId: string, ps: seq<Transaction>): (r: Tables)
    requires AllAccountsStored(t.accounts, ps)
    ensures r.journals == t.journals
    ensures r.accounts.Keys == t.accounts.Keys
    ensures r.transactions.Keys == t.transactions.Keys + TransactionIds(ps)
    decreases |ps|
  {
    if ps == [] then t
    else
      var init := ps[..|ps| - 1];
      assert TransactionIds(ps) == TransactionIds(init) + {ps[|ps| - 1].transactionId} by {
        forall id | id in TransactionIds(ps) ensures id in TransactionIds(init) + {ps[|ps| - 1].transactionId} {
          var i :| 0 <= i < |ps| && ps[i].transactionId == id;
          if i < |ps| - 1 { assert init[i] == ps[i]; }
        }
      }
      Post(PostAll(t, journalId, init), journalId, ps[|ps| - 1])
  }

  /** One more turn of the write loop. */
  lemma PostAllStep(t: Tables, journalId: string, ps: seq<Transaction>, i: int)
    requires AllAccountsStored(t.accounts, ps)
    requires 0 <= i < |ps|
    ensures ps[i].accountNumber in PostAll(t, journalId, ps[..i]).accounts
    ensures PostAll(t, journalId, ps[..i + 1]) == Post(PostAll(t, journalId, ps[..i]), journalId, ps[i])
  {
    assert ps[..i + 1][..i] == ps[..i];
  }

  /** The journal record written on success: amount is the credit total, and
      the reversal link is recorded when the journal reverses another. */
  function NewJournalRecord(j: Journal): (r: JournalRecord)
    ensures r.journalId == j.journalId && r.description == j.description && r.createBy == j.createBy
    ensures r.amount == WrappedTotal(j.transactions, CREDIT)
    ensures r.reversal <==> j.reversedJournal.Some?
    ensures r.reversedJournalId == if j.reversedJournal.Some? then j.reversedJournal.value.journalId else ""
  {
    var rec := JournalRecord(j.journalId, j.description, false, "", WrappedTotal(j.transactions, CREDIT), j.createBy);
    match j.reversedJournal
    case None => rec
    case Some(reversed) => rec.(reversal := true, reversedJournalId := reversed.journalId)
  }

  /** The whole write phase: the journal table gains the new record, the
      account keys stay, and the transaction table gains the postings' IDs. */
  function Commit(t: Tables, j: Journal): (r: Tables)
    requires AllAccountsStored(t.accounts, j.transactions)
    ensures r.journals == t.journals[j.journalId := NewJournalRecord(j)]
    ensures r.accounts.Keys == t.accounts.Keys
    ensures r.transactions.Keys == t.transactions.Keys + TransactionIds(j.transactions)
  {
    PostAll(WithJournal(t, j), j.journalId, j.transactions)
  }

  /** PersistJournal: the first failing check's error with the tables
      untouched, or Pass with the write phase applied, which stores the
      journal under a new key. */
  ghost function PersistJournalStep(t: Tables, journal: Option<Journal>): (s: Effect)
    ensures s.outcome.Fail? ==> s.after == t
    ensures s.outcome.Pass? ==>
      && journal.Some?
      && journal.value.journalId !in t.journals
      && s.after.journals.Keys == t.journals.Keys + {journal.value.journalId}
  {
    var e := JournalError(t, journal);
    if e.Fail? then Effect(e, t) else Effect(Pass, Commit(t, journal.value))
  }

  // ---------------------------------------------------------------------
  // Properties of the validation

  /** A journal already stored is rejected as such once it has an ID,
      postings and an author, whatever its postings say. */
  lemma ExistingJournalRejected(t: Tables, j: Journal)
    requires |j.journalId| > 0 && |j.transactions| > 0 && |j.createBy| > 0
    requires j.journalId in t.journals
    ensures PersistJournalStep(t, Some(j)) == Effect(Fail(JournalAlreadyPersisted), t)
  {
  }

  /** Every reversal journal is rejected. Step 9 asks about the new
      journal's own ID, which step 2 has shown is not stored, so a journal
      that passes steps 1 to 8 gets JournalIdNotFound; the double-reversal
      error itself is never returned. */
  lemma ReversalAlwaysRejected(t: Tables, j: Journal)
    requires j.reversedJournal.Some?
    ensures JournalError(t, Some(j)).Fail?
    ensures JournalError(t, Some(j)) != Fail(JournalCanNotDoubleReverse)
    ensures ChecksPass(t, j) ==> JournalError(t, Some(j)) == Fail(JournalIdNotFound)
  {
  }

  /** A journal whose exact debit and credit totals differ can still pass
      step 5, because the debit total overflows int64 back to zero. */
  lemma UnbalancedPassesOnOverflow(ps: seq<Transaction>)
    requires |ps| == 4
    requires ps[0].transactionType == DEBIT && ps[0].amount == MAX64
    requires ps[1].transactionType == DEBIT && ps[1].amount == MAX64
    requires ps[2].transactionType == DEBIT && ps[2].amount == 2
    requires ps[3].transactionType == CREDIT && ps[3].amount == 0
    ensures Balanced(ps)
    ensures ExactTotal(ps, DEBIT) == MOD64 && ExactTotal(ps, CREDIT) == 0
  {
    var p1, p2, p3 := ps[..1], ps[..2], ps[..3];
    assert p2[..1] == p1 && p3[..2] == p2 && ps[..3] == p3;
    assert WrappedTotal(p1, DEBIT) == MAX64 && WrappedTotal(p1, CREDIT) == 0;
    assert WrappedTotal(p2, DEBIT) == -2 && WrappedTotal(p2, CREDIT) == 0;
    assert WrappedTotal(p3, DEBIT) == 0 && WrappedTotal(p3, CREDIT) == 0;
    assert ExactTotal(p1, DEBIT) == MAX64 && ExactTotal(p1, CREDIT) == 0;
    assert ExactTotal(p2, DEBIT) == 2 * MAX64 && ExactTotal(p2, CREDIT) == 0;
    assert ExactTotal(p3, DEBIT) == MOD64 && ExactTotal(p3, CREDIT) == 0;
  }

  // ---------------------------------------------------------------------
  // Properties of the write phase

  /** No later posting of `ps` repeats the ID of posting `i`. */
  predicate LastWithId(ps: seq<Transaction>, i: int)
    requires 0 <= i < |ps|
  {
    forall m :: i < m < |ps| ==> ps[m].transactionId != ps[i].transactionId
  }

  /** The last posting that carries the ID of posting `i`. */
  lemma LastIndexWithId(ps: seq<Transaction>, i: int) returns (m: int)
    requires 0 <= i < |ps|
    ensures i <= m < |ps| && ps[m].transactionId == ps[i].transactionId && LastWithId(ps, m)
    decreases |ps| - i
  {
    if LastWithId(ps, i) {
      m := i;
    } else {
      var n :| i < n < |ps| && ps[n].transactionId == ps[i].transactionId;
      m := LastIndexWithId(ps, n);
    }
  }

  /** Accounts no posting names keep their records. */
  lemma {:induction false} PostAllUntouchedAccounts(t: Tables, journalId: string, ps: seq<Transaction>, k: string)
    requires AllAccountsStored(t.accounts, ps)
    requires k in t.accounts && k !in AccountNumbers(ps)
    ensures PostAll(t, journalId, ps).accounts[k] == t.accounts[k]
    decreases |ps|
  {
    if ps != [] {
      var init := ps[..|ps| - 1];
      assert forall i :: 0 <= i < |init| ==> init[i] == ps[i];
      assert k !in AccountNumbers(init);
      PostAllUntouchedAccounts(t, journalId, init, k);
    }
  }

  /** When no two postings name the same account, the account of posting
      `i` is posted exactly once, from its old record. */
  lemma {:induction false} PostAllPostedAccount(t: Tables, journalId: string, ps: seq<Transaction>, i: int)
    requires AllAccountsStored(t.accounts, ps)
    requires DistinctAccounts(ps)
    requires 0 <= i < |ps|
    ensures PostAll(t, journalId, ps).accounts[ps[i].accountNumber]
              == PostedAccount(t.accounts[ps[i].accountNumber], ps[i])
    decreases |ps|
  {
    var init, last := ps[..|ps| - 1], ps[|ps| - 1];
    assert forall n :: 0 <= n < |init| ==> init[n] == ps[n];
    if i == |ps| - 1 {
      assert last.accountNumber !in AccountNumbers(init);
      PostAllUntouchedAccounts(t, journalId, init, last.accountNumber);
    } else {
      PostAllPostedAccount(t, journalId, init, i);
    }
  }

  /** Records of the transaction table whose ID no posting carries are kept. */
  lemma {:induction false} PostAllUntouchedTransactions(t: Tables, journalId: string, ps: seq<Transaction>, k: string)
    requires AllAccountsStored(t.accounts, ps)
    requires k in t.transactions && k !in TransactionIds(ps)
    ensures PostAll(t, journalId, ps).transactions[k] == t.transactions[k]
    decreases |ps|
  {
    if ps != [] {
      var init := ps[..|ps| - 1];
      assert forall i :: 0 <= i < |init| ==> init[i] == ps[i];
      assert k !in TransactionIds(init);
      PostAllUntouchedTransactions(t, journalId, init, k);
    }
  }

  /** A posting not followed by another with the same ID is stored under its
      ID, linked to the journal, with the balance its account reaches. */
  lemma {:induction false} PostAllStoredPosting(t: Tables, journalId: string, ps: seq<Transaction>, i: int)
    requires AllAccountsStored(t.accounts, ps)
    requires DistinctAccounts(ps)
    requires 0 <= i < |ps| && LastWithId(ps, i)
    ensures PostAll(t, journalId, ps).transactions[ps[i].transactionId]
              == StoredPosting(ps[i], journalId, PostedBalance(t.accounts[ps[i].accountNumber], ps[i]))
    decreases |ps|
  {
    var init, last := ps[..|ps| - 1], ps[|ps| - 1];
    assert forall n :: 0 <= n < |init| ==> init[n] == ps[n];
    if i == |ps| - 1 {
      assert last.accountNumber !in AccountNumbers(init);
      PostAllUntouchedAccounts(t, journalId, init, last.accountNumber);
    } else {
      assert LastWithId(init, i);
      PostAllStoredPosting(t, journalId, init, i);
    }
  }

  /** The tables just before the write loop runs. */
  function WithJournal(t: Tables, j: Journal): Tables {
    t.(journals := t.journals[j.journalId := NewJournalRecord(j)])
  }

  /** Conservation: the stored journal record carries the credit total,
      which equals the debit total, and is not a reversal. */
  lemma CommitJournalRecord(t: Tables, j: Journal)
    requires JournalError(t, Some(j)) == Pass
    ensures Commit(t, j).journals == t.journals[j.journalId := JournalRecord(
              j.journalId, j.description, false, "", WrappedTotal(j.transactions, CREDIT), j.createBy)]
    ensures Commit(t, j).journals[j.journalId].amount == WrappedTotal(j.transactions, DEBIT)
  {
  }

  /** With exact totals that fit in int64, the stored amount is the exact
      debit total and the exact credit total. */
  lemma CommitConservesExactly(t: Tables, j: Journal)
    requires JournalError(t, Some(j)) == Pass
    requires InRange(ExactTotal(j.transactions, DEBIT)) && InRange(ExactTotal(j.transactions, CREDIT))
    ensures Commit(t, j).journals[j.journalId].amount == ExactTotal(j.transactions, DEBIT)
    ensures Commit(t, j).journals[j.journalId].amount == ExactTotal(j.transactions, CREDIT)
  {
    WrappedTotalExact(j.transactions, DEBIT);
    WrappedTotalExact(j.transactions, CREDIT);
  }

  /** The transaction table gains exactly the postings' IDs, every new
      record belongs to the new journal, and no earlier record changes. */
  lemma CommitTransactionTable(t: Tables, j: Journal)
    requires JournalError(t, Some(j)) == Pass
    ensures Commit(t, j).transactions.Keys == t.transactions.Keys + TransactionIds(j.transactions)
    ensures forall k :: k in t.transactions ==> Commit(t, j).transactions[k] == t.transactions[k]
    ensures forall k :: k in Commit(t, j).transactions && k !in t.transactions ==>
              Commit(t, j).transactions[k].journalId == j.journalId
  {
    var ps := j.transactions;
    forall k | k in t.transactions
      ensures Commit(t, j).transactions[k] == t.transactions[k]
    {
      PostAllUntouchedTransactions(WithJournal(t, j), j.journalId, ps, k);
    }
    forall k | k in Commit(t, j).transactions && k !in t.transactions
      ensures Commit(t, j).transactions[k].journalId == j.journalId
    {
      var i :| 0 <= i < |ps| && ps[i].transactionId == k;
      var m := LastIndexWithId(ps, i);
      PostAllStoredPosting(WithJournal(t, j), j.journalId, ps, m);
    }
  }

  /** The balance rule on the account table: accounts no posting names keep
      their records, and each named account is posted once from its old
      record, with the updater set to the posting's creator. */
  lemma CommitAccountTable(t: Tables, j: Journal)
    requires JournalError(t, Some(j)) == Pass
    ensures Commit(t, j).accounts.Keys == t.accounts.Keys
    ensures forall k :: k in t.accounts && k !in AccountNumbers(j.transactions) ==>
              Commit(t, j).accounts[k] == t.accounts[k]
    ensures forall i :: 0 <= i < |j.transactions| ==>
              Commit(t, j).accounts[j.transactions[i].accountNumber]
                == PostedAccount(t.accounts[j.transactions[i].accountNumber], j.transactions[i])
  {
    var ps := j.transactions;
    forall k | k in t.accounts && k !in AccountNumbers(ps)
      ensures Commit(t, j).accounts[k] == t.accounts[k]
    {
      PostAllUntouchedAccounts(WithJournal(t, j), j.journalId, ps, k);
    }
    forall i | 0 <= i < |ps|
      ensures Commit(t, j).accounts[ps[i].accountNumber] == PostedAccount(t.accounts[ps[i].accountNumber], ps[i])
    {
      PostAllPostedAccount(WithJournal(t, j), j.journalId, ps, i);
    }
  }

  /** Each stored posting's balance snapshot is its account's new balance,
      which follows the balance rule from the account's old balance. */
  lemma CommitSnapshot(t: Tables, j: Journal, i: int)
    requires JournalError(t, Some(j)) == Pass
    requires 0 <= i < |j.transactions| && LastWithId(j.transactions, i)
    ensures var p := j.transactions[i];
      && Commit(t, j).transactions[p.transactionId].accountBalance
           == Commit(t, j).accounts[p.accountNumber].balance
      && Commit(t, j).accounts[p.accountNumber].balance
           == PostedBalance(t.accounts[p.accountNumber], p)
  {
    PostAllStoredPosting(WithJournal(t, j), j.journalId, j.transactions, i);
    PostAllPostedAccount(WithJournal(t, j), j.journalId, j.transactions, i);
  }

  /** After an accepted journal every account is still stored under its
      own number. */
  lemma CommitAccountsKeyed(t: Tables, j: Journal)
    requires Consistent(t) && JournalError(t, Some(j)) == Pass
    ensures forall k :: k in Commit(t, j).accounts ==> k != "" && Commit(t, j).accounts[k].accountNumber == k
  {
    var ps := j.transactions;
    var r := Commit(t, j);
    forall k | k in r.accounts ensures k != "" && r.accounts[k].accountNumber == k {
      if k !in AccountNumbers(ps) {
        PostAllUntouchedAccounts(WithJournal(t, j), j.journalId, ps, k);
      } else {
        var i :| 0 <= i < |ps| && ps[i].accountNumber == k;
        PostAllPostedAccount(WithJournal(t, j), j.journalId, ps, i);
      }
    }
  }

  /** After an accepted journal every new transaction record is stored under
      its own ID and names a stored account. */
  lemma CommitPostingsKeyed(t: Tables, j: Journal)
    requires Consistent(t) && JournalError(t, Some(j)) == Pass
    ensures forall k :: k in Commit(t, j).transactions && k !in t.transactions ==>
      && k != ""
      && Commit(t, j).transactions[k].transactionId == k
      && Commit(t, j).transactions[k].accountNumber in Commit(t, j).accounts
  {
    var ps := j.transactions;
    var r := Commit(t, j);
    forall k | k in r.transactions && k !in t.transactions
      ensures k != "" && r.transactions[k].transactionId == k && r.transactions[k].accountNumber in r.accounts
    {
      var i :| 0 <= i < |ps| && ps[i].transactionId == k;
      var m := LastIndexWithId(ps, i);
      PostAllStoredPosting(WithJournal(t, j), j.journalId, ps, m);
    }
  }

  /** Writing an accepted journal keeps the ledger consistent. */
  lemma CommitConsistent(t: Tables, j: Journal)
    requires Consistent(t) && JournalError(t, Some(j)) == Pass
    ensures Consistent(Commit(t, j))
  {
    CommitJournalRecord(t, j);
    CommitTransactionTable(t, j);
    CommitAccountsKeyed(t, j);
    CommitPostingsKeyed(t, j);
  }

  /** PersistJournal keeps the ledger consistent. */
  lemma PersistJournalConsistent(t: Tables, journal: Option<Journal>)
    requires Consistent(t)
    ensures Consistent(PersistJournalStep(t, journal).after)
  {
    if JournalError(t, journal).Pass? {
      CommitConsistent(t, journal.value);
    }
  }
}
