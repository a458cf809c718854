/** The read-only operations of the three in-memory managers: existence
    checks, lookups by ID, and the reversal query. */
module Queries {
  import opened Model

  /** IsJournalIdExist: true exactly when looking the journal up does not
      report it missing. */
  function IsJournalIdExist(t: Tables, journalId: string): (r: bool)
    ensures r <==> GetJournalById(t, journalId) != Failure(JournalIdNotFound)
  {
    journalId in t.journals
  }

  /** IsAccountIdExist: true exactly when looking the account up succeeds. */
  function IsAccountIdExist(t: Tables, id: string): (r: bool)
    ensures r <==> GetAccountById(t, id).Success?
  {
    id in t.accounts
  }

  /** IsTransactionIdExist: true exactly when looking the transaction up
      succeeds. */
  function IsTransactionIdExist(t: Tables, id: string): (r: bool)
    ensures r <==> GetTransactionById(t, id).Success?
  {
    id in t.transactions
  }

  /** GetAccountById: AccountIdNotFound exactly for a number with no record;
      otherwise the record stored under that number. */
  function GetAccountById(t: Tables, id: string): (r: Result<Account>)
    ensures r.Failure? <==> id !in t.accounts
    ensures r.Failure? ==> r.error == AccountIdNotFound
    ensures r.Success? ==> r.value in t.accounts.Values && t.accounts[id] == r.value
  {
    if id in t.accounts then Success(t.accounts[id]) else Failure(AccountIdNotFound)
  }

  /** GetTransactionById: TransactionNotFound exactly for an ID with no
      record; otherwise the record stored under that ID. */
  function GetTransactionById(t: Tables, id: string): (r: Result<Transaction>)
    ensures r.Failure? <==> id !in t.transactions
    ensures r.Failure? ==> r.error == TransactionNotFound
    ensures r.Success? ==> r.value in t.transactions.Values && t.transactions[id] == r.value
  {
    if id in t.transactions then Success(t.transactions[id]) else Failure(TransactionNotFound)
  }

  /** What IsJournalIdReversed answers: an error when the journal is not
      stored, otherwise whether some stored journal names it as the journal
      it reverses. */
  ghost function JournalReversal(t: Tables, journalId: string): (r: Result<bool>)
    ensures r.Failure? <==> !IsJournalIdExist(t, journalId)
    ensures r.Failure? ==> r.error == JournalIdNotFound
    ensures r == Success(false) ==> forall k :: k in t.journals ==> t.journals[k].reversedJournalId != journalId
    ensures r == Success(true) ==> exists k :: k in t.journals && t.journals[k].reversedJournalId == journalId
  {
    if journalId !in t.journals then Failure(JournalIdNotFound)
    else Success(exists k :: k in t.journals && t.journals[k].reversedJournalId == journalId)
  }

  /** The stored postings that name `journalId` as their journal. */
  function JournalPostings(transactions: map<string, Transaction>, journalId: string): set<Transaction> {
    set tr | tr in transactions.Values && tr.journalId == journalId
  }

  /** A stored journal record rebuilt as a journal value. */
  function Load(t: Tables, rec: JournalRecord, reversed: Option<LoadedJournal>): LoadedJournal {
    LoadedJournal(rec.journalId, rec.description, rec.reversal, reversed, rec.amount,
                  JournalPostings(t.transactions, rec.journalId), rec.createBy)
  }

  /** GetJournalById: not found, or the record rebuilt with its postings and,
      for a reversal record, the journal it reverses loaded in turn. The
      recursive load looks the target up among the journals not yet visited
      on this chain. */
  function GetJournalById(t: Tables, journalId: string): (r: Result<LoadedJournal>)
    ensures r == Failure(JournalIdNotFound) <==> journalId !in t.journals
    ensures r.Failure? ==> r.error in {JournalIdNotFound, JournalLoadReversalInconsistent}
    ensures r.Success? ==>
      && r.value.journalId == t.journals[journalId].journalId
      && r.value.transactions == JournalPostings(t.transactions, t.journals[journalId].journalId)
      && (r.value.reversedJournal.Some? <==> t.journals[journalId].reversal)
    decreases t.journals.Keys
  {
    if journalId !in t.journals then Failure(JournalIdNotFound)
    else
      var rec := t.journals[journalId];
      if rec.reversal then
        match GetJournalById(t.(journals := t.journals - {journalId}), rec.reversedJournalId)
        case Failure(_) => Failure(JournalLoadReversalInconsistent)
        case Success(reversed) => Success(Load(t, rec, Some(reversed)))
      else
        Success(Load(t, rec, None))
  }

  /** The invariant every reachable state keeps: each record is stored under
      its own non-empty ID, every stored posting points at a stored journal
      and a stored account, and no stored journal is a reversal (the
      reversal guard of PersistJournal rejects every reversal). Hence the
      journal and the account of every stored posting can be looked up,
      and no stored journal counts as reversed. */
  ghost predicate Consistent(t: Tables)
    ensures Consistent(t) ==> forall id :: id in t.transactions ==>
      && GetJournalById(t, t.transactions[id].journalId).Success?
      && GetAccountById(t, t.transactions[id].accountNumber).Success?
    ensures Consistent(t) ==> forall id :: id in t.journals ==> JournalReversal(t, id) == Success(false)
  {
    && (forall id :: id in t.journals ==>
          && id != ""
          && t.journals[id].journalId == id
          && !t.journals[id].reversal
          && t.journals[id].reversedJournalId == "")
    && (forall id :: id in t.accounts ==>
          id != "" && t.accounts[id].accountNumber == id)
    && (forall id :: id in t.transactions ==>
          && id != ""
          && t.transactions[id].transactionId == id
          && t.transactions[id].journalId in t.journals
          && t.transactions[id].accountNumber in t.accounts)
  }

  /** A loaded journal carries its record's fields, exactly the stored
      postings that name it, and a back-link precisely when the record is a
      reversal, pointing at the journal stored under the reversed ID. */
  lemma {:induction false} LoadedJournalFields(t: Tables, id: string)
    requires GetJournalById(t, id).Success?
    ensures id in t.journals
    ensures var r, rec := GetJournalById(t, id).value, t.journals[id];
      && r.journalId == rec.journalId
      && r.description == rec.description
      && r.amount == rec.amount
      && r.createBy == rec.createBy
      && r.reversal == rec.reversal
      && r.transactions == JournalPostings(t.transactions, rec.journalId)
      && (r.reversedJournal.Some? <==> rec.reversal)
      && (rec.reversal ==>
            && rec.reversedJournalId in t.journals
            && rec.reversedJournalId != id
            && r.reversedJournal.value.journalId == t.journals[rec.reversedJournalId].journalId)
    decreases t.journals.Keys
  {
    var rec := t.journals[id];
    if rec.reversal {
      var t' := t.(journals := t.journals - {id});
      LoadedJournalFields(t', rec.reversedJournalId);
    }
  }

  /** A reversal record whose target is not stored cannot be loaded. */
  lemma BrokenReversalLink(t: Tables, id: string)
    requires id in t.journals && t.journals[id].reversal
    requires t.journals[id].reversedJournalId !in t.journals
    ensures GetJournalById(t, id) == Failure(JournalLoadReversalInconsistent)
  {
  }

  /** On a consistent ledger every stored journal loads, without a back-link
      and with the postings stored under its ID. */
  lemma LoadConsistent(t: Tables, id: string)
    requires Consistent(t) && id in t.journals
    ensures GetJournalById(t, id) == Success(LoadedJournal(
      id, t.journals[id].description, false, None, t.journals[id].amount,
      JournalPostings(t.transactions, id), t.journals[id].createBy))
  {
  }

  /** On a consistent ledger no stored journal has been reversed, so the
      double-reversal guard can never fire. */
  lemma NeverReversed(t: Tables, id: string)
    requires Consistent(t) && id in t.journals
    ensures JournalReversal(t, id) == Success(false)
  {
  }
}
