/** The specification of PersistAccount and UpdateAccount: four field
    checks in a fixed order, then an existence guard, then a write of the
    whole record under the account number. */
module AccountRules {
  import opened Model
  import opened Queries

  /** The field checks shared by both operations: non-empty account number,
      name, description and creator, in that order. */
  function AccountFieldError(a: Account): (r: Outcome)
    ensures r.Pass? <==> |a.accountNumber| > 0 && |a.name| > 0 && |a.description| > 0 && |a.createBy| > 0
    ensures r.Fail? ==> r.error in {AccountMissingId, AccountMissingName, AccountMissingDescription, AccountMissingCreator}
    ensures r == Fail(AccountMissingId) <==> |a.accountNumber| == 0
    ensures r == Fail(AccountMissingName) <==> |a.accountNumber| > 0 && |a.name| == 0
    ensures r == Fail(AccountMissingDescription) <==> |a.accountNumber| > 0 && |a.name| > 0 && |a.description| == 0
    ensures r == Fail(AccountMissingCreator) <==>
      |a.accountNumber| > 0 && |a.name| > 0 && |a.description| > 0 && |a.createBy| == 0
  {
    if |a.accountNumber| == 0 then Fail(AccountMissingId)
    else if |a.name| == 0 then Fail(AccountMissingName)
    else if |a.description| == 0 then Fail(AccountMissingDescription)
    else if |a.createBy| == 0 then Fail(AccountMissingCreator)
    else Pass
  }

  /** PersistAccount: rejects an account number already stored; on success
      stores the caller's record, balance included, under its number. */
  function PersistAccountStep(t: Tables, a: Account): (s: Effect)
    ensures s.outcome.Fail? ==> s.after == t
    ensures s.outcome.Pass? ==> a.accountNumber !in t.accounts && s.after.accounts.Keys == t.accounts.Keys + {a.accountNumber}
  {
    var e := AccountFieldError(a);
    if e.Fail? then Effect(e, t)
    else if IsAccountIdExist(t, a.accountNumber) then Effect(Fail(AccountAlreadyPersisted), t)
    else Effect(Pass, t.(accounts := t.accounts[a.accountNumber := a]))
  }

  /** UpdateAccount: rejects an account number not stored; on success
      replaces the stored record, balance included, with the caller's. */
  function UpdateAccountStep(t: Tables, a: Account): (s: Effect)
    ensures s.outcome.Fail? ==> s.after == t
    ensures s.outcome.Pass? ==> a.accountNumber in t.accounts && s.after.accounts.Keys == t.accounts.Keys
  {
    var e := AccountFieldError(a);
    if e.Fail? then Effect(e, t)
    else if !IsAccountIdExist(t, a.accountNumber) then Effect(Fail(AccountIsNotPersisted), t)
    else Effect(Pass, t.(accounts := t.accounts[a.accountNumber := a]))
  }

  /** A persisted account reads back as written, and every other lookup is
      as before; journals and transactions are untouched. */
  lemma PersistThenGet(t: Tables, a: Account, id: string)
    requires PersistAccountStep(t, a).outcome.Pass?
    ensures GetAccountById(PersistAccountStep(t, a).after, a.accountNumber) == Success(a)
    ensures id != a.accountNumber ==> GetAccountById(PersistAccountStep(t, a).after, id) == GetAccountById(t, id)
    ensures PersistAccountStep(t, a).after.journals == t.journals
    ensures PersistAccountStep(t, a).after.transactions == t.transactions
  {
  }

  /** An updated account reads back as written, and every other lookup is
      as before; journals and transactions are untouched. */
  lemma UpdateThenGet(t: Tables, a: Account, id: string)
    requires UpdateAccountStep(t, a).outcome.Pass?
    ensures GetAccountById(UpdateAccountStep(t, a).after, a.accountNumber) == Success(a)
    ensures id != a.accountNumber ==> GetAccountById(UpdateAccountStep(t, a).after, id) == GetAccountById(t, id)
    ensures UpdateAccountStep(t, a).after.journals == t.journals
    ensures UpdateAccountStep(t, a).after.transactions == t.transactions
  {
  }

  /** Persisting the same account twice: the second attempt is rejected as
      already persisted. */
  lemma PersistTwiceRejected(t: Tables, a: Account, b: Account)
    requires PersistAccountStep(t, a).outcome.Pass?
    requires b.accountNumber == a.accountNumber && AccountFieldError(b).Pass?
    ensures PersistAccountStep(PersistAccountStep(t, a).after, b) == Effect(Fail(AccountAlreadyPersisted), PersistAccountStep(t, a).after)
  {
  }

  /** For an account with all fields present, exactly one of the two
      operations succeeds: persist when the number is new, update when it is
      stored; and both then leave the same tables. */
  lemma PersistOrUpdate(t: Tables, a: Account)
    requires AccountFieldError(a).Pass?
    ensures PersistAccountStep(t, a).outcome.Pass? <==> UpdateAccountStep(t, a).outcome == Fail(AccountIsNotPersisted)
    ensures UpdateAccountStep(t, a).outcome.Pass? <==> PersistAccountStep(t, a).outcome == Fail(AccountAlreadyPersisted)
    ensures PersistAccountStep(t, a).outcome.Pass? || UpdateAccountStep(t, a).outcome.Pass?
  {
  }

  /** A missing field is reported before the existence guard is consulted. */
  lemma FieldErrorFirst(t: Tables, a: Account)
    requires AccountFieldError(a).Fail?
    ensures PersistAccountStep(t, a).outcome == AccountFieldError(a)
    ensures UpdateAccountStep(t, a).outcome == AccountFieldError(a)
  {
  }

  /** Both operations keep the ledger consistent. */
  lemma AccountStepsConsistent(t: Tables, a: Account)
    requires Consistent(t)
    ensures Consistent(PersistAccountStep(t, a).after)
    ensures Consistent(UpdateAccountStep(t, a).after)
  {
  }
}
