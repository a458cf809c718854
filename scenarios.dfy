/** Concrete runs of PersistJournal on a two-account ledger. */
module Scenarios {
  import opened Int64Arith
  import opened Model
  import opened Queries
  import opened JournalRules

  /** A1 is DEBIT-based, A2 CREDIT-based, both at balance 0 in one currency. */
  function TwoAccounts(): Tables {
    Tables(
      map[],
      map["A1" := Account("IDR", "A1", "Cash", "cash", DEBIT, 0, "1", "u", "u"),
          "A2" := Account("IDR", "A2", "Equity", "equity", CREDIT, 0, "3", "u", "u")],
      map[])
  }

  function Posting(id: string, account: string, ty: TransactionType, amount: Int64): Transaction {
    Transaction(id, account, "", "", ty, amount, 0, "u")
  }

  /** The totals of a two-posting journal, unrolled. */
  lemma TwoPostingTotal(ps: seq<Transaction>, ty: TransactionType)
    requires |ps| == 2
    ensures var first := if ps[0].transactionType == ty then Wrap(ps[0].amount) else 0;
      WrappedTotal(ps, ty) == if ps[1].transactionType == ty then Wrap(first + ps[1].amount) else first
  {
    assert ps[..1][..0] == [];
    assert WrappedTotal(ps[..1][..0], ty) == 0;
    assert ps[..|ps| - 1] == ps[..1];
  }

  /** The journal J1 of two postings. */
  function PairJournal(p: Transaction, q: Transaction): Journal {
    Journal("J1", "", false, None, 0, [p, q], "u")
  }

  /** A DEBIT on A1 and a CREDIT of the same amount on A2, under two
      non-empty IDs, pass every check on the two-account ledger; the write
      posts each account once and records the amount. */
  lemma PairAccepted(p: Transaction, q: Transaction)
    requires p.accountNumber == "A1" && q.accountNumber == "A2"
    requires p.transactionType == DEBIT && q.transactionType == CREDIT && p.amount == q.amount
    requires |p.transactionId| > 0 && |q.transactionId| > 0
    ensures JournalError(TwoAccounts(), Some(PairJournal(p, q))) == Pass
    ensures PersistJournalStep(TwoAccounts(), Some(PairJournal(p, q)))
              == Effect(Pass, Commit(TwoAccounts(), PairJournal(p, q)))
    ensures Commit(TwoAccounts(), PairJournal(p, q)).journals["J1"].amount == p.amount
    ensures Commit(TwoAccounts(), PairJournal(p, q)).accounts["A1"] == PostedAccount(TwoAccounts().accounts["A1"], p)
    ensures Commit(TwoAccounts(), PairJournal(p, q)).accounts["A2"] == PostedAccount(TwoAccounts().accounts["A2"], q)
  {
    var t, j := TwoAccounts(), PairJournal(p, q);
    var ps := j.transactions;
    TwoPostingTotal(ps, DEBIT);
    TwoPostingTotal(ps, CREDIT);
    assert WrappedTotal(ps, DEBIT) == p.amount && WrappedTotal(ps, CREDIT) == p.amount;
    assert ChecksPass(t, j);
    CommitJournalRecord(t, j);
    CommitAccountTable(t, j);
    assert ps[0] == p && ps[1] == q;
  }

  /** A DEBIT of `amount` on A1 and a CREDIT of `amount` on A2 each raise the
      account's balance by `amount`, and the journal records `amount`. */
  lemma FirstJournalRaisesBothBalances(amount: Int64)
    requires 0 <= amount
    ensures var j := PairJournal(Posting("T1", "A1", DEBIT, amount), Posting("T2", "A2", CREDIT, amount));
      var s := PersistJournalStep(TwoAccounts(), Some(j));
      && s.outcome == Pass
      && s.after.journals["J1"].amount == amount
      && s.after.accounts["A1"].balance == amount
      && s.after.accounts["A2"].balance == amount
      && s.after.transactions["T1"].accountBalance == amount
      && s.after.transactions["T2"].accountBalance == amount
  {
    var p, q := Posting("T1", "A1", DEBIT, amount), Posting("T2", "A2", CREDIT, amount);
    var t, j := TwoAccounts(), PairJournal(p, q);
    PairAccepted(p, q);
    assert LastWithId(j.transactions, 0) && LastWithId(j.transactions, 1);
    CommitSnapshot(t, j, 0);
    CommitSnapshot(t, j, 1);
  }

  /** A reversal of J1 (CREDIT on A1, DEBIT on A2, naming J1 as the
      journal it reverses) is rejected, never as a double reversal, and the
      ledger is left as it was. */
  lemma ReversalOfFirstJournalRejected(t: Tables, amount: Int64)
    requires "J1" in t.journals && "J2" !in t.journals
    ensures var j1 := Journal("J1", "", false, None, 0, [], "u");
      var j2 := Journal("J2", "", true, Some(j1), 0, [Posting("T3", "A1", CREDIT, amount), Posting("T4", "A2", DEBIT, amount)], "u");
      var s := PersistJournalStep(t, Some(j2));
      && s.outcome.Fail?
      && s.outcome != Fail(JournalCanNotDoubleReverse)
      && s.after == t
  {
    var j1 := Journal("J1", "", false, None, 0, [], "u");
    var j2 := Journal("J2", "", true, Some(j1), 0, [Posting("T3", "A1", CREDIT, amount), Posting("T4", "A2", DEBIT, amount)], "u");
    ReversalAlwaysRejected(t, j2);
  }

  /** Two postings of one journal that share a transaction ID are both
      accepted: the table gains the ID once, holding the later posting, and
      both accounts are still posted. */
  lemma RepeatedTransactionIdOverwrites()
    ensures var j := PairJournal(Posting("T1", "A1", DEBIT, 5), Posting("T1", "A2", CREDIT, 5));
      var s := PersistJournalStep(TwoAccounts(), Some(j));
      && s.outcome == Pass
      && s.after.transactions.Keys == {"T1"}
      && s.after.transactions["T1"].accountNumber == "A2"
      && s.after.accounts["A1"].balance == 5
      && s.after.accounts["A2"].balance == 5
  {
    var p, q := Posting("T1", "A1", DEBIT, 5), Posting("T1", "A2", CREDIT, 5);
    var t, j := TwoAccounts(), PairJournal(p, q);
    PairAccepted(p, q);
    CommitTransactionTable(t, j);
    assert TransactionIds(j.transactions) == {"T1"};
    assert LastWithId(j.transactions, 1);
    PostAllStoredPosting(WithJournal(t, j), "J1", j.transactions, 1);
  }

  /** Amounts are not checked for sign: a journal of negative amounts is
      accepted and lowers the balances. */
  lemma NegativeAmountsAccepted()
    ensures var j := PairJournal(Posting("T1", "A1", DEBIT, -7), Posting("T2", "A2", CREDIT, -7));
      var s := PersistJournalStep(TwoAccounts(), Some(j));
      && s.outcome == Pass
      && s.after.accounts["A1"].balance == -7
      && s.after.accounts["A2"].balance == -7
  {
    PairAccepted(Posting("T1", "A1", DEBIT, -7), Posting("T2", "A2", CREDIT, -7));
  }
}
