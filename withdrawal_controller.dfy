/** backend/controllers/withdrawalController.js: a user's withdrawal request, and the
    status update this file also defines (no route reaches it; the admin version is routed). */
module WithdrawalController {
  import opened Outcomes
  import opened Ids
  import opened UserModel
  import opened WithdrawalModel
  import T = TransactionModel
  import Tax
  import Ledger
  import WithdrawalLifecycle
  import opened Store

  const MinWithdrawal := 300

  /** The account details are present and name the account holder. */
  predicate HasAccountName(details: Option<AccountDetails>) {
    details.Some? && Truthy(details.value.accountName)
  }

  /** The pending ledger entry of a withdrawal for `amount` (net payout or tax). */
  function PendingDebit(uid: UserId, amount: int, now: int): T.Transaction {
    T.Transaction(uid, T.WithdrawalDebit, -amount, T.Pending, now, None, None, None, None)
  }

  /** requestWithdrawal, for the authenticated user `uid` at time `now`. */
  method RequestWithdrawal(db: Database, uid: UserId, amount: int, payMethod: PaymentMethod,
                           details: Option<AccountDetails>, now: int)
    returns (r: Result<WithdrawalId>)
    requires db.Valid() && uid < |db.users|
    modifies db`users, db`withdrawals, db`ledger
    ensures db.Valid()
    ensures amount < MinWithdrawal ==> r == Err(BelowMinimum)
    ensures MinWithdrawal <= amount && old(db.users[uid].wallet.balance) < amount ==> r == Err(InsufficientBalance)
    ensures MinWithdrawal <= amount <= old(db.users[uid].wallet.balance) && !HasAccountName(details) ==> r == Err(MissingAccountDetails)
    ensures r.Ok? <==> MinWithdrawal <= amount <= old(db.users[uid].wallet.balance) && HasAccountName(details)
    ensures r.Err? ==> db.users == old(db.users) && db.withdrawals == old(db.withdrawals) && db.ledger == old(db.ledger)
    ensures r.Ok? ==> r.value == old(|db.withdrawals|)
    ensures r.Ok? ==> db.withdrawals == old(db.withdrawals) + [Withdrawal(uid, amount, Tax.TaxPercentage,
                        Some(Tax.TaxAmount(amount)), Some(Tax.NetAmount(amount)), payMethod, details, Pending, None, None, now)]
    ensures r.Ok? ==> db.users == old(db.users)[uid := Credit(old(db.users[uid]), -amount)]
    ensures r.Ok? ==> db.users[uid].wallet.balance >= 0
    ensures r.Ok? ==> db.ledger == old(db.ledger) + [PendingDebit(uid, Tax.NetAmount(amount), now), PendingDebit(uid, Tax.TaxAmount(amount), now)]
    ensures old(db.Reconciled()) ==> db.Reconciled()
    ensures r.Ok? && old(Ledger.WindowEmpty(db.ledger, uid, now)) ==> db.PairIntact(r.value)
  {
    if amount < MinWithdrawal {
      return Err(BelowMinimum);
    }
    var user := db.users[uid];
    if user.wallet.balance < amount {
      return Err(InsufficientBalance);
    }
    if !HasAccountName(details) {
      return Err(MissingAccountDetails);
    }
    r := RecordWithdrawal(db, uid, amount, payMethod, details, now);
  }

  /** The writes of a request that passed its guards: the withdrawal record, the debit and
      the two pending ledger entries. */
  method RecordWithdrawal(db: Database, uid: UserId, amount: int, payMethod: PaymentMethod,
                          details: Option<AccountDetails>, now: int)
    returns (r: Result<WithdrawalId>)
    requires db.Valid() && uid < |db.users| && MinWithdrawal <= amount <= db.users[uid].wallet.balance
    modifies db`users, db`withdrawals, db`ledger
    ensures db.Valid()
    ensures r == Ok(old(|db.withdrawals|))
    ensures db.withdrawals == old(db.withdrawals) + [Withdrawal(uid, amount, Tax.TaxPercentage,
              Some(Tax.TaxAmount(amount)), Some(Tax.NetAmount(amount)), payMethod, details, Pending, None, None, now)]
    ensures db.users == old(db.users)[uid := Credit(old(db.users[uid]), -amount)]
    ensures db.users[uid].wallet.balance >= 0
    ensures db.ledger == old(db.ledger) + [PendingDebit(uid, Tax.NetAmount(amount), now), PendingDebit(uid, Tax.TaxAmount(amount), now)]
    ensures old(db.Reconciled()) ==> db.Reconciled()
    ensures old(Ledger.WindowEmpty(db.ledger, uid, now)) ==> db.PairIntact(r.value)
  {
    ghost var L, U := db.ledger, db.users;
    ghost var empty, reconciled := Ledger.WindowEmpty(L, uid, now), BalancesMatchLedger(U, L);
    r := WriteWithdrawal(db, uid, amount, payMethod, details, now);
    var taxAmount := Tax.TaxAmount(amount);
    if reconciled {
      DebitPairReconciles(U, L, uid, amount, now);
    }
    if empty {
      DebitPairWindow(L, uid, amount - taxAmount, taxAmount, now);
    }
  }

  /** The bare writes of a recorded request, keeping the store well formed. */
  method WriteWithdrawal(db: Database, uid: UserId, amount: int, payMethod: PaymentMethod,
                         details: Option<AccountDetails>, now: int)
    returns (r: Result<WithdrawalId>)
    requires db.Valid() && uid < |db.users| && MinWithdrawal <= amount <= db.users[uid].wallet.balance
    modifies db`users, db`withdrawals, db`ledger
    ensures db.Valid()
    ensures r == Ok(old(|db.withdrawals|))
    ensures db.withdrawals == old(db.withdrawals) + [Withdrawal(uid, amount, Tax.TaxPercentage,
              Some(Tax.TaxAmount(amount)), Some(Tax.NetAmount(amount)), payMethod, details, Pending, None, None, now)]
    ensures db.users == old(db.users)[uid := Credit(old(db.users[uid]), -amount)]
    ensures db.users[uid].wallet.balance >= 0
    ensures db.ledger == DebitPair(old(db.ledger), uid, Tax.NetAmount(amount), Tax.TaxAmount(amount), now)
  {
    var user := db.users[uid];
    var taxAmount := Tax.TaxAmount(amount);
    var netAmount := amount - taxAmount;
    var w := Withdrawal(uid, amount, Tax.TaxPercentage, Some(taxAmount), Some(netAmount),
                        payMethod, details, Pending, None, None, now);
    AppendWithdrawalKeepsValid(db.withdrawals, |db.users|, w);
    db.withdrawals := db.withdrawals + [w];
    r := Ok(|db.withdrawals| - 1);
    SetUserKeepsValid(db.users, |db.packages|, uid, Credit(user, -amount));
    db.users := db.users[uid := Credit(user, -amount)];
    AppendLedgerKeepsValid(db.ledger, |db.users|, [PendingDebit(uid, netAmount, now), PendingDebit(uid, taxAmount, now)]);
    db.ledger := DebitPair(db.ledger, uid, netAmount, taxAmount, now);
  }

  /** Debiting the whole amount from the wallet while the ledger gains its net and tax
      debits keeps agreeing wallets and ledger in agreement. */
  lemma DebitPairReconciles(U: seq<User>, L: seq<T.Transaction>, uid: UserId, amount: int, now: int)
    requires BalancesMatchLedger(U, L) && uid < |U|
    ensures BalancesMatchLedger(U[uid := Credit(U[uid], -amount)],
                                DebitPair(L, uid, Tax.NetAmount(amount), Tax.TaxAmount(amount), now))
  {
    var L' := DebitPair(L, uid, Tax.NetAmount(amount), Tax.TaxAmount(amount), now);
    DebitPairBalances(L, uid, Tax.NetAmount(amount), Tax.TaxAmount(amount), now, |U|);
    CreditReconcilesIff(U, L, L', uid, -amount, -amount);
  }

  /** The ledger after a request appends its net and tax debits. */
  function DebitPair(L: seq<T.Transaction>, uid: UserId, net: int, tax: int, now: int): seq<T.Transaction> {
    L + [PendingDebit(uid, net, now), PendingDebit(uid, tax, now)]
  }

  /** The two debits lower the requester's ledger balance by net plus tax and nobody else's. */
  lemma DebitPairBalances(L: seq<T.Transaction>, uid: UserId, net: int, tax: int, now: int, n: nat)
    ensures forall v :: 0 <= v < n ==>
      Ledger.LedgerBalance(DebitPair(L, uid, net, tax, now), v) == Ledger.LedgerBalance(L, v) + (if v == uid then -(net + tax) else 0)
  {
    var e1, e2 := PendingDebit(uid, net, now), PendingDebit(uid, tax, now);
    assert DebitPair(L, uid, net, tax, now) == L + [e1] + [e2];
    forall v | 0 <= v < n
      ensures Ledger.LedgerBalance(DebitPair(L, uid, net, tax, now), v) == Ledger.LedgerBalance(L, v) + (if v == uid then -(net + tax) else 0)
    {
      Ledger.LedgerBalanceAppend(L, e1, v);
      Ledger.LedgerBalanceAppend(L + [e1], e2, v);
    }
  }

  /** Into an empty window the two debits bring exactly net plus tax, all pending. */
  lemma DebitPairWindow(L: seq<T.Transaction>, uid: UserId, net: int, tax: int, now: int)
    requires Ledger.WindowEmpty(L, uid, now)
    ensures Ledger.WindowTotal(DebitPair(L, uid, net, tax, now), uid, now) == -(net + tax)
    ensures var L' := DebitPair(L, uid, net, tax, now);
      forall i :: 0 <= i < |L'| && Ledger.InWindow(L'[i], uid, now) ==> L'[i].status == T.Pending
  {
    var e1, e2 := PendingDebit(uid, net, now), PendingDebit(uid, tax, now);
    assert DebitPair(L, uid, net, tax, now) == L + [e1] + [e2];
    Ledger.EmptyWindowTotal(L, uid, now);
    Ledger.WindowTotalAppend(L, e1, uid, now);
    Ledger.WindowTotalAppend(L + [e1], e2, uid, now);
  }

  /** The body shared by both versions of updateWithdrawalStatus, given the refund the
      version pays: credit the refund, overwrite status and remarks (no transition guard),
      stamp processedAt for a final status, and re-status the ledger window. */
  method ApplyStatusUpdate(db: Database, wid: WithdrawalId, refund: int, status: Status, remarks: Option<string>, now: int)
    requires db.Valid() && wid < |db.withdrawals|
    modifies db`users, db`withdrawals, db`ledger
    ensures db.Valid()
    ensures
      var w := old(db.withdrawals[wid]);
      && db.users == old(db.users)[w.user := Credit(old(db.users[w.user]), refund)]
      && db.withdrawals == old(db.withdrawals)[wid := w.(status := status, remarks := remarks,
                             processedAt := if status == Completed || status == Rejected then Some(now) else w.processedAt)]
      && db.ledger == Ledger.Restatus(old(db.ledger), w.user, w.createdAt, WithdrawalLifecycle.LedgerStatusFor(status))
    ensures old(db.PairIntact(wid)) ==> db.PairIntact(wid)
    ensures old(db.Reconciled() && db.PairIntact(wid)) ==>
      (db.Reconciled() <==> refund == WithdrawalLifecycle.PairDelta(old(db.withdrawals[wid].status), status, old(db.withdrawals[wid].amount)))
  {
    var w := db.withdrawals[wid];
    ghost var L, U := db.ledger, db.users;
    ghost var pairWas, reconciledWas := db.PairIntact(wid), db.Reconciled();
    WriteStatusUpdate(db, wid, refund, status, remarks, now);
    if pairWas {
      WithdrawalLifecycle.RestatusKeepsPair(L, w, status);
      if reconciledWas {
        StatusUpdateReconcilesIff(U, L, w, refund, status);
      }
    }
  }

  /** The writes of a status update: the owner's wallet, the withdrawal record and the
      ledger window, each replaced as described and the store kept well formed. */
  method WriteStatusUpdate(db: Database, wid: WithdrawalId, refund: int, status: Status, remarks: Option<string>, now: int)
    requires db.Valid() && wid < |db.withdrawals|
    modifies db`users, db`withdrawals, db`ledger
    ensures db.Valid()
    ensures
      var w := old(db.withdrawals[wid]);
      && db.users == old(db.users)[w.user := Credit(old(db.users[w.user]), refund)]
      && db.withdrawals == old(db.withdrawals)[wid := w.(status := status, remarks := remarks,
                             processedAt := if status == Completed || status == Rejected then Some(now) else w.processedAt)]
      && db.ledger == Ledger.Restatus(old(db.ledger), w.user, w.createdAt, WithdrawalLifecycle.LedgerStatusFor(status))
  {
    var w := db.withdrawals[wid];
    var user := db.users[w.user];
    SetUserKeepsValid(db.users, |db.packages|, w.user, Credit(user, refund));
    db.users := db.users[w.user := Credit(user, refund)];
    var processedAt := if status == Completed || status == Rejected then Some(now) else w.processedAt;
    SetWithdrawalKeepsValid(db.withdrawals, |db.users|, wid, w.(status := status, remarks := remarks, processedAt := processedAt));
    db.withdrawals := db.withdrawals[wid := w.(status := status, remarks := remarks, processedAt := processedAt)];
    RestatusKeepsValid(db.ledger, |db.users|, w.user, w.createdAt, WithdrawalLifecycle.LedgerStatusFor(status));
    db.ledger := Ledger.Restatus(db.ledger, w.user, w.createdAt, WithdrawalLifecycle.LedgerStatusFor(status));
  }

  /** Starting from agreement with the pair intact, crediting the owner `refund` while the
      pair is re-statused keeps wallets and ledger in agreement exactly when the refund is
      the pair's ledger delta. */
  lemma StatusUpdateReconcilesIff(U: seq<User>, L: seq<T.Transaction>, w: Withdrawal, refund: int, status: Status)
    requires w.user < |U| && WithdrawalLifecycle.PairIntact(L, w) && BalancesMatchLedger(U, L)
    ensures BalancesMatchLedger(U[w.user := Credit(U[w.user], refund)],
                                Ledger.Restatus(L, w.user, w.createdAt, WithdrawalLifecycle.LedgerStatusFor(status)))
        <==> refund == WithdrawalLifecycle.PairDelta(w.status, status, w.amount)
  {
    var L' := Ledger.Restatus(L, w.user, w.createdAt, WithdrawalLifecycle.LedgerStatusFor(status));
    forall v | 0 <= v < |U|
      ensures Ledger.LedgerBalance(L', v) == Ledger.LedgerBalance(L, v) + (if v == w.user then WithdrawalLifecycle.PairDelta(w.status, status, w.amount) else 0)
    {
      WithdrawalLifecycle.PairDeltaIsLedgerChange(L, w, status, v);
    }
    CreditReconcilesIff(U, L, L', w.user, refund, WithdrawalLifecycle.PairDelta(w.status, status, w.amount));
  }

  /** The unrouted updateWithdrawalStatus: it refunds any rejection of a withdrawal that is
      not already rejected, including a completed one. */
  method UpdateWithdrawalStatus(db: Database, wid: nat, status: Status, remarks: Option<string>, now: int)
    returns (r: Result<()>)
    requires db.Valid()
    modifies db`users, db`withdrawals, db`ledger
    ensures db.Valid()
    ensures r.Err? <==> wid >= old(|db.withdrawals|)
    ensures r.Err? ==> r.error == WithdrawalNotFound
    ensures r.Err? ==> db.users == old(db.users) && db.withdrawals == old(db.withdrawals) && db.ledger == old(db.ledger)
    ensures r.Ok? ==>
      var w := old(db.withdrawals[wid]);
      && db.users == old(db.users)[w.user := Credit(old(db.users[w.user]), WithdrawalLifecycle.UnroutedRefund(w.status, status, w.amount))]
      && db.withdrawals == old(db.withdrawals)[wid := w.(status := status, remarks := remarks,
                             processedAt := if status == Completed || status == Rejected then Some(now) else w.processedAt)]
      && db.ledger == Ledger.Restatus(old(db.ledger), w.user, w.createdAt, WithdrawalLifecycle.LedgerStatusFor(status))
    ensures r.Ok? && old(db.PairIntact(wid)) ==> db.PairIntact(wid)
    ensures r.Ok? && old(db.Reconciled() && db.PairIntact(wid)) ==>
      var w := old(db.withdrawals[wid]);
      (db.Reconciled() <==> !(w.status == Rejected && status != Rejected))
  {
    if wid >= |db.withdrawals| {
      return Err(WithdrawalNotFound);
    }
    var w := db.withdrawals[wid];
    ApplyStatusUpdate(db, wid, WithdrawalLifecycle.UnroutedRefund(w.status, status, w.amount), status, remarks, now);
    WithdrawalLifecycle.UnroutedRefundReconcilesIff(w.status, status, w.amount);
    r := Ok(());
  }
}
