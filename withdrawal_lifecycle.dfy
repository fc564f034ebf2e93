/** What an admin status update of a withdrawal does to money, shared by the two versions
    of updateWithdrawalStatus: the ledger status written onto the paired entries, the refund
    each version pays, and the change the re-statusing makes to the user's ledger balance. */
module WithdrawalLifecycle {
  import opened Outcomes
  import opened Ids
  import opened WithdrawalModel
  import T = TransactionModel
  import Ledger

  /** The status written onto the window's ledger entries: a rejection cancels them, any other
      status is copied as it is (including `processing`, which the ledger schema lacks). */
  function LedgerStatusFor(s: Status): (t: T.Status)
    ensures t == T.Cancelled <==> s == Rejected
  {
    match s
    case Pending => T.Pending
    case Processing => T.Processing
    case Completed => T.Completed
    case Rejected => T.Cancelled
  }

  /** The routed admin version refunds only a rejection of a pending withdrawal. */
  function RoutedRefund(was: Status, next: Status, amount: int): int {
    if next == Rejected && was == Pending then amount else 0
  }

  /** The unrouted version refunds any rejection of a withdrawal not already rejected. */
  function UnroutedRefund(was: Status, next: Status, amount: int): int {
    if next == Rejected && was != Rejected then amount else 0
  }

  /** The change in ledger balance when the window holds exactly the withdrawal's entries,
      in the status mirrored from `was`, and they are re-statused for `next`. */
  function PairDelta(was: Status, next: Status, amount: int): int {
    if was != Rejected && next == Rejected then amount
    else if was == Rejected && next != Rejected then -amount
    else 0
  }

  /** The withdrawal's window is as its two entries left it: the window's entries add up
      to minus the debited amount and all carry the status mirrored from the withdrawal's.
      The entries are not counted, so any window with that total and status qualifies. */
  ghost predicate PairIntact(L: seq<T.Transaction>, w: Withdrawal) {
    && Ledger.WindowTotal(L, w.user, w.createdAt) == -w.amount
    && forall i :: 0 <= i < |L| && Ledger.InWindow(L[i], w.user, w.createdAt) ==> L[i].status == LedgerStatusFor(w.status)
  }

  /** With the pair intact, re-statusing for `next` moves the owner's ledger balance by
      exactly PairDelta and no other user's at all. */
  lemma PairDeltaIsLedgerChange(L: seq<T.Transaction>, w: Withdrawal, next: Status, v: UserId)
    requires PairIntact(L, w)
    ensures Ledger.LedgerBalance(Ledger.Restatus(L, w.user, w.createdAt, LedgerStatusFor(next)), v)
         == Ledger.LedgerBalance(L, v) + (if v == w.user then PairDelta(w.status, next, w.amount) else 0)
  {
    Ledger.RestatusBalance(L, w.user, w.createdAt, LedgerStatusFor(next), v);
    Ledger.UniformWindowCounted(L, w.user, w.createdAt, LedgerStatusFor(w.status));
  }

  /** The update keeps the pair intact, now mirroring the next status. */
  lemma RestatusKeepsPair(L: seq<T.Transaction>, w: Withdrawal, next: Status)
    requires PairIntact(L, w)
    ensures PairIntact(Ledger.Restatus(L, w.user, w.createdAt, LedgerStatusFor(next)), w.(status := next))
  {
    Ledger.RestatusWindowTotal(L, w.user, w.createdAt, LedgerStatusFor(next));
  }

  /** The routed refund keeps wallet and ledger in step exactly when the update is not a
      rejection of a processing or completed withdrawal and not a move out of rejected. */
  lemma RoutedRefundReconcilesIff(was: Status, next: Status, amount: int)
    requires amount != 0
    ensures RoutedRefund(was, next, amount) == PairDelta(was, next, amount)
        <==> !(next == Rejected && (was == Processing || was == Completed)) && !(was == Rejected && next != Rejected)
  {
  }

  /** The unrouted refund keeps them in step exactly when the update is not a move out of
      rejected. */
  lemma UnroutedRefundReconcilesIff(was: Status, next: Status, amount: int)
    requires amount != 0
    ensures UnroutedRefund(was, next, amount) == PairDelta(was, next, amount) <==> !(was == Rejected && next != Rejected)
  {
  }

  /** After a rejection every entry in the ±1000 ms window is cancelled, while a withdrawal
      entry of the same user between 1000 and 2000 ms away keeps its status: a consistency
      check that pairs entries within ±2000 ms can see such an entry uncancelled. */
  lemma RejectionCancelsOnlyWindow(L: seq<T.Transaction>, w: Withdrawal, i: nat)
    requires i < |L|
    ensures var r := Ledger.Restatus(L, w.user, w.createdAt, LedgerStatusFor(Rejected));
      && (Ledger.InWindow(L[i], w.user, w.createdAt) ==> r[i].status == T.Cancelled)
      && (L[i].user == w.user && L[i].kind == T.WithdrawalDebit && Ledger.PairWindow < L[i].createdAt - w.createdAt <= 2 * Ledger.PairWindow
          ==> r[i] == L[i])
  {
  }
}
