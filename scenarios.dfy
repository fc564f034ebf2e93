/** End-to-end runs across controllers: what a user and an admin see when their requests follow
    one another against the same store. */
module Scenarios {
  import opened Outcomes
  import opened Ids
  import opened UserModel
  import opened WithdrawalModel
  import Ledger
  import opened Store
  import WithdrawalController
  import AdminController
  import TaskController

  /** A withdrawal request that the admin rejects while it is still pending gives the whole
      amount back: every wallet ends as it began, and wallets and ledger still agree. */
  method RequestThenReject(db: Database, caller: UserId, uid: UserId, amount: int, payMethod: PaymentMethod,
                           details: Option<AccountDetails>, now: int, later: int)
    returns (r: Result<WithdrawalId>)
    requires db.Valid() && IsAdmin(db, caller) && uid < |db.users|
    requires db.Reconciled() && Ledger.WindowEmpty(db.ledger, uid, now)
    modifies db`users, db`withdrawals, db`ledger
    ensures db.Valid() && db.Reconciled()
    ensures db.users == old(db.users)
    ensures r.Ok? ==> r.value == old(|db.withdrawals|) && |db.withdrawals| == r.value + 1 && db.withdrawals[r.value].status == Rejected
    ensures r.Err? ==> db.withdrawals == old(db.withdrawals) && db.ledger == old(db.ledger)
  {
    ghost var U := db.users;
    r := WithdrawalController.RequestWithdrawal(db, uid, amount, payMethod, details, now);
    if r.Ok? {
      RejectPending(db, caller, r.value, later);
      assert db.users == U[uid := Credit(Credit(U[uid], -amount), amount)];
    }
  }

  /** The admin rejects a pending withdrawal whose pair is intact: the owner gets the whole
      amount back, and wallets and ledger still agree. */
  method RejectPending(db: Database, caller: UserId, wid: WithdrawalId, later: int)
    requires db.Valid() && IsAdmin(db, caller) && wid < |db.withdrawals|
    requires db.withdrawals[wid].status == Pending && db.Reconciled() && db.PairIntact(wid)
    modifies db`users, db`withdrawals, db`ledger
    ensures db.Valid() && db.Reconciled() && |db.withdrawals| == old(|db.withdrawals|)
    ensures db.withdrawals[wid].status == Rejected
    ensures var w := old(db.withdrawals[wid]); db.users == old(db.users)[w.user := Credit(old(db.users[w.user]), w.amount)]
  {
    var _ := AdminController.UpdateWithdrawalStatus(db, caller, wid, Rejected, None, later);
  }

  /** A withdrawal moved to processing and then rejected is not refunded: the user is short by
      the whole amount while the ledger cancels both entries, so wallets and ledger no
      longer agree. */
  method RejectAfterProcessing(db: Database, caller: UserId, uid: UserId, amount: int, payMethod: PaymentMethod,
                               details: Option<AccountDetails>, now: int, later: int)
    returns (r: Result<WithdrawalId>)
    requires db.Valid() && IsAdmin(db, caller) && uid < |db.users|
    requires db.Reconciled() && Ledger.WindowEmpty(db.ledger, uid, now)
    modifies db`users, db`withdrawals, db`ledger
    ensures db.Valid() && |db.users| == old(|db.users|)
    ensures r.Ok? ==> r.value == old(|db.withdrawals|) && |db.withdrawals| == r.value + 1
    ensures r.Ok? ==> db.users[uid].wallet.balance == old(db.users[uid].wallet.balance) - amount
    ensures r.Ok? ==> db.withdrawals[r.value].status == Rejected && !db.Reconciled()
    ensures r.Err? ==> db.users == old(db.users) && db.Reconciled()
  {
    r := WithdrawalController.RequestWithdrawal(db, uid, amount, payMethod, details, now);
    if r.Ok? {
      ProcessThenReject(db, caller, r.value, later);
    }
  }

  /** The admin moves a pending withdrawal with its pair intact to processing and then
      rejects it: no wallet changes, and the cancelled pair leaves the owner's wallet below
      what the ledger implies. */
  method ProcessThenReject(db: Database, caller: UserId, wid: WithdrawalId, later: int)
    requires db.Valid() && IsAdmin(db, caller) && wid < |db.withdrawals|
    requires db.withdrawals[wid].status == Pending && db.Reconciled() && db.PairIntact(wid)
    modifies db`users, db`withdrawals, db`ledger
    ensures db.Valid() && db.users == old(db.users) && |db.withdrawals| == old(|db.withdrawals|)
    ensures db.withdrawals[wid].status == Rejected && !db.Reconciled()
  {
    var _ := AdminController.UpdateWithdrawalStatus(db, caller, wid, Processing, None, later);
    RejectProcessing(db, caller, wid, later);
  }

  /** Rejecting a withdrawal that is being processed, with its pair intact and wallets and
      ledger in agreement, changes no wallet and leaves them disagreeing. */
  method RejectProcessing(db: Database, caller: UserId, wid: WithdrawalId, later: int)
    requires db.Valid() && IsAdmin(db, caller) && wid < |db.withdrawals|
    requires db.withdrawals[wid].status == Processing && db.Reconciled() && db.PairIntact(wid)
    modifies db`users, db`withdrawals, db`ledger
    ensures db.Valid() && db.users == old(db.users) && |db.withdrawals| == old(|db.withdrawals|)
    ensures db.withdrawals[wid].status == Rejected && !db.Reconciled()
  {
    var _ := AdminController.UpdateWithdrawalStatus(db, caller, wid, Rejected, None, later);
  }

  /** Toggling a user twice restores every user, the caller included. */
  method ToggleUserTwice(db: Database, caller: UserId, userId: UserId)
    requires db.Valid() && IsAdmin(db, caller) && userId < |db.users|
    modifies db`users
    ensures db.Valid() && db.users == old(db.users)
  {
    var _ := AdminController.ToggleUserStatus(db, caller, userId);
    var _ := AdminController.ToggleUserStatus(db, caller, userId);
  }

  /** Toggling a catalog task twice restores the catalog. */
  method ToggleTaskTwice(db: Database, caller: UserId, taskId: TaskId)
    requires db.Valid() && IsAdmin(db, caller) && TaskController.Exists(db.tasks, taskId)
    modifies db`tasks
    ensures db.Valid() && db.tasks == old(db.tasks)
  {
    var _ := TaskController.ToggleTaskStatus(db, caller, taskId);
    var _ := TaskController.ToggleTaskStatus(db, caller, taskId);
  }
}
