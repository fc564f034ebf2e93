/** The persisted collections, held in memory. A record's id is its position in its
    collection; a deleted catalog task leaves `None` in its slot so that ids stay stable. */
module Store {
  import opened Outcomes
  import opened Ids
  import opened UserModel
  import opened PackageModel
  import opened TaskModel
  import opened UserTaskModel
  import opened WithdrawalModel
  import opened TransactionModel
  import Ledger
  import WithdrawalLifecycle

  /** Users reference existing packages and users, and their referral codes, emails and
      usernames are unique. */
  ghost predicate UsersValid(users: seq<User>, packageCount: nat) {
    && (forall i :: 0 <= i < |users| && users[i].currentPackage.Some? ==> users[i].currentPackage.value < packageCount)
    && (forall i :: 0 <= i < |users| && users[i].referredBy.Some? ==> users[i].referredBy.value < |users|)
    && (forall i, j :: 0 <= i < j < |users| ==> users[i].referralCode != users[j].referralCode)
    && (forall i, j :: 0 <= i < j < |users| ==> users[i].email != users[j].email && users[i].username != users[j].username)
  }

  /** Package names are unique. */
  ghost predicate PackagesValid(packages: seq<Package>) {
    forall i, j :: 0 <= i < j < |packages| ==> packages[i].name != packages[j].name
  }

  /** Every attempt references an existing user and a catalog slot. */
  ghost predicate UserTasksValid(userTasks: seq<UserTask>, userCount: nat, taskCount: nat) {
    forall i :: 0 <= i < |userTasks| ==> userTasks[i].user < userCount && userTasks[i].task < taskCount
  }

  /** Every withdrawal references an existing user and is for a positive amount (the only
      writer accepts nothing below the minimum). */
  ghost predicate WithdrawalsValid(withdrawals: seq<Withdrawal>, userCount: nat) {
    forall i :: 0 <= i < |withdrawals| ==> withdrawals[i].user < userCount && withdrawals[i].amount > 0
  }

  /** Every ledger entry references an existing user. */
  ghost predicate LedgerValid(ledger: seq<Transaction>, userCount: nat) {
    forall i :: 0 <= i < |ledger| ==> ledger[i].user < userCount
  }

  /** What every handler relies on: references point at existing records, and the unique
      fields (referral code, email, username, package name) are unique. */
  ghost predicate WellFormed(
    users: seq<User>, tasks: seq<Option<Task>>, packages: seq<Package>,
    userTasks: seq<UserTask>, withdrawals: seq<Withdrawal>, ledger: seq<Transaction>)
  {
    && UsersValid(users, |packages|)
    && PackagesValid(packages)
    && UserTasksValid(userTasks, |users|, |tasks|)
    && WithdrawalsValid(withdrawals, |users|)
    && LedgerValid(ledger, |users|)
  }

  /** Replacing a user by one with the same unique fields and valid references keeps the
      users well formed. */
  lemma SetUserKeepsValid(users: seq<User>, packageCount: nat, i: nat, u: User)
    requires UsersValid(users, packageCount) && i < |users|
    requires u.referralCode == users[i].referralCode && u.email == users[i].email && u.username == users[i].username
    requires u.currentPackage.Some? ==> u.currentPackage.value < packageCount
    requires u.referredBy.Some? ==> u.referredBy.value < |users|
    ensures UsersValid(users[i := u], packageCount)
  {
  }

  /** Every user's balance is what the ledger implies for them. */
  ghost predicate BalancesMatchLedger(users: seq<User>, ledger: seq<Transaction>) {
    forall u :: 0 <= u < |users| ==> users[u].wallet.balance == Ledger.LedgerBalance(ledger, u)
  }

  /** Replacing a withdrawal by one for the same user and amount keeps the withdrawals well
      formed. */
  lemma SetWithdrawalKeepsValid(withdrawals: seq<Withdrawal>, userCount: nat, i: nat, w: Withdrawal)
    requires WithdrawalsValid(withdrawals, userCount) && i < |withdrawals|
    requires w.user == withdrawals[i].user && w.amount == withdrawals[i].amount
    ensures WithdrawalsValid(withdrawals[i := w], userCount)
  {
  }

  /** Appending a withdrawal of an existing user for a positive amount keeps the
      withdrawals well formed. */
  lemma AppendWithdrawalKeepsValid(withdrawals: seq<Withdrawal>, userCount: nat, w: Withdrawal)
    requires WithdrawalsValid(withdrawals, userCount) && w.user < userCount && w.amount > 0
    ensures WithdrawalsValid(withdrawals + [w], userCount)
  {
  }

  /** Appending entries of existing users keeps the ledger well formed. */
  lemma AppendLedgerKeepsValid(ledger: seq<Transaction>, userCount: nat, entries: seq<Transaction>)
    requires LedgerValid(ledger, userCount)
    requires forall i :: 0 <= i < |entries| ==> entries[i].user < userCount
    ensures LedgerValid(ledger + entries, userCount)
  {
  }

  /** Re-statusing a window keeps every entry's owner, so the ledger stays well formed. */
  lemma RestatusKeepsValid(ledger: seq<Transaction>, userCount: nat, u: UserId, t: int, st: TransactionModel.Status)
    requires LedgerValid(ledger, userCount)
    ensures LedgerValid(Ledger.Restatus(ledger, u, t, st), userCount)
  {
  }

  /** Appending a user whose unique fields are new and whose references are valid keeps the
      users well formed. */
  lemma AppendUserKeepsValid(users: seq<User>, packageCount: nat, u: User)
    requires UsersValid(users, packageCount)
    requires forall i :: 0 <= i < |users| ==> users[i].referralCode != u.referralCode && users[i].email != u.email && users[i].username != u.username
    requires u.currentPackage.Some? ==> u.currentPackage.value < packageCount
    requires u.referredBy.Some? ==> u.referredBy.value < |users|
    ensures UsersValid(users + [u], packageCount)
  {
  }

  /** When one user's balance moves by `credit` while the ledger moves their balance by
      `delta` and nobody else's, the balances still match the ledger exactly when the two agree. */
  lemma CreditReconcilesIff(users: seq<User>, L: seq<Transaction>, L': seq<Transaction>, u: UserId, credit: int, delta: int)
    requires BalancesMatchLedger(users, L) && u < |users|
    requires forall v :: 0 <= v < |users| ==> Ledger.LedgerBalance(L', v) == Ledger.LedgerBalance(L, v) + (if v == u then delta else 0)
    ensures BalancesMatchLedger(users[u := Credit(users[u], credit)], L') <==> credit == delta
  {
    if BalancesMatchLedger(users[u := Credit(users[u], credit)], L') {
      assert users[u := Credit(users[u], credit)][u].wallet.balance == Ledger.LedgerBalance(L', u);
    }
  }

  class Database {
    var users: seq<User>
    var tasks: seq<Option<Task>>
    var packages: seq<Package>
    var userTasks: seq<UserTask>
    var withdrawals: seq<Withdrawal>
    var ledger: seq<Transaction>

    ghost predicate Valid()
      reads this
    {
      WellFormed(users, tasks, packages, userTasks, withdrawals, ledger)
    }

    ghost predicate Reconciled()
      reads this
    {
      BalancesMatchLedger(users, ledger)
    }

    /** The window of withdrawal `wid` totals minus its amount, and every entry in it carries
        the status mirrored from the withdrawal's. */
    ghost predicate PairIntact(wid: WithdrawalId)
      reads this
      requires wid < |withdrawals|
    {
      WithdrawalLifecycle.PairIntact(ledger, withdrawals[wid])
    }

    /** A store holding the given records, as the seed scripts leave it. */
    constructor (users: seq<User>, tasks: seq<Option<Task>>, packages: seq<Package>,
                 userTasks: seq<UserTask>, withdrawals: seq<Withdrawal>, ledger: seq<Transaction>)
      requires WellFormed(users, tasks, packages, userTasks, withdrawals, ledger)
      ensures Valid()
      ensures this.users == users && this.tasks == tasks && this.packages == packages
      ensures this.userTasks == userTasks && this.withdrawals == withdrawals && this.ledger == ledger
    {
      this.users := users;
      this.tasks := tasks;
      this.packages := packages;
      this.userTasks := userTasks;
      this.withdrawals := withdrawals;
      this.ledger := ledger;
    }
  }

  /** The router's admin guard: the caller is a known user with the admin flag. */
  ghost predicate IsAdmin(db: Database, caller: UserId)
    reads db
  {
    caller < |db.users| && db.users[caller].isAdmin
  }
}
