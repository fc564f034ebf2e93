/** backend/controllers/adminController.js: the routed status update of a withdrawal, package
    approval, user (de)activation, the dashboard figures and the paginated admin listings.
    Every handler sits behind the admin guard, modelled as the precondition IsAdmin. */
module AdminController {
  import opened Outcomes
  import opened Ids
  import opened UserModel
  import opened WithdrawalModel
  import T = TransactionModel
  import Ledger
  import Listing
  import WithdrawalLifecycle
  import WithdrawalController
  import opened Store

  /** updateWithdrawalStatus as routed: only a rejection of a pending withdrawal is refunded,
      and any status may follow any other. */
  method UpdateWithdrawalStatus(db: Database, caller: UserId, wid: nat, status: Status, remarks: Option<string>, now: int)
    returns (r: Result<()>)
    requires db.Valid() && IsAdmin(db, caller)
    modifies db`users, db`withdrawals, db`ledger
    ensures db.Valid()
    ensures r.Err? <==> wid >= old(|db.withdrawals|)
    ensures r.Err? ==> r.error == WithdrawalNotFound
    ensures r.Err? ==> db.users == old(db.users) && db.withdrawals == old(db.withdrawals) && db.ledger == old(db.ledger)
    ensures r.Ok? ==>
      var w := old(db.withdrawals[wid]);
      && db.users == old(db.users)[w.user := Credit(old(db.users[w.user]), WithdrawalLifecycle.RoutedRefund(w.status, status, w.amount))]
      && db.withdrawals == old(db.withdrawals)[wid := w.(status := status, remarks := remarks,
                             processedAt := if status == Completed || status == Rejected then Some(now) else w.processedAt)]
      && db.ledger == Ledger.Restatus(old(db.ledger), w.user, w.createdAt, WithdrawalLifecycle.LedgerStatusFor(status))
    ensures r.Ok? && old(db.PairIntact(wid)) ==> db.PairIntact(wid)
    ensures r.Ok? && old(db.Reconciled() && db.PairIntact(wid)) ==>
      var was := old(db.withdrawals[wid].status);
      (db.Reconciled() <==> !(status == Rejected && (was == Processing || was == Completed)) && !(was == Rejected && status != Rejected))
  {
    if wid >= |db.withdrawals| {
      return Err(WithdrawalNotFound);
    }
    var w := db.withdrawals[wid];
    WithdrawalController.ApplyStatusUpdate(db, wid, WithdrawalLifecycle.RoutedRefund(w.status, status, w.amount), status, remarks, now);
    WithdrawalLifecycle.RoutedRefundReconcilesIff(w.status, status, w.amount);
    r := Ok(());
  }

  /** approvePackagePurchase: the user is looked up before the package; on success the user
      holds the package from `now`, and the first pending purchase entry for it, if any, is
      completed. The wallet is not touched. */
  method ApprovePackagePurchase(db: Database, caller: UserId, userId: nat, packageId: nat, now: int)
    returns (r: Result<()>)
    requires db.Valid() && IsAdmin(db, caller)
    modifies db`users, db`ledger
    ensures db.Valid()
    ensures userId >= old(|db.users|) ==> r == Err(UserNotFound)
    ensures userId < old(|db.users|) && packageId >= |db.packages| ==> r == Err(PackageNotFound)
    ensures r.Ok? <==> userId < old(|db.users|) && packageId < |db.packages|
    ensures r.Err? ==> db.users == old(db.users) && db.ledger == old(db.ledger)
    ensures r.Ok? ==> db.users == old(db.users)[userId := old(db.users[userId]).(currentPackage := Some(packageId), packagePurchaseDate := Some(now))]
    ensures r.Ok? ==>
      match Ledger.FirstMatch(old(db.ledger), Ledger.PendingPurchase(userId, packageId))
      case None => db.ledger == old(db.ledger)
      case Some(i) => db.ledger == old(db.ledger)[i := old(db.ledger[i]).(status := T.Completed)]
    ensures forall u :: 0 <= u < |db.users| ==> db.users[u].wallet == old(db.users[u].wallet)
    ensures old(db.Reconciled()) ==> db.Reconciled()
  {
    if userId >= |db.users| {
      return Err(UserNotFound);
    }
    if packageId >= |db.packages| {
      return Err(PackageNotFound);
    }
    var user := db.users[userId];
    SetUserKeepsValid(db.users, |db.packages|, userId, user.(currentPackage := Some(packageId), packagePurchaseDate := Some(now)));
    db.users := db.users[userId := user.(currentPackage := Some(packageId), packagePurchaseDate := Some(now))];
    var found := Ledger.FirstMatch(db.ledger, Ledger.PendingPurchase(userId, packageId));
    if found.Some? {
      var i := found.value;
      ghost var L := db.ledger;
      db.ledger := db.ledger[i := db.ledger[i].(status := T.Completed)];
      forall v | 0 <= v < |db.users|
        ensures Ledger.LedgerBalance(db.ledger, v) == Ledger.LedgerBalance(L, v)
      {
        Ledger.LedgerBalanceSetSame(L, i, L[i].(status := T.Completed), v);
      }
    }
    r := Ok(());
  }

  /** toggleUserStatus: flips the user's active flag and nothing else. */
  method ToggleUserStatus(db: Database, caller: UserId, userId: nat) returns (r: Result<()>)
    requires db.Valid() && IsAdmin(db, caller)
    modifies db`users
    ensures db.Valid()
    ensures r.Err? <==> userId >= old(|db.users|)
    ensures r.Err? ==> r.error == UserNotFound && db.users == old(db.users)
    ensures r.Ok? ==> db.users == old(db.users)[userId := old(db.users[userId]).(isActive := !old(db.users[userId].isActive))]
    ensures db.Reconciled() == old(db.Reconciled())
  {
    if userId >= |db.users| {
      return Err(UserNotFound);
    }
    var user := db.users[userId];
    SetUserKeepsValid(db.users, |db.packages|, userId, user.(isActive := !user.isActive));
    db.users := db.users[userId := user.(isActive := !user.isActive)];
    r := Ok(());
  }

  function UserCreatedAt(users: seq<User>): nat -> int {
    (i: nat) => if i < |users| then users[i].createdAt else 0
  }

  function IsNonAdmin(users: seq<User>): nat -> bool {
    (i: nat) => i < |users| && !users[i].isAdmin
  }

  /** The users that are not admins, by id. */
  function NonAdminIds(users: seq<User>): (r: seq<UserId>)
    ensures forall i: nat :: i in r <==> i < |users| && !users[i].isAdmin
  {
    Listing.IdsWhere(|users|, IsNonAdmin(users))
  }

  /** User.find({ isAdmin: false }).sort({ createdAt: -1 }), by id. */
  function UsersNewestFirst(users: seq<User>): (r: seq<UserId>)
    ensures forall i: nat :: i in r <==> i < |users| && !users[i].isAdmin
    ensures |r| == |NonAdminIds(users)|
    ensures forall k :: 0 <= k < |r| ==> r[k] < |users|
    ensures forall j, k :: 0 <= j < k < |r| ==> users[r[j]].createdAt >= users[r[k]].createdAt
  {
    var r := Listing.NewestFirst(|users|, IsNonAdmin(users), UserCreatedAt(users));
    assert forall k :: 0 <= k < |r| ==> r[k] in r;
    r
  }

  /** recentUsers: up to five non-admin users, newest first, and nobody left out is newer
      than anyone listed. */
  function RecentUsers(users: seq<User>): (r: seq<UserId>)
    ensures |r| == if |NonAdminIds(users)| < 5 then |NonAdminIds(users)| else 5
    ensures forall k :: 0 <= k < |r| ==> r[k] < |users| && !users[r[k]].isAdmin
    ensures forall j, k :: 0 <= j < k < |r| ==> users[r[j]].createdAt >= users[r[k]].createdAt
    ensures forall i: nat, j: nat :: i < |users| && !users[i].isAdmin && i !in r && j in r ==> users[i].createdAt <= users[j].createdAt
  {
    RecentPrefix(users);
    RecentTopK(users);
    Listing.Take(UsersNewestFirst(users), 5)
  }

  /** The first five of the newest-first list are non-admins, newest first. */
  lemma RecentPrefix(users: seq<User>)
    ensures var r := Listing.Take(UsersNewestFirst(users), 5);
      && |r| == (if |NonAdminIds(users)| < 5 then |NonAdminIds(users)| else 5)
      && (forall k :: 0 <= k < |r| ==> r[k] < |users| && !users[r[k]].isAdmin)
      && (forall j, k :: 0 <= j < k < |r| ==> users[r[j]].createdAt >= users[r[k]].createdAt)
  {
    var newest := UsersNewestFirst(users);
    var r := Listing.Take(newest, 5);
    assert forall k :: 0 <= k < |r| ==> r[k] == newest[k] && newest[k] in newest;
  }

  /** Nobody left out of the first five is newer than anyone in them. */
  lemma RecentTopK(users: seq<User>)
    ensures var r := Listing.Take(UsersNewestFirst(users), 5);
      forall i: nat, j: nat :: i < |users| && !users[i].isAdmin && i !in r && j in r ==> users[i].createdAt <= users[j].createdAt
  {
    var newest := UsersNewestFirst(users);
    var r := Listing.Take(newest, 5);
    forall i: nat, j: nat | i < |users| && !users[i].isAdmin && i !in r && j in r
      ensures users[i].createdAt <= users[j].createdAt
    {
      Listing.TakeNewest(newest, UserCreatedAt(users), 5, i);
      assert j in newest;
    }
  }

  /** All task-reward entries, whatever their status. */
  const AllRewards := Ledger.Query(None, Some(T.TaskReward), None, Ledger.AnyStatus)
  /** Completed withdrawal entries, net payouts and tax alike. */
  const PaidOut := Ledger.Query(None, Some(T.WithdrawalDebit), None, Ledger.StatusIs(T.Completed))

  /** totalEarnings: the sum of every task-reward amount, 0 when there is none. */
  function TotalEarnings(ledger: seq<T.Transaction>): (r: int)
    ensures (forall i :: 0 <= i < |ledger| ==> ledger[i].kind != T.TaskReward) ==> r == 0
  {
    var s := Ledger.Select(ledger, AllRewards);
    assert (forall i :: 0 <= i < |ledger| ==> ledger[i].kind != T.TaskReward) ==> s == [] by {
      if forall i :: 0 <= i < |ledger| ==> ledger[i].kind != T.TaskReward {
        Ledger.NoMatchSum(ledger, AllRewards);
      }
    }
    Ledger.Sum(s)
  }

  /** totalWithdrawals: the sum of absolute amounts of the completed withdrawal entries, never
      negative and 0 when there is none. */
  function TotalWithdrawals(ledger: seq<T.Transaction>): (r: int)
    ensures r >= 0
    ensures (forall i :: 0 <= i < |ledger| ==> !(ledger[i].kind == T.WithdrawalDebit && ledger[i].status == T.Completed)) ==> r == 0
  {
    var s := Ledger.Select(ledger, PaidOut);
    assert (forall i :: 0 <= i < |ledger| ==> !(ledger[i].kind == T.WithdrawalDebit && ledger[i].status == T.Completed)) ==> s == [] by {
      if forall i :: 0 <= i < |ledger| ==> !(ledger[i].kind == T.WithdrawalDebit && ledger[i].status == T.Completed) {
        Ledger.NoMatchSum(ledger, PaidOut);
      }
    }
    Ledger.AbsSum(s)
  }

  /** A new ledger entry raises totalEarnings by its amount exactly when it is a task reward. */
  lemma TotalEarningsAppend(ledger: seq<T.Transaction>, e: T.Transaction)
    ensures TotalEarnings(ledger + [e]) == TotalEarnings(ledger) + (if e.kind == T.TaskReward then e.amount else 0)
  {
    Ledger.SelectAppend(ledger, [e], AllRewards);
    Ledger.SumAppend(Ledger.Select(ledger, AllRewards), Ledger.Select([e], AllRewards));
  }

  /** When every withdrawal entry is a debit, totalWithdrawals is the money paid out: the
      negated sum of the completed entries. */
  lemma TotalWithdrawalsIsPaidOut(ledger: seq<T.Transaction>)
    requires forall i :: 0 <= i < |ledger| && ledger[i].kind == T.WithdrawalDebit ==> ledger[i].amount <= 0
    ensures TotalWithdrawals(ledger) == -Ledger.Sum(Ledger.Select(ledger, PaidOut))
  {
    var s := Ledger.Select(ledger, PaidOut);
    assert forall k :: 0 <= k < |s| ==> s[k] in s;
    Ledger.AbsSumOfDebits(s);
  }

  datatype Dashboard = Dashboard(
    totalUsers: nat,
    totalEarnings: int,
    totalWithdrawals: int,
    pendingWithdrawals: nat,
    activePackages: nat,
    recentUsers: seq<UserId>)

  /** The filter of the pending-withdrawals count. */
  predicate IsPending(w: Withdrawal) {
    w.status == Pending
  }

  /** The filter of the active-packages count: the user holds some package. */
  predicate HoldsPackage(u: User) {
    u.currentPackage.Some?
  }

  /** getDashboardStats: user and withdrawal counts, the two ledger sums, and recent users. */
  function DashboardStats(users: seq<User>, withdrawals: seq<Withdrawal>, ledger: seq<T.Transaction>): (r: Dashboard)
    ensures r.totalUsers <= |users| && r.activePackages <= |users| && r.pendingWithdrawals <= |withdrawals|
    ensures r.totalUsers == |NonAdminIds(users)| && r.recentUsers == RecentUsers(users)
    ensures r.totalEarnings == TotalEarnings(ledger) && r.totalWithdrawals == TotalWithdrawals(ledger)
    ensures r.pendingWithdrawals == Listing.Count(withdrawals, IsPending)
    ensures r.activePackages == Listing.Count(users, HoldsPackage)
  {
    Listing.IdsWhereCount(withdrawals, IsPending, |withdrawals|);
    Listing.IdsWhereCount(users, HoldsPackage, |users|);
    assert withdrawals[..|withdrawals|] == withdrawals && users[..|users|] == users;
    Dashboard(
      |NonAdminIds(users)|,
      TotalEarnings(ledger),
      TotalWithdrawals(ledger),
      |Listing.IdsWhere(|withdrawals|, Listing.RecordFilter(withdrawals, IsPending))|,
      |Listing.IdsWhere(|users|, Listing.RecordFilter(users, HoldsPackage))|,
      RecentUsers(users))
  }

  /** getAllUsers without a search term: one page of the non-admin users, newest first. */
  function GetAllUsers(users: seq<User>, page: nat, limit: nat): (r: Listing.PageOf<UserId>)
    requires page >= 1 && limit >= 1
    ensures r.total == |NonAdminIds(users)| && r.currentPage == page
    ensures r.totalPages == Listing.TotalPages(r.total, limit)
    ensures |r.items| <= limit
    ensures forall k :: 0 <= k < |r.items| ==> r.items[k] < |users| && !users[r.items[k]].isAdmin
    ensures forall j, k :: 0 <= j < k < |r.items| ==> users[r.items[j]].createdAt >= users[r.items[k]].createdAt
  {
    var newest := UsersNewestFirst(users);
    var r := Listing.Paginate(newest, page, limit);
    r
  }

  /** Every non-admin user is listed on some page within the reported page count. */
  lemma GetAllUsersCovers(users: seq<User>, limit: nat, i: nat)
    requires limit >= 1 && i < |users| && !users[i].isAdmin
    ensures exists page :: 1 <= page <= GetAllUsers(users, 1, limit).totalPages && i in GetAllUsers(users, page, limit).items
  {
    var newest := UsersNewestFirst(users);
    var k :| 0 <= k < |newest| && newest[k] == i;
    Listing.PageCovers(newest, limit, k);
    var page := k / limit + 1;
    assert GetAllUsers(users, page, limit).items[k % limit] == i;
  }

  function WithdrawalCreatedAt(withdrawals: seq<Withdrawal>): nat -> int {
    (i: nat) => if i < |withdrawals| then withdrawals[i].createdAt else 0
  }

  /** The getAllWithdrawals query: the withdrawals in `status`, or all when none is given. */
  function WithdrawalFilter(withdrawals: seq<Withdrawal>, status: Option<Status>): nat -> bool {
    (i: nat) => i < |withdrawals| && (status.None? || withdrawals[i].status == status.value)
  }

  /** Withdrawal.find(query).sort({ createdAt: -1 }), by id. */
  function WithdrawalsNewestFirst(withdrawals: seq<Withdrawal>, status: Option<Status>): (r: seq<WithdrawalId>)
    ensures forall i: nat :: i in r <==> i < |withdrawals| && (status.None? || withdrawals[i].status == status.value)
    ensures |r| == |Listing.IdsWhere(|withdrawals|, WithdrawalFilter(withdrawals, status))|
    ensures forall k :: 0 <= k < |r| ==> r[k] < |withdrawals|
    ensures forall j, k :: 0 <= j < k < |r| ==> withdrawals[r[j]].createdAt >= withdrawals[r[k]].createdAt
  {
    var r := Listing.NewestFirst(|withdrawals|, WithdrawalFilter(withdrawals, status), WithdrawalCreatedAt(withdrawals));
    assert forall k :: 0 <= k < |r| ==> r[k] in r;
    r
  }

  /** getAllWithdrawals: one page of the withdrawals in the given status (all of them when
      no status is given), newest first. */
  function GetAllWithdrawals(withdrawals: seq<Withdrawal>, status: Option<Status>, page: nat, limit: nat)
    : (r: Listing.PageOf<WithdrawalId>)
    requires page >= 1 && limit >= 1
    ensures r.total == |Listing.IdsWhere(|withdrawals|, WithdrawalFilter(withdrawals, status))|
    ensures r.currentPage == page
    ensures r.totalPages == Listing.TotalPages(r.total, limit)
    ensures |r.items| <= limit
    ensures forall k :: 0 <= k < |r.items| ==> r.items[k] < |withdrawals| && (status.None? || withdrawals[r.items[k]].status == status.value)
    ensures forall j, k :: 0 <= j < k < |r.items| ==> withdrawals[r.items[j]].createdAt >= withdrawals[r.items[k]].createdAt
  {
    var newest := WithdrawalsNewestFirst(withdrawals, status);
    var r := Listing.Paginate(newest, page, limit);
    r
  }

  /** Every withdrawal the query selects is listed on some page within the reported page
      count. */
  lemma GetAllWithdrawalsCovers(withdrawals: seq<Withdrawal>, status: Option<Status>, limit: nat, i: nat)
    requires limit >= 1 && i < |withdrawals| && (status.None? || withdrawals[i].status == status.value)
    ensures exists page :: 1 <= page <= GetAllWithdrawals(withdrawals, status, 1, limit).totalPages
                        && i in GetAllWithdrawals(withdrawals, status, page, limit).items
  {
    var k := WithdrawalPosition(withdrawals, status, i);
    WithdrawalOnPage(withdrawals, status, limit, k);
  }

  /** Where a selected withdrawal stands in the newest-first order. */
  lemma WithdrawalPosition(withdrawals: seq<Withdrawal>, status: Option<Status>, i: nat) returns (k: nat)
    requires i < |withdrawals| && (status.None? || withdrawals[i].status == status.value)
    ensures k < |WithdrawalsNewestFirst(withdrawals, status)| && WithdrawalsNewestFirst(withdrawals, status)[k] == i
  {
    var newest := WithdrawalsNewestFirst(withdrawals, status);
    assert i in newest;
    k :| 0 <= k < |newest| && newest[k] == i;
  }

  /** The k-th newest selected withdrawal is on page k / limit + 1. */
  lemma WithdrawalOnPage(withdrawals: seq<Withdrawal>, status: Option<Status>, limit: nat, k: nat)
    requires limit >= 1 && k < |WithdrawalsNewestFirst(withdrawals, status)|
    ensures 1 <= k / limit + 1 <= GetAllWithdrawals(withdrawals, status, 1, limit).totalPages
    ensures WithdrawalsNewestFirst(withdrawals, status)[k] in GetAllWithdrawals(withdrawals, status, k / limit + 1, limit).items
  {
    var newest := WithdrawalsNewestFirst(withdrawals, status);
    Listing.PageCovers(newest, limit, k);
    var r := GetAllWithdrawals(withdrawals, status, k / limit + 1, limit);
    assert r.items == Listing.Page(newest, k / limit + 1, limit);
    assert r.items[k % limit] == newest[k];
  }

  function EntryCreatedAt(ledger: seq<T.Transaction>): nat -> int {
    (i: nat) => if i < |ledger| then ledger[i].createdAt else 0
  }

  /** The getAllTransactions query: the entries of `kind`, or all when none is given. */
  function EntryFilter(ledger: seq<T.Transaction>, kind: Option<T.Kind>): nat -> bool {
    (i: nat) => i < |ledger| && (kind.None? || ledger[i].kind == kind.value)
  }

  /** Transaction.find(query).sort({ createdAt: -1 }), by position. */
  function EntriesNewestFirst(ledger: seq<T.Transaction>, kind: Option<T.Kind>): (r: seq<nat>)
    ensures forall i: nat :: i in r <==> i < |ledger| && (kind.None? || ledger[i].kind == kind.value)
    ensures |r| == |Listing.IdsWhere(|ledger|, EntryFilter(ledger, kind))|
    ensures forall k :: 0 <= k < |r| ==> r[k] < |ledger|
    ensures forall j, k :: 0 <= j < k < |r| ==> ledger[r[j]].createdAt >= ledger[r[k]].createdAt
  {
    var r := Listing.NewestFirst(|ledger|, EntryFilter(ledger, kind), EntryCreatedAt(ledger));
    assert forall k :: 0 <= k < |r| ==> r[k] in r;
    r
  }

  /** getAllTransactions: one page of the ledger entries of the given kind (all of them when
      no kind is given), newest first. */
  function GetAllTransactions(ledger: seq<T.Transaction>, kind: Option<T.Kind>, page: nat, limit: nat)
    : (r: Listing.PageOf<nat>)
    requires page >= 1 && limit >= 1
    ensures r.total == |Listing.IdsWhere(|ledger|, EntryFilter(ledger, kind))|
    ensures r.currentPage == page
    ensures r.totalPages == Listing.TotalPages(r.total, limit)
    ensures |r.items| <= limit
    ensures forall k :: 0 <= k < |r.items| ==> r.items[k] < |ledger| && (kind.None? || ledger[r.items[k]].kind == kind.value)
    ensures forall j, k :: 0 <= j < k < |r.items| ==> ledger[r.items[j]].createdAt >= ledger[r.items[k]].createdAt
  {
    var newest := EntriesNewestFirst(ledger, kind);
    var r := Listing.Paginate(newest, page, limit);
    r
  }

  /** Every ledger entry the query selects is listed on some page within the reported page
      count. */
  lemma GetAllTransactionsCovers(ledger: seq<T.Transaction>, kind: Option<T.Kind>, limit: nat, i: nat)
    requires limit >= 1 && i < |ledger| && (kind.None? || ledger[i].kind == kind.value)
    ensures exists page :: 1 <= page <= GetAllTransactions(ledger, kind, 1, limit).totalPages
                        && i in GetAllTransactions(ledger, kind, page, limit).items
  {
    var k := EntryPosition(ledger, kind, i);
    EntryOnPage(ledger, kind, limit, k);
  }

  /** Where a selected entry stands in the newest-first order. */
  lemma EntryPosition(ledger: seq<T.Transaction>, kind: Option<T.Kind>, i: nat) returns (k: nat)
    requires i < |ledger| && (kind.None? || ledger[i].kind == kind.value)
    ensures k < |EntriesNewestFirst(ledger, kind)| && EntriesNewestFirst(ledger, kind)[k] == i
  {
    var newest := EntriesNewestFirst(ledger, kind);
    assert i in newest;
    k :| 0 <= k < |newest| && newest[k] == i;
  }

  /** The k-th newest selected entry is on page k / limit + 1. */
  lemma EntryOnPage(ledger: seq<T.Transaction>, kind: Option<T.Kind>, limit: nat, k: nat)
    requires limit >= 1 && k < |EntriesNewestFirst(ledger, kind)|
    ensures 1 <= k / limit + 1 <= GetAllTransactions(ledger, kind, 1, limit).totalPages
    ensures EntriesNewestFirst(ledger, kind)[k] in GetAllTransactions(ledger, kind, k / limit + 1, limit).items
  {
    var newest := EntriesNewestFirst(ledger, kind);
    Listing.PageCovers(newest, limit, k);
    var r := GetAllTransactions(ledger, kind, k / limit + 1, limit);
    assert r.items == Listing.Page(newest, k / limit + 1, limit);
    assert r.items[k % limit] == newest[k];
  }
}
