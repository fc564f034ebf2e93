# Task-reward wallet and ledger

A Dafny model of the wallet and ledger core of a task-reward backend (Node/Express over
MongoDB). Users buy a package that gives a daily quota of paid tasks. Completed tasks and
referrals credit a wallet. Users cash out through withdrawal requests, which an admin
processes. Every movement of money is mirrored by an entry in a transactions ledger.

The store is one sequential in-memory state, the class `Store.Database`. It holds users,
catalog tasks, packages, task attempts, withdrawals and the ledger as sequences, and a record's
id is its position in its sequence. A deleted catalog task leaves a `None` slot behind.
Each controller file becomes a module. Every handler that writes becomes a method that changes
only the fields it names, and returns `Ok` or a typed `Error`. The read-only handlers, the
dashboard sums and the pagination arithmetic are functions. Time is an integer of
milliseconds: the current time is the `now` parameter and the start of the day is
`todayStart`. Money is in whole rupees.

Two invariants carry the proofs:
- `Database.Valid()` requires well-formed references and unique user keys.
- `Database.Reconciled()` requires every wallet balance to equal the user's ledger balance.
  The ledger balance is the sum of the user's entries that are neither package purchases nor
  cancelled.

Each withdrawal is paired with its two ledger entries, the net debit and the tax debit. The
pairing is by user, by type and by a creation time within ±1000 ms of the withdrawal's.
`Database.PairIntact(wid)` says that the entries in this window add up to minus the withdrawal's
amount and all carry the status mirrored from the withdrawal. It does not count the entries.

On this state the model proves three groups of facts:
- The handlers that move money keep wallets and ledger reconciled.
- Each handler checks its guards in the source's order, and every rejection changes nothing,
  except completing an attempt whose catalog task was deleted, which fails after its writes.
- The divergences in the code are proved as lemmas over all inputs:
  - the two versions of the withdrawal status update differ in when they refund, each stated
    as an if-and-only-if;
  - the routed admin version loses the refund for a rejection after `processing`;
  - the available-task list and the start check disagree on what "today" means;
  - the referral bonus is 10 exactly when the setting is absent, 0 or 10, so a setting of 0
    cannot switch the bonus off.

## Model

| member | source | states |
|---|---|---|
| Tax.TaxAmount | backend/controllers/withdrawalController.js:35-36 | the tax is 12 % of the amount rounded to the nearest rupee, halves up: `100*tax - 50 <= 12*amount < 100*tax + 50` |
| Tax.NetAmount | backend/controllers/withdrawalController.js:37 | net plus tax is exactly the amount |
| Tax.TaxIsNearest | backend/controllers/withdrawalController.js:36 | the rounding bound determines the tax uniquely, so any rounding to nearest with halves up gives TaxAmount |
| Tax.TaxWithinAmount | backend/controllers/withdrawalController.js:35-37 | for a non-negative amount both tax and net lie between 0 and the amount |
| WithdrawalController.RequestWithdrawal | backend/controllers/withdrawalController.js:13-71 | the guards run in order (below 300, then balance below amount, then no account name), and a rejection changes nothing; success appends one pending withdrawal with tax percentage 12 and its tax and net, debits the full amount (the balance stays >= 0), appends two pending withdrawal entries of -net and -tax, keeps the store reconciled, and leaves the pair intact when the window was empty |
| WithdrawalController.RecordWithdrawal | backend/controllers/withdrawalController.js:35-71 | once the guards pass: the new id is the old count, one pending withdrawal is appended, the full amount is debited, two pending entries are appended, reconciliation is kept and an empty window ends with the pair intact |
| WithdrawalController.DebitPairBalances | backend/controllers/withdrawalController.js:56-71 | the two debit entries move the requester's ledger balance by -(net + tax) and no other user's |
| WithdrawalController.DebitPairWindow | backend/controllers/withdrawalController.js:56-71 | appended to an empty window, the two debits make its total -(net + tax) with every window entry pending |
| WithdrawalController.DebitPairReconciles | backend/controllers/withdrawalController.js:52-71 | debiting the full amount from the wallet while the ledger gains the net and tax debits keeps wallets and ledger in agreement |
| WithdrawalController.ApplyStatusUpdate | backend/controllers/withdrawalController.js:124-147 | the update shared by both versions: credit the refund, overwrite status and remarks, set processedAt only for completed or rejected, re-status exactly the window; it keeps the pair intact and keeps the store reconciled iff the refund equals the ledger change of the re-statusing |
| WithdrawalController.StatusUpdateReconcilesIff | backend/controllers/withdrawalController.js:124-147 | from agreement with the pair intact, crediting a refund while re-statusing the pair keeps agreement exactly when the refund is the pair's ledger delta |
| WithdrawalController.UpdateWithdrawalStatus | backend/controllers/withdrawalController.js:116-147 | the unrouted version: an unknown id is not found and changes nothing; any status may follow any other; the refund is paid iff the new status is rejected and the old one is not; reconciliation survives iff the update does not move a withdrawal out of rejected |
| AdminController.UpdateWithdrawalStatus | backend/controllers/adminController.js:106-137 | the routed version: refunds only a rejection of a pending withdrawal; no transition guard; reconciliation survives iff the update is neither a rejection of a processing or completed withdrawal nor a move out of rejected |
| WithdrawalLifecycle.LedgerStatusFor | backend/controllers/adminController.js:136 | a ledger entry is set to cancelled iff the withdrawal is rejected; other statuses are copied |
| WithdrawalLifecycle.PairDeltaIsLedgerChange | backend/controllers/adminController.js:127-137 | with the pair intact, re-statusing moves the owner's ledger balance by exactly PairDelta and no other user's |
| WithdrawalLifecycle.RestatusKeepsPair | backend/controllers/adminController.js:127-137 | the re-statused window still holds the pair, now mirroring the new status |
| WithdrawalLifecycle.RoutedRefundReconcilesIff | backend/controllers/adminController.js:114-117 | the routed refund equals the ledger change iff the update is not a rejection from processing or completed and not a move out of rejected |
| WithdrawalLifecycle.UnroutedRefundReconcilesIff | backend/controllers/withdrawalController.js:124-127 | the unrouted refund equals the ledger change iff the update is not a move out of rejected |
| WithdrawalLifecycle.RejectionCancelsOnlyWindow | backend/controllers/adminController.js:127-137 | after a rejection every entry within ±1000 ms is cancelled, and a withdrawal entry of the same user 1000-2000 ms later is left as it was |
| Ledger.Select | backend/controllers/transactionController.js:28-34 | a query's result holds exactly the matching entries of the ledger |
| Ledger.SelectMultiplicity | backend/controllers/transactionController.js:28-34 | each matching entry occurs in the result as often as in the ledger, and no other entry occurs |
| Ledger.AbsSum | backend/controllers/adminController.js:15-18 | a sum of absolute amounts is never negative |
| Ledger.NoMatchSum | backend/controllers/adminController.js:30-31 | when nothing matches, the selection is empty and both sums are 0 |
| Ledger.AbsSumOfDebits | backend/controllers/transactionController.js:63 | over debits only, the sum of absolute values is minus the sum |
| Ledger.LedgerBalanceByKind | backend/controllers/transactionController.js:28-42 | a user's ledger balance is the sum of the non-cancelled task-reward, referral-bonus and withdrawal totals |
| Ledger.LedgerBalanceAbsent | backend/controllers/authController.js:45-52 | a user with no entries has ledger balance 0 |
| Ledger.LedgerBalanceSetSame | backend/controllers/adminController.js:168-176 | rewriting one entry without changing its owner, amount or whether it counts leaves every ledger balance unchanged |
| Ledger.Restatus | backend/controllers/adminController.js:127-137 | the update touches exactly the entries of the user, of type withdrawal, within ±1000 ms, and sets their status; all others are unchanged |
| Ledger.RestatusBalance | backend/controllers/adminController.js:127-137 | re-statusing changes only the owner's ledger balance: the counted part of the window leaves it, and the whole window comes back unless the new status is cancelled |
| Ledger.RestatusWindowTotal | backend/controllers/adminController.js:127-137 | re-statusing keeps the window's total amount |
| Ledger.UniformWindowCounted | backend/controllers/adminController.js:127-137 | a window of one status counts fully, or not at all when that status is cancelled |
| Ledger.WindowTotalAppend | backend/controllers/withdrawalController.js:56-71 | appending an entry adds its amount to the window total iff it lies in the window |
| Ledger.EmptyWindowTotal | backend/controllers/withdrawalController.js:56-71 | an empty window totals 0 |
| Ledger.FirstMatch | backend/controllers/adminController.js:168-176 | findOne: the first matching index, with none before it; None iff nothing matches |
| AdminController.ApprovePackagePurchase | backend/controllers/adminController.js:153-176 | the user is checked before the package, and a miss changes nothing; success sets currentPackage and packagePurchaseDate and completes at most the first pending purchase entry; no wallet changes; reconciliation is kept |
| AdminController.ToggleUserStatus | backend/controllers/adminController.js:209-215 | an unknown user is not found; otherwise only isActive of that user is negated |
| AdminController.NonAdminIds | backend/controllers/adminController.js:10 | exactly the ids of non-admin users |
| AdminController.UsersNewestFirst | backend/controllers/adminController.js:22-23 | all non-admin users, newest first |
| AdminController.RecentUsers | backend/controllers/adminController.js:22-25 | at most five non-admin users, newest first, and every non-admin left out is no newer than any listed |
| AdminController.RecentPrefix | backend/controllers/adminController.js:22-25 | the list holds five users, or every non-admin when there are fewer, all non-admin and ordered newest first |
| AdminController.RecentTopK | backend/controllers/adminController.js:22-25 | every non-admin user left out of the five newest is no newer than any listed one |
| AdminController.TotalEarnings | backend/controllers/adminController.js:11-14 | the sum of all task-reward amounts, 0 when there is none |
| AdminController.TotalWithdrawals | backend/controllers/adminController.js:15-18 | the sum of absolute amounts of completed withdrawal entries: never negative, 0 when there is none |
| AdminController.TotalEarningsAppend | backend/controllers/adminController.js:11-14 | appending an entry adds its amount to the earnings iff it is a task reward |
| AdminController.TotalWithdrawalsIsPaidOut | backend/controllers/adminController.js:15-18 | when withdrawal entries are debits, the dashboard figure is minus the sum of the completed ones |
| AdminController.DashboardStats | backend/controllers/adminController.js:8-36 | totalUsers counts non-admins, pendingWithdrawals counts the pending withdrawals, activePackages counts the users holding a package; the sums and the recent-user list are the functions above |
| AdminController.GetAllUsers | backend/controllers/adminController.js:55-68 | non-admin users newest first, at most `limit` per page, total and page count (the ceiling of total over limit) reported |
| AdminController.GetAllUsersCovers | backend/controllers/adminController.js:55-66 | every non-admin user appears on some page between 1 and totalPages |
| AdminController.GetAllWithdrawals | backend/controllers/adminController.js:80-94 | at most `limit` withdrawals per page, each in the requested status (any when none is given), newest first; total is the number the filter selects and the page count its ceiling over the limit |
| AdminController.WithdrawalsNewestFirst | backend/controllers/adminController.js:80-86 | holds exactly the withdrawals the status filter selects, as many as it selects, newest first |
| AdminController.GetAllWithdrawalsCovers | backend/controllers/adminController.js:80-94 | every withdrawal the filter selects appears on some page between 1 and totalPages |
| AdminController.GetAllTransactions | backend/controllers/adminController.js:231-247 | at most `limit` ledger entries per page, each of the requested type (any when none is given), newest first; total is the number the filter selects and the page count its ceiling over the limit |
| AdminController.EntriesNewestFirst | backend/controllers/adminController.js:231-239 | holds exactly the ledger entries the type filter selects, as many as it selects, newest first |
| AdminController.GetAllTransactionsCovers | backend/controllers/adminController.js:231-247 | every ledger entry the filter selects appears on some page between 1 and totalPages |
| Listing.IdsWhere | backend/controllers/adminController.js:10 | exactly the ids that satisfy the filter, in increasing order |
| Listing.Count | backend/controllers/taskController.js:19-23 | a count never exceeds the collection, and is 0 iff nothing matches |
| Listing.IdsWhereCount | backend/controllers/adminController.js:10-20 | listing the ids whose record passes a filter finds exactly as many as counting the records that pass it |
| Listing.CountSet | backend/controllers/taskController.js:139-141 | rewriting one record changes a count by whether the old and the new record match |
| Listing.Insert | backend/controllers/packageController.js:8 | inserting into a sorted sequence keeps it sorted and adds exactly the element |
| Listing.SortBy | backend/controllers/packageController.js:8 | the result is sorted and a permutation of the input |
| Listing.Take | backend/controllers/transactionController.js:17 | a prefix of at most n elements; a limit of 0 takes everything |
| Listing.NewestFirst | backend/controllers/adminController.js:57 | exactly the filtered ids, as many as the filter selects, in descending creation time |
| Listing.NewestLimited | backend/controllers/transactionController.js:16-17 | a sub-multiset of the input of the limited length, newest first, and nothing left out is newer than anything kept |
| Listing.TotalPages | backend/controllers/adminController.js:66 | the ceiling of count over limit: enough pages to hold count, and no empty last page |
| Listing.Page | backend/controllers/adminController.js:58-59 | skips (page - 1) * limit records and returns at most limit, exactly limit when that many remain |
| Listing.PageNonEmptyIff | backend/controllers/adminController.js:58-66 | a page is non-empty iff its number is at most totalPages |
| Listing.PageCovers | backend/controllers/adminController.js:58-66 | record i is found on page i / limit + 1 at offset i mod limit |
| Listing.Paginate | backend/controllers/adminController.js:55-69 | total is the record count and the page count its ceiling over the limit; the page is non-empty exactly when it is within the page count, holds at most `limit` records, namely the ones that follow the `(page - 1) * limit` skipped ones in order, and is full while enough records remain |
| TaskController.CompletedToday | backend/controllers/taskController.js:81-85 | counts attempts of the user that are completed with completedAt at or after todayStart; 0 iff there is none |
| TaskController.GetAvailableTasks | backend/controllers/taskController.js:11-56 | no package is an error; a used-up quota lists nothing; otherwise exactly the active tasks without an attempt of the user completed today, with remaining quota and reward per task |
| TaskController.StartedTaskStillListed | backend/controllers/taskController.js:40-48 | a task started today but not completed stays in the available list although starting it again is refused |
| TaskController.CompletedTaskHiddenButStartable | backend/controllers/taskController.js:40-100 | a task started yesterday and completed today is hidden from the list although the start check would accept it |
| TaskController.StartTask | backend/controllers/taskController.js:68-107 | guards in order (no package, task missing or inactive, quota used, started today), and a failure changes nothing; success appends one in-progress attempt carrying the package's reward; no start consumes quota |
| TaskController.CompleteTask | backend/controllers/taskController.js:124-158 | guards in order (no record, another user's, already completed) with no change; success completes the attempt, credits balance and earnings by the reward, counts the task and appends one completed reward entry, keeping reconciliation; if the catalog task was deleted, the attempt and wallet are still updated but no entry is written, so the balance exceeds the ledger balance by exactly the reward |
| TaskController.CompletionCountsOnce | backend/controllers/taskController.js:139-141 | completing an attempt that was not completed raises the user's completed-today count by exactly one |
| TaskController.NewTask | backend/controllers/taskController.js:195-202 | a created task takes the given fields, with type other, duration 30 and active as defaults |
| TaskController.Patched | backend/controllers/taskController.js:241-246 | title and description change only when given non-empty, the other fields whenever given |
| TaskController.EmptyPatch | backend/controllers/taskController.js:241-246 | an update with no fields leaves the task as it was |
| TaskController.CreateTask | backend/controllers/taskController.js:191-202 | a missing or empty title or description is rejected with no change; otherwise one task is appended |
| TaskController.UpdateTask | backend/controllers/taskController.js:227-246 | a missing task, then a given but blank title, then a given but blank description is rejected with no change; otherwise the patch is applied |
| TaskController.DeleteTask | backend/controllers/taskController.js:262-267 | a missing task is not found; otherwise only that task is removed |
| TaskController.ToggleTaskStatus | backend/controllers/taskController.js:280-286 | a missing task is not found; otherwise only isActive of that task is negated |
| AuthController.FreshReferralCode | backend/controllers/authController.js:14-43 | the code starts with REF, no user holds it, and every earlier draw was taken |
| AuthController.ReferralBonus | backend/controllers/authController.js:56 | the configured bonus, or 10 when it is absent or 0; never 0 |
| AuthController.ZeroBonusIsTen | backend/controllers/authController.js:56 | for every setting, the bonus is 10 exactly when the setting is absent, 0 or 10 |
| AuthController.FindBy | backend/controllers/authController.js:23-30 | findOne by a key: the first user with that key, None iff there is none |
| AuthController.Register | backend/controllers/authController.js:23-70 | an existing email or username, then an unknown referral code, is rejected with no change; success appends one user with a fresh REF code and a zero wallet; without a code nothing else changes; with one the referrer's balance, referral earnings and count rise and one completed bonus entry is appended; reconciliation is kept |
| AuthController.Enrol | backend/controllers/authController.js:37-70 | once the guards pass: the new user gets the next id, a fresh REF code and the fields of a new account; without a referrer no other user and no entry changes; with one the referrer is credited the bonus with one bonus entry; reconciliation is kept |
| AuthController.AddUser | backend/controllers/authController.js:45-52 | appending a user with unique keys and a zero wallet keeps the store valid and reconciled |
| AuthController.CreditReferrer | backend/controllers/authController.js:55-70 | the referrer's balance and referral earnings rise by the bonus, the count by one, one bonus entry is appended, reconciliation is kept |
| AuthController.PackageViewOf | backend/controllers/authController.js:116-131 | no package gives no status; a pending purchase entry for the current package shows it as pending with no current package; otherwise approved |
| AuthController.Login | backend/controllers/authController.js:94-131 | an unknown email and a wrong password are invalid credentials, a right password on an inactive account is a deactivated account; success exactly when the password matches an active account, returning that user's record with the package view PackageViewOf derives for it |
| AuthController.GetProfile | backend/controllers/authController.js:155-179 | the caller's record with the package view PackageViewOf derives for it, as in login |
| AuthController.LoginMatchesProfile | backend/controllers/authController.js:116-179 | login and profile derive the same package view for the same user |
| PackageController.GetPackages | backend/controllers/packageController.js:8 | exactly the active packages, ordered by ascending price |
| PackageController.ActivePackages | backend/controllers/packageController.js:8 | a package is listed iff it is active |
| PackageController.PurchasePackage | backend/controllers/packageController.js:34-60 | no proof and no transaction id is rejected first, then an unknown package, with no change; success sets the package and date and appends one pending entry of -price; no wallet changes, the view shows the package as awaiting approval, reconciliation is kept |
| PackageController.NewPackage | backend/controllers/packageController.js:80-91 | totalEarnings is tasksPerDay * rewardPerTask * totalDays; the other fields are copied and the package is active |
| PackageController.TotalEarningsIsFullQuota | backend/controllers/packageController.js:80 | totalEarnings equals the rewards of a full quota on each of totalDays days |
| PackageController.CreatePackage | backend/controllers/packageController.js:76-91 | a missing required field, then a taken name, is rejected with no change; otherwise one package is appended |
| TransactionController.EffectiveLimit | backend/controllers/transactionController.js:6 | the requested limit, or 50 when none is given |
| TransactionController.GetTransactions | backend/controllers/transactionController.js:6-17 | only the caller's entries of the optional type, each at most as often as the ledger holds it, newest first, as many as match up to the effective limit (0 meaning no limit), and no entry left out is newer than one kept |
| TransactionController.Group | backend/controllers/transactionController.js:29-49 | count and total over the user's non-cancelled entries of one type; 0 and 0 when there is none |
| TransactionController.GetTransactionStats | backend/controllers/transactionController.js:51-63 | the four categories are the groups above, with the withdrawals total reported as its absolute value |
| TransactionController.StatsExplainBalance | backend/controllers/transactionController.js:28-63 | when the user's withdrawal entries are debits, task rewards plus referral bonuses minus withdrawals equals the user's ledger balance |
| MigrateWithdrawals.Selected | backend/migrateWithdrawals.js:13-20 | exactly the withdrawals missing tax or net, in store order |
| MigrateWithdrawals.Backfilled | backend/migrateWithdrawals.js:34-40 | tax percentage 12, tax and net computed from the unchanged amount and adding up to it; nothing else changes and nothing more is needed |
| MigrateWithdrawals.Migrated | backend/migrateWithdrawals.js:32-43 | selected withdrawals are backfilled, the others kept |
| MigrateWithdrawals.MigratedNeedsNothing | backend/migrateWithdrawals.js:13-43 | after the migration no withdrawal needs it |
| MigrateWithdrawals.NothingSelectedNoChange | backend/migrateWithdrawals.js:24-27 | when nothing is selected the migration changes nothing |
| MigrateWithdrawals.MigrationIdempotent | backend/migrateWithdrawals.js:13-43 | a second run changes nothing |
| MigrateWithdrawals.Migrate | backend/migrateWithdrawals.js:13-51 | the loop leaves the withdrawals migrated and reports as many updates as were selected |
| UserModel.Credit | backend/controllers/withdrawalController.js:52 | moves the balance by delta and changes nothing else |
| UserModel.TaskRewarded | backend/controllers/taskController.js:145-147 | balance and earnings rise by the reward, tasksCompleted by one, nothing else changes |
| UserModel.ReferralRewarded | backend/controllers/authController.js:57-59 | balance and referral earnings rise by the bonus, referralCount by one, nothing else changes |
| Scenarios.RequestThenReject | backend/controllers/adminController.js:114-137 | a request rejected while pending restores every wallet and keeps the store reconciled |
| Scenarios.RejectAfterProcessing | backend/controllers/adminController.js:114-137 | a request moved to processing and then rejected leaves the user short by the amount and the store not reconciled |
| Scenarios.RejectPending | backend/controllers/adminController.js:114-137 | rejecting a pending withdrawal with its pair intact refunds its whole amount to its owner and keeps the store reconciled |
| Scenarios.ProcessThenReject | backend/controllers/adminController.js:114-137 | moving a pending withdrawal to processing and then rejecting it changes no wallet and leaves the store not reconciled |
| Scenarios.RejectProcessing | backend/controllers/adminController.js:114-137 | rejecting a processing withdrawal with its pair intact changes no wallet and leaves the store not reconciled |
| Scenarios.ToggleUserTwice | backend/controllers/adminController.js:214 | toggling a user twice restores every user |
| Scenarios.ToggleTaskTwice | backend/controllers/taskController.js:285 | toggling a task twice restores the catalog |

The schema files become datatypes with their enums and defaults. The withdrawal model
(backend/models/Withdrawal.js) has the status and payment-method enums, default `pending` and
tax percentage 12. The ledger model (backend/models/Transaction.js) has four types and the
status enum plus `processing`, which the withdrawal update writes although the schema lacks it.
The attempt model (backend/models/UserTask.js) has its four statuses. The package model
(backend/models/Package.js) has `isActive` defaulting to true. The task model
(backend/models/Task.js) has type `other`, duration 30 and `isActive` true as defaults.

## Left out

- HTTP and routing: responses become `Result` values. The admin guard of the admin routes is the precondition `IsAdmin`. Which version of the withdrawal update is routed is stated in prose; both are modelled.
- Persistence and async machinery (`populate`, `save`, `aggregate`): collections are sequences and ids are positions, so sorting by ObjectId and casting failures of malformed ids do not arise.
- Concurrency: each handler is one atomic step, so the check-then-write races on the balance and on the quota are not represented.
- Crash windows between writes are not modelled. The one failure after writes that the model does include is completing an attempt whose catalog task was deleted: both saves succeed, because validation of a populated path that is null falls back to the stored id, and the handler then fails reading the task's title.
- JWT signing and bcrypt: the password check is the parameter `passwordMatches`, and tokens are not produced.
- AuthController.FreshReferralCode: the random draws are a parameter, and the method requires a draw that is not taken. The source retries forever when every draw is taken.
- Floating point: amounts are integers. Rounding of 12 % uses halves-up integer arithmetic, which equals `Math.round` for integer amounts.
- The wall clock: `now` and `todayStart` are parameters.
- The diagnostic, seed and demo scripts, the task-cleanup cron job and the upload middleware are not part of this model. The diagnostic's wider ±2000 ms window is only related to the update through WithdrawalLifecycle.RejectionCancelsOnlyWindow.
- The User schema is not part of this model. Its fields are inferred from the controllers, and a new user starts with a zero wallet and zero counters.
- Request values outside the enums, non-numeric amounts and null or undefined fields beyond those modelled as `Option` are not modelled. In particular `findOne` with an undefined email or username is not modelled.
- AdminController.GetAllUsers: the case-insensitive search on username and email is not modelled; the listing is unfiltered.
- AdminController.GetAllUsers, AdminController.GetAllWithdrawals, AdminController.GetAllTransactions: page and limit are required to be at least 1, because the source's arithmetic on other values yields NaN or negative skips.
- TransactionController.GetTransactions: `parseInt` of a non-numeric or negative limit is not modelled; the limit, when given, is a natural number.
- AdminController.GetAllUsers, AdminController.GetAllWithdrawals, AdminController.GetAllTransactions: the query-string defaults (page 1; limit 20, 20 and 50) are not modelled; callers pass page and limit.
- Descriptions, features text, phone numbers, payment-method names in descriptions and response shapes are not modelled.
- The read-only handlers that only forward a query are not modelled: getWithdrawals, the unrouted getAllWithdrawals of the withdrawal controller, getTaskHistory, getAllTasks, getPackage, getPendingPackages and getReferrals.
- TaskController.UpdateTask: `trim` is modelled by the set of JavaScript white-space characters the model lists; a title or description that is not a string is not modelled.
- PackageController.CreatePackage: the unique index on the package name and the schema's required fields are modelled as errors of the create; package updates and deletion are not modelled (the source has no handler for them).
