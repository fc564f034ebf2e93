/** backend/models/Withdrawal.js: a cash-out request. Amount, tax and net are in whole rupees. */
module WithdrawalModel {
  import opened Outcomes
  import opened Ids

  datatype Status = Pending | Processing | Completed | Rejected

  const DefaultStatus: Status := Pending
  const DefaultTaxPercentage := 12

  /** The five payment rails a withdrawal may be paid through. */
  datatype PaymentMethod = NayaPay | JazzCash | EasyPaisa | Raast | Zindigi

  datatype AccountDetails = AccountDetails(
    accountName: Option<string>,
    accountNumber: Option<string>,
    bankName: Option<string>,
    phoneNumber: Option<string>)

  /** taxAmount and netAmount are required by the schema, but records written before the
      tax fields existed lack them; `None` stands for such a missing or null field. */
  datatype Withdrawal = Withdrawal(
    user: UserId,
    amount: int,
    taxPercentage: int,
    taxAmount: Option<int>,
    netAmount: Option<int>,
    payMethod: PaymentMethod,
    accountDetails: Option<AccountDetails>,
    status: Status,
    processedAt: Option<int>,
    remarks: Option<string>,
    createdAt: int)
}

/** backend/models/Transaction.js: one ledger entry. Credits are positive, debits negative. */
module TransactionModel {
  import opened Outcomes
  import opened Ids

  datatype Kind = TaskReward | ReferralBonus | PackagePurchase | WithdrawalDebit

  /** The schema's enum is pending, completed, failed, cancelled. `Processing` is not in it,
      but the withdrawal status update writes it through an update that skips validation. */
  datatype Status = Pending | Completed | Failed | Cancelled | Processing

  const DefaultStatus: Status := Completed

  datatype Transaction = Transaction(
    user: UserId,
    kind: Kind,
    amount: int,
    status: Status,
    createdAt: int,
    relatedTask: Option<TaskId>,
    relatedPackage: Option<PackageId>,
    paymentProof: Option<string>,
    transactionId: Option<string>)
}

/** backend/models/UserTask.js: one attempt of a user at a catalog task. The index on
    (user, task, createdAt) is not unique, so nothing in the store forbids duplicates. */
module UserTaskModel {
  import opened Outcomes
  import opened Ids

  datatype Status = Pending | InProgress | Completed | Verified

  const DefaultStatus: Status := Pending

  datatype UserTask = UserTask(
    user: UserId,
    task: TaskId,
    status: Status,
    reward: int,
    completedAt: Option<int>,
    createdAt: int)
}

/** backend/models/Package.js: a catalog tier. `name` carries a unique index. */
module PackageModel {
  datatype Package = Package(
    name: string,
    price: int,
    description: string,
    tasksPerDay: int,
    rewardPerTask: int,
    totalDays: int,
    totalEarnings: int,
    features: seq<string>,
    isActive: bool)

  const DefaultIsActive := true
}

/** backend/models/Task.js: a catalog task. */
module TaskModel {
  import opened Outcomes

  datatype Type = WatchVideo | ClickAd | Survey | SocialMedia | Other

  const DefaultType: Type := Other
  const DefaultDuration := 30
  const DefaultIsActive := true

  datatype Task = Task(
    title: string,
    description: string,
    kind: Type,
    url: Option<string>,
    duration: int,
    isActive: bool)
}

/** The User record. Its schema file is not part of this model; the fields are the ones the
    controllers read and write, and a new user starts with a zero wallet and zero counters. */
module UserModel {
  import opened Outcomes
  import opened Ids

  datatype Wallet = Wallet(balance: int, earnings: int, referralEarnings: int)

  datatype User = User(
    username: string,
    email: string,
    referralCode: string,
    referredBy: Option<UserId>,
    wallet: Wallet,
    tasksCompleted: int,
    referralCount: int,
    currentPackage: Option<PackageId>,
    packagePurchaseDate: Option<int>,
    isActive: bool,
    isAdmin: bool,
    createdAt: int)

  /** `u` with `delta` added to the spendable balance and nothing else changed. */
  function Credit(u: User, delta: int): (v: User)
    ensures v.wallet.balance == u.wallet.balance + delta
    ensures v == u.(wallet := v.wallet) && v.wallet == u.wallet.(balance := v.wallet.balance)
  {
    u.(wallet := u.wallet.(balance := u.wallet.balance + delta))
  }

  /** `u` after completing a task worth `reward`: balance and lifetime earnings rise by it,
      the completed-task counter by one, and nothing else changes. */
  function TaskRewarded(u: User, reward: int): (v: User)
    ensures v.wallet.balance == u.wallet.balance + reward && v.wallet.earnings == u.wallet.earnings + reward
    ensures v.tasksCompleted == u.tasksCompleted + 1
    ensures v == u.(wallet := v.wallet, tasksCompleted := v.tasksCompleted)
    ensures v.wallet.referralEarnings == u.wallet.referralEarnings
  {
    u.(wallet := u.wallet.(balance := u.wallet.balance + reward, earnings := u.wallet.earnings + reward),
       tasksCompleted := u.tasksCompleted + 1)
  }

  /** `u` after one of their referrals registers: balance and referral earnings rise by the
      bonus, the referral counter by one, and nothing else changes. */
  function ReferralRewarded(u: User, bonus: int): (v: User)
    ensures v.wallet.balance == u.wallet.balance + bonus && v.wallet.referralEarnings == u.wallet.referralEarnings + bonus
    ensures v.referralCount == u.referralCount + 1
    ensures v == u.(wallet := v.wallet, referralCount := v.referralCount)
    ensures v.wallet.earnings == u.wallet.earnings
  {
    u.(wallet := u.wallet.(balance := u.wallet.balance + bonus, referralEarnings := u.wallet.referralEarnings + bonus),
       referralCount := u.referralCount + 1)
  }
}
