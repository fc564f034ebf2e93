/** backend/controllers/transactionController.js: a user's ledger history and the per-kind
    statistics over it. Both only read the ledger. */
module TransactionController {
  import opened Outcomes
  import opened Ids
  import opened TransactionModel
  import Ledger
  import Listing

  const DefaultLimit := 50

  function CreatedAt(e: Transaction): int {
    e.createdAt
  }

  /** The limit getTransactions applies: the requested one, or 50 when none is given. */
  function EffectiveLimit(limit: Option<nat>): (n: nat)
    ensures limit.None? ==> n == DefaultLimit
    ensures limit.Some? ==> n == limit.value
  {
    match limit
    case None => DefaultLimit
    case Some(n) => n
  }

  /** getTransactions: the caller's entries, of the given kind when one is given, newest
      first, at most the effective limit of them (0 meaning no limit), each at most as often
      as the ledger holds it; nothing left out is newer than what is returned. */
  function GetTransactions(ledger: seq<Transaction>, uid: UserId, kind: Option<Kind>, limit: Option<nat>): (r: seq<Transaction>)
    ensures forall e :: e in r ==> e in ledger && e.user == uid && (kind.None? || e.kind == kind.value)
    ensures multiset(r) <= multiset(Ledger.Select(ledger, Ledger.Query(Some(uid), kind, None, Ledger.AnyStatus)))
    ensures forall j, k :: 0 <= j < k < |r| ==> r[j].createdAt >= r[k].createdAt
    ensures var matching := Ledger.Select(ledger, Ledger.Query(Some(uid), kind, None, Ledger.AnyStatus));
      var n := EffectiveLimit(limit);
      |r| == if n == 0 || |matching| < n then |matching| else n
    ensures forall i :: 0 <= i < |ledger| && ledger[i].user == uid && (kind.None? || ledger[i].kind == kind.value) && ledger[i] !in r ==>
      forall e :: e in r ==> ledger[i].createdAt <= e.createdAt
  {
    var matching := Ledger.Select(ledger, Ledger.Query(Some(uid), kind, None, Ledger.AnyStatus));
    var r := Listing.NewestLimited(matching, CreatedAt, EffectiveLimit(limit));
    forall e | e in r ensures e in matching {
      assert e in multiset(r);
    }
    forall i | 0 <= i < |ledger| && ledger[i].user == uid && (kind.None? || ledger[i].kind == kind.value) && ledger[i] !in r
      ensures forall e :: e in r ==> ledger[i].createdAt <= e.createdAt
    {
      assert Ledger.Matches(Ledger.Query(Some(uid), kind, None, Ledger.AnyStatus), ledger[i]);
      assert ledger[i] in matching;
      forall e | e in r ensures CreatedAt(ledger[i]) <= CreatedAt(e) { }
    }
    r
  }

  /** One category of the statistics. */
  datatype Stat = Stat(total: int, count: nat)

  datatype Stats = Stats(taskRewards: Stat, referralBonus: Stat, packagePurchases: Stat, withdrawals: Stat)

  /** The entries of one kind that the statistics see: the user's, not cancelled (pending
      ones included). */
  function Counted(ledger: seq<Transaction>, uid: UserId, kind: Kind): seq<Transaction> {
    Ledger.Select(ledger, Ledger.Query(Some(uid), Some(kind), None, Ledger.StatusNot(Cancelled)))
  }

  /** The group of one kind: its summed amounts and its size; a kind with no entries keeps
      the default of zero and zero. */
  function Group(ledger: seq<Transaction>, uid: UserId, kind: Kind): (s: Stat)
    ensures s.count == |Counted(ledger, uid, kind)|
    ensures s.total == Ledger.Sum(Counted(ledger, uid, kind))
    ensures (forall i :: 0 <= i < |ledger| ==> !(ledger[i].user == uid && ledger[i].kind == kind && ledger[i].status != Cancelled))
            ==> s == Stat(0, 0)
  {
    var q := Ledger.Query(Some(uid), Some(kind), None, Ledger.StatusNot(Cancelled));
    assert (forall i :: 0 <= i < |ledger| ==> !(ledger[i].user == uid && ledger[i].kind == kind && ledger[i].status != Cancelled))
           ==> Ledger.Select(ledger, q) == [] by {
      if forall i :: 0 <= i < |ledger| ==> !(ledger[i].user == uid && ledger[i].kind == kind && ledger[i].status != Cancelled) {
        Ledger.NoMatchSum(ledger, q);
      }
    }
    Stat(Ledger.Sum(Counted(ledger, uid, kind)), |Counted(ledger, uid, kind)|)
  }

  /** getTransactionStats: the four groups, the withdrawals total reported as a magnitude. */
  function GetTransactionStats(ledger: seq<Transaction>, uid: UserId): (r: Stats)
    ensures r.taskRewards == Group(ledger, uid, TaskReward)
    ensures r.referralBonus == Group(ledger, uid, ReferralBonus)
    ensures r.packagePurchases == Group(ledger, uid, PackagePurchase)
    ensures r.withdrawals.count == Group(ledger, uid, WithdrawalDebit).count
    ensures r.withdrawals.total >= 0
    ensures r.withdrawals.total == Group(ledger, uid, WithdrawalDebit).total || r.withdrawals.total == -Group(ledger, uid, WithdrawalDebit).total
  {
    var w := Group(ledger, uid, WithdrawalDebit);
    Stats(Group(ledger, uid, TaskReward), Group(ledger, uid, ReferralBonus), Group(ledger, uid, PackagePurchase),
          Stat(if w.total < 0 then -w.total else w.total, w.count))
  }

  /** The statistics account for the user's whole ledger balance: rewards plus bonuses minus
      withdrawals, provided every withdrawal entry of the user is a debit. Package purchases
      do not enter the balance. */
  lemma StatsExplainBalance(ledger: seq<Transaction>, uid: UserId)
    requires forall i :: 0 <= i < |ledger| && ledger[i].user == uid && ledger[i].kind == WithdrawalDebit ==> ledger[i].amount <= 0
    ensures var s := GetTransactionStats(ledger, uid);
      Ledger.LedgerBalance(ledger, uid) == s.taskRewards.total + s.referralBonus.total - s.withdrawals.total
  {
    Ledger.LedgerBalanceByKind(ledger, uid);
    var w := Counted(ledger, uid, WithdrawalDebit);
    assert forall k :: 0 <= k < |w| ==> w[k] in w;
    Ledger.AbsSumOfDebits(w);
  }
}
