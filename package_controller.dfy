/** backend/controllers/packageController.js: the catalog listing, a user's purchase (recorded
    as a pending ledger entry awaiting an admin's approval) and the admin's package creation. */
module PackageController {
  import opened Outcomes
  import opened Ids
  import opened UserModel
  import opened PackageModel
  import T = TransactionModel
  import Ledger
  import Listing
  import AuthController
  import opened Store

  function PriceOf(packages: seq<Package>): nat -> int {
    (i: nat) => if i < |packages| then packages[i].price else 0
  }

  /** The ids of the active packages, in store order. */
  function ActivePackages(packages: seq<Package>): (r: seq<PackageId>)
    ensures forall i: nat :: i in r <==> i < |packages| && packages[i].isActive
  {
    Listing.IdsWhere(|packages|, (i: nat) => i < |packages| && packages[i].isActive)
  }

  /** getPackages: the active packages, cheapest first. */
  function GetPackages(packages: seq<Package>): (r: seq<PackageId>)
    ensures forall i: nat :: i in r <==> i < |packages| && packages[i].isActive
    ensures forall k :: 0 <= k < |r| ==> r[k] < |packages|
    ensures forall j, k :: 0 <= j < k < |r| ==> packages[r[j]].price <= packages[r[k]].price
    ensures multiset(r) == multiset(ActivePackages(packages))
  {
    var active := ActivePackages(packages);
    var r := Listing.SortBy(active, PriceOf(packages));
    SameMembers(r, active);
    SortedPrices(packages, r);
    r
  }

  /** Two sequences with the same multiset have the same members. */
  lemma SameMembers(r: seq<PackageId>, s: seq<PackageId>)
    requires multiset(r) == multiset(s)
    ensures forall i: nat :: i in r <==> i in s
  {
    forall i: nat ensures i in r <==> i in s {
      assert i in r <==> i in multiset(r);
      assert i in s <==> i in multiset(s);
    }
  }

  /** Sorted by PriceOf means ordered by price when every id is in range. */
  lemma SortedPrices(packages: seq<Package>, r: seq<PackageId>)
    requires Listing.SortedBy(r, PriceOf(packages))
    requires forall i: nat :: i in r ==> i < |packages|
    ensures forall k :: 0 <= k < |r| ==> r[k] < |packages|
    ensures forall j, k :: 0 <= j < k < |r| ==> packages[r[j]].price <= packages[r[k]].price
  {
    assert forall k :: 0 <= k < |r| ==> r[k] in r;
  }

  /** The pending ledger entry of a purchase; proof and transaction id are kept only when
      truthy. */
  function PurchaseEntry(uid: UserId, p: PackageId, price: int, paymentProof: Option<string>,
                         transactionId: Option<string>, now: int): T.Transaction {
    T.Transaction(uid, T.PackagePurchase, -price, T.Pending, now, None, Some(p),
                  if Truthy(paymentProof) then paymentProof else None,
                  if Truthy(transactionId) then transactionId else None)
  }

  /** purchasePackage, for user `uid`. The proof check comes before the package lookup. The
      package is assigned at once; the wallet is not debited and neither the balance nor the
      package's active flag is checked. */
  method PurchasePackage(db: Database, uid: UserId, packageId: nat, paymentProof: Option<string>,
                         transactionId: Option<string>, now: int) returns (r: Result<()>)
    requires db.Valid() && uid < |db.users|
    modifies db`users, db`ledger
    ensures db.Valid()
    ensures !Truthy(paymentProof) && !Truthy(transactionId) ==> r == Err(MissingPaymentProof)
    ensures (Truthy(paymentProof) || Truthy(transactionId)) && packageId >= |db.packages| ==> r == Err(PackageNotFound)
    ensures r.Ok? <==> (Truthy(paymentProof) || Truthy(transactionId)) && packageId < |db.packages|
    ensures r.Err? ==> db.users == old(db.users) && db.ledger == old(db.ledger)
    ensures r.Ok? ==> db.users == old(db.users)[uid := old(db.users[uid]).(currentPackage := Some(packageId), packagePurchaseDate := Some(now))]
    ensures r.Ok? ==> db.ledger == old(db.ledger) + [PurchaseEntry(uid, packageId, db.packages[packageId].price, paymentProof, transactionId, now)]
    ensures forall u :: 0 <= u < |db.users| ==> db.users[u].wallet == old(db.users[u].wallet)
    ensures r.Ok? ==> AuthController.PackageViewOf(db.ledger, uid, db.users[uid].currentPackage)
                      == AuthController.PackageView(None, Some(packageId), Some(AuthController.AwaitingApproval))
    ensures old(db.Reconciled()) ==> db.Reconciled()
  {
    if !Truthy(paymentProof) && !Truthy(transactionId) {
      return Err(MissingPaymentProof);
    }
    if packageId >= |db.packages| {
      return Err(PackageNotFound);
    }
    var pkg := db.packages[packageId];
    var user := db.users[uid];
    ghost var L := db.ledger;
    SetUserKeepsValid(db.users, |db.packages|, uid, user.(currentPackage := Some(packageId), packagePurchaseDate := Some(now)));
    db.users := db.users[uid := user.(currentPackage := Some(packageId), packagePurchaseDate := Some(now))];
    var entry := PurchaseEntry(uid, packageId, pkg.price, paymentProof, transactionId, now);
    db.ledger := db.ledger + [entry];
    forall v | 0 <= v < |db.users|
      ensures Ledger.LedgerBalance(db.ledger, v) == Ledger.LedgerBalance(L, v)
    {
      Ledger.LedgerBalanceAppend(L, entry, v);
    }
    assert Ledger.Matches(Ledger.PendingPurchase(uid, packageId), db.ledger[|L|]);
    r := Ok(());
  }

  /** The body of createPackage. Numbers left out of the body are `None`. */
  datatype PackageFields = PackageFields(
    name: Option<string>,
    price: Option<int>,
    description: Option<string>,
    tasksPerDay: Option<int>,
    rewardPerTask: Option<int>,
    totalDays: Option<int>,
    features: seq<string>)

  /** Every field the schema requires is present (a required string must be non-empty). */
  predicate HasRequiredFields(f: PackageFields) {
    && Truthy(f.name) && Truthy(f.description)
    && f.price.Some? && f.tasksPerDay.Some? && f.rewardPerTask.Some? && f.totalDays.Some?
  }

  /** The package stored for a complete body: the advertised total is tasks per day times
      reward per task times days, and the package starts active. */
  function NewPackage(f: PackageFields): (p: Package)
    requires HasRequiredFields(f)
    ensures p.totalEarnings == f.tasksPerDay.value * f.rewardPerTask.value * f.totalDays.value
    ensures p.name == f.name.value && p.description == f.description.value && p.price == f.price.value
    ensures p.tasksPerDay == f.tasksPerDay.value && p.rewardPerTask == f.rewardPerTask.value && p.totalDays == f.totalDays.value
    ensures p.features == f.features && p.isActive == DefaultIsActive
  {
    Package(f.name.value, f.price.value, f.description.value, f.tasksPerDay.value, f.rewardPerTask.value,
            f.totalDays.value, f.tasksPerDay.value * f.rewardPerTask.value * f.totalDays.value, f.features, DefaultIsActive)
  }

  /** A package earns over its lifetime what a user completing the full quota every day
      would be credited: one reward per task per day. */
  lemma {:induction false} TotalEarningsIsFullQuota(f: PackageFields, days: nat)
    requires HasRequiredFields(f) && days == f.totalDays.value
    ensures NewPackage(f).totalEarnings == DailyRewards(NewPackage(f).tasksPerDay, NewPackage(f).rewardPerTask, days)
    decreases days
  {
    if days > 0 {
      TotalEarningsIsFullQuota(f.(totalDays := Some(days - 1)), days - 1);
    }
  }

  /** Rewards credited by completing `tasks` tasks worth `reward` on each of `days` days. */
  function DailyRewards(tasks: int, reward: int, days: nat): int
    decreases days
  {
    if days == 0 then 0 else DailyRewards(tasks, reward, days - 1) + tasks * reward
  }

  /** createPackage, behind the admin guard: a body missing a required field, or naming an
      existing package, is refused by the store. */
  method CreatePackage(db: Database, caller: UserId, f: PackageFields) returns (r: Result<PackageId>)
    requires db.Valid() && IsAdmin(db, caller)
    modifies db`packages
    ensures db.Valid()
    ensures !HasRequiredFields(f) ==> r == Err(MissingRequiredField)
    ensures HasRequiredFields(f) && (exists i :: 0 <= i < old(|db.packages|) && old(db.packages[i].name) == f.name.value)
            ==> r == Err(DuplicatePackageName)
    ensures r.Ok? <==> HasRequiredFields(f) && forall i :: 0 <= i < old(|db.packages|) ==> old(db.packages[i].name) != f.name.value
    ensures r.Err? ==> db.packages == old(db.packages)
    ensures r.Ok? ==> r.value == old(|db.packages|) && db.packages == old(db.packages) + [NewPackage(f)]
  {
    if !HasRequiredFields(f) {
      return Err(MissingRequiredField);
    }
    if exists i :: 0 <= i < |db.packages| && db.packages[i].name == f.name.value {
      return Err(DuplicatePackageName);
    }
    db.packages := db.packages + [NewPackage(f)];
    r := Ok(|db.packages| - 1);
  }
}
