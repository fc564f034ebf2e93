/** The Transaction collection as a ledger: the filters the controllers pass to find(),
    sums over them, the balance the ledger implies for a user, and the time-window update
    that re-statuses a withdrawal's entries. */
module Ledger {
  import opened Outcomes
  import opened Ids
  import opened TransactionModel

  /** A find() filter: each present component must match; the status test is $eq or $ne. */
  datatype StatusFilter = AnyStatus | StatusIs(wanted: Status) | StatusNot(excluded: Status)

  datatype Query = Query(
    user: Option<UserId>,
    kind: Option<Kind>,
    relatedPackage: Option<PackageId>,
    status: StatusFilter)

  predicate Matches(q: Query, e: Transaction) {
    && (q.user.None? || e.user == q.user.value)
    && (q.kind.None? || e.kind == q.kind.value)
    && (q.relatedPackage.None? || e.relatedPackage == q.relatedPackage)
    && match q.status
       case AnyStatus => true
       case StatusIs(s) => e.status == s
       case StatusNot(s) => e.status != s
  }

  /** The entries matching `q`, in ledger order. */
  function Select(L: seq<Transaction>, q: Query): (r: seq<Transaction>)
    ensures forall e :: e in r ==> e in L && Matches(q, e)
    ensures forall i :: 0 <= i < |L| && Matches(q, L[i]) ==> L[i] in r
    decreases |L|
  {
    if L == [] then []
    else
      var init := L[..|L| - 1];
      assert forall i :: 0 <= i < |init| ==> init[i] == L[i];
      Select(init, q) + (if Matches(q, L[|L| - 1]) then [L[|L| - 1]] else [])
  }

  /** Select keeps every matching entry as often as the ledger holds it, and no other. */
  lemma {:induction false} SelectMultiplicity(L: seq<Transaction>, q: Query)
    ensures forall e :: multiset(Select(L, q))[e] == if Matches(q, e) then multiset(L)[e] else 0
    decreases |L|
  {
    if L != [] {
      var init := L[..|L| - 1];
      SelectMultiplicity(init, q);
      assert L == init + [L[|L| - 1]];
    }
  }

  /** $sum of the amounts. */
  function Sum(s: seq<Transaction>): int
    decreases |s|
  {
    if s == [] then 0 else Sum(s[..|s| - 1]) + s[|s| - 1].amount
  }

  /** $sum of $abs of the amounts. */
  function AbsSum(s: seq<Transaction>): (r: int)
    ensures r >= 0
    decreases |s|
  {
    if s == [] then 0
    else AbsSum(s[..|s| - 1]) + (if s[|s| - 1].amount < 0 then -s[|s| - 1].amount else s[|s| - 1].amount)
  }

  /** A filter nothing matches selects nothing, so both sums are 0. */
  lemma NoMatchSum(L: seq<Transaction>, q: Query)
    requires forall i :: 0 <= i < |L| ==> !Matches(q, L[i])
    ensures Select(L, q) == [] && Sum(Select(L, q)) == 0 && AbsSum(Select(L, q)) == 0
  {
  }

  lemma {:induction false} SumAppend(a: seq<Transaction>, b: seq<Transaction>)
    ensures Sum(a + b) == Sum(a) + Sum(b)
    decreases |b|
  {
    if b == [] {
      assert a + b == a;
    } else {
      var b' := b[..|b| - 1];
      assert (a + b)[..|a + b| - 1] == a + b';
      SumAppend(a, b');
    }
  }

  lemma {:induction false} SelectAppend(a: seq<Transaction>, b: seq<Transaction>, q: Query)
    ensures Select(a + b, q) == Select(a, q) + Select(b, q)
    decreases |b|
  {
    if b == [] {
      assert a + b == a;
    } else {
      var b', e := b[..|b| - 1], b[|b| - 1];
      var tail := if Matches(q, e) then [e] else [];
      assert (a + b)[..|a + b| - 1] == a + b' && (a + b)[|a + b| - 1] == e;
      assert Select(a + b, q) == Select(a + b', q) + tail;
      assert Select(b, q) == Select(b', q) + tail;
      SelectAppend(a, b', q);
      assert Select(a, q) + Select(b', q) + tail == Select(a, q) + (Select(b', q) + tail);
    }
  }

  /** When every amount is a debit, the sum of absolute values is the negated sum. */
  lemma {:induction false} AbsSumOfDebits(s: seq<Transaction>)
    requires forall i :: 0 <= i < |s| ==> s[i].amount <= 0
    ensures AbsSum(s) == -Sum(s)
    decreases |s|
  {
    if s != [] {
      AbsSumOfDebits(s[..|s| - 1]);
    }
  }

  /** An entry that moves spendable balance: every kind but a package purchase (which is
      recorded without a debit), unless it has been cancelled. */
  predicate Counted(e: Transaction) {
    e.kind != PackagePurchase && e.status != Cancelled
  }

  /** The balance the ledger implies for `u`: the sum of `u`'s counted entries. */
  function LedgerBalance(L: seq<Transaction>, u: UserId): int
    decreases |L|
  {
    if L == [] then 0
    else
      var e := L[|L| - 1];
      LedgerBalance(L[..|L| - 1], u) + (if e.user == u && Counted(e) then e.amount else 0)
  }

  lemma LedgerBalanceAppend(L: seq<Transaction>, e: Transaction, u: UserId)
    ensures LedgerBalance(L + [e], u) == LedgerBalance(L, u) + (if e.user == u && Counted(e) then e.amount else 0)
  {
    assert (L + [e])[..|L|] == L;
  }

  /** Rewriting one entry without changing its owner, its amount or whether it counts leaves
      every ledger balance as it was. */
  lemma {:induction false} LedgerBalanceSetSame(L: seq<Transaction>, i: nat, e: Transaction, v: UserId)
    requires i < |L| && e.user == L[i].user && e.amount == L[i].amount && Counted(e) == Counted(L[i])
    ensures LedgerBalance(L[i := e], v) == LedgerBalance(L, v)
    decreases |L|
  {
    var L' := L[i := e];
    assert L'[..|L'| - 1] == if i == |L| - 1 then L[..|L| - 1] else L[..|L| - 1][i := e];
    if i < |L| - 1 {
      LedgerBalanceSetSame(L[..|L| - 1], i, e, v);
    }
  }

  /** The ledger balance splits into the three kinds that move money, each over the
      entries that are not cancelled. */
  lemma {:induction false} LedgerBalanceByKind(L: seq<Transaction>, u: UserId)
    ensures LedgerBalance(L, u)
         == Sum(Select(L, Query(Some(u), Some(TaskReward), None, StatusNot(Cancelled))))
          + Sum(Select(L, Query(Some(u), Some(ReferralBonus), None, StatusNot(Cancelled))))
          + Sum(Select(L, Query(Some(u), Some(WithdrawalDebit), None, StatusNot(Cancelled))))
    decreases |L|
  {
    if L != [] {
      LedgerBalanceByKind(L[..|L| - 1], u);
      SumSelectLast(L, Query(Some(u), Some(TaskReward), None, StatusNot(Cancelled)));
      SumSelectLast(L, Query(Some(u), Some(ReferralBonus), None, StatusNot(Cancelled)));
      SumSelectLast(L, Query(Some(u), Some(WithdrawalDebit), None, StatusNot(Cancelled)));
    }
  }

  /** The last entry adds its amount to a selection's sum iff it matches. */
  lemma SumSelectLast(L: seq<Transaction>, q: Query)
    requires L != []
    ensures Sum(Select(L, q)) == Sum(Select(L[..|L| - 1], q)) + (if Matches(q, L[|L| - 1]) then L[|L| - 1].amount else 0)
  {
    var e := L[|L| - 1];
    SumAppend(Select(L[..|L| - 1], q), if Matches(q, e) then [e] else []);
  }

  /** A user with no entries has a ledger balance of 0. */
  lemma {:induction false} LedgerBalanceAbsent(L: seq<Transaction>, u: UserId)
    requires forall i :: 0 <= i < |L| ==> L[i].user != u
    ensures LedgerBalance(L, u) == 0
    decreases |L|
  {
    if L != [] {
      LedgerBalanceAbsent(L[..|L| - 1], u);
    }
  }

  /** The filter used for a user's pending purchase of a package. */
  function PendingPurchase(u: UserId, p: PackageId): Query {
    Query(Some(u), Some(PackagePurchase), Some(p), StatusIs(Pending))
  }

  /** Half-width, in milliseconds, of the window that pairs ledger entries with a withdrawal. */
  const PairWindow := 1000

  /** The filter of the status update: same user, kind withdrawal, createdAt within
      [t - 1000, t + 1000]. */
  predicate InWindow(e: Transaction, u: UserId, t: int) {
    e.user == u && e.kind == WithdrawalDebit && t - PairWindow <= e.createdAt <= t + PairWindow
  }

  /** updateMany: every entry in the window of (u, t) gets status `s`; the rest are kept. */
  function Restatus(L: seq<Transaction>, u: UserId, t: int, s: Status): (r: seq<Transaction>)
    ensures |r| == |L|
    ensures forall i :: 0 <= i < |L| ==> r[i] == if InWindow(L[i], u, t) then L[i].(status := s) else L[i]
    decreases |L|
  {
    if L == [] then []
    else
      var e := L[|L| - 1];
      Restatus(L[..|L| - 1], u, t, s) + [if InWindow(e, u, t) then e.(status := s) else e]
  }

  /** No entry of the ledger lies in the window of (u, t). */
  ghost predicate WindowEmpty(L: seq<Transaction>, u: UserId, t: int) {
    forall i :: 0 <= i < |L| ==> !InWindow(L[i], u, t)
  }

  /** Sum of the amounts in the window of (u, t). */
  function WindowTotal(L: seq<Transaction>, u: UserId, t: int): int
    decreases |L|
  {
    if L == [] then 0
    else
      var e := L[|L| - 1];
      WindowTotal(L[..|L| - 1], u, t) + (if InWindow(e, u, t) then e.amount else 0)
  }

  /** Sum of the amounts in the window of (u, t) that are not cancelled. */
  function WindowCounted(L: seq<Transaction>, u: UserId, t: int): int
    decreases |L|
  {
    if L == [] then 0
    else
      var e := L[|L| - 1];
      WindowCounted(L[..|L| - 1], u, t) + (if InWindow(e, u, t) && e.status != Cancelled then e.amount else 0)
  }

  /** Re-statusing the window changes only the window owner's ledger balance: the window's
      counted amounts leave it, and the whole window comes back unless `s` is cancelled. */
  lemma {:induction false} RestatusBalance(L: seq<Transaction>, u: UserId, t: int, s: Status, v: UserId)
    ensures LedgerBalance(Restatus(L, u, t, s), v)
         == if v == u then LedgerBalance(L, u) - WindowCounted(L, u, t) + (if s != Cancelled then WindowTotal(L, u, t) else 0)
            else LedgerBalance(L, v)
    decreases |L|
  {
    if L != [] {
      var init := L[..|L| - 1];
      RestatusBalance(init, u, t, s, v);
      var e := L[|L| - 1];
      var e' := if InWindow(e, u, t) then e.(status := s) else e;
      assert Restatus(L, u, t, s) == Restatus(init, u, t, s) + [e'];
      LedgerBalanceAppend(Restatus(init, u, t, s), e', v);
    }
  }

  /** Re-statusing keeps every amount, so the window's total is unchanged. */
  lemma {:induction false} RestatusWindowTotal(L: seq<Transaction>, u: UserId, t: int, s: Status)
    ensures WindowTotal(Restatus(L, u, t, s), u, t) == WindowTotal(L, u, t)
    decreases |L|
  {
    if L != [] {
      var init := L[..|L| - 1];
      RestatusWindowTotal(init, u, t, s);
      var r := Restatus(L, u, t, s);
      assert r[..|r| - 1] == Restatus(init, u, t, s);
    }
  }

  /** When the whole window carries one status, its counted part is all of it or nothing. */
  lemma {:induction false} UniformWindowCounted(L: seq<Transaction>, u: UserId, t: int, s: Status)
    requires forall i :: 0 <= i < |L| && InWindow(L[i], u, t) ==> L[i].status == s
    ensures WindowCounted(L, u, t) == if s != Cancelled then WindowTotal(L, u, t) else 0
    decreases |L|
  {
    if L != [] {
      UniformWindowCounted(L[..|L| - 1], u, t, s);
    }
  }

  /** Appending entries that belong to no window of (u, t) leaves its total unchanged. */
  lemma WindowTotalAppendOutside(L: seq<Transaction>, e: Transaction, u: UserId, t: int)
    requires !InWindow(e, u, t)
    ensures WindowTotal(L + [e], u, t) == WindowTotal(L, u, t)
  {
    assert (L + [e])[..|L|] == L;
  }

  lemma WindowTotalAppend(L: seq<Transaction>, e: Transaction, u: UserId, t: int)
    ensures WindowTotal(L + [e], u, t) == WindowTotal(L, u, t) + (if InWindow(e, u, t) then e.amount else 0)
  {
    assert (L + [e])[..|L|] == L;
  }

  /** A window with no entries sums to zero. */
  lemma {:induction false} EmptyWindowTotal(L: seq<Transaction>, u: UserId, t: int)
    requires WindowEmpty(L, u, t)
    ensures WindowTotal(L, u, t) == 0
    decreases |L|
  {
    if L != [] {
      EmptyWindowTotal(L[..|L| - 1], u, t);
    }
  }

  /** findOne / findOneAndUpdate: the first entry matching `q`, in ledger order. */
  function FirstMatch(L: seq<Transaction>, q: Query): (r: Option<nat>)
    ensures r.Some? ==> r.value < |L| && Matches(q, L[r.value])
    ensures r.Some? ==> forall j :: 0 <= j < r.value ==> !Matches(q, L[j])
    ensures r.None? <==> forall j :: 0 <= j < |L| ==> !Matches(q, L[j])
    decreases |L|
  {
    if L == [] then None
    else if Matches(q, L[0]) then Some(0)
    else match FirstMatch(L[1..], q)
      case None => None
      case Some(k) => Some(k + 1)
  }
}
