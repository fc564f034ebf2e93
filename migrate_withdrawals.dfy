/** backend/migrateWithdrawals.js: the one-off backfill of the tax fields on withdrawals
    written before those fields existed. */
module MigrateWithdrawals {
  import opened Outcomes
  import opened Ids
  import opened WithdrawalModel
  import Tax
  import Listing
  import opened Store

  /** The selection: taxAmount or netAmount is missing or null. */
  predicate NeedsTax(w: Withdrawal) {
    w.taxAmount.None? || w.netAmount.None?
  }

  /** The ids the find() selects, in store order. */
  function Selected(ws: seq<Withdrawal>): (r: seq<WithdrawalId>)
    ensures forall i: nat :: i in r <==> i < |ws| && NeedsTax(ws[i])
    ensures forall j, k :: 0 <= j < k < |r| ==> r[j] < r[k]
  {
    Listing.IdsWhere(|ws|, (i: nat) => i < |ws| && NeedsTax(ws[i]))
  }

  /** A selected withdrawal after the backfill: 12 percent, the rounded tax and the net, and
      nothing else changed. */
  function Backfilled(w: Withdrawal): (v: Withdrawal)
    ensures v.taxPercentage == Tax.TaxPercentage
    ensures v.taxAmount == Some(Tax.TaxAmount(w.amount)) && v.netAmount == Some(Tax.NetAmount(w.amount))
    ensures v.taxAmount.value + v.netAmount.value == v.amount
    ensures v == w.(taxPercentage := v.taxPercentage, taxAmount := v.taxAmount, netAmount := v.netAmount)
    ensures !NeedsTax(v)
  {
    w.(taxPercentage := Tax.TaxPercentage, taxAmount := Some(Tax.TaxAmount(w.amount)), netAmount := Some(Tax.NetAmount(w.amount)))
  }

  /** The collection after the migration: selected withdrawals backfilled, the rest as they
      were. */
  function Migrated(ws: seq<Withdrawal>): (r: seq<Withdrawal>)
    ensures |r| == |ws|
    ensures forall i :: 0 <= i < |ws| ==> r[i] == if NeedsTax(ws[i]) then Backfilled(ws[i]) else ws[i]
  {
    seq(|ws|, i requires 0 <= i < |ws| => if NeedsTax(ws[i]) then Backfilled(ws[i]) else ws[i])
  }

  /** After the migration nothing is selected any more. */
  lemma MigratedNeedsNothing(ws: seq<Withdrawal>)
    ensures forall i :: 0 <= i < |Migrated(ws)| ==> !NeedsTax(Migrated(ws)[i])
  {
  }

  /** With nothing selected, the migration changes nothing. */
  lemma NothingSelectedNoChange(ws: seq<Withdrawal>)
    requires forall i :: 0 <= i < |ws| ==> !NeedsTax(ws[i])
    ensures Migrated(ws) == ws
  {
  }

  /** Running the migration twice is running it once. */
  lemma MigrationIdempotent(ws: seq<Withdrawal>)
    ensures Migrated(Migrated(ws)) == Migrated(ws)
  {
    MigratedNeedsNothing(ws);
    NothingSelectedNoChange(Migrated(ws));
  }

  /** The migration script: select, stop early when nothing is selected, otherwise backfill
      each selected withdrawal in turn and count it. */
  method Migrate(db: Database) returns (updated: nat)
    requires db.Valid()
    modifies db`withdrawals
    ensures db.Valid()
    ensures updated == |Selected(old(db.withdrawals))|
    ensures db.withdrawals == Migrated(old(db.withdrawals))
  {
    var ws := db.withdrawals;
    var selected := Selected(ws);
    if |selected| == 0 {
      forall i | 0 <= i < |ws| ensures !NeedsTax(ws[i]) {
        assert i !in selected;
      }
      NothingSelectedNoChange(ws);
      return 0;
    }
    updated := 0;
    var k := 0;
    while k < |selected|
      invariant 0 <= k <= |selected| && updated == k
      invariant db.Valid() && db.users == old(db.users)
      invariant db.withdrawals == BackfilledAt(ws, selected[..k])
    {
      var id := selected[k];
      BackfillStep(ws, selected, k);
      SetWithdrawalKeepsValid(db.withdrawals, |db.users|, id, Backfilled(db.withdrawals[id]));
      db.withdrawals := db.withdrawals[id := Backfilled(db.withdrawals[id])];
      updated := updated + 1;
      k := k + 1;
    }
    BackfilledAllSelected(ws);
  }

  /** `ws` with the withdrawals at the ids in `done` backfilled. */
  ghost function BackfilledAt(ws: seq<Withdrawal>, done: seq<nat>): (r: seq<Withdrawal>)
    ensures |r| == |ws|
  {
    seq(|ws|, i requires 0 <= i < |ws| => if i in done then Backfilled(ws[i]) else ws[i])
  }

  /** One more turn of the loop backfills the next selected id, which was not done before. */
  lemma BackfillStep(ws: seq<Withdrawal>, selected: seq<WithdrawalId>, k: nat)
    requires selected == Selected(ws) && k < |selected|
    ensures selected[k] < |ws| && BackfilledAt(ws, selected[..k])[selected[k]] == ws[selected[k]]
    ensures BackfilledAt(ws, selected[..k])[selected[k] := Backfilled(ws[selected[k]])] == BackfilledAt(ws, selected[..k + 1])
  {
    var id := selected[k];
    assert id in selected;
    assert id !in selected[..k] by {
      forall j | 0 <= j < k ensures selected[..k][j] != id {
        assert selected[j] < id;
      }
    }
    assert selected[..k + 1] == selected[..k] + [id];
  }

  /** Once every selected id is done, the loop has produced the migrated withdrawals. */
  lemma BackfilledAllSelected(ws: seq<Withdrawal>)
    ensures BackfilledAt(ws, Selected(ws)[..|Selected(ws)|]) == Migrated(ws)
  {
    assert Selected(ws)[..|Selected(ws)|] == Selected(ws);
  }
}
