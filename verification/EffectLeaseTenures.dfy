/** Tenures across releases: when an epoch comes back, and when a receipt still names the tenure in force. */
module EffectLeaseTenures {
  import opened Common
  import opened EffectLease
  import opened EffectLeaseRuns

  // ----- how rows come and go

  /** Step `n` is a successful release of the family. */
  predicate ReleasesFamily(ops: seq<Op>, n: nat, family: string)
    requires n < |ops|
  {
    ops[n].Releasing? && ops[n].family == family && OutAt(ops, n) == Released
  }

  lemma RowVanishesIffReleased(ops: seq<Op>, n: nat, family: string)
    requires n < |ops|
    ensures family in At(ops, n).leases && family !in At(ops, n + 1).leases <==> ReleasesFamily(ops, n, family)
  {
    hide ValidHolder, ValidReason, ReadLease, SelectAction, InsertAction, LookUpAction;
    assert At(ops, n + 1) == Step(At(ops, n), ops[n]).0;
  }

  lemma ReplacedTenureStands(ops: seq<Op>, n: nat, family: string)
    requires n < |ops| && ReplacesTenure(ops, n, family)
    ensures family in At(ops, n + 1).leases
  {
    hide ValidHolder, ValidReason, ReadLease, SelectAction, InsertAction, LookUpAction;
    assert At(ops, n + 1) == Step(At(ops, n), ops[n]).0;
  }

  /** Step `n` brings the family's row into being. */
  predicate Begins(ops: seq<Op>, n: nat, family: string)
    requires n < |ops|
  {
    family !in At(ops, n).leases && family in At(ops, n + 1).leases
  }

  /** Between an instant without the row and a later one with it, the row begins. */
  lemma {:induction false} BeginBetween(ops: seq<Op>, family: string, i: nat, j: nat) returns (b: nat)
    requires i <= j <= |ops| && family !in At(ops, i).leases && family in At(ops, j).leases
    ensures i <= b < j && Begins(ops, b, family)
    decreases j - i
  {
    hide At;
    if family in At(ops, j - 1).leases {
      b := BeginBetween(ops, family, i, j - 1);
    } else {
      b := j - 1;
    }
  }

  /** Between an instant with the row and a later one without it, the family is released. */
  lemma {:induction false} ReleaseBetween(ops: seq<Op>, family: string, i: nat, j: nat) returns (r: nat)
    requires i <= j <= |ops| && family in At(ops, i).leases && family !in At(ops, j).leases
    ensures i <= r < j && ReleasesFamily(ops, r, family)
    decreases j - i
  {
    hide At, ReleasesFamily;
    if family in At(ops, j - 1).leases {
      RowVanishesIffReleased(ops, j - 1, family);
      r := j - 1;
    } else {
      r := ReleaseBetween(ops, family, i, j - 1);
    }
  }

  lemma NoRowAtFirst(ops: seq<Op>, family: string)
    ensures family !in At(ops, 0).leases
  {
  }

  // ----- when an epoch is handed out twice

  function EpochOut(ops: seq<Op>, n: nat, family: string): int
    requires n < |ops| && ReplacesTenure(ops, n, family)
  {
    OutAt(ops, n).row.epoch
  }

  ghost predicate HandedOutTwice(ops: seq<Op>, family: string) {
    exists i, j :: 0 <= i < j < |ops| && SameEpochOut(ops, family, i, j)
  }

  predicate SameEpochOut(ops: seq<Op>, family: string, i: nat, j: nat)
    requires i < |ops| && j < |ops|
  {
    && ReplacesTenure(ops, i, family) && ReplacesTenure(ops, j, family)
    && EpochOut(ops, i, family) == EpochOut(ops, j, family)
  }

  /** The family is acquired anew after an earlier tenure. */
  ghost predicate AcquiredAnew(ops: seq<Op>, family: string) {
    exists i, k :: 0 <= i < k < |ops| && ReplacesTenure(ops, i, family) && Begins(ops, k, family)
  }

  /** The family is released, and a later `acquire` or `takeover` of it succeeds. */
  ghost predicate ReleasedAndTaken(ops: seq<Op>, family: string) {
    exists r, k :: 0 <= r < k < |ops| && ReleasesFamily(ops, r, family) && ReplacesTenure(ops, k, family)
  }

  lemma EpochOutIsStored(ops: seq<Op>, n: nat, family: string)
    requires n < |ops| && ReplacesTenure(ops, n, family)
    ensures family in At(ops, n + 1).leases && EpochOut(ops, n, family) == At(ops, n + 1).leases[family].epoch
  {
    hide ValidHolder, ValidReason, ReadLease, SelectAction, InsertAction, LookUpAction;
    assert At(ops, n + 1) == Step(At(ops, n), ops[n]).0;
  }

  lemma BeginIsEpochOne(ops: seq<Op>, n: nat, family: string)
    requires n < |ops| && Begins(ops, n, family)
    ensures ReplacesTenure(ops, n, family) && EpochOut(ops, n, family) == 1
  {
    hide At, OutAt;
    IncarnationBeginsAtOne(ops, family, n);
    EpochOutIsStored(ops, n, family);
  }

  lemma ReuseNeedsNewBeginning(ops: seq<Op>, family: string, i: nat, j: nat)
    requires i < j < |ops| && SameEpochOut(ops, family, i, j)
    ensures AcquiredAnew(ops, family)
  {
    hide At, OutAt, ReplacesTenure, EpochOut;
    EpochOutIsStored(ops, i, family);
    EpochOutIsStored(ops, j, family);
    if SameIncarnation(ops, family, i + 1, j + 1) {
      EpochsAreNotReusedWithoutRelease(ops, family, i, j);
    } else {
      var m :| i + 1 <= m <= j + 1 && family !in At(ops, m).leases;
      var k := BeginBetween(ops, family, m, j + 1);
    }
  }

  lemma NewBeginningReuses(ops: seq<Op>, family: string, i: nat, k: nat)
    requires i < k < |ops| && ReplacesTenure(ops, i, family) && Begins(ops, k, family)
    ensures HandedOutTwice(ops, family)
  {
    hide At, OutAt, ReplacesTenure, EpochOut;
    NoRowAtFirst(ops, family);
    ReplacedTenureStands(ops, i, family);
    var b := BeginBetween(ops, family, 0, i + 1);
    BeginIsEpochOne(ops, b, family);
    BeginIsEpochOne(ops, k, family);
    assert SameEpochOut(ops, family, b, k);
  }

  lemma NewBeginningFollowsRelease(ops: seq<Op>, family: string)
    ensures AcquiredAnew(ops, family) <==> ReleasedAndTaken(ops, family)
  {
    hide At, OutAt, ReplacesTenure, ReleasesFamily;
    if i, k :| 0 <= i < k < |ops| && ReplacesTenure(ops, i, family) && Begins(ops, k, family) {
      ReplacedTenureStands(ops, i, family);
      var r := ReleaseBetween(ops, family, i + 1, k);
      BeginIsEpochOne(ops, k, family);
    }
    if r, k :| 0 <= r < k < |ops| && ReleasesFamily(ops, r, family) && ReplacesTenure(ops, k, family) {
      RowVanishesIffReleased(ops, r, family);
      ReplacedTenureStands(ops, k, family);
      NoRowAtFirst(ops, family);
      var i := BeginBetween(ops, family, 0, r);
      BeginIsEpochOne(ops, i, family);
      var later := BeginBetween(ops, family, r + 1, k + 1);
    }
  }

  /** An epoch of a family is handed out twice in a run if and only if the family is acquired anew after
      an earlier tenure; that is, if and only if it is released and taken again later. */
  lemma EpochIsReusedIff(ops: seq<Op>, family: string)
    ensures HandedOutTwice(ops, family) <==> AcquiredAnew(ops, family)
    ensures HandedOutTwice(ops, family) <==> ReleasedAndTaken(ops, family)
  {
    hide SameEpochOut, ReplacesTenure, Begins, ReleasedAndTaken;
    NewBeginningFollowsRelease(ops, family);
    if i, j :| 0 <= i < j < |ops| && SameEpochOut(ops, family, i, j) {
      ReuseNeedsNewBeginning(ops, family, i, j);
    }
    if i, k :| 0 <= i < k < |ops| && ReplacesTenure(ops, i, family) && Begins(ops, k, family) {
      NewBeginningReuses(ops, family, i, k);
    }
  }

  // ----- when a receipt still names the tenure in force

  /** The family's row carries the receipt's holder and epoch. */
  predicate LooksCurrent(ops: seq<Op>, n: nat, receipt: Receipt)
    requires n <= |ops|
  {
    && receipt.family in At(ops, n).leases
    && var row := At(ops, n).leases[receipt.family];
       row.holder == receipt.holder && row.epoch == receipt.epoch
  }

  /** The tenure read at step `r` still lasts before step `n`: it was neither replaced nor released. */
  ghost predicate TenureLasts(ops: seq<Op>, family: string, r: nat, n: nat) {
    r <= n <= |ops|
    && forall m :: r <= m < n ==> !ReplacesTenure(ops, m, family) && !ReleasesFamily(ops, m, family)
  }

  ghost predicate NoRelease(ops: seq<Op>, family: string, r: nat, n: nat)
    requires n <= |ops|
  {
    forall m :: r <= m < n ==> !ReleasesFamily(ops, m, family)
  }

  lemma {:induction false} NoReleaseIsOneIncarnation(ops: seq<Op>, family: string, r: nat, n: nat)
    requires r <= n <= |ops| && family in At(ops, r).leases && NoRelease(ops, family, r, n)
    ensures SameIncarnation(ops, family, r, n)
    decreases n - r
  {
    hide At, ReleasesFamily;
    if r < n {
      NoReleaseIsOneIncarnation(ops, family, r, n - 1);
      RowVanishesIffReleased(ops, n - 1, family);
    }
  }

  lemma {:induction false} NoReplacementIff(ops: seq<Op>, family: string, r: nat, n: nat)
    requires r <= n <= |ops|
    ensures Replacements(ops, family, r, n) == 0 <==> forall m :: r <= m < n ==> !ReplacesTenure(ops, m, family)
    decreases n - r
  {
    hide ReplacesTenure;
    if r < n { NoReplacementIff(ops, family, r, n - 1); }
  }

  /** Within an incarnation, a receipt names the tenure in force exactly as long as the tenure of the read
      behind it has not been replaced. */
  lemma ReceiptIsCurrentIff(ops: seq<Op>, r: nat, n: nat, ticket: Ticket)
    requires r <= n <= |ops| && r < |ops| && ReadBehind(ops, r, ticket)
    requires SameIncarnation(ops, ticket.receipt.family, r, n)
    ensures LooksCurrent(ops, n, ticket.receipt) <==> Replacements(ops, ticket.receipt.family, r, n) == 0
  {
    hide At, ReplacesTenure;
    var family := ticket.receipt.family;
    EpochCountsTenures(ops, family, r, n);
    if Replacements(ops, family, r, n) == 0 {
      EpochDeterminesHolder(ops, family, r, n);
    }
  }

  /** In any run, the tenure behind a receipt still lasts if and only if the row names the receipt's holder
      and epoch and the family has not been released since the read. */
  lemma TenureLastsIff(ops: seq<Op>, r: nat, n: nat, ticket: Ticket)
    requires r <= n <= |ops| && r < |ops| && ReadBehind(ops, r, ticket)
    ensures TenureLasts(ops, ticket.receipt.family, r, n)
            <==> LooksCurrent(ops, n, ticket.receipt) && NoRelease(ops, ticket.receipt.family, r, n)
  {
    hide At, ReplacesTenure, ReleasesFamily, LooksCurrent;
    var family := ticket.receipt.family;
    if NoRelease(ops, family, r, n) {
      NoReleaseIsOneIncarnation(ops, family, r, n);
      ReceiptIsCurrentIff(ops, r, n, ticket);
      NoReplacementIff(ops, family, r, n);
    }
  }

  /** The step at which a check is accepted, or a replay answered: behind its receipt stands one earlier
      read, and the tenure of that read is still in force at this step if and only if no one has replaced
      or released it in between. */
  lemma ReturnedReceiptIsCurrentIff(ops: seq<Op>, n: nat) returns (r: nat)
    requires n < |ops| && OutAt(ops, n).Returned?
    ensures r < n && ReadBehind(ops, r, Ticket(OutAt(ops, n).key, OutAt(ops, n).receipt))
    ensures var receipt := OutAt(ops, n).receipt;
            && (TenureLasts(ops, receipt.family, r, n)
                <==> LooksCurrent(ops, n, receipt) && NoRelease(ops, receipt.family, r, n))
            && (SameIncarnation(ops, receipt.family, r, n) ==>
                  (LooksCurrent(ops, n, receipt) <==> Replacements(ops, receipt.family, r, n) == 0))
  {
    hide At, ReplacesTenure, ReleasesFamily, LooksCurrent, SameIncarnation, TenureLasts, NoRelease, ReadBehind;
    var ticket := Ticket(OutAt(ops, n).key, OutAt(ops, n).receipt);
    ReturnedIsNoRead(ops, n);
    ReceiptsLinearize(ops, n, n);
    r :| 0 <= r < n + 1 && ReadBehind(ops, r, ticket);
    assert ops[r].Reading? by { BehindIsRead(ops, r, ticket); }
    TenureLastsIff(ops, r, n, ticket);
    if SameIncarnation(ops, ticket.receipt.family, r, n) { ReceiptIsCurrentIff(ops, r, n, ticket); }
  }

  lemma ReturnedIsNoRead(ops: seq<Op>, n: nat)
    requires n < |ops| && OutAt(ops, n).Returned?
    ensures !ops[n].Reading?
  {
    hide At, ReadLease;
  }

  lemma BehindIsRead(ops: seq<Op>, r: nat, ticket: Ticket)
    requires r < |ops| && ReadBehind(ops, r, ticket)
    ensures ops[r].Reading?
  {
    hide At;
  }

  /** Across a release the row alone does not tell: the same holder acquires again at epoch 1 between the
      read and the record, and the receipt looks current although its tenure has ended. */
  lemma EndedTenureLooksCurrent(holder: string, id: string, reason: string, ttl: real, now: real)
    requires ValidHolder(holder) && ValidReason(reason) && ValidActionId(id) && ttl > 0.0
    ensures var ops := [Acquiring("overseer", holder, reason, ttl, now),
                        Reading(0, holder, "overseer", Some(1), Some(id), id, now),
                        Releasing("overseer", holder, 1), Acquiring("overseer", holder, reason, ttl, now),
                        Selecting(0), Inserting(0)];
            && OutAt(ops, 5) == Returned(ActionKey("overseer", holder, id), Receipt(id, "overseer", holder, 1, now))
            && LooksCurrent(ops, 5, OutAt(ops, 5).receipt) && !TenureLasts(ops, "overseer", 1, 5)
  {
    var ops := [Acquiring("overseer", holder, reason, ttl, now),
                Reading(0, holder, "overseer", Some(1), Some(id), id, now),
                Releasing("overseer", holder, 1), Acquiring("overseer", holder, reason, ttl, now),
                Selecting(0), Inserting(0)];
    assert At(ops, 1) == Step(EMPTY, ops[0]).0;
    assert At(ops, 2) == Step(At(ops, 1), ops[1]).0;
    assert At(ops, 3) == Step(At(ops, 2), ops[2]).0;
    assert At(ops, 4) == Step(At(ops, 3), ops[3]).0;
    assert At(ops, 5) == Step(At(ops, 4), ops[4]).0;
    assert ReleasesFamily(ops, 2, "overseer");
  }
}
