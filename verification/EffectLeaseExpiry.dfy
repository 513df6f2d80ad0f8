/** How long a lease lasts, over whole runs: what its holder and a newcomer meet at any later instant. */
module EffectLeaseExpiry {
  import opened Common
  import opened EffectLease
  import opened EffectLeaseRuns

  /** Step `n` is a successful `acquire`, `takeover` or `renew` of the family. */
  predicate GrantsLease(ops: seq<Op>, n: nat, family: string)
    requires n < |ops|
  {
    && (ops[n].Acquiring? || ops[n].TakingOver? || ops[n].Renewing?)
    && ops[n].family == family && OutAt(ops, n).Leased?
  }

  /** Step `n` is a successful `release` of the family. */
  predicate DropsLease(ops: seq<Op>, n: nat, family: string)
    requires n < |ops|
  {
    ops[n].Releasing? && ops[n].family == family && OutAt(ops, n).Released?
  }

  /** No step from `i` on and before `j` grants or drops the lease. */
  ghost predicate Undisturbed(ops: seq<Op>, family: string, i: nat, j: nat) {
    i <= j <= |ops| && forall m :: i <= m < j ==> !GrantsLease(ops, m, family) && !DropsLease(ops, m, family)
  }

  /** What a grant hands out and stores: the asker holds the lease from now for `ttl` seconds. */
  lemma GrantIsStored(ops: seq<Op>, n: nat, family: string)
    requires n < |ops| && GrantsLease(ops, n, family)
    ensures var op, row := ops[n], OutAt(ops, n).row;
            && family in At(ops, n + 1).leases && At(ops, n + 1).leases[family] == row
            && row.holder == op.holder && row.acquiredAt == op.now && row.expiresAt == op.now + op.ttl
            && row.reason == (if op.Renewing? then "renew" else op.reason)
  {
    hide ValidHolder, ValidReason, ReadLease, SelectAction, InsertAction, LookUpAction, Release;
    assert At(ops, n + 1) == Step(At(ops, n), ops[n]).0;
  }

  lemma UndisturbedStep(ops: seq<Op>, m: nat, family: string)
    requires m < |ops| && !GrantsLease(ops, m, family) && !DropsLease(ops, m, family)
    ensures family in At(ops, m).leases ==>
              family in At(ops, m + 1).leases && At(ops, m + 1).leases[family] == At(ops, m).leases[family]
  {
    hide ValidHolder, ValidReason, ReadLease, SelectAction, InsertAction, LookUpAction;
    assert At(ops, m + 1) == Step(At(ops, m), ops[m]).0;
  }

  lemma {:induction false} RowStays(ops: seq<Op>, family: string, i: nat, j: nat)
    requires Undisturbed(ops, family, i, j) && family in At(ops, i).leases
    ensures family in At(ops, j).leases && At(ops, j).leases[family] == At(ops, i).leases[family]
    decreases j - i
  {
    hide At, GrantsLease, DropsLease;
    if i < j {
      RowStays(ops, family, i, j - 1);
      UndisturbedStep(ops, j - 1, family);
    }
  }

  predicate NoIdOrValid(actionId: Option<string>) {
    actionId.None? || actionId.value == "" || ValidActionId(actionId.value)
  }

  lemma RenewAtOnce(leases: Leases, family: string, ttl: real, t: real)
    requires family in leases && ValidRow(family, leases[family])
    ensures var row := leases[family];
            var renewed := Renew(leases, family, row.holder, row.epoch, ttl, t).1;
            if row.expiresAt <= t then renewed == Raised(ExpiredLease(row.expiresAt)) else renewed.Ok?
  {
    hide ValidHolder;
  }

  lemma CheckAtOnce(leases: Leases, family: string, actionId: Option<string>, minted: string, t: real)
    requires family in leases && ValidRow(family, leases[family]) && NoIdOrValid(actionId)
    ensures var row := leases[family];
            var read := ReadLease(leases, row.holder, family, Some(row.epoch), actionId, minted, t);
            if row.expiresAt <= t then read == Raised(ExpiredLease(row.expiresAt)) else read.Ok?
  {
    hide ValidHolder, ValidActionId;
  }

  lemma AcquireAtOnce(leases: Leases, family: string, newcomer: string, reason: string, ttl: real, t: real)
    requires family in leases && ValidRow(family, leases[family]) && ValidHolder(newcomer) && ValidReason(reason)
    ensures Acquire(leases, family, newcomer, reason, ttl, t).1.Ok? <==> leases[family].expiresAt <= t
  {
    hide ValidHolder, ValidReason;
  }

  lemma StandingRow(ops: seq<Op>, n: nat, j: nat, family: string)
    requires n < j <= |ops| && GrantsLease(ops, n, family) && Undisturbed(ops, family, n + 1, j)
    ensures family in At(ops, j).leases && ValidRow(family, At(ops, j).leases[family])
    ensures At(ops, j).leases[family] == OutAt(ops, n).row
    ensures OutAt(ops, n).row.holder == ops[n].holder && OutAt(ops, n).row.expiresAt == ops[n].now + ops[n].ttl
  {
    hide At, OutAt, GrantsLease, DropsLease, ValidRow;
    assert ops[n].Acquiring? || ops[n].TakingOver? || ops[n].Renewing? by { GrantIsGrant(ops, n, family); }
    GrantIsStored(ops, n, family);
    RowStays(ops, family, n + 1, j);
    RowsAreValid(ops, j);
  }

  lemma GrantIsGrant(ops: seq<Op>, n: nat, family: string)
    requires n < |ops| && GrantsLease(ops, n, family)
    ensures ops[n].Acquiring? || ops[n].TakingOver? || ops[n].Renewing?
  {
    hide At, OutAt;
  }

  /** After a successful `acquire`, `takeover` or `renew` at `now` for `ttl` seconds, and as long as no one
      renews, replaces or releases it, the holder's `renew` with that epoch is refused as expired from
      `now + ttl` on, and accepted at every instant before. */
  lemma RenewUntilExpiry(ops: seq<Op>, n: nat, j: nat, family: string, ttl: real, t: real)
    requires n < j <= |ops| && GrantsLease(ops, n, family) && Undisturbed(ops, family, n + 1, j)
    ensures var expiry := ops[n].now + ops[n].ttl;
            var out := Step(At(ops, j), Renewing(family, ops[n].holder, OutAt(ops, n).row.epoch, ttl, t)).1;
            if t >= expiry then out == Refused(ExpiredLease(expiry)) else out.Leased?
  {
    hide At, OutAt, Renew, GrantsLease, ValidRow;
    StandingRow(ops, n, j, family);
    RenewAtOnce(At(ops, j).leases, family, ttl, t);
  }

  /** So is its check, for any action id it may send; before `now + ttl` the check gets past the lease. */
  lemma CheckUntilExpiry(ops: seq<Op>, n: nat, j: nat, family: string, client: nat, actionId: Option<string>,
                         minted: string, t: real)
    requires n < j <= |ops| && GrantsLease(ops, n, family) && Undisturbed(ops, family, n + 1, j)
    requires NoIdOrValid(actionId)
    ensures var expiry := ops[n].now + ops[n].ttl;
            var out := Step(At(ops, j), Reading(client, ops[n].holder, family, Some(OutAt(ops, n).row.epoch), actionId,
                                                minted, t)).1;
            if t >= expiry then out == Refused(ExpiredLease(expiry)) else out == InProgress
  {
    hide At, OutAt, ReadLease, GrantsLease, ValidRow, NoIdOrValid;
    StandingRow(ops, n, j, family);
    CheckAtOnce(At(ops, j).leases, family, actionId, minted, t);
  }

  /** And a newcomer's `acquire` succeeds from exactly that instant on. */
  lemma AcquireFromExpiry(ops: seq<Op>, n: nat, j: nat, family: string, newcomer: string, reason: string, ttl: real,
                          t: real)
    requires n < j <= |ops| && GrantsLease(ops, n, family) && Undisturbed(ops, family, n + 1, j)
    requires ValidHolder(newcomer) && ValidReason(reason)
    ensures Step(At(ops, j), Acquiring(family, newcomer, reason, ttl, t)).1.Leased? <==> t >= ops[n].now + ops[n].ttl
  {
    hide At, OutAt, Acquire, GrantsLease, ValidRow, ValidHolder, ValidReason;
    StandingRow(ops, n, j, family);
    AcquireAtOnce(At(ops, j).leases, family, newcomer, reason, ttl, t);
  }

  // ----- who gets the lease otherwise

  /** On a family that no one holds, a well-formed `acquire` succeeds at epoch 1. */
  lemma AcquireOfFreeFamily(ops: seq<Op>, j: nat, family: string, newcomer: string, reason: string, ttl: real, t: real)
    requires j <= |ops| && family in FAMILIES && family !in At(ops, j).leases
    requires ValidHolder(newcomer) && ValidReason(reason)
    ensures Step(At(ops, j), Acquiring(family, newcomer, reason, ttl, t)).1
            == Leased(Row(newcomer, 1, t, t + ttl, reason))
  {
    hide At, ValidHolder, ValidReason;
  }

  /** While the lease of a grant stands, a well-formed `takeover` succeeds exactly when it presents the epoch
      granted, expired or not, and gets the next one; a well-formed `release` exactly when it presents that
      epoch and comes from the holder. */
  lemma EpochDecides(ops: seq<Op>, n: nat, j: nat, family: string, caller: string, epoch: int, reason: string,
                     ttl: real, t: real)
    requires n < j <= |ops| && GrantsLease(ops, n, family) && Undisturbed(ops, family, n + 1, j)
    requires ValidHolder(caller) && ValidReason(reason)
    ensures var granted := OutAt(ops, n).row.epoch;
            var taken := Step(At(ops, j), TakingOver(family, caller, epoch, reason, ttl, t)).1;
            var released := Step(At(ops, j), Releasing(family, caller, epoch)).1;
            && (taken.Leased? <==> epoch == granted)
            && (taken.Leased? ==> taken.row == Row(caller, granted + 1, t, t + ttl, reason))
            && (released == Released <==> epoch == granted && caller == ops[n].holder)
  {
    hide At, OutAt, GrantsLease, ValidHolder, ValidReason;
    StandingRow(ops, n, j, family);
  }

  /** A version 4 UUID as `str` writes it: 36 characters, hex digits in lower case and dashes. */
  predicate IsUuid(id: string) {
    |id| == 36 && forall i :: 0 <= i < 36 ==> '0' <= id[i] <= '9' || 'a' <= id[i] <= 'f' || id[i] == '-'
  }

  /** A check without an action id is never refused for its id: the one minted for it is well formed, so a
      check that passes the lease is recorded or finds its receipt. */
  lemma MintedIdIsTaken(leases: Leases, actions: Actions, caller: string, family: string, observed: Option<int>,
                        actionId: Option<string>, minted: string, now: real)
    requires IsUuid(minted) && (actionId == None || actionId == Some(""))
    ensures var read := ReadLease(leases, caller, family, observed, actionId, minted, now);
            && (read.Ok? ==> read.value.key == ActionKey(family, caller, minted))
            && (read.Ok? ==> SelectAction(actions, read.value.key).Ok?)
            && (read.Raised? ==> read.error != MalformedActionId)
  {
    UuidIsActionId(minted);
  }

  lemma UuidIsActionId(id: string)
    requires IsUuid(id)
    ensures ValidActionId(id)
  {
    assert forall i :: 0 <= i < 36 ==> IsActionIdChar(id[i]) && id[i] != '\n';
  }
}
