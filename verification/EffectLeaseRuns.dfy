/** Whole runs of the lease protocol: any number of clients interleave lease transactions and the
    separate database steps of their gate checks, each with a clock of its own. */
module EffectLeaseRuns {
  import opened Common
  import opened EffectLease

  datatype Op =
    | Acquiring(family: string, holder: string, reason: string, ttl: real, now: real)
    | Renewing(family: string, holder: string, observed: int, ttl: real, now: real)
    | Releasing(family: string, holder: string, observed: int)
    | TakingOver(family: string, holder: string, observed: int, reason: string, ttl: real, now: real)
    | Reading(client: nat, caller: string, family: string, presented: Option<int>, actionId: Option<string>,
              minted: string, now: real)
    | Selecting(client: nat)
    | Inserting(client: nat)
    | Replaying(caller: string, family: string, replayId: string)

  /** Where a client's check stands: it has read the lease, or also found no receipt yet. */
  datatype Pending = HasRead(ticket: Ticket) | FoundNone(ticket: Ticket)

  datatype State = State(leases: Leases, actions: Actions, pending: map<nat, Pending>)

  datatype Out =
    | Leased(row: Row)
    | Released
    | Refused(error: Error)
    | InProgress
    | Returned(key: ActionKey, receipt: Receipt)  // an accepted check, or a replay that found its receipt
    | NotFound

  function Lift(s: State, r: (Leases, Outcome<Row, Error>)): (State, Out) {
    (s.(leases := r.0), if r.1.Ok? then Leased(r.1.value) else Refused(r.1.error))
  }

  /** One atomic database step; a client that is not at the step named does nothing. */
  function Step(s: State, op: Op): (State, Out) {
    match op
    case Acquiring(f, h, reason, ttl, now) => Lift(s, Acquire(s.leases, f, h, reason, ttl, now))
    case Renewing(f, h, e, ttl, now) => Lift(s, Renew(s.leases, f, h, e, ttl, now))
    case TakingOver(f, h, e, reason, ttl, now) => Lift(s, Takeover(s.leases, f, h, e, reason, ttl, now))
    case Releasing(f, h, e) =>
      var r := Release(s.leases, f, h, e);
      (s.(leases := r.0), if r.1.Ok? then Released else Refused(r.1.error))
    case Reading(c, caller, f, presented, id, minted, now) =>
      var r := ReadLease(s.leases, caller, f, presented, id, minted, now);
      if r.Raised? then (s.(pending := s.pending - {c}), Refused(r.error))
      else (s.(pending := s.pending[c := HasRead(r.value)]), InProgress)
    case Selecting(c) =>
      if c !in s.pending || !s.pending[c].HasRead? then (s, InProgress)
      else
        var t := s.pending[c].ticket;
        var r := SelectAction(s.actions, t.key);
        if r.Raised? then (s.(pending := s.pending - {c}), Refused(r.error))
        else if r.value.Some? then (s.(pending := s.pending - {c}), Returned(t.key, r.value.value))
        else (s.(pending := s.pending[c := FoundNone(t)]), InProgress)
    case Inserting(c) =>
      if c !in s.pending || !s.pending[c].FoundNone? then (s, InProgress)
      else
        var t := s.pending[c].ticket;
        var r := InsertAction(s.actions, t);
        (s.(pending := s.pending - {c}, actions := r.0),
         if r.1.Ok? then Returned(t.key, r.1.value) else Refused(r.1.error))
    case Replaying(caller, f, id) =>
      var key := ActionKey(f, caller, id);
      var r := LookUpAction(s.actions, key);
      if r.Raised? then (s, Refused(r.error))
      else if r.value.None? then (s, NotFound)
      else (s, Returned(key, r.value.value))
  }

  const EMPTY := State(map[], map[], map[])

  /** The state before step `n` of the run `ops`. */
  function At(ops: seq<Op>, n: nat): State
    requires n <= |ops|
  {
    if n == 0 then EMPTY else Step(At(ops, n - 1), ops[n - 1]).0
  }

  function OutAt(ops: seq<Op>, n: nat): Out
    requires n < |ops|
  {
    Step(At(ops, n), ops[n]).1
  }

  // ----- fencing

  /** Step `n` hands the family's tenure to someone: a successful `acquire` or `takeover`. */
  predicate ReplacesTenure(ops: seq<Op>, n: nat, family: string)
    requires n < |ops|
  {
    (ops[n].Acquiring? || ops[n].TakingOver?) && ops[n].family == family && OutAt(ops, n).Leased?
  }

  function Replacement(ops: seq<Op>, n: nat, family: string): nat
    requires n < |ops|
  {
    if ReplacesTenure(ops, n, family) then 1 else 0
  }

  function Replacements(ops: seq<Op>, family: string, i: nat, j: nat): nat
    requires i <= j <= |ops|
    decreases j - i
  {
    if i == j then 0 else Replacements(ops, family, i, j - 1) + Replacement(ops, j - 1, family)
  }

  /** The family's row exists before every step from `i` to `j`: one incarnation, no release in between. */
  ghost predicate SameIncarnation(ops: seq<Op>, family: string, i: nat, j: nat) {
    i <= j <= |ops| && forall m :: i <= m <= j ==> family in At(ops, m).leases
  }

  lemma AcquireOnRow(leases: Leases, family: string, op: Op)
    requires op.Acquiring? && family in leases
    ensures var r := Acquire(leases, op.family, op.holder, op.reason, op.ttl, op.now);
            family in r.0 && if r.1.Ok? && op.family == family
                             then r.0[family] == r.1.value && r.1.value.epoch == leases[family].epoch + 1
                                 && r.1.value.holder == op.holder
                             else r.0[family] == leases[family]
  {
    hide ValidHolder, ValidReason;
  }

  lemma TakeoverOnRow(leases: Leases, family: string, op: Op)
    requires op.TakingOver? && family in leases
    ensures var r := Takeover(leases, op.family, op.holder, op.observed, op.reason, op.ttl, op.now);
            family in r.0 && if r.1.Ok? && op.family == family
                             then r.0[family] == r.1.value && r.1.value.epoch == leases[family].epoch + 1
                                 && r.1.value.holder == op.holder
                             else r.0[family] == leases[family]
  {
    hide ValidHolder, ValidReason;
  }

  lemma RenewOnRow(leases: Leases, family: string, op: Op)
    requires op.Renewing? && family in leases
    ensures var after := Renew(leases, op.family, op.holder, op.observed, op.ttl, op.now).0;
            family in after && after[family].epoch == leases[family].epoch
                && after[family].holder == leases[family].holder
  {
    hide ValidHolder;
  }

  lemma ReleaseOnRow(leases: Leases, family: string, op: Op)
    requires op.Releasing?
    ensures var after := Release(leases, op.family, op.holder, op.observed).0;
            family in after ==> family in leases && after[family] == leases[family]
  {
    hide ValidHolder;
  }

  /** What one step does to a row that survives it. */
  lemma TenureStep(ops: seq<Op>, n: nat, family: string)
    requires n < |ops|
    requires family in At(ops, n).leases && family in At(ops, n + 1).leases
    ensures var before := At(ops, n).leases[family];
            var after := At(ops, n + 1).leases[family];
            if ReplacesTenure(ops, n, family)
            then after.epoch == before.epoch + 1 && after.holder == ops[n].holder && OutAt(ops, n) == Leased(after)
            else after.epoch == before.epoch && after.holder == before.holder
  {
    hide Acquire, Renew, Takeover, Release, ReadLease, SelectAction, InsertAction, LookUpAction;
    var leases, op := At(ops, n).leases, ops[n];
    if op.Acquiring? { AcquireOnRow(leases, family, op); }
    if op.TakingOver? { TakeoverOnRow(leases, family, op); }
    if op.Renewing? { RenewOnRow(leases, family, op); }
    if op.Releasing? { ReleaseOnRow(leases, family, op); }
    assert At(ops, n + 1) == Step(At(ops, n), ops[n]).0;
  }

  function EpochAt(ops: seq<Op>, n: nat, family: string): int
    requires n <= |ops| && family in At(ops, n).leases
  {
    At(ops, n).leases[family].epoch
  }

  lemma EpochStep(ops: seq<Op>, n: nat, family: string)
    requires n < |ops|
    requires family in At(ops, n).leases && family in At(ops, n + 1).leases
    ensures EpochAt(ops, n + 1, family) == EpochAt(ops, n, family) + Replacement(ops, n, family)
  {
    TenureStep(ops, n, family);
  }

  /** Within an incarnation the epoch counts exactly the changes of tenure, so it never decreases. */
  lemma {:induction false} EpochCountsTenures(ops: seq<Op>, family: string, i: nat, j: nat)
    requires SameIncarnation(ops, family, i, j)
    ensures EpochAt(ops, j, family) == EpochAt(ops, i, family) + Replacements(ops, family, i, j)
    decreases j - i
  {
    if i < j {
      EpochCountsTenures(ops, family, i, j - 1);
      EpochStep(ops, j - 1, family);
    }
  }

  /** An incarnation begins at epoch 1, and only an `acquire` begins one. */
  lemma IncarnationBeginsAtOne(ops: seq<Op>, family: string, n: nat)
    requires n < |ops| && family !in At(ops, n).leases && family in At(ops, n + 1).leases
    ensures ops[n].Acquiring? && ReplacesTenure(ops, n, family) && At(ops, n + 1).leases[family].epoch == 1
  {
    assert At(ops, n + 1) == Step(At(ops, n), ops[n]).0;
  }

  predicate ValidRow(family: string, row: Row) {
    family in FAMILIES && ValidHolder(row.holder) && row.epoch >= 1
  }

  ghost predicate ValidRows(leases: Leases) {
    forall family :: family in leases ==> ValidRow(family, leases[family])
  }

  lemma StepKeepsRowsValid(s: State, op: Op)
    requires ValidRows(s.leases)
    ensures ValidRows(Step(s, op).0.leases)
  {
    hide ValidHolder, ValidReason, ReadLease, SelectAction, InsertAction, LookUpAction;
  }

  lemma {:induction false} RowsAreValid(ops: seq<Op>, n: nat)
    requires n <= |ops|
    ensures ValidRows(At(ops, n).leases)
  {
    hide Step, ValidRows;
    if n == 0 {
      assert ValidRows(map[]) by { NoRowsAreValid(); }
    } else {
      RowsAreValid(ops, n - 1);
      StepKeepsRowsValid(At(ops, n - 1), ops[n - 1]);
    }
  }

  lemma NoRowsAreValid()
    ensures ValidRows(map[])
  {
  }

  /** Whatever run led here, an `acquire` that displaces a holder does so at an instant at which that
      holder's own `renew` and `check` would be refused as expired; and until such an instant every
      `acquire` fails. */
  lemma AcquireNeverCutsInOnALiveHolder(ops: seq<Op>, n: nat, ttl: real, actionId: Option<string>, minted: string)
    requires n < |ops| && ops[n].Acquiring? && ops[n].family in At(ops, n).leases
    ensures var leases, family, now := At(ops, n).leases, ops[n].family, ops[n].now;
            var row := leases[family];
            var renewed := Renew(leases, family, row.holder, row.epoch, ttl, now).1;
            var checked := ReadLease(leases, row.holder, family, Some(row.epoch), actionId, minted, now);
            && (OutAt(ops, n).Leased? ==>
                  renewed == Raised(ExpiredLease(row.expiresAt)) && checked == Raised(ExpiredLease(row.expiresAt)))
            && (renewed.Ok? ==> OutAt(ops, n).Refused?) && (checked.Ok? ==> OutAt(ops, n).Refused?)
  {
    hide At, ValidHolder, ValidReason, ValidActionId;
    RowsAreValid(ops, n);
    assert ValidRow(ops[n].family, At(ops, n).leases[ops[n].family]);
  }

  /** Within an incarnation equal epochs mean the same holder. */
  lemma {:induction false} EpochDeterminesHolder(ops: seq<Op>, family: string, i: nat, j: nat)
    requires SameIncarnation(ops, family, i, j)
    requires At(ops, i).leases[family].epoch == At(ops, j).leases[family].epoch
    ensures At(ops, i).leases[family].holder == At(ops, j).leases[family].holder
    decreases j - i
  {
    if i < j {
      EpochCountsTenures(ops, family, i, j - 1);
      TenureStep(ops, j - 1, family);
      EpochDeterminesHolder(ops, family, i, j - 1);
    }
  }

  /** Every later operation of the incarnation that presents the given epoch is turned away. */
  ghost predicate EpochIsFenced(ops: seq<Op>, family: string, epoch: int, n: nat)
    requires n < |ops|
  {
    && (ops[n].Renewing? && ops[n].family == family && ops[n].observed == epoch ==> OutAt(ops, n).Refused?)
    && (ops[n].Releasing? && ops[n].family == family && ops[n].observed == epoch ==> OutAt(ops, n).Refused?)
    && (ops[n].TakingOver? && ops[n].family == family && ops[n].observed == epoch ==> OutAt(ops, n).Refused?)
    && (ops[n].Reading? && ops[n].family == family && ops[n].presented == Some(epoch) ==> OutAt(ops, n).Refused?)
  }

  /** Once tenure has been replaced, the old epoch is useless for the rest of the incarnation. In
      particular at most one of any number of takeovers that present the same epoch succeeds. */
  lemma ReplacedEpochStaysFenced(ops: seq<Op>, family: string, i: nat, j: nat)
    requires i < j < |ops| && SameIncarnation(ops, family, i, j) && ReplacesTenure(ops, i, family)
    ensures EpochIsFenced(ops, family, At(ops, i).leases[family].epoch, j)
  {
    TenureStep(ops, i, family);
    EpochCountsTenures(ops, family, i + 1, j);
  }

  lemma AtMostOneTakeoverPerEpoch(ops: seq<Op>, family: string, i: nat, j: nat)
    requires i < j < |ops| && SameIncarnation(ops, family, i, j)
    requires ops[i].TakingOver? && ops[j].TakingOver? && ops[i].family == ops[j].family == family
    requires ops[i].observed == ops[j].observed
    ensures !(OutAt(ops, i).Leased? && OutAt(ops, j).Leased?)
  {
    if OutAt(ops, i).Leased? {
      ReplacedEpochStaysFenced(ops, family, i, j);
    }
  }

  /** The epochs given out within one incarnation are pairwise different. */
  lemma EpochsAreNotReusedWithoutRelease(ops: seq<Op>, family: string, i: nat, j: nat)
    requires i < j < |ops| && SameIncarnation(ops, family, i + 1, j + 1)
    requires ReplacesTenure(ops, i, family) && ReplacesTenure(ops, j, family)
    ensures At(ops, i + 1).leases[family].epoch < At(ops, j + 1).leases[family].epoch
  {
    EpochCountsTenures(ops, family, i + 1, j);
    TenureStep(ops, j, family);
  }

  /** After a release the numbering starts over, so an epoch can come back: the claim that an epoch is
      never reused holds only within an incarnation. */
  lemma ReleaseReusesEpochs(first: string, second: string, reason: string, ttl: real, now: real)
    requires ValidHolder(first) && ValidHolder(second) && ValidReason(reason)
    ensures var ops := [Acquiring("overseer", first, reason, ttl, now), Releasing("overseer", first, 1),
                        Acquiring("overseer", second, reason, ttl, now)];
            && OutAt(ops, 0).Leased? && OutAt(ops, 2).Leased?
            && OutAt(ops, 0).row.epoch == OutAt(ops, 2).row.epoch == 1
  {
    var ops := [Acquiring("overseer", first, reason, ttl, now), Releasing("overseer", first, 1),
                Acquiring("overseer", second, reason, ttl, now)];
    assert At(ops, 0) == EMPTY;
    assert At(ops, 1) == Step(At(ops, 0), ops[0]).0;
    assert At(ops, 2) == Step(At(ops, 1), ops[1]).0;
  }

  /** One writer per family at a time: if the gate lets two different callers pass in one incarnation,
      the later one holds a strictly later epoch, so the earlier one is fenced by then. */
  lemma WritersAreSerialized(ops: seq<Op>, i: nat, j: nat)
    requires i < j < |ops| && ops[i].Reading? && ops[j].Reading? && ops[i].family == ops[j].family
    requires OutAt(ops, i) == InProgress && OutAt(ops, j) == InProgress && ops[i].caller != ops[j].caller
    requires SameIncarnation(ops, ops[i].family, i, j)
    ensures ops[i].presented.Some? && ops[j].presented.Some? && ops[i].presented.value < ops[j].presented.value
    ensures EpochIsFenced(ops, ops[i].family, ops[i].presented.value, j)
  {
    var family := ops[i].family;
    EpochCountsTenures(ops, family, i, j);
    if EpochAt(ops, i, family) == EpochAt(ops, j, family) {
      EpochDeterminesHolder(ops, family, i, j);
    }
  }

  // ----- receipts

  /** Step `r` is the lease read behind `ticket`: at that instant the ticket's holder was the caller,
      held the lease at the ticket's epoch, and the lease had not expired. */
  predicate ReadBehind(ops: seq<Op>, r: nat, ticket: Ticket)
    requires r < |ops|
  {
    && ops[r].Reading?
    && ops[r].family == ticket.key.family == ticket.receipt.family
    && ops[r].caller == ticket.key.caller == ticket.receipt.holder
    && ticket.key.actionId == ticket.receipt.actionId
    && (ops[r].actionId.Some? && ops[r].actionId.value != "" ==> ops[r].actionId.value == ticket.key.actionId)
    && ops[r].now == ticket.receipt.acceptedAt
    && ops[r].presented == Some(ticket.receipt.epoch)
    && ops[r].family in At(ops, r).leases
    && var row := At(ops, r).leases[ops[r].family];
       row.holder == ticket.receipt.holder && row.epoch == ticket.receipt.epoch && row.expiresAt > ops[r].now
  }

  ghost predicate Justified(ops: seq<Op>, n: nat, ticket: Ticket)
    requires n <= |ops|
  {
    exists r :: 0 <= r < n && ReadBehind(ops, r, ticket)
  }

  ghost predicate AllJustified(ops: seq<Op>, n: nat)
    requires n <= |ops|
  {
    && (forall c :: c in At(ops, n).pending ==> Justified(ops, n, At(ops, n).pending[c].ticket))
    && (forall key :: key in At(ops, n).actions ==> Justified(ops, n, Ticket(key, At(ops, n).actions[key])))
  }

  /** The ticket was handed out by this very read. */
  predicate JustRead(s: State, op: Op, t: Ticket) {
    op.Reading? && ReadLease(s.leases, op.caller, op.family, op.presented, op.actionId, op.minted, op.now) == Ok(t)
  }

  ghost predicate WasPending(s: State, t: Ticket) {
    exists c :: c in s.pending && s.pending[c].ticket == t
  }

  /** A step invents no ticket and no receipt: tickets come from a read, receipts from a ticket. */
  lemma StepInventsNothing(s: State, op: Op)
    ensures var after := Step(s, op).0;
            && (forall c :: c in after.pending ==>
                WasPending(s, after.pending[c].ticket) || JustRead(s, op, after.pending[c].ticket))
            && (forall key :: key in after.actions ==>
                  (key in s.actions && s.actions[key] == after.actions[key])
                      || WasPending(s, Ticket(key, after.actions[key])))
  {
    hide Acquire, Renew, Takeover, Release, ReadLease, SelectAction, LookUpAction;
    assert forall c :: c in s.pending ==> WasPending(s, s.pending[c].ticket);
  }

  lemma ReadIsBehind(ops: seq<Op>, n: nat, t: Ticket)
    requires n < |ops| && JustRead(At(ops, n), ops[n], t)
    ensures Justified(ops, n + 1, t)
  {
    hide ValidActionId, At, Step;
    assert ReadBehind(ops, n, t);
  }

  lemma StaysJustified(ops: seq<Op>, n: nat, t: Ticket)
    requires n < |ops| && Justified(ops, n, t)
    ensures Justified(ops, n + 1, t)
  {
    hide ReadBehind;
  }

  lemma {:induction false} ReceiptsAreJustified(ops: seq<Op>, n: nat)
    requires n <= |ops|
    ensures AllJustified(ops, n)
  {
    hide Step, JustRead, Justified;
    if n > 0 {
      ReceiptsAreJustified(ops, n - 1);
      var s, op := At(ops, n - 1), ops[n - 1];
      StepInventsNothing(s, op);
      assert At(ops, n) == Step(s, op).0;
      forall t | Justified(ops, n - 1, t) ensures Justified(ops, n, t) { StaysJustified(ops, n - 1, t); }
      forall t | JustRead(s, op, t) ensures Justified(ops, n, t) { ReadIsBehind(ops, n - 1, t); }
    }
  }

  /** A recorded receipt is never changed or dropped. */
  lemma {:induction false} ReceiptsPersist(ops: seq<Op>, i: nat, j: nat)
    requires i <= j <= |ops|
    ensures forall key :: key in At(ops, i).actions ==>
              key in At(ops, j).actions && At(ops, j).actions[key] == At(ops, i).actions[key]
    decreases j - i
  {
    hide Acquire, Renew, Takeover, Release, ReadLease, LookUpAction;
    if i < j {
      ReceiptsPersist(ops, i, j - 1);
      assert At(ops, j) == Step(At(ops, j - 1), ops[j - 1]).0;
    }
  }

  lemma ReturnedIsRecorded(ops: seq<Op>, n: nat)
    requires n < |ops| && OutAt(ops, n).Returned?
    ensures var out := OutAt(ops, n);
            out.key in At(ops, n + 1).actions && At(ops, n + 1).actions[out.key] == out.receipt
  {
    hide Acquire, Renew, Takeover, Release, ReadLease, ValidActionId;
    assert At(ops, n + 1) == Step(At(ops, n), ops[n]).0;
  }

  /** Receipts linearize. All accepted checks and successful replays of one (family, caller, action id)
      in a run return the same receipt, and behind it stands one earlier read at which its holder was
      the caller and held the unexpired lease at its epoch - whatever happened to the lease between
      that read and the record. */
  lemma ReceiptsLinearize(ops: seq<Op>, i: nat, j: nat)
    requires i <= j < |ops| && OutAt(ops, i).Returned? && OutAt(ops, j).Returned?
    requires OutAt(ops, i).key == OutAt(ops, j).key
    ensures OutAt(ops, i).receipt == OutAt(ops, j).receipt
    ensures Justified(ops, i + 1, Ticket(OutAt(ops, i).key, OutAt(ops, i).receipt))
  {
    ReturnedIsRecorded(ops, i);
    ReturnedIsRecorded(ops, j);
    ReceiptsPersist(ops, i + 1, j + 1);
    ReceiptsAreJustified(ops, i + 1);
  }

  /** The interleaving the previous lemma allows does happen: a check reads, its lease is taken over,
      and the check is still accepted under the epoch it read. */
  lemma TakeoverBetweenReadAndRecord(holder: string, pair: string, id: string, reason: string, ttl: real, now: real)
    requires ValidHolder(holder) && ValidHolder(pair) && ValidReason(reason) && ValidActionId(id) && ttl > 0.0
    ensures var ops := [Acquiring("overseer", holder, reason, ttl, now),
                        Reading(0, holder, "overseer", Some(1), Some(id), id, now),
                        TakingOver("overseer", pair, 1, reason, ttl, now), Selecting(0), Inserting(0)];
            && OutAt(ops, 4) == Returned(ActionKey("overseer", holder, id), Receipt(id, "overseer", holder, 1, now))
            && "overseer" in At(ops, 4).leases
            && At(ops, 4).leases["overseer"].epoch == 2 && At(ops, 4).leases["overseer"].holder == pair
  {
    var ops := [Acquiring("overseer", holder, reason, ttl, now),
                Reading(0, holder, "overseer", Some(1), Some(id), id, now),
                TakingOver("overseer", pair, 1, reason, ttl, now), Selecting(0), Inserting(0)];
    assert At(ops, 1) == Step(EMPTY, ops[0]).0;
    assert At(ops, 2) == Step(At(ops, 1), ops[1]).0;
    assert At(ops, 3) == Step(At(ops, 2), ops[2]).0;
    assert At(ops, 4) == Step(At(ops, 3), ops[3]).0;
  }

  /** Of several checks racing to record one key, the first INSERT wins; a check whose SELECT came too
      early is refused by the primary key and never returns a second receipt. */
  lemma LosingInsertIsRefused(ops: seq<Op>, n: nat, client: nat)
    requires n < |ops| && ops[n] == Inserting(client)
    requires client in At(ops, n).pending && At(ops, n).pending[client].FoundNone?
    ensures var t := At(ops, n).pending[client].ticket;
            && (t.key in At(ops, n).actions <==> OutAt(ops, n) == Refused(IntegrityError))
            && (t.key !in At(ops, n).actions <==> OutAt(ops, n) == Returned(t.key, t.receipt))
            && (t.key in At(ops, n).actions ==> At(ops, n + 1).actions == At(ops, n).actions)
  {
    assert At(ops, n + 1) == Step(At(ops, n), ops[n]).0;
  }

  /** Run without interruption, the three steps of a check do what LeaseGate.Check does in one. */
  lemma UninterruptedCheck(s: State, c: nat, caller: string, family: string, presented: Option<int>,
                           actionId: Option<string>, minted: string, now: real)
    ensures var read := Step(s, Reading(c, caller, family, presented, actionId, minted, now));
            var selected := Step(read.0, Selecting(c));
            var inserted := Step(selected.0, Inserting(c));
            var ticket := ReadLease(s.leases, caller, family, presented, actionId, minted, now);
            if ticket.Raised? then read.1 == Refused(ticket.error) && inserted.0.actions == s.actions
            else
              var Ticket(key, receipt) := ticket.value;
              if !ValidActionId(key.actionId)
              then selected.1 == Refused(MalformedActionId) && inserted.0.actions == s.actions
              else
                && inserted.0.actions == (if key in s.actions then s.actions else s.actions[key := receipt])
                && (if key in s.actions then selected.1 else inserted.1) == Returned(key, inserted.0.actions[key])
  {
  }
}
