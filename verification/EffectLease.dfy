/** The writer lease of one runtime family: storage, compare-and-swap and receipts
    (src/lh_harness/effect_lease.py).

    Each database transaction is one function on values here; classes run the
    same transactions on mutable state, and EffectLeaseRuns interleaves them. */
module EffectLease {
  import opened Common

  datatype Row = Row(holder: string, epoch: int, acquiredAt: real, expiresAt: real, reason: string)

  datatype ActionKey = ActionKey(family: string, caller: string, actionId: string)

  datatype Receipt = Receipt(actionId: string, family: string, holder: string, epoch: int, acceptedAt: real)

  datatype Error =
    | UnknownFamily
    | BadHolder
    | BadReason
    | BadEpoch
    | MalformedActionId
    | MissingLease
    | NotHolder(observedHolder: string)
    | StaleEpoch(observedEpoch: int, currentEpoch: int)
    | ExpiredLease(expiresAt: real)
    | LeaseTaken(takenBy: string, takenEpoch: int)
    | IntegrityError  // the primary key of lease_action refused an INSERT

  type Leases = map<string, Row>
  type Actions = map<ActionKey, Receipt>

  const FAMILIES := {"overseer", "infraops", "devspecops"}
  const REASON_MAX := 128

  predicate IsCallerChar(c: char) {
    'a' <= c <= 'z' || '0' <= c <= '9' || c == '-'
  }

  predicate ValidHolder(holder: string) {
    1 <= |holder| <= 32 && holder[0] != '-' && forall i :: 0 <= i < |holder| ==> IsCallerChar(holder[i])
  }

  predicate ValidReason(reason: string) {
    1 <= |reason| <= REASON_MAX && '\n' !in reason
  }

  predicate IsActionIdChar(c: char) {
    '0' <= c <= '9' || 'a' <= c <= 'f' || 'A' <= c <= 'F' || c == '-'
  }

  /** The pattern is anchored with `$`, which also accepts one trailing newline. */
  predicate ValidActionId(id: string) {
    var body := if |id| > 0 && id[|id| - 1] == '\n' then id[..|id| - 1] else id;
    32 <= |body| <= 64 && forall i :: 0 <= i < |body| ==> IsActionIdChar(body[i])
  }

  // ----- the transactions on the lease table

  function Acquire(leases: Leases, family: string, holder: string, reason: string, ttl: real, now: real)
    : (r: (Leases, Outcome<Row, Error>))
  {
    if family !in FAMILIES then (leases, Raised(UnknownFamily))
    else if !ValidHolder(holder) then (leases, Raised(BadHolder))
    else if !ValidReason(reason) then (leases, Raised(BadReason))
    else if family !in leases then
      var row := Row(holder, 1, now, now + ttl, reason);
      (leases[family := row], Ok(row))
    else if leases[family].expiresAt > now then
      (leases, Raised(LeaseTaken(leases[family].holder, leases[family].epoch)))
    else
      var row := Row(holder, leases[family].epoch + 1, now, now + ttl, reason);
      (leases[family := row], Ok(row))
  }

  function Renew(leases: Leases, family: string, holder: string, observed: int, ttl: real, now: real)
    : (r: (Leases, Outcome<Row, Error>))
  {
    if family !in FAMILIES then (leases, Raised(UnknownFamily))
    else if !ValidHolder(holder) then (leases, Raised(BadHolder))
    else if observed < 1 then (leases, Raised(BadEpoch))
    else if family !in leases then (leases, Raised(MissingLease))
    else
      var row := leases[family];
      if row.holder != holder then (leases, Raised(NotHolder(row.holder)))
      else if row.epoch != observed then (leases, Raised(StaleEpoch(observed, row.epoch)))
      else if row.expiresAt <= now then (leases, Raised(ExpiredLease(row.expiresAt)))
      else
        var renewed := row.(acquiredAt := now, expiresAt := now + ttl, reason := "renew");
        (leases[family := renewed], Ok(renewed))
  }

  function Release(leases: Leases, family: string, holder: string, observed: int)
    : (r: (Leases, Outcome<(), Error>))
  {
    if family !in FAMILIES then (leases, Raised(UnknownFamily))
    else if !ValidHolder(holder) then (leases, Raised(BadHolder))
    else if observed < 1 then (leases, Raised(BadEpoch))
    else if family !in leases then (leases, Raised(MissingLease))
    else
      var row := leases[family];
      if row.holder != holder then (leases, Raised(NotHolder(row.holder)))
      else if row.epoch != observed then (leases, Raised(StaleEpoch(observed, row.epoch)))
      else (leases - {family}, Ok(()))
  }

  function Takeover(leases: Leases, family: string, newHolder: string, observed: int, reason: string, ttl: real,
                    now: real)
    : (r: (Leases, Outcome<Row, Error>))
  {
    if family !in FAMILIES then (leases, Raised(UnknownFamily))
    else if !ValidHolder(newHolder) then (leases, Raised(BadHolder))
    else if !ValidReason(reason) then (leases, Raised(BadReason))
    else if observed < 1 then (leases, Raised(BadEpoch))
    else if family !in leases then (leases, Raised(MissingLease))
    else if leases[family].epoch != observed then (leases, Raised(StaleEpoch(observed, leases[family].epoch)))
    else
      var row := Row(newHolder, observed + 1, now, now + ttl, reason);
      (leases[family := row], Ok(row))
  }

  // ----- the three database steps of a gate check

  /** What a check carries from its lease read to its write of the receipt. */
  datatype Ticket = Ticket(key: ActionKey, receipt: Receipt)

  /** The part of `check` that reads the lease and decides. `minted` is the id drawn when the caller sent none. */
  function ReadLease(leases: Leases, caller: string, family: string, observed: Option<int>, actionId: Option<string>,
                     minted: string, now: real)
    : (r: Outcome<Ticket, Error>)
  {
    if family !in FAMILIES then Raised(UnknownFamily)
    else if observed.Some? && observed.value < 1 then Raised(StaleEpoch(observed.value, 0))
    else if family !in leases then Raised(MissingLease)
    else
      var row := leases[family];
      if row.holder != caller then Raised(NotHolder(row.holder))
      else if observed.None? then Raised(StaleEpoch(0, row.epoch))
      else if observed.value != row.epoch then Raised(StaleEpoch(observed.value, row.epoch))
      else if row.expiresAt <= now then Raised(ExpiredLease(row.expiresAt))
      else if actionId.Some? && actionId.value != "" && !ValidActionId(actionId.value) then Raised(MalformedActionId)
      else
        var id := if actionId.Some? && actionId.value != "" then actionId.value else minted;
        Ok(Ticket(ActionKey(family, caller, id), Receipt(id, family, row.holder, row.epoch, now)))
  }

  /** The SELECT of `record_action`: the recorded receipt, or None when the INSERT is still to come. */
  function SelectAction(actions: Actions, key: ActionKey): (r: Outcome<Option<Receipt>, Error>) {
    if key.family !in FAMILIES then Raised(UnknownFamily)
    else if !ValidActionId(key.actionId) then Raised(MalformedActionId)
    else if key in actions then Ok(Some(actions[key]))
    else Ok(None)
  }

  /** The INSERT of `record_action`; the primary key refuses a second row. */
  function InsertAction(actions: Actions, ticket: Ticket): (r: (Actions, Outcome<Receipt, Error>)) {
    if ticket.key in actions then (actions, Raised(IntegrityError))
    else (actions[ticket.key := ticket.receipt], Ok(ticket.receipt))
  }

  function LookUpAction(actions: Actions, key: ActionKey): (r: Outcome<Option<Receipt>, Error>) {
    if key.family !in FAMILIES then Raised(UnknownFamily)
    else if !ValidActionId(key.actionId) then Ok(None)
    else if key in actions then Ok(Some(actions[key]))
    else Ok(None)
  }

  // ----- who may hold the lease at one instant

  /** At any instant a well-formed `acquire` succeeds exactly when the holder's own `renew` is refused
      as expired, and then the holder's `check` is refused as expired too. So `acquire` never
      displaces a holder who could still act. */
  lemma AcquireDisplacesOnlyTheExpired(leases: Leases, family: string, newcomer: string, reason: string, ttl: real,
                                       now: real, actionId: Option<string>, minted: string)
    requires family in FAMILIES && family in leases
    requires ValidHolder(newcomer) && ValidReason(reason)
    requires ValidHolder(leases[family].holder) && leases[family].epoch >= 1
    ensures var row := leases[family];
            var acquired := Acquire(leases, family, newcomer, reason, ttl, now);
            var renewed := Renew(leases, family, row.holder, row.epoch, ttl, now);
            var checked := ReadLease(leases, row.holder, family, Some(row.epoch), actionId, minted, now);
            && (acquired.1.Ok? <==> renewed.1 == Raised(ExpiredLease(row.expiresAt)))
            && (acquired.1.Ok? <==> checked == Raised(ExpiredLease(row.expiresAt)))
            && (acquired.1.Ok? <==> !renewed.1.Ok?)
            && (acquired.1.Ok? ==> acquired.0[family].epoch == row.epoch + 1)
  {
  }
}
