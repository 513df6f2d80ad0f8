/** The mutable store and the gate in front of it; every method is proved against the transaction of
    the same name in EffectLease. */
module EffectLeaseStore {
  import opened Common
  import opened EffectLease

  class LeaseStore {
    var leases: Leases
    var actions: Actions

    constructor ()
      ensures leases == map[] && actions == map[]
    {
      leases, actions := map[], map[];
    }

    method Get(family: string) returns (r: Outcome<Option<Row>, Error>)
      ensures family !in FAMILIES ==> r == Raised(UnknownFamily)
      ensures family in FAMILIES && family !in leases ==> r == Ok(None)
      ensures family in FAMILIES && family in leases ==> r == Ok(Some(leases[family]))
    {
      if family !in FAMILIES { return Raised(UnknownFamily); }
      if family in leases { return Ok(Some(leases[family])); }
      return Ok(None);
    }

    method Acquire(family: string, holder: string, reason: string, ttl: real, now: real)
      returns (r: Outcome<Row, Error>)
      modifies this`leases
      ensures (leases, r) == EffectLease.Acquire(old(leases), family, holder, reason, ttl, now)
    {
      if family !in FAMILIES { return Raised(UnknownFamily); }
      if !ValidHolder(holder) { return Raised(BadHolder); }
      if !ValidReason(reason) { return Raised(BadReason); }
      var newEpoch := 1;
      if family in leases {
        var row := leases[family];
        if row.expiresAt > now { return Raised(LeaseTaken(row.holder, row.epoch)); }
        newEpoch := row.epoch + 1;
      }
      var row := Row(holder, newEpoch, now, now + ttl, reason);
      leases := leases[family := row];
      return Ok(row);
    }

    method Renew(family: string, holder: string, observed: int, ttl: real, now: real)
      returns (r: Outcome<Row, Error>)
      modifies this`leases
      ensures (leases, r) == EffectLease.Renew(old(leases), family, holder, observed, ttl, now)
    {
      if family !in FAMILIES { return Raised(UnknownFamily); }
      if !ValidHolder(holder) { return Raised(BadHolder); }
      if observed < 1 { return Raised(BadEpoch); }
      if family !in leases { return Raised(MissingLease); }
      var row := leases[family];
      if row.holder != holder { return Raised(NotHolder(row.holder)); }
      if row.epoch != observed { return Raised(StaleEpoch(observed, row.epoch)); }
      if row.expiresAt <= now { return Raised(ExpiredLease(row.expiresAt)); }
      row := Row(holder, observed, now, now + ttl, "renew");
      leases := leases[family := row];
      return Ok(row);
    }

    method Release(family: string, holder: string, observed: int) returns (r: Outcome<(), Error>)
      modifies this`leases
      ensures (leases, r) == EffectLease.Release(old(leases), family, holder, observed)
    {
      if family !in FAMILIES { return Raised(UnknownFamily); }
      if !ValidHolder(holder) { return Raised(BadHolder); }
      if observed < 1 { return Raised(BadEpoch); }
      if family !in leases { return Raised(MissingLease); }
      var row := leases[family];
      if row.holder != holder { return Raised(NotHolder(row.holder)); }
      if row.epoch != observed { return Raised(StaleEpoch(observed, row.epoch)); }
      leases := leases - {family};
      return Ok(());
    }

    method Takeover(family: string, newHolder: string, observed: int, reason: string, ttl: real, now: real)
      returns (r: Outcome<Row, Error>)
      modifies this`leases
      ensures (leases, r) == EffectLease.Takeover(old(leases), family, newHolder, observed, reason, ttl, now)
    {
      if family !in FAMILIES { return Raised(UnknownFamily); }
      if !ValidHolder(newHolder) { return Raised(BadHolder); }
      if !ValidReason(reason) { return Raised(BadReason); }
      if observed < 1 { return Raised(BadEpoch); }
      if family !in leases { return Raised(MissingLease); }
      var row := leases[family];
      if row.epoch != observed { return Raised(StaleEpoch(observed, row.epoch)); }
      row := Row(newHolder, observed + 1, now, now + ttl, reason);
      leases := leases[family := row];
      return Ok(row);
    }

    /** First write wins: a known key keeps and returns its first receipt. */
    method RecordAction(key: ActionKey, receipt: Receipt) returns (r: Outcome<Receipt, Error>)
      modifies this`actions
      ensures SelectAction(old(actions), key).Raised? ==> r == Raised(SelectAction(old(actions), key).error)
      ensures SelectAction(old(actions), key).Ok? ==>
                actions == (if key in old(actions) then old(actions) else old(actions)[key := receipt])
                    && r == Ok(actions[key])
      ensures r.Raised? ==> actions == old(actions)
    {
      if key.family !in FAMILIES { return Raised(UnknownFamily); }
      if !ValidActionId(key.actionId) { return Raised(MalformedActionId); }
      if key in actions { return Ok(actions[key]); }
      actions := actions[key := receipt];
      return Ok(receipt);
    }

    method LookUpAction(key: ActionKey) returns (r: Outcome<Option<Receipt>, Error>)
      ensures r == EffectLease.LookUpAction(actions, key)
    {
      if key.family !in FAMILIES { return Raised(UnknownFamily); }
      if !ValidActionId(key.actionId) { return Ok(None); }
      if key in actions { return Ok(Some(actions[key])); }
      return Ok(None);
    }
  }

  datatype CheckResult = CheckResult(family: string, holder: string, epoch: int, actionId: string, receipt: Receipt)

  class LeaseGate {
    const store: LeaseStore

    constructor (store: LeaseStore)
      ensures this.store == store
    {
      this.store := store;
    }

    /** A check that no other operation interrupts. */
    method Check(caller: string, family: string, observed: Option<int>, actionId: Option<string>, minted: string,
                 now: real)
      returns (r: Outcome<CheckResult, Error>)
      modifies store`actions
      ensures var ticket := ReadLease(store.leases, caller, family, observed, actionId, minted, now);
              if ticket.Raised? then r == Raised(ticket.error) && store.actions == old(store.actions)
              else
                var Ticket(key, receipt) := ticket.value;
                if !ValidActionId(key.actionId) then r == Raised(MalformedActionId)
                    && store.actions == old(store.actions)
                else
                  && store.actions == (if key in old(store.actions) then old(store.actions)
                                       else old(store.actions)[key := receipt])
                  && r == Ok(CheckResult(family, caller, store.leases[family].epoch, key.actionId, store.actions[key]))
    {
      if family !in FAMILIES { return Raised(UnknownFamily); }
      if observed.Some? && observed.value < 1 { return Raised(StaleEpoch(observed.value, 0)); }
      var got := store.Get(family);
      if got == Ok(None) { return Raised(MissingLease); }
      var record := got.value.value;
      if record.holder != caller { return Raised(NotHolder(record.holder)); }
      if observed.None? { return Raised(StaleEpoch(0, record.epoch)); }
      if observed.value != record.epoch { return Raised(StaleEpoch(observed.value, record.epoch)); }
      if record.expiresAt <= now { return Raised(ExpiredLease(record.expiresAt)); }
      var receiptId := minted;
      if actionId.Some? && actionId.value != "" {
        if !ValidActionId(actionId.value) { return Raised(MalformedActionId); }
        receiptId := actionId.value;
      }
      var recorded := store.RecordAction(ActionKey(family, caller, receiptId),
                                         Receipt(receiptId, family, record.holder, record.epoch, now));
      if recorded.Raised? { return Raised(recorded.error); }
      return Ok(CheckResult(family, record.holder, record.epoch, receiptId, recorded.value));
    }

    method Replay(caller: string, family: string, actionId: string) returns (r: Outcome<Option<Receipt>, Error>)
      ensures r == EffectLease.LookUpAction(store.actions, ActionKey(family, caller, actionId))
    {
      r := store.LookUpAction(ActionKey(family, caller, actionId));
    }
  }
}
