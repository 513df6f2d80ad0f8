/** Checks that race to record one action: whatever the interleaving, one INSERT wins. */
module EffectLeaseRaces {
  import opened Common
  import opened EffectLease
  import opened EffectLeaseRuns

  predicate RecordableKey(key: ActionKey) {
    key.family in FAMILIES && ValidActionId(key.actionId)
  }

  /** A check that is about to insert, and every recorded action, has a key that passed the checks. */
  ghost predicate KeysChecked(s: State) {
    && (forall c :: c in s.pending && s.pending[c].FoundNone? ==> RecordableKey(s.pending[c].ticket.key))
    && (forall key :: key in s.actions ==> RecordableKey(key))
  }

  lemma StepKeepsKeysChecked(s: State, op: Op)
    requires KeysChecked(s)
    ensures KeysChecked(Step(s, op).0)
  {
    hide Acquire, Renew, Takeover, Release, ReadLease, LookUpAction, ValidActionId;
  }

  lemma {:induction false} KeysAreChecked(ops: seq<Op>, n: nat)
    requires n <= |ops|
    ensures KeysChecked(At(ops, n))
  {
    hide Step;
    if n > 0 {
      KeysAreChecked(ops, n - 1);
      StepKeepsKeysChecked(At(ops, n - 1), ops[n - 1]);
    }
  }

  /** Step `n` is one of a check's two steps towards the record of `key`. */
  predicate Records(ops: seq<Op>, n: nat, key: ActionKey)
    requires n < |ops|
  {
    && (ops[n].Selecting? || ops[n].Inserting?) && ops[n].client in At(ops, n).pending
    && At(ops, n).pending[ops[n].client].ticket.key == key
    && (if ops[n].Selecting? then At(ops, n).pending[ops[n].client].HasRead?
        else At(ops, n).pending[ops[n].client].FoundNone?)
  }

  /** Of several checks racing to record one key, exactly one INSERT succeeds. From then on a check that
      looks first returns the winner's receipt, a check whose look came too early is refused by the
      primary key, and every replay of the key returns the winner's receipt. */
  lemma FirstInsertWins(ops: seq<Op>, i: nat, j: nat, key: ActionKey)
    requires i < j < |ops| && ops[i].Inserting? && Records(ops, i, key) && OutAt(ops, i).Returned?
    ensures ops[j].Inserting? && Records(ops, j, key) ==> OutAt(ops, j) == Refused(IntegrityError)
    ensures ops[j].Selecting? && Records(ops, j, key) ==> OutAt(ops, j) == Returned(key, OutAt(ops, i).receipt)
    ensures ops[j].Replaying? && ActionKey(ops[j].family, ops[j].caller, ops[j].replayId) == key ==>
              OutAt(ops, j) == Returned(key, OutAt(ops, i).receipt)
  {
    hide At, ValidActionId;
    LosingInsertIsRefused(ops, i, ops[i].client);
    ReturnedIsRecorded(ops, i);
    ReceiptsPersist(ops, i + 1, j);
    KeysAreChecked(ops, j);
    assert RecordableKey(key);
  }

  /** Someone always wins: the first INSERT of a key in a run succeeds. */
  lemma FirstInsertSucceeds(ops: seq<Op>, n: nat, key: ActionKey)
    requires n < |ops| && ops[n].Inserting? && Records(ops, n, key)
    requires forall i :: 0 <= i < n && ops[i].Inserting? ==> !Records(ops, i, key)
    ensures OutAt(ops, n).Returned? && OutAt(ops, n).key == key
  {
    hide At, Records;
    NothingRecordedYet(ops, n, key);
    RecordsItsTicket(ops, n, key);
    LosingInsertIsRefused(ops, n, ops[n].client);
  }

  lemma RecordsItsTicket(ops: seq<Op>, n: nat, key: ActionKey)
    requires n < |ops| && ops[n].Inserting? && Records(ops, n, key)
    ensures ops[n].client in At(ops, n).pending && At(ops, n).pending[ops[n].client].FoundNone?
    ensures At(ops, n).pending[ops[n].client].ticket.key == key
  {
    hide At;
  }

  lemma {:induction false} NothingRecordedYet(ops: seq<Op>, n: nat, key: ActionKey)
    requires n <= |ops| && forall i :: 0 <= i < n && ops[i].Inserting? ==> !Records(ops, i, key)
    ensures key !in At(ops, n).actions
  {
    hide Acquire, Renew, Takeover, Release, ReadLease, SelectAction, LookUpAction;
    if n > 0 {
      NothingRecordedYet(ops, n - 1, key);
      assert At(ops, n) == Step(At(ops, n - 1), ops[n - 1]).0;
    }
  }
}
