/** Whole runs over one ask: what every operation keeps between the record and the vault, where an
    applied value may go, and what the record can reveal about a secret. */
module AskRuns {
  import opened Common
  import opened AskRecords

  datatype Op =
    | Raising(columns: Columns, fields: seq<Field>, actor: string, at: string)
    | Declaring(fields: seq<Field>, actor: string, seed: Option<Seed>, at: string, env: Env)
    | Responding(actor: string, values: map<string, Value>, targets: map<string, string>, seed: Option<Seed>,
                 at: string, env: Env)
    | Clearing(field: string, actor: string, at: string, env: Env)
    | Applying(field: string, target: string, actor: string, at: string, env: Env)

  function Step(slot: Slot, askId: string, op: Op): (Slot, Out) {
    match op
    case Raising(columns, fields, actor, at) => RaiseAsk(slot, askId, columns, fields, actor, at)
    case Declaring(fields, actor, seed, at, env) => DeclareFields(slot, fields, actor, seed, at, env)
    case Responding(actor, values, targets, seed, at, env) => Respond(slot, askId, actor, values, targets, seed, at,
                                                                      env)
    case Clearing(field, actor, at, env) => ClearSecret(slot, field, actor, at, env)
    case Applying(field, target, actor, at, env) => ApplySecret(slot, field, target, actor, at, env)
  }

  /** The ask before operation `n` of a run that starts with no record and nothing sealed. */
  function At(askId: string, ops: seq<Op>, n: nat): Slot
    requires n <= |ops|
  {
    if n == 0 then Slot(None, map[]) else Step(At(askId, ops, n - 1), askId, ops[n - 1]).0
  }

  // ----- the record and the vault agree

  /** Every answer belongs to a declared field, only secret fields hold metadata, and the fields marked
      `sealed` are exactly those in the vault - with the length of the sealed value, and with one target
      in the vault, in the metadata and in the declaration. */
  ghost predicate Agrees(fields: seq<Field>, response: map<string, Answer>, vault: Vault) {
    && (forall name :: name in response ==> Find(fields, name).Some?)
    && (forall name :: name in response && response[name].Meta? ==> IsSecret(fields, name))
    && (forall name :: name in vault <==> name in response && response[name].Meta? && response[name].sealed)
    && (forall name :: name in vault ==>
          && response[name].applyTarget == vault[name].target == TargetOf(fields, name)
          && response[name].length == |vault[name].value|)
  }

  ghost predicate Agree(slot: Slot) {
    if slot.record.None? then slot.vault == map[]
    else Agrees(EffectiveFields(slot.record.value), slot.record.value.response, slot.vault)
  }

  /** Both ways of asking what is sealed - the vault's status and the record's metadata - give the same answer. */
  lemma SealedViewsAgree(record: Record, vault: Vault)
    requires Agrees(EffectiveFields(record), record.response, vault)
    ensures SealedByVault(vault) == SealedByRecord(record)
  {
    assert SealedByVault(vault).Keys == SealedByRecord(record).Keys;
  }

  lemma {:induction false} NamesAreFound(fields: seq<Field>)
    ensures forall name :: name in Names(fields) <==> Find(fields, name).Some?
  {
    if fields != [] {
      NamesAreFound(fields[..|fields| - 1]);
    }
  }

  lemma SeededAgrees(slot: Slot, seed: Option<Seed>)
    requires Agree(slot) && GetOrSeed(slot, seed).Some?
    ensures var record := GetOrSeed(slot, seed).value; Agrees(EffectiveFields(record), record.response, slot.vault)
  {
  }

  lemma RedeclaredAgrees(before: seq<Field>, after: seq<Field>, response: map<string, Answer>, vault: Vault)
    requires Agrees(before, response, vault)
    requires forall name :: name in vault ==> KeepsBinding(after, name, vault[name].target)
    ensures Agrees(after, map name | name in response && KeepsAnswer(before, after, name) :: response[name], vault)
  {
    hide Find;
  }

  lemma NothingAgrees(fields: seq<Field>)
    ensures Agrees(fields, map[], map[])
  {
  }

  lemma DeclareKeepsAgreement(slot: Slot, fields: seq<Field>, actor: string, seed: Option<Seed>, at: string, env: Env)
    requires Agree(slot)
    ensures Agree(DeclareFields(slot, fields, actor, seed, at, env).0)
  {
    hide Find, DefaultFields, Public, Names, Agrees, KeepsBinding, LastOf;
    if DeclareFields(slot, fields, actor, seed, at, env).1.Row? {
      var record := GetOrSeed(slot, seed).value;
      SeededAgrees(slot, seed);
      SealedViewsAgree(record, slot.vault);
      assert forall name :: name in slot.vault ==> name in SealedByVault(slot.vault);
      RedeclaredAgrees(EffectiveFields(record), fields, record.response, slot.vault);
      if fields == [] {
        NothingKept(EffectiveFields(record), record.response, slot.vault);
        NothingAgrees(DefaultFields(record.columns.kind));
      }
    }
  }

  lemma NothingKept(before: seq<Field>, response: map<string, Answer>, vault: Vault)
    requires Agrees(before, response, vault)
    requires forall name :: name in vault ==> KeepsBinding([], name, vault[name].target)
    ensures (map name | name in response && KeepsAnswer(before, [], name) :: response[name]) == map[] && vault == map[]
  {
  }

  lemma AnsweredAt(response: map<string, Answer>, vault: Vault, bodies: map<string, string>,
                   secrets: map<string, string>, targets: map<string, string>, actor: string, at: string, name: string)
    requires secrets.Keys <= targets.Keys
    ensures var after := response + Bodies(bodies) + Metas(secrets, targets, actor, at);
            var sealed := vault + Sealing(secrets, targets);
            if name in secrets then
              && name in after && after[name] == Meta(at, actor, |secrets[name]|, true, targets[name], None, None)
              && name in sealed && sealed[name] == Sealed(secrets[name], targets[name])
            else
              && (name in sealed <==> name in vault) && (name in vault ==> sealed[name] == vault[name])
              && if name in bodies then name in after && after[name] == Body(bodies[name])
                 else (name in after <==> name in response) && (name in response ==> after[name] == response[name])
  {
  }

  lemma AnsweredAgrees(fields: seq<Field>, response: map<string, Answer>, vault: Vault, bodies: map<string, string>,
                       secrets: map<string, string>, targets: map<string, string>, actor: string, at: string)
    requires Agrees(fields, response, vault) && secrets.Keys <= targets.Keys
    requires forall name :: name in bodies ==> Find(fields, name).Some? && !IsSecret(fields, name)
    requires forall name :: name in secrets ==>
               Find(fields, name).Some? && IsSecret(fields, name) && targets[name] == TargetOf(fields, name)
    ensures Agrees(fields, response + Bodies(bodies) + Metas(secrets, targets, actor, at),
                   vault + Sealing(secrets, targets))
  {
    hide Find, IsSecret, TargetOf, Bodies, Metas, Sealing;
    var after, sealed := response + Bodies(bodies) + Metas(secrets, targets, actor, at),
        vault + Sealing(secrets, targets);
    forall name
      ensures name in after ==> Find(fields, name).Some? && (after[name].Meta? ==> IsSecret(fields, name))
      ensures name in sealed <==> name in after && after[name].Meta? && after[name].sealed
      ensures name in sealed ==> after[name].applyTarget == sealed[name].target == TargetOf(fields, name)
                                 && after[name].length == |sealed[name].value|
    {
      AnsweredAt(response, vault, bodies, secrets, targets, actor, at, name);
    }
  }

  /** What an accepted submit holds: bodies of body fields, and secrets of secret fields with their targets. */
  lemma AcceptedSubmit(record: Record, values: map<string, Value>, targets: map<string, string>, disabled: bool)
    requires RespondRefusal(record, values, targets, disabled).None?
    ensures var fields := EffectiveFields(record);
            var bodies, secrets := BodiesIn(fields, values), SecretsIn(fields, values);
            && secrets.Keys <= targets.Keys
            && (forall name :: name in bodies ==> Find(fields, name).Some? && !IsSecret(fields, name))
            && (forall name :: name in secrets ==>
                  Find(fields, name).Some? && IsSecret(fields, name) && targets[name] == TargetOf(fields, name))
  {
    hide Find, EffectiveFields, Names, Filled, BodyOk, SecretOk;
    NamesAreFound(EffectiveFields(record));
  }

  lemma RespondKeepsAgreement(slot: Slot, askId: string, actor: string, values: map<string, Value>,
                              targets: map<string, string>, seed: Option<Seed>, at: string, env: Env)
    requires Agree(slot)
    ensures Agree(Respond(slot, askId, actor, values, targets, seed, at, env).0)
  {
    hide Find, DefaultFields, Public, Names, Agrees, Filled, Sealing, Metas, Bodies, IsClosedState, BodyOk, SecretOk,
         LastOf, BodiesIn, SecretsIn, IsSecret, TargetOf, RespondRefusal;
    if Respond(slot, askId, actor, values, targets, seed, at, env).1.Row? {
      var record := GetOrSeed(slot, seed).value;
      var fields := EffectiveFields(record);
      SeededAgrees(slot, seed);
      AcceptedSubmit(record, values, targets, env.disabled);
      AnsweredAgrees(fields, record.response, slot.vault, BodiesIn(fields, values), SecretsIn(fields, values), targets,
                     actor, at);
    }
  }

  lemma RaiseKeepsAgreement(slot: Slot, askId: string, columns: Columns, fields: seq<Field>, actor: string, at: string)
    requires Agree(slot)
    ensures Agree(RaiseAsk(slot, askId, columns, fields, actor, at).0)
  {
    hide Find;
  }

  lemma ClearKeepsAgreement(slot: Slot, field: string, actor: string, at: string, env: Env)
    requires Agree(slot)
    ensures Agree(ClearSecret(slot, field, actor, at, env).0)
  {
    hide Find, DefaultFields, Public, LastOf;
  }

  lemma ApplyKeepsAgreement(slot: Slot, field: string, target: string, actor: string, at: string, env: Env)
    requires Agree(slot)
    ensures Agree(ApplySecret(slot, field, target, actor, at, env).0)
  {
    hide Find, DefaultFields, Public, LastOf, Redact, Reason, Join, Strip;
  }

  /** Every operation, accepted, refused or failed in the vault, keeps record and vault in agreement. */
  lemma StepKeepsAgreement(slot: Slot, askId: string, op: Op)
    requires Agree(slot)
    ensures Agree(Step(slot, askId, op).0)
  {
    hide Agree, RaiseAsk, DeclareFields, Respond, ClearSecret, ApplySecret;
    match op
    case Raising(columns, fields, actor, at) => RaiseKeepsAgreement(slot, askId, columns, fields, actor, at);
    case Declaring(fields, actor, seed, at, env) => DeclareKeepsAgreement(slot, fields, actor, seed, at, env);
    case Responding(actor, values, targets, seed, at, env) =>
      RespondKeepsAgreement(slot, askId, actor, values, targets, seed, at, env);
    case Clearing(field, actor, at, env) => ClearKeepsAgreement(slot, field, actor, at, env);
    case Applying(field, target, actor, at, env) => ApplyKeepsAgreement(slot, field, target, actor, at, env);
  }

  lemma {:induction false} RecordAndVaultAgree(askId: string, ops: seq<Op>, n: nat)
    requires n <= |ops|
    ensures Agree(At(askId, ops, n))
  {
    hide Step;
    if n > 0 {
      RecordAndVaultAgree(askId, ops, n - 1);
      StepKeepsAgreement(At(askId, ops, n - 1), askId, ops[n - 1]);
    }
  }

  /** No sealed secret is out of reach: whatever run led here, `clear_secret` on a sealed field is
      accepted, and takes the value out of the vault and its metadata out of the record. */
  lemma SealedIsClearable(askId: string, ops: seq<Op>, n: nat, field: string, actor: string, at: string, env: Env)
    requires n <= |ops| && field in At(askId, ops, n).vault && !env.disabled && env.clearFailure.None?
    ensures var r := ClearSecret(At(askId, ops, n), field, actor, at, env);
            && r.1.Row? && field !in r.0.vault && field !in r.0.record.value.response
            && r.0.vault == At(askId, ops, n).vault - {field}
  {
    hide Find, At, DefaultFields, Public, LastOf;
    RecordAndVaultAgree(askId, ops, n);
  }

  // ----- where an applied value may go

  /** This operation is a submit that seals a value for `field`. */
  predicate Seals(slot: Slot, askId: string, op: Op, field: string) {
    && op.Responding? && Step(slot, askId, op).1.Row? && field in op.targets
    && GetOrSeed(slot, op.seed).Some?
    && field in SecretsIn(EffectiveFields(GetOrSeed(slot, op.seed).value), op.values)
  }

  /** The target the last submitter of `field` was shown, and the value submitted with it. */
  function LastSubmit(askId: string, ops: seq<Op>, n: nat, field: string): Option<Sealed>
    requires n <= |ops|
  {
    if n == 0 then None
    else
      var slot, op := At(askId, ops, n - 1), ops[n - 1];
      if Seals(slot, askId, op, field)
      then Some(Sealed(SecretsIn(EffectiveFields(GetOrSeed(slot, op.seed).value), op.values)[field], op.targets[field]))
      else LastSubmit(askId, ops, n - 1, field)
  }

  lemma RespondOnVault(slot: Slot, askId: string, op: Op, field: string)
    requires op.Responding?
    ensures var after := Step(slot, askId, op).0.vault;
            if Seals(slot, askId, op, field)
            then field in after
                 && after[field]
                    == Sealed(SecretsIn(EffectiveFields(GetOrSeed(slot, op.seed).value), op.values)[field],
                              op.targets[field])
            else field in after ==> field in slot.vault && after[field] == slot.vault[field]
  {
    hide Public, EffectiveFields, SecretsIn, BodiesIn, AnsweredRecord, RespondRefusal;
    if GetOrSeed(slot, op.seed).Some? {
      var record := GetOrSeed(slot, op.seed).value;
      if RespondRefusal(record, op.values, op.targets, op.env.disabled).None? {
        RefusalNamesTargets(record, op.values, op.targets, op.env.disabled);
      }
    }
  }

  lemma StepOnVault(slot: Slot, askId: string, op: Op, field: string)
    ensures var after := Step(slot, askId, op).0.vault;
            if Seals(slot, askId, op, field)
            then field in after
                 && after[field]
                    == Sealed(SecretsIn(EffectiveFields(GetOrSeed(slot, op.seed).value), op.values)[field],
                              op.targets[field])
            else field in after ==> field in slot.vault && after[field] == slot.vault[field]
  {
    hide Public, LastOf, EffectiveFields, Redact, Reason, Join, Respond, SecretsIn, IsSecret, TargetOf, Names, Strip,
         KeepsBinding, KeepsAnswer;
    if op.Responding? {
      RespondOnVault(slot, askId, op, field);
    }
  }

  /** The vault holds, for each field, exactly what was submitted last. */
  lemma {:induction false} VaultHoldsLastSubmit(askId: string, ops: seq<Op>, n: nat, field: string)
    requires n <= |ops|
    ensures var vault := At(askId, ops, n).vault; field in vault ==>
            LastSubmit(askId, ops, n, field) == Some(vault[field])
  {
    hide Step, Seals;
    if n > 0 {
      VaultHoldsLastSubmit(askId, ops, n - 1, field);
      StepOnVault(At(askId, ops, n - 1), askId, ops[n - 1], field);
    }
  }

  /** A successful apply writes to the target shown to the last submitter of that field. */
  lemma AppliedWhereSubmitted(askId: string, ops: seq<Op>, n: nat)
    requires n < |ops| && ops[n].Applying? && Step(At(askId, ops, n), askId, ops[n]).1.Applied?
    ensures var submit := LastSubmit(askId, ops, n, ops[n].field);
            submit.Some? && submit.value.target == ops[n].target == Step(At(askId, ops, n), askId, ops[n]).1.target
  {
    hide Find, At, LastSubmit, DefaultFields, Public, LastOf, Redact, Reason, Join;
    VaultHoldsLastSubmit(askId, ops, n, ops[n].field);
  }

  /** Once the store has let an apply through to the vault, the vault never refuses it over the target:
      what it recorded is present and equal to the one requested. The only refusals left are that
      nothing is sealed, the value's format, and the write itself. */
  lemma VaultTargetNeverDiffers(askId: string, ops: seq<Op>, n: nat, field: string, target: string, write: WriteVerdict)
    requires n <= |ops| && At(askId, ops, n).record.Some? && target in APPLY_TARGETS
    requires var fields := EffectiveFields(At(askId, ops, n).record.value);
             IsSecret(fields, field) && TargetOf(fields, field) == target
    ensures var vault := At(askId, ops, n).vault;
            && (field in vault ==> vault[field].target == target && target != "")
            && var refusal := VaultApply(vault, field, target, write).1;
               if field !in vault then refusal == Some(NothingSealed)
               else if write.Written? then refusal == None
               else refusal.Some? && (refusal.value.ValueFormat? || refusal.value.WriteFailed?)
  {
    hide Find, At, DefaultFields;
    RecordAndVaultAgree(askId, ops, n);
  }

  /** A value that reached its target always had its metadata in the record to be marked applied. */
  lemma AppliedMetaIsNeverCorrupt(askId: string, ops: seq<Op>, n: nat)
    requires n < |ops|
    ensures Step(At(askId, ops, n), askId, ops[n]).1 != Refused(CorruptMeta)
  {
    hide Find, At, DefaultFields, Public, LastOf, Redact, Reason, Join, Filled, BodiesIn, SecretsIn, Metas;
    RecordAndVaultAgree(askId, ops, n);
  }

  // ----- what the record can reveal about a secret

  predicate SameVaultShape(v: Vault, w: Vault) {
    v.Keys == w.Keys && forall name :: name in v ==>
        v[name].target == w[name].target && |v[name].value| == |w[name].value|
  }

  predicate SameButSecrets(s: Slot, t: Slot) {
    s.record == t.record && SameVaultShape(s.vault, t.vault)
  }

  /** Two submitted values an observer cannot tell apart: equal, or secrets of one length and one validity. */
  predicate SameValue(secret: bool, v: Value, w: Value) {
    v == w || (secret && v.Text? && w.Text? && |v.text| == |w.text| && NoControls(v.text) == NoControls(w.text))
  }

  predicate SameWrite(v: WriteVerdict, w: WriteVerdict, secret: string, other: string) {
    match v
    case Failed(raw) => w.Failed? && Redact(raw, secret) == Redact(w.raw, other)
    case _ => v == w
  }

  /** Two operations that differ only in secret values and in what the vault's failure quotes from them. */
  predicate SameOp(s: Slot, op: Op, t: Slot, other: Op) {
    match op
    case Responding(actor, values, targets, seed, at, env) =>
      && other.Responding? && other == Responding(actor, other.values, targets, seed, at, env)
      && values.Keys == other.values.Keys
      && (GetOrSeed(s, seed).Some? ==>
            var fields := EffectiveFields(GetOrSeed(s, seed).value);
            forall name :: name in values ==> SameValue(IsSecret(fields, name), values[name], other.values[name]))
    case Applying(field, target, actor, at, env) =>
      && other.Applying? && other == Applying(field, target, actor, at, env.(write := other.env.write))
      && (env.write.Failed? <==> other.env.write.Failed?) && (!env.write.Failed? ==> env.write == other.env.write)
      && (field in s.vault && field in t.vault ==>
            SameWrite(env.write, other.env.write, s.vault[field].value, t.vault[field].value))
    case _ => op == other
  }

  lemma SameSubmits(fields: seq<Field>, values: map<string, Value>, other: map<string, Value>)
    requires values.Keys == other.Keys
    requires forall name :: name in values ==> SameValue(IsSecret(fields, name), values[name], other[name])
    ensures BodiesIn(fields, values) == BodiesIn(fields, other)
    ensures SecretsIn(fields, values).Keys == SecretsIn(fields, other).Keys
    ensures forall name :: name in SecretsIn(fields, values) ==>
            |SecretsIn(fields, values)[name]| == |SecretsIn(fields, other)[name]|
    ensures forall name :: name in values ==> BodyOk(values[name]) == BodyOk(other[name]) || IsSecret(fields, name)
    ensures forall name :: name in values ==> SecretOk(values[name]) == SecretOk(other[name])
  {
    hide IsSecret;
  }

  predicate SameSizes(secrets: map<string, string>, other: map<string, string>) {
    secrets.Keys == other.Keys && forall name :: name in secrets ==> |secrets[name]| == |other[name]|
  }

  lemma SameRefusal(record: Record, values: map<string, Value>, other: map<string, Value>,
                    targets: map<string, string>, disabled: bool)
    requires values.Keys == other.Keys
    requires forall name :: name in values ==>
             SameValue(IsSecret(EffectiveFields(record), name), values[name], other[name])
    ensures RespondRefusal(record, values, targets, disabled) == RespondRefusal(record, other, targets, disabled)
  {
    hide IsSecret, EffectiveFields, Names, TargetOf, BodiesIn, SecretsIn, BodyOk, SecretOk, SameValue, Filled;
    SameSubmits(EffectiveFields(record), values, other);
  }

  lemma SameMetas(secrets: map<string, string>, other: map<string, string>, targets: map<string, string>,
                  actor: string, at: string)
    requires SameSizes(secrets, other) && secrets.Keys <= targets.Keys
    ensures Metas(secrets, targets, actor, at) == Metas(other, targets, actor, at)
    ensures SameVaultShape(Sealing(secrets, targets), Sealing(other, targets))
  {
  }

  lemma SameSealed(v: Vault, w: Vault, sealing: Vault, other: Vault)
    requires SameVaultShape(v, w) && SameVaultShape(sealing, other)
    ensures SameVaultShape(v + sealing, w + other)
  {
  }

  lemma RespondHidesSecrets(s: Slot, t: Slot, askId: string, actor: string, values: map<string, Value>,
                            other: map<string, Value>, targets: map<string, string>, seed: Option<Seed>, at: string,
                                env: Env)
    requires SameButSecrets(s, t) && values.Keys == other.Keys
    requires GetOrSeed(s, seed).Some? ==>
               var fields := EffectiveFields(GetOrSeed(s, seed).value);
               forall name :: name in values ==> SameValue(IsSecret(fields, name), values[name], other[name])
    ensures var r := Respond(s, askId, actor, values, targets, seed, at, env);
            var q := Respond(t, askId, actor, other, targets, seed, at, env);
            r.1 == q.1 && SameButSecrets(r.0, q.0)
  {
    hide Public, EffectiveFields, BodiesIn, SecretsIn, RespondRefusal, AnsweredRecord, Sealing, SameValue, IsSecret,
         SameVaultShape;
    if GetOrSeed(s, seed).Some? {
      var record := GetOrSeed(s, seed).value;
      var fields := EffectiveFields(record);
      SameSubmits(fields, values, other);
      SameRefusal(record, values, other, targets, env.disabled);
      if RespondRefusal(record, values, targets, env.disabled).None? {
        RefusalNamesTargets(record, values, targets, env.disabled);
        SameAnswers(record, askId, actor, BodiesIn(fields, values), SecretsIn(fields, values),
                    SecretsIn(fields, other), targets, at);
        SameSealed(s.vault, t.vault, Sealing(SecretsIn(fields, values), targets),
                   Sealing(SecretsIn(fields, other), targets));
      }
    }
  }

  lemma RefusalNamesTargets(record: Record, values: map<string, Value>, targets: map<string, string>, disabled: bool)
    requires RespondRefusal(record, values, targets, disabled).None?
    ensures SecretsIn(EffectiveFields(record), values).Keys <= targets.Keys
  {
  }

  lemma SameAnswers(record: Record, askId: string, actor: string, bodies: map<string, string>,
                    secrets: map<string, string>, other: map<string, string>, targets: map<string, string>, at: string)
    requires SameSizes(secrets, other) && secrets.Keys <= targets.Keys
    ensures AnsweredRecord(record, askId, actor, bodies, secrets, targets, at)
            == AnsweredRecord(record, askId, actor, bodies, other, targets, at)
    ensures SameVaultShape(Sealing(secrets, targets), Sealing(other, targets))
  {
    hide Metas, IsClosedState, IsLiveId, Bodies, LastOf, Sealing;
    SameMetas(secrets, other, targets, actor, at);
  }

  lemma VaultApplyHidesSecrets(v: Vault, w: Vault, field: string, target: string, write: WriteVerdict,
                               other: WriteVerdict)
    requires SameVaultShape(v, w) && (write.Failed? <==> other.Failed?) && (!write.Failed? ==> write == other)
    requires field in v ==> SameWrite(write, other, v[field].value, w[field].value)
    ensures VaultApply(v, field, target, write).1 == VaultApply(w, field, target, other).1
    ensures SameVaultShape(VaultApply(v, field, target, write).0, VaultApply(w, field, target, other).0)
  {
    hide Redact;
    if field in v && v[field].target == target && write.Written? {
      assert (v - {field}).Keys == (w - {field}).Keys;
    }
  }

  lemma ApplyHidesSecrets(s: Slot, t: Slot, field: string, target: string, actor: string, at: string, env: Env,
                          write: WriteVerdict)
    requires SameButSecrets(s, t) && (env.write.Failed? <==> write.Failed?)
             && (!env.write.Failed? ==> env.write == write)
    requires field in s.vault ==> SameWrite(env.write, write, s.vault[field].value, t.vault[field].value)
    ensures var r := ApplySecret(s, field, target, actor, at, env);
            var q := ApplySecret(t, field, target, actor, at, env.(write := write));
            r.1 == q.1 && SameButSecrets(r.0, q.0)
  {
    VaultApplyHidesSecrets(s.vault, t.vault, field, target, env.write, write);
    hide IsSecret, Public, LastOf, EffectiveFields, TargetOf, Redact, Reason, Strip, Join, VaultApply, SameVaultShape;
  }

  /** Noninterference, one step: operations that differ only in secret values give the same answer and
      leave the same record, and vaults that again differ only in the values. */
  lemma StepHidesSecrets(s: Slot, t: Slot, askId: string, op: Op, other: Op)
    requires SameButSecrets(s, t) && SameOp(s, op, t, other)
    ensures Step(s, askId, op).1 == Step(t, askId, other).1
    ensures SameButSecrets(Step(s, askId, op).0, Step(t, askId, other).0)
  {
    hide Public, LastOf, EffectiveFields, Redact, Names, IsSecret, TargetOf, Respond, ApplySecret, SameValue, GetOrSeed;
    match op
    case Responding(actor, values, targets, seed, at, env) =>
      RespondHidesSecrets(s, t, askId, actor, values, other.values, targets, seed, at, env);
    case Applying(field, target, actor, at, env) =>
      ApplyHidesSecrets(s, t, field, target, actor, at, env, other.env.write);
    case Declaring(fields, actor, seed, at, env) => DeclareHidesSecrets(s, t, fields, actor, seed, at, env);
    case _ =>
  }

  lemma DeclareHidesSecrets(s: Slot, t: Slot, fields: seq<Field>, actor: string, seed: Option<Seed>, at: string,
                            env: Env)
    requires SameButSecrets(s, t)
    ensures var r := DeclareFields(s, fields, actor, seed, at, env);
            var q := DeclareFields(t, fields, actor, seed, at, env);
            r.1 == q.1 && SameButSecrets(r.0, q.0)
  {
    assert SealedByVault(s.vault) == SealedByVault(t.vault);
    hide Public, LastOf, EffectiveFields, Names, KeepsBinding, KeepsAnswer, SealedByVault, SealedByRecord,
         SameVaultShape;
  }

  /** Noninterference over runs: two runs that differ only in secret values of equal length and validity
      keep identical records and histories and give identical answers throughout. */
  lemma {:induction false} RunsHideSecrets(askId: string, ops: seq<Op>, others: seq<Op>, n: nat)
    requires |ops| == |others| && n <= |ops|
    requires forall i :: 0 <= i < n ==> SameOp(At(askId, ops, i), ops[i], At(askId, others, i), others[i])
    ensures SameButSecrets(At(askId, ops, n), At(askId, others, n))
    ensures forall i :: 0 <= i < n ==>
              Step(At(askId, ops, i), askId, ops[i]).1 == Step(At(askId, others, i), askId, others[i]).1
  {
    hide Step, SameOp;
    if n > 0 {
      RunsHideSecrets(askId, ops, others, n - 1);
      StepHidesSecrets(At(askId, ops, n - 1), At(askId, others, n - 1), askId, ops[n - 1], others[n - 1]);
    }
  }
}
