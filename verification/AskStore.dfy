/** The mutable store and its local vault: records by ask id in one place, sealed values by ask id in
    the other. Every method is proved against the operation of AskRecords on the ask it names, and
    leaves every other ask alone. */
module AskStore {
  import opened Common
  import opened AskRecords

  /** One item of a field declaration as it arrives. */
  datatype RawField = RawField(name: string, fieldType: string, title: Option<string>, required: bool,
                               target: Option<string>)

  predicate ValidName(name: string) {
    && 1 <= |name| <= 32 && 'a' <= name[0] <= 'z'
    && forall i :: 0 <= i < |name| ==> 'a' <= name[i] <= 'z' || '0' <= name[i] <= '9' || name[i] == '_'
  }

  predicate ValidField(raw: RawField) {
    && ValidName(raw.name) && raw.fieldType in {"body", "secret"}
    && (raw.title.Some? ==> |raw.title.value| <= MAX_TITLE_CHARS && NoControls(raw.title.value))
    && (raw.target.Some? && raw.target.value != "" ==> raw.fieldType == "secret" && raw.target.value in APPLY_TARGETS)
  }

  const MAX_TITLE_CHARS := 120

  function ToField(raw: RawField): Field {
    var title := if raw.title.Some? then Strip(raw.title.value) else raw.name;
    Field(raw.name, raw.fieldType == "secret", if title == "" then raw.name else title, raw.required,
          if raw.target.Some? then raw.target.value else "")
  }

  datatype FieldFault =
    | NoFields | TooManyFields | BadName | DuplicateName | BadType | BadTitle | TargetOnBody | TargetNotListed

  /** The first thing wrong with an item, given the names before it. */
  function FaultOf(raw: RawField, seen: set<string>): Option<FieldFault> {
    if !ValidName(raw.name) then Some(BadName)
    else if raw.name in seen then Some(DuplicateName)
    else if raw.fieldType !in {"body", "secret"} then Some(BadType)
    else if raw.title.Some? && !(|raw.title.value| <= MAX_TITLE_CHARS && NoControls(raw.title.value))
        then Some(BadTitle)
    else if raw.target.None? || raw.target.value == "" then None
    else if raw.fieldType != "secret" then Some(TargetOnBody)
    else if raw.target.value !in APPLY_TARGETS then Some(TargetNotListed)
    else None
  }

  function NamesBefore(items: seq<RawField>, i: nat): set<string>
    requires i <= |items|
  {
    set k | 0 <= k < i :: items[k].name
  }

  lemma FaultlessIsValid(raw: RawField, seen: set<string>)
    ensures FaultOf(raw, seen).None? <==> ValidField(raw) && raw.name !in seen
  {
    hide NoControls, ValidName;
  }

  /** The first faulty item is the one reported, for the first thing wrong with it. */
  ghost predicate IsFirstFault(items: seq<RawField>, fault: FieldFault) {
    exists i :: 0 <= i < |items| && FaultOf(items[i], NamesBefore(items, i)) == Some(fault)
                && forall j :: 0 <= j < i ==> FaultOf(items[j], NamesBefore(items, j)).None?
  }

  /** A declaration is accepted exactly when it has 1 to 8 valid fields with different names; the fields
      come back in order. Otherwise its first fault is reported. */
  method ValidateFields(items: seq<RawField>) returns (r: Outcome<seq<Field>, FieldFault>)
    ensures r.Ok? <==>
            && 1 <= |items| <= MAX_FIELDS && (forall i :: 0 <= i < |items| ==> ValidField(items[i]))
            && forall i, j :: 0 <= i < j < |items| ==> items[i].name != items[j].name
    ensures r.Ok? ==> |r.value| == |items| && forall i :: 0 <= i < |items| ==> r.value[i] == ToField(items[i])
    ensures items == [] ==> r == Raised(NoFields)
    ensures |items| > MAX_FIELDS ==> r == Raised(TooManyFields)
    ensures 1 <= |items| <= MAX_FIELDS && r.Raised? ==> IsFirstFault(items, r.error)
  {
    hide ToField, ValidField, FaultOf;
    if items == [] { return Raised(NoFields); }
    if |items| > MAX_FIELDS { return Raised(TooManyFields); }
    var seen, fields := {}, [];
    for i := 0 to |items|
      invariant seen == NamesBefore(items, i)
      invariant forall k :: 0 <= k < i ==> ValidField(items[k]) && FaultOf(items[k], NamesBefore(items, k)).None?
      invariant forall k, l :: 0 <= k < l < i ==> items[k].name != items[l].name
      invariant |fields| == i && forall k :: 0 <= k < i ==> fields[k] == ToField(items[k])
    {
      FaultlessIsValid(items[i], seen);
      var fault := FaultOf(items[i], seen);
      if fault.Some? { return Raised(fault.value); }
      seen := seen + {items[i].name};
      fields := fields + [ToField(items[i])];
    }
    return Ok(fields);
  }

  class LocalVault {
    var files: map<string, Vault>

    constructor ()
      ensures files == map[]
    {
      files := map[];
    }

    function Status(askId: string): Vault
      reads this
    {
      if askId in files then files[askId] else map[]
    }

    /** One file per field, written one after the other. */
    method Seal(askId: string, secrets: Vault)
      modifies this
      ensures Status(askId) == old(Status(askId)) + secrets
      ensures forall other :: other != askId ==> Status(other) == old(Status(other))
    {
      var todo := secrets.Keys;
      ghost var done: set<string> := {};
      while todo != {}
        invariant todo + done == secrets.Keys && todo !! done
        invariant Status(askId) == old(Status(askId)) + (map name | name in done :: secrets[name])
        invariant forall other :: other != askId ==> Status(other) == old(Status(other))
        decreases todo
      {
        var name :| name in todo;
        files := files[askId := Status(askId)[name := secrets[name]]];
        todo, done := todo - {name}, done + {name};
      }
      assert (map name | name in done :: secrets[name]) == secrets;
    }

    method Clear(askId: string, field: string) returns (removed: bool)
      modifies this
      ensures removed == (field in old(Status(askId)))
      ensures Status(askId) == old(Status(askId)) - {field}
      ensures forall other :: other != askId ==> Status(other) == old(Status(other))
    {
      removed := field in Status(askId);
      if removed {
        files := files[askId := files[askId] - {field}];
      }
    }

    method Apply(askId: string, field: string, target: string, write: WriteVerdict)
      returns (refusal: Option<VaultRefusal>)
      modifies this
      ensures (Status(askId), refusal) == VaultApply(old(Status(askId)), field, target, write)
      ensures forall other :: other != askId ==> Status(other) == old(Status(other))
    {
      if field !in Status(askId) { return Some(NothingSealed); }
      var sealed := Status(askId)[field];
      if sealed.target == "" { return Some(NoTarget); }
      if sealed.target != target { return Some(TargetDiffers); }
      match write
      case BadFormat => return Some(ValueFormat);
      case Failed(raw) => return Some(WriteFailed(Redact(raw, sealed.value)));
      case Written =>
        var _ := Clear(askId, field);
        return None;
    }
  }

  class AskStore {
    var records: map<string, Record>
    const vault: LocalVault

    constructor (vault: LocalVault)
      ensures records == map[] && this.vault == vault
    {
      records, this.vault := map[], vault;
    }

    function Load(askId: string): Option<Record>
      reads this
    {
      if askId in records then Some(records[askId]) else None
    }

    ghost function SlotOf(askId: string): Slot
      reads this, vault
    {
      Slot(Load(askId), vault.Status(askId))
    }

    method RaiseAsk(askId: string, columns: Columns, fields: seq<Field>, actor: string, at: string) returns (out: Out)
      modifies this
      ensures (SlotOf(askId), out) == AskRecords.RaiseAsk(old(SlotOf(askId)), askId, columns, fields, actor, at)
      ensures forall other :: other != askId ==> SlotOf(other) == old(SlotOf(other))
    {
      if IsLiveId(askId) { return Refused(LiveId); }
      if askId in records { return Refused(AlreadyExists); }
      var record := NewRecord(Seed(columns, "OPEN", "raised"), fields);
      record := Save(Note(record, Entry(at, actor, "raise", Names(fields), "", "")), at);
      records := records[askId := record];
      return Row(Public(record));
    }

    method DeclareFields(askId: string, fields: seq<Field>, actor: string, seed: Option<Seed>, at: string, env: Env)
      returns (out: Out)
      modifies this
      ensures (SlotOf(askId), out) == AskRecords.DeclareFields(old(SlotOf(askId)), fields, actor, seed, at, env)
      ensures forall other :: other != askId ==> SlotOf(other) == old(SlotOf(other))
    {
      hide Find, Public, IsSecret, TargetOf, Names, LastOf, EffectiveFields;
      if askId !in records && seed.None? { return Refused(NotFound); }
      var record := if askId in records then records[askId] else NewRecord(seed.value, []);
      if !env.disabled && env.statusFails { return Refused(StatusUnreadable); }
      var sealed := if env.disabled then SealedByRecord(record) else SealedByVault(vault.Status(askId));
      var todo := sealed.Keys;
      while todo != {}
        invariant todo <= sealed.Keys
        invariant forall name :: name in sealed && name !in todo ==> KeepsBinding(fields, name, sealed[name])
        decreases todo
      {
        var name :| name in todo;
        if !KeepsBinding(fields, name, sealed[name]) { return Refused(BoundField); }
        todo := todo - {name};
      }
      var before := EffectiveFields(record);
      var kept := map name | name in record.response && KeepsAnswer(before, fields, name) :: record.response[name];
      record := record.(response := kept, fields := fields);
      record := Save(Note(record, Entry(at, actor, "declare_fields", Names(fields), "", "")), at);
      records := records[askId := record];
      return Row(Public(record));
    }

    /** Sort the submitted values into bodies and secrets; false when one is unknown or invalid. */
    static method SplitValues(fields: seq<Field>, values: map<string, Value>)
      returns (ok: bool, bodies: map<string, string>, secrets: map<string, string>)
      requires values.Keys <= Names(fields)
      ensures ok <==> forall name :: name in values ==>
              if IsSecret(fields, name) then SecretOk(values[name]) else BodyOk(values[name])
      ensures ok ==> bodies == BodiesIn(fields, values) && secrets == SecretsIn(fields, values)
    {
      hide IsSecret, Names;
      bodies, secrets := map[], map[];
      var todo := values.Keys;
      while todo != {}
        invariant todo <= values.Keys
        invariant forall name :: name in values && name !in todo ==>
                    if IsSecret(fields, name) then SecretOk(values[name]) else BodyOk(values[name])
        invariant bodies == map name | name in BodiesIn(fields, values) && name !in todo
                    :: BodiesIn(fields, values)[name]
        invariant secrets == map name | name in SecretsIn(fields, values) && name !in todo
                    :: SecretsIn(fields, values)[name]
        decreases todo
      {
        var name :| name in todo;
        var v := values[name];
        if !IsSecret(fields, name) {
          if !BodyOk(v) { return false, bodies, secrets; }
          bodies := bodies[name := if v.Text? then v.text else ""];
        } else {
          if !SecretOk(v) { return false, bodies, secrets; }
          if v.Text? && v.text != "" {
            secrets := secrets[name := v.text];
          }
        }
        todo := todo - {name};
      }
      return true, bodies, secrets;
    }

    /** The checks of a submit, before anything is written. */
    static method CheckSubmit(record: Record, values: map<string, Value>, targets: map<string, string>, disabled: bool)
      returns (refusal: Option<Error>, bodies: map<string, string>, secrets: map<string, string>)
      ensures refusal == RespondRefusal(record, values, targets, disabled)
      ensures refusal.None? ==>
              bodies == BodiesIn(EffectiveFields(record), values)
                  && secrets == SecretsIn(EffectiveFields(record), values)
      ensures refusal.None? ==> secrets.Keys <= targets.Keys
    {
      hide Find, IsSecret, TargetOf, Names, EffectiveFields, BodiesIn, SecretsIn, BodyOk, SecretOk, Filled;
      var fields := EffectiveFields(record);
      bodies, secrets := map[], map[];
      if !(values.Keys <= Names(fields)) { return Some(UnknownField), bodies, secrets; }
      var ok;
      ok, bodies, secrets := SplitValues(fields, values);
      if !ok { return Some(BadValue), bodies, secrets; }
      if exists name :: name in targets && !(IsSecret(fields, name) && targets[name] == TargetOf(fields, name)) {
        return Some(StaleTarget), bodies, secrets;
      }
      if !(secrets.Keys <= targets.Keys) { return Some(MissingTarget), bodies, secrets; }
      if secrets.Keys != {} && disabled { return Some(SecretsDisabled), bodies, secrets; }
      if forall i :: 0 <= i < |fields| ==> !Filled(fields[i], record.response, bodies, secrets.Keys) {
        return Some(NothingToSubmit), bodies, secrets;
      }
      if exists i :: 0 <= i < |fields| && fields[i].required
          && !Filled(fields[i], record.response, bodies, secrets.Keys) {
        return Some(RequiredEmpty), bodies, secrets;
      }
      return None, bodies, secrets;
    }

    method Respond(askId: string, actor: string, values: map<string, Value>, targets: map<string, string>,
                   seed: Option<Seed>, at: string, env: Env) returns (out: Out)
      modifies this, vault
      ensures (SlotOf(askId), out)
              == AskRecords.Respond(old(SlotOf(askId)), askId, actor, values, targets, seed, at, env)
      ensures forall other :: other != askId ==> SlotOf(other) == old(SlotOf(other))
    {
      hide Public, EffectiveFields, BodiesIn, SecretsIn, RespondRefusal, AnsweredRecord;
      if askId !in records && seed.None? { return Refused(NotFound); }
      var record := if askId in records then records[askId] else NewRecord(seed.value, []);
      var refusal, bodies, secrets := CheckSubmit(record, values, targets, env.disabled);
      if refusal.Some? { return Refused(refusal.value); }
      if secrets.Keys != {} {
        if env.sealFailure.Some? { return Refused(SealFailed(env.sealFailure.value)); }
        vault.Seal(askId, Sealing(secrets, targets));
      } else {
        assert vault.Status(askId) + Sealing(secrets, targets) == vault.Status(askId);
      }
      record := AnsweredRecord(record, askId, actor, bodies, secrets, targets, at);
      records := records[askId := record];
      return Row(Public(record));
    }

    method ClearSecret(askId: string, field: string, actor: string, at: string, env: Env) returns (out: Out)
      modifies this, vault
      ensures (SlotOf(askId), out) == AskRecords.ClearSecret(old(SlotOf(askId)), field, actor, at, env)
      ensures forall other :: other != askId ==> SlotOf(other) == old(SlotOf(other))
    {
      hide Find, Public, IsSecret, LastOf, EffectiveFields;
      if env.disabled { return Refused(SecretsDisabled); }
      if askId !in records { return Refused(NotFound); }
      var record := records[askId];
      if !IsSecret(EffectiveFields(record), field) { return Refused(NotSecretField); }
      if env.clearFailure.Some? { return Refused(ClearFailed(env.clearFailure.value)); }
      var removed := vault.Clear(askId, field);
      var hadMeta := field in record.response;
      record := record.(response := record.response - {field});
      if !removed && !hadMeta {
        assert vault.Status(askId) == old(vault.Status(askId));
        return Refused(NotSet);
      }
      record := Save(Note(record, Entry(at, actor, "clear_secret", {field}, "", "")), at);
      records := records[askId := record];
      return Row(Public(record));
    }

    method ApplySecret(askId: string, field: string, target: string, actor: string, at: string, env: Env)
      returns (out: Out)
      modifies this, vault
      ensures (SlotOf(askId), out) == AskRecords.ApplySecret(old(SlotOf(askId)), field, target, actor, at, env)
      ensures forall other :: other != askId ==> SlotOf(other) == old(SlotOf(other))
    {
      hide Find, Public, IsSecret, TargetOf, LastOf, EffectiveFields, VaultApply, Redact, Reason, Join, Strip;
      if target !in APPLY_TARGETS { return Refused(TargetNotAllowed); }
      if env.disabled { return Refused(SecretsDisabled); }
      if askId !in records { return Refused(NotFound); }
      var record := records[askId];
      if !IsSecret(EffectiveFields(record), field) { return Refused(NotSecretField); }
      if TargetOf(EffectiveFields(record), field) != target { return Refused(TargetNotDeclared); }
      var refusal := vault.Apply(askId, field, target, env.write);
      if refusal.Some? {
        var reason := Redact(Reason(refusal.value), "");
        var evidence := Join(Strip(record.columns.evidence), "apply failed " + at + ": " + target + " " + reason);
        record := record.(columns := record.columns.(evidence := LastOf(evidence, MAX_EVIDENCE)), state := "OPEN");
        record := Save(Note(record, Entry(at, actor, "apply_failed", {field}, target, reason)), at);
        records := records[askId := record];
        return Refused(ApplyFailed("apply failed: " + target + " " + reason));
      }
      var meta := Meta("", "", 0, false, "", Some(at), Some(target));
      if field in record.response {
        match record.response[field]
        case Body(text) => if text != "" { return Refused(CorruptMeta); }
        case Meta(_, _, _, _, _, _, _) =>
          meta := record.response[field].(appliedAt := Some(at), appliedTarget := Some(target), sealed := false);
      }
      record := record.(response := record.response[field := meta]);
      record := Save(Note(record, Entry(at, actor, "apply", {field}, target, "")), at);
      records := records[askId := record];
      return Applied(target, at);
    }
  }
}
