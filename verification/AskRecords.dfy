/** One ask of the open-asks store: its record, its sealed secrets, and the operations on both
    (src/lh_harness/ask_store.py). Clock readings and the outcomes of vault I/O are inputs; the text
    of a failed seal arrives already redacted. */
module AskRecords {
  import opened Common

  /** `applyTarget == ""` means that no target is declared. */
  datatype Field = Field(name: string, secret: bool, title: string, required: bool, applyTarget: string)

  datatype Answer =
    | Body(text: string)
    | Meta(setAt: string, setBy: string, length: nat, sealed: bool, applyTarget: string,
           appliedAt: Option<string>, appliedTarget: Option<string>)

  datatype Entry = Entry(at: string, actor: string, action: string, fieldNames: set<string>, target: string,
                         reason: string)

  datatype Columns = Columns(ask: string, kind: string, evidence: string, recommended: string, defaultIfSilent: string)

  /** `fields == []` stands for the stored `None`: the defaults of the kind apply. */
  datatype Record = Record(columns: Columns, state: string, origin: string, fields: seq<Field>,
                           response: map<string, Answer>, history: seq<Entry>, updatedAt: string)

  datatype Seed = Seed(columns: Columns, state: string, origin: string)

  datatype Sealed = Sealed(value: string, target: string)

  type Vault = map<string, Sealed>

  datatype Slot = Slot(record: Option<Record>, vault: Vault)

  /** A submitted value; `tokenShaped` is the verdict of the token patterns on the text. */
  datatype Value = Null | NotText | Text(text: string, tokenShaped: bool)

  datatype WriteVerdict = Written | BadFormat | Failed(raw: string)

  datatype Env = Env(disabled: bool, statusFails: bool, sealFailure: Option<string>, clearFailure: Option<string>,
                     write: WriteVerdict)

  datatype Error =
    | NotFound | AlreadyExists | LiveId | UnknownField | BadValue | NotSecretField | StaleTarget | MissingTarget
    | SecretsDisabled | NothingToSubmit | RequiredEmpty | SealFailed(text: string) | ClearFailed(text: string) | NotSet
    | BoundField | StatusUnreadable | TargetNotAllowed | TargetNotDeclared | ApplyFailed(text: string) | CorruptMeta

  datatype PublicAnswer = Shown(answer: Answer) | Metadata(meta: Answer) | NoMetadata

  datatype PublicRow = PublicRow(columns: Columns, state: string, origin: string, fields: seq<Field>,
                                 response: map<string, PublicAnswer>, updatedAt: string)

  datatype Out = Row(row: PublicRow) | Applied(target: string, at: string) | Refused(error: Error)

  const MAX_FIELDS := 8
  const MAX_BODY_CHARS := 20000
  const MAX_SECRET_CHARS := 4096
  const MAX_HISTORY := 200
  const MAX_EVIDENCE := 4000
  const APPLY_TARGETS := {"ct202-mcp-tools-env:GITHUB_MCP_TOKEN"}
  const CLOSED_PREFIXES := ["closed", "answered", "done", "resolved", "superseded"]

  // ----- text helpers

  function Lower(s: string): string {
    seq(|s|, i requires 0 <= i < |s| => if 'A' <= s[i] <= 'Z' then s[i] - 'A' + 'a' else s[i])
  }

  function Upper(s: string): string {
    seq(|s|, i requires 0 <= i < |s| => if 'a' <= s[i] <= 'z' then s[i] - 'a' + 'A' else s[i])
  }

  function DropStars(s: string): string {
    if s != "" && s[0] == '*' then DropStars(s[1..]) else s
  }

  function ReplaceAll(s: string, old_: string, new_: string): string
    requires old_ != ""
    decreases |s|
  {
    if s == "" then ""
    else if old_ <= s then new_ + ReplaceAll(s[|old_|..], old_, new_)
    else [s[0]] + ReplaceAll(s[1..], old_, new_)
  }

  /** Whitespace runs become one space each. */
  function Collapse(s: string): string {
    if s == "" then ""
    else if IsSpace(s[0]) then (if |s| > 1 && IsSpace(s[1]) then "" else " ") + Collapse(s[1..])
    else [s[0]] + Collapse(s[1..])
  }

  function Redact(text: string, value: string): string {
    var stripped := Strip(text);
    var replaced := if value == "" then stripped else ReplaceAll(stripped, value, "[redacted]");
    var collapsed := Strip(Collapse(replaced));
    if |collapsed| <= 300 then collapsed else collapsed[..300]
  }

  predicate NoControls(s: string) {
    forall i :: 0 <= i < |s| ==> s[i] >= ' ' && s[i] != '\U{7f}'
  }

  predicate IsClosedState(state: string) {
    var s := DropStars(Lower(Strip(state)));
    exists i :: 0 <= i < |CLOSED_PREFIXES| && CLOSED_PREFIXES[i] <= s
  }

  predicate IsLiveId(askId: string) {
    "gate-" <= askId || "blocked-" <= askId
  }

  // ----- fields

  function DefaultFields(kind: string): seq<Field> {
    [Field("response", false, "Response", false, "")]
    + if Upper(Strip(kind)) == "CREDENTIAL" then [Field("secret", true, "Secret", false, "")] else []
  }

  function EffectiveFields(record: Record): seq<Field> {
    if record.fields == [] then DefaultFields(record.columns.kind) else record.fields
  }

  function Find(fields: seq<Field>, name: string): Option<Field> {
    if fields == [] then None
    else if fields[|fields| - 1].name == name then Some(fields[|fields| - 1])
    else Find(fields[..|fields| - 1], name)
  }

  function Names(fields: seq<Field>): set<string> {
    set i | 0 <= i < |fields| :: fields[i].name
  }

  predicate IsSecret(fields: seq<Field>, name: string) {
    Find(fields, name).Some? && Find(fields, name).value.secret
  }

  function TargetOf(fields: seq<Field>, name: string): string {
    var f := Find(fields, name);
    if f.Some? then f.value.applyTarget else ""
  }

  // ----- reading

  function SealedByVault(vault: Vault): map<string, string> {
    map name | name in vault :: vault[name].target
  }

  function SealedByRecord(record: Record): map<string, string> {
    map name | name in record.response && record.response[name].Meta? && record.response[name].sealed
      :: record.response[name].applyTarget
  }

  function Publish(fields: seq<Field>, name: string, answer: Answer): PublicAnswer {
    if !IsSecret(fields, name) then Shown(answer) else if answer.Meta? then Metadata(answer) else NoMetadata
  }

  function Public(record: Record): PublicRow {
    var fields := EffectiveFields(record);
    PublicRow(record.columns, record.state, record.origin, fields,
              map name | name in record.response && Find(fields, name).Some?
                :: Publish(fields, name, record.response[name]),
              record.updatedAt)
  }

  // ----- writing

  function NewRecord(seed: Seed, fields: seq<Field>): Record {
    Record(seed.columns, if seed.state == "" then "OPEN" else seed.state, seed.origin, fields, map[], [], "")
  }

  function Note(record: Record, entry: Entry): Record {
    record.(history := record.history + [entry])
  }

  function Save(record: Record, at: string): Record {
    record.(updatedAt := at, history := LastOf(record.history, MAX_HISTORY))
  }

  function RaiseAsk(slot: Slot, askId: string, columns: Columns, fields: seq<Field>, actor: string, at: string)
    : (Slot, Out)
  {
    if IsLiveId(askId) then (slot, Refused(LiveId))
    else if slot.record.Some? then (slot, Refused(AlreadyExists))
    else
      var record := Save(Note(NewRecord(Seed(columns, "OPEN", "raised"), fields),
                              Entry(at, actor, "raise", Names(fields), "", "")), at);
      (slot.(record := Some(record)), Row(Public(record)))
  }

  function GetOrSeed(slot: Slot, seed: Option<Seed>): Option<Record> {
    if slot.record.Some? then slot.record
    else if seed.Some? then Some(NewRecord(seed.value, []))
    else None
  }

  /** The redeclaration keeps a sealed field secret and bound to its recorded target. */
  predicate KeepsBinding(fields: seq<Field>, name: string, target: string) {
    IsSecret(fields, name) && TargetOf(fields, name) == target
  }

  predicate KeepsAnswer(before: seq<Field>, after: seq<Field>, name: string) {
    Find(before, name).None? || (Find(after, name).Some? && (IsSecret(before, name) ==> IsSecret(after, name)))
  }

  function DeclareFields(slot: Slot, fields: seq<Field>, actor: string, seed: Option<Seed>, at: string,
                         env: Env): (Slot, Out)
  {
    var found := GetOrSeed(slot, seed);
    if found.None? then (slot, Refused(NotFound))
    else if !env.disabled && env.statusFails then (slot, Refused(StatusUnreadable))
    else
      var record := found.value;
      var sealed := if env.disabled then SealedByRecord(record) else SealedByVault(slot.vault);
      if exists name :: name in sealed && !KeepsBinding(fields, name, sealed[name]) then (slot, Refused(BoundField))
      else
        var before := EffectiveFields(record);
        var kept := map name | name in record.response && KeepsAnswer(before, fields, name) :: record.response[name];
        var saved := Save(Note(record.(response := kept, fields := fields),
                               Entry(at, actor, "declare_fields", Names(fields), "", "")), at);
        (slot.(record := Some(saved)), Row(Public(saved)))
  }

  predicate BodyOk(v: Value) {
    match v
    case Null => true
    case NotText => false
    case Text(text, tokenShaped) => |text| <= MAX_BODY_CHARS && '\0' !in text && !tokenShaped
  }

  predicate SecretOk(v: Value) {
    match v
    case Null => true
    case NotText => false
    case Text(text, _) => |text| <= MAX_SECRET_CHARS && NoControls(text)
  }

  function BodiesIn(fields: seq<Field>, values: map<string, Value>): map<string, string> {
    map name | name in values && !IsSecret(fields, name) && !values[name].NotText?
      :: if values[name].Text? then values[name].text else ""
  }

  function SecretsIn(fields: seq<Field>, values: map<string, Value>): map<string, string> {
    map name | name in values && IsSecret(fields, name) && values[name].Text? && values[name].text != ""
      :: values[name].text
  }

  /** Is the field answered once the submitted bodies and secrets are counted in? */
  predicate Filled(f: Field, response: map<string, Answer>, bodies: map<string, string>, secrets: set<string>) {
    if f.name in secrets then true
    else if f.name in bodies then if f.secret then bodies[f.name] != "" else !Blank(bodies[f.name])
    else if f.name !in response then false
    else
      match response[f.name]
      case Body(text) => if f.secret then text != "" else !Blank(text)
      case Meta(_, _, _, _, _, _, _) => true
  }

  /** Everything `respond` refuses before it touches the vault; None lets the submit through. */
  function RespondRefusal(record: Record, values: map<string, Value>, targets: map<string, string>,
                          disabled: bool): Option<Error> {
    var fields := EffectiveFields(record);
    var bodies, secrets := BodiesIn(fields, values), SecretsIn(fields, values);
    if !(values.Keys <= Names(fields)) then Some(UnknownField)
    else if exists name ::
              name in values && !(if IsSecret(fields, name) then SecretOk(values[name]) else BodyOk(values[name]))
    then Some(BadValue)
    else if exists name :: name in targets && !(IsSecret(fields, name) && targets[name] == TargetOf(fields, name))
    then Some(StaleTarget)
    else if !(secrets.Keys <= targets.Keys) then Some(MissingTarget)
    else if secrets.Keys != {} && disabled then Some(SecretsDisabled)
    else if forall i :: 0 <= i < |fields| ==> !Filled(fields[i], record.response, bodies, secrets.Keys)
    then Some(NothingToSubmit)
    else if exists i ::
              0 <= i < |fields| && fields[i].required && !Filled(fields[i], record.response, bodies, secrets.Keys)
    then Some(RequiredEmpty)
    else None
  }

  function Sealing(secrets: map<string, string>, targets: map<string, string>): Vault
    requires secrets.Keys <= targets.Keys
  {
    map name | name in secrets :: Sealed(secrets[name], targets[name])
  }

  function Metas(secrets: map<string, string>, targets: map<string, string>, actor: string, at: string)
    : map<string, Answer>
    requires secrets.Keys <= targets.Keys
  {
    map name | name in secrets :: Meta(at, actor, |secrets[name]|, true, targets[name], None, None)
  }

  function Bodies(bodies: map<string, string>): map<string, Answer> {
    map name | name in bodies :: Body(bodies[name])
  }

  /** The record an accepted submit leaves: a closed ask is reopened first, and every submit closes. */
  function AnsweredRecord(record: Record, askId: string, actor: string, bodies: map<string, string>,
                          secrets: map<string, string>, targets: map<string, string>, at: string): Record
    requires secrets.Keys <= targets.Keys
  {
    var changed := bodies.Keys + secrets.Keys;
    var reopened :=
      if IsClosedState(record.state) && !IsLiveId(askId)
      then Note(record, Entry(at, actor, "reopen", changed, "", "")) else record;
    var answered := reopened.(response := record.response + Bodies(bodies) + Metas(secrets, targets, actor, at),
                              state := "CLOSED " + at + " by " + actor + " (web)");
    Save(Note(answered, Entry(at, actor, "respond", changed, "", "")), at)
  }

  function Respond(slot: Slot, askId: string, actor: string, values: map<string, Value>, targets: map<string, string>,
                   seed: Option<Seed>, at: string, env: Env): (Slot, Out)
  {
    var found := GetOrSeed(slot, seed);
    if found.None? then (slot, Refused(NotFound))
    else
      var record := found.value;
      var refusal := RespondRefusal(record, values, targets, env.disabled);
      if refusal.Some? then (slot, Refused(refusal.value))
      else
        var bodies, secrets := BodiesIn(EffectiveFields(record), values), SecretsIn(EffectiveFields(record), values);
        if secrets.Keys != {} && env.sealFailure.Some? then (slot, Refused(SealFailed(env.sealFailure.value)))
        else
          var saved := AnsweredRecord(record, askId, actor, bodies, secrets, targets, at);
          (Slot(Some(saved), slot.vault + Sealing(secrets, targets)), Row(Public(saved)))
  }

  function ClearSecret(slot: Slot, field: string, actor: string, at: string, env: Env): (Slot, Out) {
    if env.disabled then (slot, Refused(SecretsDisabled))
    else if slot.record.None? then (slot, Refused(NotFound))
    else
      var record := slot.record.value;
      if !IsSecret(EffectiveFields(record), field) then (slot, Refused(NotSecretField))
      else if env.clearFailure.Some? then (slot, Refused(ClearFailed(env.clearFailure.value)))
      else
        var vault := slot.vault - {field};
        if field !in slot.vault && field !in record.response then (slot, Refused(NotSet))
        else
          var saved := Save(Note(record.(response := record.response - {field}),
                                 Entry(at, actor, "clear_secret", {field}, "", "")), at);
          (Slot(Some(saved), vault), Row(Public(saved)))
  }

  datatype VaultRefusal = NothingSealed | NoTarget | TargetDiffers | ValueFormat | WriteFailed(text: string)

  function Reason(refusal: VaultRefusal): string {
    match refusal
    case NothingSealed => "no sealed secret for this field"
    case NoTarget => "no apply target was recorded" + " when this secret was submitted"
    case TargetDiffers => "target differs from the one recorded" + " when this secret was submitted"
    case ValueFormat => "the value does not match the target's format"
    case WriteFailed(text) => text
  }

  /** The vault's own apply: the files afterwards, and why it refused. */
  function VaultApply(vault: Vault, field: string, target: string, write: WriteVerdict): (Vault, Option<VaultRefusal>) {
    if field !in vault then (vault, Some(NothingSealed))
    else if vault[field].target == "" then (vault, Some(NoTarget))
    else if vault[field].target != target then (vault, Some(TargetDiffers))
    else
      match write
      case BadFormat => (vault, Some(ValueFormat))
      case Failed(raw) => (vault, Some(WriteFailed(Redact(raw, vault[field].value))))
      case Written => (vault - {field}, None)
  }

  function Join(evidence: string, note: string): string {
    if evidence == "" then note else evidence + " | " + note
  }

  function ApplySecret(slot: Slot, field: string, target: string, actor: string, at: string, env: Env): (Slot, Out) {
    if target !in APPLY_TARGETS then (slot, Refused(TargetNotAllowed))
    else if env.disabled then (slot, Refused(SecretsDisabled))
    else if slot.record.None? then (slot, Refused(NotFound))
    else
      var record := slot.record.value;
      var fields := EffectiveFields(record);
      if !IsSecret(fields, field) then (slot, Refused(NotSecretField))
      else if TargetOf(fields, field) != target then (slot, Refused(TargetNotDeclared))
      else
        var (vault, failure) := VaultApply(slot.vault, field, target, env.write);
        if failure.Some? then
          var reason := Redact(Reason(failure.value), "");
          var evidence := Join(Strip(record.columns.evidence), "apply failed " + at + ": " + target + " " + reason);
          var reopened := record.(columns := record.columns.(evidence := LastOf(evidence, MAX_EVIDENCE)),
                                  state := "OPEN");
          var saved := Save(Note(reopened, Entry(at, actor, "apply_failed", {field}, target, reason)), at);
          (Slot(Some(saved), vault), Refused(ApplyFailed("apply failed: " + target + " " + reason)))
        else
          var meta :=
            if field !in record.response then Meta("", "", 0, false, "", Some(at), Some(target))
            else match record.response[field]
              case Body(_) => Meta("", "", 0, false, "", Some(at), Some(target))
              case Meta(_, _, _, _, _, _, _) =>
                record.response[field].(appliedAt := Some(at), appliedTarget := Some(target), sealed := false);
          if field in record.response && record.response[field].Body? && record.response[field].text != ""
          then (slot.(vault := vault), Refused(CorruptMeta))
          else
            var saved := Save(Note(record.(response := record.response[field := meta]),
                                   Entry(at, actor, "apply", {field}, target, "")), at);
            (Slot(Some(saved), vault), Applied(target, at))
  }
}
