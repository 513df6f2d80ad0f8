/** What each operation on an ask does to its record, field by field, and what the record holds after a run. */
module AskOutcomes {
  import opened Common
  import opened AskRecords
  import opened AskRuns

  // ----- fields by name

  /** Field `i` is the one that its name stands for: no later field carries the same name. */
  predicate Stands(fields: seq<Field>, i: nat, name: string) {
    i < |fields| && fields[i].name == name && forall j :: i < j < |fields| ==> fields[j].name != name
  }

  lemma {:induction false} FindIff(fields: seq<Field>, name: string)
    ensures Find(fields, name).None? <==> forall i :: 0 <= i < |fields| ==> fields[i].name != name
    ensures forall i: nat :: Stands(fields, i, name) ==> Find(fields, name) == Some(fields[i])
    ensures Find(fields, name).Some? ==> exists i: nat :: Stands(fields, i, name)
  {
    if fields != [] {
      var front, last := fields[..|fields| - 1], fields[|fields| - 1];
      FindIff(front, name);
      if last.name == name {
        assert Stands(fields, |fields| - 1, name);
      } else {
        hide Stands;
        forall i: nat ensures Stands(fields, i, name) <==> Stands(front, i, name)
                      ensures Stands(front, i, name) ==> i < |front| && front[i] == fields[i]
        { StandsInFront(fields, i, name); }
        assert forall i :: 0 <= i < |front| ==> front[i] == fields[i];
      }
    }
  }

  lemma StandsInFront(fields: seq<Field>, i: nat, name: string)
    requires fields != [] && fields[|fields| - 1].name != name
    ensures var front := fields[..|fields| - 1];
            && (Stands(fields, i, name) <==> Stands(front, i, name))
            && (Stands(front, i, name) ==> i < |front| && front[i] == fields[i])
  {
    var front := fields[..|fields| - 1];
    assert forall j :: 0 <= j < |front| ==> front[j] == fields[j];
  }

  /** A record without declared fields asks for a response, and for a secret when its kind is CREDENTIAL,
      whatever its case and the blanks around it. */
  lemma DefaultFieldsAre(kind: string, name: string)
    ensures IsSecret(DefaultFields(kind), name) <==>
            name == "secret" && exists front: string, word: string, back: string ::
              Blank(front) && Blank(back) && SpellsCredential(word) && kind == front + word + back
    ensures Find(DefaultFields(kind), name).Some? && !IsSecret(DefaultFields(kind), name) <==> name == "response"
  {
    hide Strip, Blank, Upper, Find, SpellsCredential;
    var word := Strip(kind);
    UpperIs(word);
    StripIff(kind, word);
    forall front: string, w: string, back: string |
      Blank(front) && Blank(back) && SpellsCredential(w) && kind == front + w + back
      ensures w == word
    {
      UpperIs(w);
      StripIff(kind, w);
    }
    DefaultsFound(kind, name);
  }

  predicate SpellsCredential(word: string) {
    |word| == 10 && forall i :: 0 <= i < 10 ==> word[i] == "CREDENTIAL"[i] || word[i] == "credential"[i]
  }

  lemma UpperIs(word: string)
    ensures Upper(word) == "CREDENTIAL" <==> SpellsCredential(word)
    ensures SpellsCredential(word) ==> Trimmed(word)
  {
    if SpellsCredential(word) {
      assert forall i :: 0 <= i < 10 ==> Upper(word)[i] == "CREDENTIAL"[i];
    }
    if Upper(word) == "CREDENTIAL" {
      assert |word| == 10;
      forall i | 0 <= i < 10 ensures word[i] == "CREDENTIAL"[i] || word[i] == "credential"[i] {
        assert Upper(word)[i] == "CREDENTIAL"[i];
      }
    }
  }

  lemma DefaultsFound(kind: string, name: string)
    ensures Find(DefaultFields(kind), name).Some? && !Find(DefaultFields(kind), name).value.secret <==>
            name == "response"
    ensures IsSecret(DefaultFields(kind), name) <==> name == "secret" && Upper(Strip(kind)) == "CREDENTIAL"
  {
    hide Strip, Upper;
    var fields := DefaultFields(kind);
    if |fields| == 2 { assert fields[..1] == [Field("response", false, "Response", false, "")]; }
    assert Find([], name) == None;
  }

  /** A name is a secret field exactly when the field it stands for is one; its target is that field's. */
  lemma SecretIff(fields: seq<Field>, name: string)
    ensures IsSecret(fields, name) <==> exists i: nat :: Stands(fields, i, name) && fields[i].secret
    ensures forall i: nat :: Stands(fields, i, name) ==> TargetOf(fields, name) == fields[i].applyTarget
  {
    hide Find, Stands;
    FindIff(fields, name);
  }

  // ----- an accepted submit

  predicate Accepts(slot: Slot, askId: string, actor: string, values: map<string, Value>, targets: map<string, string>,
                    seed: Option<Seed>, at: string, env: Env) {
    Respond(slot, askId, actor, values, targets, seed, at, env).1.Row?
  }

  /** The record a submit works on: the stored one, or a new one seeded from the live row. */
  predicate WorksOn(slot: Slot, seed: Option<Seed>, record: Record) {
    if slot.record.Some? then record == slot.record.value
    else seed.Some? && record.columns == seed.value.columns && record.origin == seed.value.origin && record.fields == []
         && record.state == (if seed.value.state == "" then "OPEN" else seed.value.state)
         && record.response == map[] && record.history == []
  }

  lemma WorkedOn(slot: Slot, seed: Option<Seed>)
    requires GetOrSeed(slot, seed).Some?
    ensures WorksOn(slot, seed, GetOrSeed(slot, seed).value)
  {
  }

  lemma AcceptedIsAnswered(slot: Slot, askId: string, actor: string, values: map<string, Value>,
                           targets: map<string, string>, seed: Option<Seed>, at: string, env: Env)
    requires Accepts(slot, askId, actor, values, targets, seed, at, env)
    ensures GetOrSeed(slot, seed).Some?
    ensures var record := GetOrSeed(slot, seed).value;
            var after := Respond(slot, askId, actor, values, targets, seed, at, env).0;
            var bodies := BodiesIn(EffectiveFields(record), values);
            var secrets := SecretsIn(EffectiveFields(record), values);
            && secrets.Keys <= targets.Keys && RespondRefusal(record, values, targets, env.disabled).None?
            && after.record == Some(AnsweredRecord(record, askId, actor, bodies, secrets, targets, at))
            && after.vault == slot.vault + Sealing(secrets, targets)
  {
    hide EffectiveFields, BodiesIn, SecretsIn, RespondRefusal, AnsweredRecord, Public, GetOrSeed;
    if GetOrSeed(slot, seed).Some? {
      var record := GetOrSeed(slot, seed).value;
      if RespondRefusal(record, values, targets, env.disabled).None? {
        RefusalNamesTargets(record, values, targets, env.disabled);
      }
    }
  }

  lemma AnsweredResponse(record: Record, askId: string, actor: string, bodies: map<string, string>,
                         secrets: map<string, string>, targets: map<string, string>, at: string)
    requires secrets.Keys <= targets.Keys
    ensures AnsweredRecord(record, askId, actor, bodies, secrets, targets, at).response
            == record.response + Bodies(bodies) + Metas(secrets, targets, actor, at)
  {
    hide IsClosedState, LastOf, Bodies, Metas;
  }

  /** What an accepted submit leaves under one name. A body field holds the text submitted, "" for null; a
      secret field the metadata of the secret submitted, which is now sealed in the vault for the target
      named; every other name keeps its answer and its sealed value. */
  lemma SubmitIsRecorded(slot: Slot, askId: string, actor: string, values: map<string, Value>,
                         targets: map<string, string>, seed: Option<Seed>, at: string, env: Env, name: string)
    requires Accepts(slot, askId, actor, values, targets, seed, at, env)
    ensures var before, r := GetOrSeed(slot, seed).value, Respond(slot, askId, actor, values, targets, seed, at, env);
            var fields, answers := EffectiveFields(before), r.0.record.value.response;
            if name in values && !IsSecret(fields, name) then
              name in answers && answers[name] == Body(if values[name].Text? then values[name].text else "")
            else if name in values && values[name].Text? && values[name].text != "" then
              && name in targets && name in answers && name in r.0.vault
              && answers[name] == Meta(at, actor, |values[name].text|, true, targets[name], None, None)
              && r.0.vault[name] == Sealed(values[name].text, targets[name])
            else
              && (name in answers <==> name in before.response)
              && (name in answers ==> answers[name] == before.response[name])
    ensures var before, r := GetOrSeed(slot, seed).value, Respond(slot, askId, actor, values, targets, seed, at, env);
            !(name in values && IsSecret(EffectiveFields(before), name) && values[name].Text?
              && values[name].text != "") ==>
              (name in r.0.vault <==> name in slot.vault)
              && (name in slot.vault ==> r.0.vault[name] == slot.vault[name])
  {
    hide EffectiveFields, IsSecret, AnsweredRecord, Sealing, Metas, Bodies, Respond, GetOrSeed;
    AcceptedIsAnswered(slot, askId, actor, values, targets, seed, at, env);
    var before := GetOrSeed(slot, seed).value;
    var fields := EffectiveFields(before);
    var bodies, secrets := BodiesIn(fields, values), SecretsIn(fields, values);
    AnsweredResponse(before, askId, actor, bodies, secrets, targets, at);
    AnsweredAt(before.response, slot.vault, bodies, secrets, targets, actor, at, name);
    AcceptedAreTexts(before, values, targets, env.disabled, name);
  }

  lemma AcceptedAreTexts(record: Record, values: map<string, Value>, targets: map<string, string>, disabled: bool,
                         name: string)
    requires RespondRefusal(record, values, targets, disabled).None?
    ensures name in values ==> !values[name].NotText?
  {
    hide EffectiveFields, Names, IsSecret, TargetOf, BodiesIn, SecretsIn, Filled;
  }

  /** The names a submit changes: all body fields submitted, and the secret fields with a text. */
  function Changed(fields: seq<Field>, values: map<string, Value>): set<string> {
    set name | name in values && (IsSecret(fields, name) ==> values[name].Text? && values[name].text != "")
  }

  predicate Live(askId: string) {
    (|askId| >= 5 && askId[..5] == "gate-") || (|askId| >= 8 && askId[..8] == "blocked-")
  }

  /** Every accepted submit closes the ask in the actor's name and notes it in the history, after the
      reopening of an ask that was closed and is not live. Columns, origin and fields stay; the history
      keeps its newest 200 entries. */
  lemma SubmitClosesAsk(slot: Slot, askId: string, actor: string, values: map<string, Value>,
                        targets: map<string, string>, seed: Option<Seed>, at: string, env: Env)
    requires Accepts(slot, askId, actor, values, targets, seed, at, env)
    ensures var before := GetOrSeed(slot, seed).value;
            var after := Respond(slot, askId, actor, values, targets, seed, at, env).0.record.value;
            var changed := Changed(EffectiveFields(before), values);
            var noted := before.history
                         + (if IsClosedState(before.state) && !Live(askId)
                            then [Entry(at, actor, "reopen", changed, "", "")]
                            else [])
                         + [Entry(at, actor, "respond", changed, "", "")];
            && after.state == "CLOSED " + at + " by " + actor + " (web)" && after.updatedAt == at
            && after.columns == before.columns && after.origin == before.origin && after.fields == before.fields
            && after.history == (if |noted| <= 200 then noted else noted[|noted| - 200..])
  {
    hide EffectiveFields, IsSecret, Sealing, Metas, Bodies, Respond, GetOrSeed, IsClosedState, IsLiveId;
    AcceptedIsAnswered(slot, askId, actor, values, targets, seed, at, env);
    var before := GetOrSeed(slot, seed).value;
    var fields := EffectiveFields(before);
    var bodies, secrets := BodiesIn(fields, values), SecretsIn(fields, values);
    forall name ensures name in bodies.Keys + secrets.Keys <==> name in Changed(fields, values) {
      AcceptedAreTexts(before, values, targets, env.disabled, name);
    }
    assert bodies.Keys + secrets.Keys == Changed(fields, values);
    LiveIff(askId);
  }

  lemma LiveIff(askId: string)
    ensures IsLiveId(askId) <==> Live(askId)
  {
  }

  lemma NothingToStrip(s: string)
    requires s != "" && !IsSpace(s[0]) && !IsSpace(s[|s| - 1])
    ensures Strip(s) == s
  {
    hide IsSpace;
  }

  /** The state a submit writes counts as closed, so the next submit reopens the ask first; an open one does not. */
  lemma SubmitStateIsClosed(at: string, actor: string)
    ensures IsClosedState("CLOSED " + at + " by " + actor + " (web)") && !IsClosedState("OPEN")
  {
    var s := "CLOSED " + at + " by " + actor + " (web)";
    assert s[0] == 'C' && s[|s| - 1] == ')';
    NothingToStrip(s);
    assert Lower(s)[..6] == "closed";
    assert DropStars(Lower(s)) == Lower(s);
    assert CLOSED_PREFIXES[0] <= Lower(s);
    NothingToStrip("OPEN");
    var open := Lower("OPEN");
    assert open[0] == 'o' && DropStars(open) == open;
    forall i | 0 <= i < |CLOSED_PREFIXES| ensures !(CLOSED_PREFIXES[i] <= open) {
      assert CLOSED_PREFIXES[i][0] != 'o';
    }
  }

  /** What a caller is shown of a record: answers of declared fields only, bodies in full, and of a secret field
      its metadata at most. */
  ghost predicate Shows(row: PublicRow, record: Record) {
    var fields := EffectiveFields(record);
    && row.columns == record.columns && row.state == record.state && row.origin == record.origin
    && row.fields == fields && row.updatedAt == record.updatedAt
    && (forall name :: name in row.response <==> name in record.response && Find(fields, name).Some?)
    && (forall name :: name in row.response ==>
          row.response[name]
          == (if !IsSecret(fields, name) then PublicAnswer.Shown(record.response[name])
              else if record.response[name].Meta? then Metadata(record.response[name])
              else NoMetadata))
  }

  lemma PublicShows(record: Record)
    ensures Shows(Public(record), record)
  {
    hide Find, EffectiveFields, IsSecret;
  }

  /** The row an operation answers with is that of the record it leaves. */
  lemma RowShowsRecord(slot: Slot, askId: string, op: Op)
    requires Step(slot, askId, op).1.Row?
    ensures Step(slot, askId, op).0.record.Some?
    ensures Shows(Step(slot, askId, op).1.row, Step(slot, askId, op).0.record.value)
  {
    hide Public, EffectiveFields, Shows, BodiesIn, SecretsIn, RespondRefusal, AnsweredRecord, IsSecret, TargetOf,
         LastOf, Names, KeepsBinding, KeepsAnswer, Redact, Reason, Join, Strip, VaultApply;
    RowIsPublic(slot, askId, op);
    PublicShows(Step(slot, askId, op).0.record.value);
  }

  lemma RowIsPublic(slot: Slot, askId: string, op: Op)
    requires Step(slot, askId, op).1.Row?
    ensures Step(slot, askId, op).0.record.Some?
    ensures Step(slot, askId, op).1.row == Public(Step(slot, askId, op).0.record.value)
  {
    hide Public, EffectiveFields, BodiesIn, SecretsIn, RespondRefusal, AnsweredRecord, IsSecret, TargetOf, LastOf,
         Names, KeepsBinding, KeepsAnswer, Redact, Reason, Join, Strip, VaultApply;
  }

  // ----- which submits are accepted

  /** The answer a submit would leave under a name, or None. */
  function Projected(fields: seq<Field>, response: map<string, Answer>, values: map<string, Value>, name: string)
    : Option<Answer>
  {
    if name in values && !IsSecret(fields, name) then Some(Body(if values[name].Text? then values[name].text else ""))
    else if SubmitsSecret(fields, values, name) then Some(Meta("", "", |values[name].text|, true, "", None, None))
    else if name in response then Some(response[name])
    else None
  }

  predicate SubmitsSecret(fields: seq<Field>, values: map<string, Value>, name: string) {
    name in values && IsSecret(fields, name) && values[name].Text? && values[name].text != ""
  }

  /** A secret field is answered by metadata or any text, a body field by more than whitespace. */
  predicate IsAnswered(f: Field, answer: Option<Answer>) {
    answer.Some? &&
    match answer.value
    case Body(text) => if f.secret then text != "" else exists i :: 0 <= i < |text| && !IsSpace(text[i])
    case Meta(_, _, _, _, _, _, _) => true
  }

  predicate ValueOk(secret: bool, v: Value) {
    match v
    case Null => true
    case NotText => false
    case Text(text, tokenShaped) =>
      if secret then |text| <= 4096 && forall i :: 0 <= i < |text| ==> text[i] >= ' ' && text[i] != '\U{7f}'
      else |text| <= 20000 && !tokenShaped && '\0' !in text
  }

  lemma ValueOkIff(v: Value)
    ensures SecretOk(v) <==> ValueOk(true, v)
    ensures BodyOk(v) <==> ValueOk(false, v)
  {
  }

  lemma NotBlankIff(text: string)
    ensures !Blank(text) <==> exists i :: 0 <= i < |text| && !IsSpace(text[i])
  {
    hide IsSpace;
  }

  lemma FilledIsAnswered(f: Field, fields: seq<Field>, response: map<string, Answer>, values: map<string, Value>)
    requires forall name :: name in values ==> !values[name].NotText?
    ensures Filled(f, response, BodiesIn(fields, values), SecretsIn(fields, values).Keys)
            <==> IsAnswered(f, Projected(fields, response, values, f.name))
  {
    hide IsSecret, Blank, IsSpace;
    var bodies := BodiesIn(fields, values);
    if f.name in bodies { NotBlankIff(bodies[f.name]); }
    if f.name in response && response[f.name].Body? { NotBlankIff(response[f.name].text); }
  }

  predicate IsField(fields: seq<Field>, name: string) {
    exists i :: 0 <= i < |fields| && fields[i].name == name
  }

  lemma NamesIff(fields: seq<Field>, names: set<string>)
    ensures names <= Names(fields) <==> forall name :: name in names ==> IsField(fields, name)
  {
    forall name ensures name in Names(fields) <==> IsField(fields, name) {}
  }

  /** The conditions of a submit: declared names and valid values, the declared target of each secret field
      that is named, a target for each secret, working secret tools when there is one, at least one field
      answered afterwards, and every required field. */
  predicate Submittable(fields: seq<Field>, response: map<string, Answer>, values: map<string, Value>,
                        targets: map<string, string>, disabled: bool) {
    && (forall name :: name in values ==> IsField(fields, name))
    && (forall name :: name in values ==> ValueOk(IsSecret(fields, name), values[name]))
    && (forall name :: name in targets ==> IsSecret(fields, name) && targets[name] == TargetOf(fields, name))
    && (forall name :: name in values && SubmitsSecret(fields, values, name) ==> name in targets && !disabled)
    && (exists i :: 0 <= i < |fields| && AnsweredAfter(fields, i, response, values))
    && (forall i :: 0 <= i < |fields| && fields[i].required ==> AnsweredAfter(fields, i, response, values))
  }

  lemma SecretsCovered(fields: seq<Field>, values: map<string, Value>, targets: map<string, string>, disabled: bool)
    ensures SecretsIn(fields, values).Keys <= targets.Keys && (SecretsIn(fields, values).Keys != {} ==> !disabled)
            <==> forall name :: name in values && SubmitsSecret(fields, values, name) ==> name in targets && !disabled
  {
    hide IsSecret;
    var secrets := SecretsIn(fields, values);
    assert forall name :: name in secrets <==> name in values && SubmitsSecret(fields, values, name);
    if secrets.Keys != {} {
      var name :| name in secrets.Keys;
    }
  }

  lemma AllValuesOk(fields: seq<Field>, values: map<string, Value>)
    ensures (forall name :: name in values ==> ValueOk(IsSecret(fields, name), values[name]))
            <==> !exists name ::
                    name in values && !(if IsSecret(fields, name) then SecretOk(values[name]) else BodyOk(values[name]))
    ensures (forall name :: name in values ==> ValueOk(IsSecret(fields, name), values[name])) ==>
              forall name :: name in values ==> !values[name].NotText?
  {
    hide IsSecret, ValueOk, SecretOk, BodyOk;
    forall name | name in values
      ensures ValueOk(IsSecret(fields, name), values[name])
              <==> if IsSecret(fields, name) then SecretOk(values[name]) else BodyOk(values[name])
      ensures ValueOk(IsSecret(fields, name), values[name]) ==> !values[name].NotText?
    {
      ValueOkIff(values[name]);
      OkIsText(IsSecret(fields, name), values[name]);
    }
  }

  predicate AnsweredAfter(fields: seq<Field>, i: nat, response: map<string, Answer>, values: map<string, Value>)
    requires i < |fields|
  {
    IsAnswered(fields[i], Projected(fields, response, values, fields[i].name))
  }

  lemma NotRefusedIff(record: Record, values: map<string, Value>, targets: map<string, string>, disabled: bool)
    ensures RespondRefusal(record, values, targets, disabled).None?
            <==> Submittable(EffectiveFields(record), record.response, values, targets, disabled)
  {
    hide EffectiveFields, Names, IsSecret, TargetOf, Filled, BodyOk, SecretOk, ValueOk, IsAnswered, Projected, IsField,
         BodiesIn, SecretsIn, SubmitsSecret;
    var fields := EffectiveFields(record);
    NamesIff(fields, values.Keys);
    AllValuesOk(fields, values);
    SecretsCovered(fields, values, targets, disabled);
    if forall name :: name in values ==> !values[name].NotText? {
      forall i | 0 <= i < |fields|
        ensures Filled(fields[i], record.response, BodiesIn(fields, values), SecretsIn(fields, values).Keys)
                <==> AnsweredAfter(fields, i, record.response, values)
      {
        FilledIsAnswered(fields[i], fields, record.response, values);
      }
    }
  }

  lemma OkIsText(secret: bool, v: Value)
    ensures ValueOk(secret, v) ==> !v.NotText?
  {
  }

  /** A submit is accepted exactly under these conditions, unless sealing a secret fails in the vault; what
      is refused changes nothing. */
  lemma SubmitAcceptedIff(slot: Slot, askId: string, actor: string, values: map<string, Value>,
                          targets: map<string, string>, seed: Option<Seed>, at: string, env: Env)
    ensures Accepts(slot, askId, actor, values, targets, seed, at, env)
            <==> && GetOrSeed(slot, seed).Some?
                 && var record := GetOrSeed(slot, seed).value;
                    && Submittable(EffectiveFields(record), record.response, values, targets, env.disabled)
                    && (env.sealFailure.Some? ==>
                          forall name :: name in values ==> !SubmitsSecret(EffectiveFields(record), values, name))
    ensures !Accepts(slot, askId, actor, values, targets, seed, at, env) ==>
              Respond(slot, askId, actor, values, targets, seed, at, env).0 == slot
  {
    hide EffectiveFields, BodiesIn, RespondRefusal, AnsweredRecord, Public, GetOrSeed, Submittable, IsSecret;
    if GetOrSeed(slot, seed).Some? {
      var record := GetOrSeed(slot, seed).value;
      NotRefusedIff(record, values, targets, env.disabled);
      var secrets := SecretsIn(EffectiveFields(record), values);
      assert forall name :: name in values ==>
             (name in secrets <==> SubmitsSecret(EffectiveFields(record), values, name));
      assert secrets.Keys != {} <==> exists name :: name in secrets;
      if RespondRefusal(record, values, targets, env.disabled).None? {
        RefusalNamesTargets(record, values, targets, env.disabled);
      }
    }
  }

  // ----- the other operations

  /** A new ask is open, unanswered and noted; only a free, non-live id gets one. */
  lemma RaiseOutcome(slot: Slot, askId: string, columns: Columns, fields: seq<Field>, actor: string, at: string)
    ensures var r := RaiseAsk(slot, askId, columns, fields, actor, at);
            && r.0.vault == slot.vault
            && (r.1.Row? <==> slot.record.None? && !Live(askId))
            && (!r.1.Row? ==> r.0 == slot)
            && (r.1.Row? ==>
                  var names := set i | 0 <= i < |fields| :: fields[i].name;
                  r.0.record == Some(Record(columns, "OPEN", "raised", fields, map[],
                                            [Entry(at, actor, "raise", names, "", "")], at)))
  {
    hide Public, IsLiveId, Live;
    LiveIff(askId);
    var entry := Entry(at, actor, "raise", Names(fields), "", "");
    assert Names(fields) == set i | 0 <= i < |fields| :: fields[i].name;
    assert [] + [entry] == [entry];
  }

  /** A field declaration is accepted exactly when each sealed field - by the vault, or by the record when the
      secret tools are off - stays secret and bound to its target. Then answers survive whose field stays,
      except when a secret field becomes a body field. */
  lemma DeclareOutcome(slot: Slot, fields: seq<Field>, actor: string, seed: Option<Seed>, at: string, env: Env)
    requires GetOrSeed(slot, seed).Some? && (env.statusFails ==> env.disabled)
    ensures var before, r := GetOrSeed(slot, seed).value, DeclareFields(slot, fields, actor, seed, at, env);
            && r.0.vault == slot.vault
            && (r.1.Row? <==>
                  if env.disabled then
                    forall name ::
                      (name in before.response && before.response[name].Meta? && before.response[name].sealed) ==>
                      IsSecret(fields, name) && TargetOf(fields, name) == before.response[name].applyTarget
                  else
                    forall name :: name in slot.vault ==>
                      IsSecret(fields, name) && TargetOf(fields, name) == slot.vault[name].target)
            && (!r.1.Row? ==> r.0 == slot)
            && (r.1.Row? ==> r.0.record.Some? && r.0.record.value.fields == fields)
    ensures var before, r := GetOrSeed(slot, seed).value, DeclareFields(slot, fields, actor, seed, at, env);
            r.1.Row? ==>
              var after, old_ := r.0.record.value, EffectiveFields(before);
              && (forall name :: name in after.response <==>
                    name in before.response
                    && (Find(old_, name).None?
                        || (Find(fields, name).Some? && !(IsSecret(old_, name) && !IsSecret(fields, name)))))
              && (forall name :: name in after.response ==> after.response[name] == before.response[name])
              && after.columns == before.columns && after.state == before.state && after.origin == before.origin
  {
    hide Find, EffectiveFields, Public, IsSecret, TargetOf, LastOf, GetOrSeed, Names;
    var before := GetOrSeed(slot, seed).value;
    var sealed := if env.disabled then SealedByRecord(before) else SealedByVault(slot.vault);
    if env.disabled {
      assert forall name :: name in sealed ==> sealed[name] == before.response[name].applyTarget;
    } else {
      assert forall name :: name in slot.vault ==> name in sealed && sealed[name] == slot.vault[name].target;
    }
  }

  /** Clearing is accepted exactly for a secret field that has a sealed value or an answer, when the tools work;
      it removes both under that name and nothing else. */
  lemma ClearOutcome(slot: Slot, field: string, actor: string, at: string, env: Env)
    requires slot.record.Some? && env.clearFailure.None?
    ensures var before, r := slot.record.value, ClearSecret(slot, field, actor, at, env);
            && (r.1.Row? <==> !env.disabled && IsSecret(EffectiveFields(before), field)
                              && (field in slot.vault || field in before.response))
            && (!r.1.Row? ==> r.0 == slot)
            && (r.1.Row? ==>
                  && r.0.vault == slot.vault - {field} && r.0.record.Some?
                  && r.0.record.value.response == before.response - {field}
                  && r.0.record.value.fields == before.fields && r.0.record.value.state == before.state)
  {
    hide EffectiveFields, Public, IsSecret, LastOf;
  }

  predicate Applicable(slot: Slot, field: string, target: string, env: Env) {
    && slot.record.Some? && target in {"ct202-mcp-tools-env:GITHUB_MCP_TOKEN"} && !env.disabled
    && IsSecret(EffectiveFields(slot.record.value), field)
    && TargetOf(EffectiveFields(slot.record.value), field) == target
  }

  predicate MarkedApplied(before: Record, after: Record, field: string, target: string, at: string) {
    && field in before.response && before.response[field].Meta? && after.state == before.state
    && after.fields == before.fields && after.columns == before.columns
    && after.response == before.response[field := before.response[field].(sealed := false, appliedAt := Some(at),
                                                                          appliedTarget := Some(target))]
  }

  /** An apply that reaches the vault and succeeds deletes the sealed value and marks the metadata applied; one
      that fails there keeps both and reopens the ask; any other changes nothing. */
  lemma ApplyOutcome(slot: Slot, field: string, target: string, actor: string, at: string, env: Env)
    requires slot.record.Some? ==> Agrees(EffectiveFields(slot.record.value), slot.record.value.response, slot.vault)
    ensures var r := ApplySecret(slot, field, target, actor, at, env);
            && (r.1.Applied? <==> Applicable(slot, field, target, env) && field in slot.vault && env.write.Written?)
            && (r.1.Applied? ==>
                  r.1 == Applied(target, at) && r.0.vault == slot.vault - {field}
                  && r.0.record.Some? && MarkedApplied(slot.record.value, r.0.record.value, field, target, at))
    ensures var r := ApplySecret(slot, field, target, actor, at, env);
            && (!Applicable(slot, field, target, env) ==> r.0 == slot && r.1.Refused?)
            && (Applicable(slot, field, target, env) && !r.1.Applied? ==>
                  && r.0.vault == slot.vault && r.1.Refused? && r.1.error.ApplyFailed? && r.0.record.Some?
                  && r.0.record.value.response == slot.record.value.response && r.0.record.value.state == "OPEN")
  {
    hide Find, EffectiveFields, Public, IsSecret, TargetOf, LastOf, Redact, Reason, Join, Strip;
  }

  /** A failed apply notes its reason three times: in the error, at the end of the history and, unless it is
      longer than the column, at the end of the evidence. The other columns stay. */
  lemma ApplyFailureIsNoted(slot: Slot, field: string, target: string, actor: string, at: string, env: Env)
    requires ApplySecret(slot, field, target, actor, at, env).1.Refused?
    requires ApplySecret(slot, field, target, actor, at, env).1.error.ApplyFailed?
    ensures var r := ApplySecret(slot, field, target, actor, at, env);
            && slot.record.Some? && r.0.record.Some?
            && exists reason: string :: FailureNoted(slot.record.value, r.0.record.value, r.1.error.text, field, target,
                                                     actor, at, reason)
  {
    hide Find, EffectiveFields, Public, IsSecret, TargetOf, Redact, Reason, Strip;
    var r := ApplySecret(slot, field, target, actor, at, env);
    var before, after := slot.record.value, r.0.record.value;
    var reason := after.history[|after.history| - 1].reason;
    var note := "apply failed " + at + ": " + target + " " + reason;
    NoteEndsColumn(Strip(before.columns.evidence), note);
    assert FailureNoted(before, after, r.1.error.text, field, target, actor, at, reason);
  }

  predicate EndsWith(s: string, tail: string) {
    |tail| <= |s| && s[|s| - |tail|..] == tail
  }

  predicate FailureNoted(before: Record, after: Record, error: string, field: string, target: string, actor: string,
                         at: string, reason: string) {
    var note := "apply failed " + at + ": " + target + " " + reason;
    && error == "apply failed: " + target + " " + reason
    && after.history == LastOf(before.history + [Entry(at, actor, "apply_failed", {field}, target, reason)],
                               MAX_HISTORY)
    && (|note| <= 4000 ==> EndsWith(after.columns.evidence, note)) && |after.columns.evidence| <= 4000
    && after.columns.(evidence := before.columns.evidence) == before.columns
  }

  lemma NoteEndsColumn(evidence: string, note: string)
    ensures var column := LastOf(Join(evidence, note), MAX_EVIDENCE);
            |column| <= 4000 && (|note| <= 4000 ==> EndsWith(column, note))
  {
  }

  // ----- the bodies of a run

  /** The text submitted last for a body field: what a later operation takes away - a redeclaration without
      the field or turning a secret field into a body field, a secret sealed under the name, a clear or an
      apply of it - is gone. */
  function LastBody(askId: string, ops: seq<Op>, n: nat, name: string): Option<string>
    requires n <= |ops|
  {
    if n == 0 then None
    else
      var slot, op, before := At(askId, ops, n - 1), ops[n - 1], LastBody(askId, ops, n - 1, name);
      var out := Step(slot, askId, op).1;
      match op
      case Raising(_, _, _, _) => before
      case Declaring(fields, _, seed, _, _) =>
        if out.Row? && GetOrSeed(slot, seed).Some?
           && (Find(fields, name).None?
               || (IsSecret(EffectiveFields(GetOrSeed(slot, seed).value), name) && !IsSecret(fields, name)))
        then None else before
      case Responding(_, values, _, seed, _, _) =>
        if !out.Row? || GetOrSeed(slot, seed).None? || name !in values then before
        else if !IsSecret(EffectiveFields(GetOrSeed(slot, seed).value), name) then
          Some(if values[name].Text? then values[name].text else "")
        else if values[name].Text? && values[name].text != "" then None
        else before
      case Clearing(field, _, _, _) => if out.Row? && field == name then None else before
      case Applying(field, _, _, _, _) => if out.Applied? && field == name then None else before
  }

  function BodyIn(slot: Slot, name: string): Option<string> {
    if slot.record.Some? && name in slot.record.value.response && slot.record.value.response[name].Body?
    then Some(slot.record.value.response[name].text) else None
  }

  lemma AcceptedBody(slot: Slot, askId: string, actor: string, values: map<string, Value>,
                     targets: map<string, string>, seed: Option<Seed>, at: string, env: Env, name: string)
    requires Accepts(slot, askId, actor, values, targets, seed, at, env)
    ensures GetOrSeed(slot, seed).Some?
    ensures var after := Respond(slot, askId, actor, values, targets, seed, at, env).0;
            if name !in values then BodyIn(after, name) == BodyIn(slot, name)
            else if !IsSecret(EffectiveFields(GetOrSeed(slot, seed).value), name) then
              BodyIn(after, name) == Some(if values[name].Text? then values[name].text else "")
            else if values[name].Text? && values[name].text != "" then BodyIn(after, name) == None
            else BodyIn(after, name) == BodyIn(slot, name)
  {
    hide Respond, EffectiveFields, IsSecret;
    AcceptedIsAnswered(slot, askId, actor, values, targets, seed, at, env);
    SubmitIsRecorded(slot, askId, actor, values, targets, seed, at, env, name);
  }

  lemma RespondBody(slot: Slot, askId: string, op: Op, name: string)
    requires op.Responding?
    ensures var out := Step(slot, askId, op);
            if !out.1.Row? || name !in op.values then BodyIn(out.0, name) == BodyIn(slot, name)
            else if !IsSecret(EffectiveFields(GetOrSeed(slot, op.seed).value), name) then
              BodyIn(out.0, name) == Some(if op.values[name].Text? then op.values[name].text else "")
            else if op.values[name].Text? && op.values[name].text != "" then BodyIn(out.0, name) == None
            else BodyIn(out.0, name) == BodyIn(slot, name)
    ensures Step(slot, askId, op).1.Row? ==> GetOrSeed(slot, op.seed).Some?
  {
    hide Respond, EffectiveFields, IsSecret, BodyIn;
    if Accepts(slot, askId, op.actor, op.values, op.targets, op.seed, op.at, op.env) {
      AcceptedBody(slot, askId, op.actor, op.values, op.targets, op.seed, op.at, op.env, name);
    } else {
      SubmitAcceptedIff(slot, askId, op.actor, op.values, op.targets, op.seed, op.at, op.env);
    }
  }

  lemma DeclareBody(slot: Slot, askId: string, op: Op, name: string)
    requires op.Declaring? && Agree(slot)
    ensures var out := Step(slot, askId, op);
            if out.1.Row? && GetOrSeed(slot, op.seed).Some?
               && (Find(op.fields, name).None?
                   || (IsSecret(EffectiveFields(GetOrSeed(slot, op.seed).value), name) && !IsSecret(op.fields, name)))
            then BodyIn(out.0, name) == None
            else BodyIn(out.0, name) == BodyIn(slot, name)
  {
    hide Find, EffectiveFields, IsSecret, DeclareFields;
    DeclareOutcomeAtAll(slot, op.fields, op.actor, op.seed, op.at, op.env);
    if GetOrSeed(slot, op.seed).Some? && (op.env.statusFails ==> op.env.disabled) {
      SeededAgrees(slot, op.seed);
      DeclareOutcome(slot, op.fields, op.actor, op.seed, op.at, op.env);
    }
  }

  lemma DeclareOutcomeAtAll(slot: Slot, fields: seq<Field>, actor: string, seed: Option<Seed>, at: string, env: Env)
    ensures var r := DeclareFields(slot, fields, actor, seed, at, env);
            r.1.Row? ==> GetOrSeed(slot, seed).Some? && (env.statusFails ==> env.disabled)
    ensures !DeclareFields(slot, fields, actor, seed, at, env).1.Row? ==>
              DeclareFields(slot, fields, actor, seed, at, env).0 == slot
  {
    hide Find, EffectiveFields, Public, IsSecret, LastOf, Names;
  }

  lemma ClearBody(slot: Slot, askId: string, op: Op, name: string)
    requires op.Clearing?
    ensures var out := Step(slot, askId, op);
            if out.1.Row? && op.field == name then BodyIn(out.0, name) == None
            else BodyIn(out.0, name) == BodyIn(slot, name)
  {
    hide EffectiveFields, Public, IsSecret, LastOf;
  }

  lemma ApplyBody(slot: Slot, askId: string, op: Op, name: string)
    requires op.Applying? && Agree(slot)
    ensures var out := Step(slot, askId, op);
            if out.1.Applied? && op.field == name then BodyIn(out.0, name) == None
            else BodyIn(out.0, name) == BodyIn(slot, name)
  {
    hide EffectiveFields, ApplySecret, Agrees, Applicable;
    ApplyOutcome(slot, op.field, op.target, op.actor, op.at, op.env);
    if slot.record.None? { NotApplicable(slot, op.field, op.target, op.env); }
  }

  lemma NotApplicable(slot: Slot, field: string, target: string, env: Env)
    requires slot.record.None?
    ensures !Applicable(slot, field, target, env)
  {
  }

  lemma RaiseBody(slot: Slot, askId: string, op: Op, name: string)
    requires op.Raising?
    ensures BodyIn(Step(slot, askId, op).0, name) == BodyIn(slot, name)
  {
    hide RaiseAsk, Live;
    RaiseOutcome(slot, askId, op.columns, op.fields, op.actor, op.at);
  }

  /** After any run the record holds, for each field, exactly the text submitted for it last. */
  lemma {:induction false} RecordHoldsLastBody(askId: string, ops: seq<Op>, n: nat, name: string)
    requires n <= |ops|
    ensures BodyIn(At(askId, ops, n), name) == LastBody(askId, ops, n, name)
  {
    hide Step, BodyIn, Find, IsSecret, EffectiveFields, GetOrSeed;
    if n == 0 {
      NoBodyAtFirst(askId, ops, name);
    } else {
      RecordHoldsLastBody(askId, ops, n - 1, name);
      RecordAndVaultAgree(askId, ops, n - 1);
      var slot, op := At(askId, ops, n - 1), ops[n - 1];
      match op
      case Raising(_, _, _, _) => RaiseBody(slot, askId, op, name);
      case Declaring(_, _, _, _, _) => DeclareBody(slot, askId, op, name);
      case Responding(_, _, _, _, _, _) => RespondBody(slot, askId, op, name);
      case Clearing(_, _, _, _) => ClearBody(slot, askId, op, name);
      case Applying(_, _, _, _, _) => ApplyBody(slot, askId, op, name);
    }
  }

  lemma NoBodyAtFirst(askId: string, ops: seq<Op>, name: string)
    ensures BodyIn(At(askId, ops, 0), name) == None
  {
  }
}
