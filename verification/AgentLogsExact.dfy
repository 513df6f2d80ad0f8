/** Exactly when the bounded parser returns the tail of the unbounded output, and when its answers keep
    their text. */
module AgentLogsExact {
  import opened Common
  import opened AgentLogs
  import opened AgentLogsBounds

  /** Every call step that was shown twice has left the ring buffer by record `n`. */
  predicate RepeatsHaveLeft(actions: seq<Action>, k: nat, n: nat)
    requires n <= |actions|
  {
    forall m :: 0 <= m < n && Forgotten(actions, k, m) ==>
      |Emitted(actions, Some(k), n)| - |Emitted(actions, Some(k), m)| > k
  }

  /** The list the bounded parser returns lines up with the last `k` steps of the unbounded one. */
  predicate IsTail(actions: seq<Action>, k: nat, n: nat)
    requires n <= |actions|
  {
    SameShapes(Run(actions, Some(k), n).steps, LastOf(Run(actions, None, n).steps, k))
  }

  // ----- both outputs from the last repeated call on

  lemma {:induction false} EmittedGrows(actions: seq<Action>, max: Option<nat>, m: nat, n: nat)
    requires m <= n <= |actions|
    ensures Emitted(actions, max, m) <= Emitted(actions, max, n)
    decreases n - m
  {
    hide Appended, Run;
    if m < n { EmittedGrows(actions, max, m, n - 1); }
  }

  lemma {:induction false} LastForgotten(actions: seq<Action>, k: nat, n: nat) returns (m: nat)
    requires n <= |actions| && ForgottenCount(actions, k, n) > 0
    ensures m < n && Forgotten(actions, k, m) && forall later :: m < later < n ==> !Forgotten(actions, k, later)
  {
    hide Forgotten;
    if Forgotten(actions, k, n - 1) {
      m := n - 1;
    } else {
      m := LastForgotten(actions, k, n - 1);
    }
  }

  lemma {:induction false} NoneForgotten(actions: seq<Action>, k: nat, n: nat)
    requires n <= |actions| && ForgottenCount(actions, k, n) == 0
    ensures forall m :: 0 <= m < n ==> !Forgotten(actions, k, m)
  {
    hide Forgotten;
    if n > 0 { NoneForgotten(actions, k, n - 1); }
  }

  lemma SameShapesConcat(a: seq<Step>, b: seq<Step>, c: seq<Step>, d: seq<Step>)
    requires SameShapes(a, b) && SameShapes(c, d)
    ensures SameShapes(a + c, b + d)
  {
    hide Shape;
  }

  /** A forgotten completion repeats its call step in front of what both parsers append. */
  lemma ForgottenAppends(actions: seq<Action>, k: nat, m: nat)
    requires m < |actions| && Forgotten(actions, k, m)
    ensures Appended(Run(actions, Some(k), m), actions[m]) == [actions[m].use] + actions[m].results
    ensures Appended(Run(actions, None, m), actions[m]) == actions[m].results
  {
    hide Run, Remembered, LastOf;
    EveryToolIsRemembered(actions, k, m);
    SeenIsNewest(actions, k, m);
    assert [] + actions[m].results == actions[m].results;
  }

  /** Behind the last repeated call step, both parsers have appended the same steps. */
  lemma {:induction false} SameBehindRepeat(actions: seq<Action>, k: nat, m: nat, n: nat)
    requires m < n <= |actions| && Forgotten(actions, k, m)
    requires forall later :: m < later < n ==> !Forgotten(actions, k, later)
    ensures var b, u := Emitted(actions, Some(k), n), Emitted(actions, None, n);
            var i, j := |Emitted(actions, Some(k), m)|, |Emitted(actions, None, m)|;
            && Emitted(actions, Some(k), m) <= b && Emitted(actions, None, m) <= u
            && i < |b| && b[i] == actions[m].use && SameShapes(b[i + 1..], u[j..])
    decreases n - m
  {
    hide Appended, Run, Forgotten, Shape;
    EmittedGrows(actions, Some(k), m, n);
    EmittedGrows(actions, None, m, n);
    var i, j := |Emitted(actions, Some(k), m)|, |Emitted(actions, None, m)|;
    var b, u := Emitted(actions, Some(k), n - 1), Emitted(actions, None, n - 1);
    var more := Appended(Run(actions, Some(k), n - 1), actions[n - 1]);
    var most := Appended(Run(actions, None, n - 1), actions[n - 1]);
    ForgottenIsTool(actions, k, m);
    if n == m + 1 {
      ForgottenAppends(actions, k, m);
      assert (b + more)[i + 1..] == actions[m].results && (u + most)[j..] == actions[m].results;
    } else {
      SameBehindRepeat(actions, k, m, n - 1);
      AppendedCompared(actions, k, n - 1);
      SameShapesConcat(b[i + 1..], u[j..], more, most);
      assert (b + more)[i + 1..] == b[i + 1..] + more && (u + most)[j..] == u[j..] + most;
    }
  }

  lemma LastOfSuffix<T>(s: seq<T>, i: nat, k: nat)
    requires i + k <= |s|
    ensures LastOf(s, k) == LastOf(s[i..], k)
  {
  }

  /** "If", for every log: once all repeated call steps have left the buffer, the output is the tail. */
  lemma TailIfRepeatsHaveLeft(actions: seq<Action>, k: nat, n: nat)
    requires n <= |actions| && RepeatsHaveLeft(actions, k, n)
    ensures IsTail(actions, k, n)
  {
    hide Run, Emitted, Forgotten, ForgottenCount, LastOf, SameShapes;
    BufferIsNewest(actions, None, n);
    BufferIsNewest(actions, Some(k), n);
    var b, u := Emitted(actions, Some(k), n), Emitted(actions, None, n);
    if ForgottenCount(actions, k, n) == 0 {
      NothingForgottenSameShapes(actions, k, n);
      SameShapesLastOf(b, u, k);
    } else {
      var m := LastForgotten(actions, k, n);
      SameBehindRepeat(actions, k, m, n);
      var i, j := |Emitted(actions, Some(k), m)|, |Emitted(actions, None, m)|;
      assert |b[i + 1..]| == |u[j..]| by { SameLength(b[i + 1..], u[j..]); }
      LastOfSuffix(b, i + 1, k);
      LastOfSuffix(u, j, k);
      SameShapesLastOf(b[i + 1..], u[j..], k);
    }
  }

  lemma SameLength(s: seq<Step>, t: seq<Step>)
    requires SameShapes(s, t)
    ensures |s| == |t|
  {
  }

  // ----- "only if": the step before a forgotten completion is no call of the forgotten tool

  /** A call step carries its tool's id, and nothing else is a call step. */
  predicate Named(a: Action) {
    (a.Tool? ==> a.use.ToolUse? && a.use.id == a.id) && (a.Emit? ==> !a.step.ToolUse?)
  }

  /** A record that neither starts a tool anew nor completes it. */
  predicate Silent(a: Action) {
    a.Tool? && !a.always && a.results == []
  }

  /** Such records name a tool not met before. */
  predicate NothingSilent(actions: seq<Action>) {
    forall m, j :: 0 <= j < m < |actions| && actions[j].Tool? && Silent(actions[m]) ==> actions[j].id != actions[m].id
  }

  predicate WellBehaved(actions: seq<Action>) {
    (forall i :: 0 <= i < |actions| ==> Plain(actions[i]) && Named(actions[i])) && NothingSilent(actions)
  }

  lemma {:induction false} SeenWasMet(actions: seq<Action>, n: nat, id: string)
    requires n <= |actions| && id in Run(actions, None, n).seen
    ensures exists j :: 0 <= j < n && actions[j].Tool? && actions[j].id == id
  {
    hide Appended, Ring, Evict;
    if n > 0 && id in Run(actions, None, n - 1).seen {
      SeenWasMet(actions, n - 1, id);
    }
  }

  lemma ToolIsSeen(actions: seq<Action>, k: nat, m: nat)
    requires m < |actions| && actions[m].Tool?
    ensures actions[m].id in Run(actions, Some(k), m + 1).seen
  {
    hide Run, LastOf, Cap;
    SeenIsNewest(actions, k, m + 1);
    if actions[m].id in Run(actions, Some(k), m).seen {
      SeenStays(actions, k, m);
    } else {
      LastIsNewest(Remembered(actions, Some(k), m), actions[m].id, Cap(k));
      CapIsPositive(k);
    }
  }

  lemma CapIsPositive(k: nat)
    ensures Cap(k) >= 32
  {
  }

  lemma LastIsNewest(past: seq<string>, id: string, cap: nat)
    requires cap >= 0
    ensures cap > 0 ==> id in LastOf(past + [id], cap)
  {
    if cap > 0 {
      var s := LastOf(past + [id], cap);
      assert s[|s| - 1] == id;
    }
  }

  lemma SeenStays(actions: seq<Action>, k: nat, m: nat)
    requires m < |actions| && (actions[m].Tool? ==> actions[m].id in Run(actions, Some(k), m).seen)
    ensures Run(actions, Some(k), m + 1).seen == Run(actions, Some(k), m).seen
  {
    hide Appended, Ring, Evict;
  }

  lemma SilentIsSkip(actions: seq<Action>, m: nat)
    requires m < |actions| && WellBehaved(actions) && Appended(Run(actions, None, m), actions[m]) == []
    ensures actions[m].Skip?
  {
    hide Run, Plain, Named;
    var a := actions[m];
    if a.Tool? {
      assert !a.always && a.results == [] && a.id in Run(actions, None, m).seen;
      SeenWasMet(actions, m, a.id);
    }
  }

  /** If the newest step of the unbounded parser is a call, its tool is still remembered by the bounded one. */
  lemma {:induction false} LastCallIsRemembered(actions: seq<Action>, k: nat, m: nat)
    requires m <= |actions| && WellBehaved(actions)
    ensures var u := Emitted(actions, None, m);
            u != [] && u[|u| - 1].ToolUse? ==> u[|u| - 1].id in Run(actions, Some(k), m).seen
  {
    hide Run, Appended, NothingSilent;
    if m > 0 {
      var a, added := actions[m - 1], Appended(Run(actions, None, m - 1), actions[m - 1]);
      if added == [] {
        SilentIsSkip(actions, m - 1);
        LastCallIsRemembered(actions, k, m - 1);
        SeenStays(actions, k, m - 1);
      } else {
        LastAdded(Run(actions, None, m - 1), a);
        if a.Tool? { ToolIsSeen(actions, k, m - 1); }
      }
    }
  }

  lemma LastAdded(p: Parser, a: Action)
    requires Plain(a) && Named(a) && Appended(p, a) != []
    ensures var added := Appended(p, a);
            added[|added| - 1].ToolUse? ==> a.Tool? && added[|added| - 1].id == a.id
  {
    if a.Tool? && a.results != [] {
      var added := Appended(p, a);
      assert added[|added| - 1] == a.results[|a.results| - 1];
    }
  }

  /** A repeated call step still in the buffer has no counterpart in the unbounded tail. */
  lemma RepeatInBufferShows(actions: seq<Action>, k: nat, n: nat, m: nat)
    requires n <= |actions| && WellBehaved(actions) && m < n && Forgotten(actions, k, m)
    requires forall later :: m < later < n ==> !Forgotten(actions, k, later)
    requires |Emitted(actions, Some(k), n)| - |Emitted(actions, Some(k), m)| <= k
    ensures !IsTail(actions, k, n)
  {
    hide Run, Emitted, Forgotten, Named, Plain, NothingSilent, SameShapes;
    ForgottenIsTool(actions, k, m);
    BufferIsNewest(actions, None, n);
    BufferIsNewest(actions, Some(k), n);
    SameBehindRepeat(actions, k, m, n);
    var b, u := Emitted(actions, Some(k), n), Emitted(actions, None, n);
    var i, j := |Emitted(actions, Some(k), m)|, |Emitted(actions, None, m)|;
    var use := actions[m].use;
    SameLength(b[i + 1..], u[j..]);
    UseIsCall(actions[m]);
    LastCallIsRemembered(actions, k, m);
    assert j > 0 ==> u[j - 1] == Emitted(actions, None, m)[j - 1];
    if IsTail(actions, k, n) {
      LinedUp(LastOf(b, k), LastOf(u, k), b, u, i, j, k);
    }
  }

  lemma UseIsCall(a: Action)
    requires a.Tool? && Named(a)
    ensures a.use.ToolUse? && a.use.id == a.id
  {
  }

  lemma ForgottenIsTool(actions: seq<Action>, k: nat, m: nat)
    requires m < |actions| && Forgotten(actions, k, m)
    ensures actions[m].Tool? && actions[m].id !in Run(actions, Some(k), m).seen
  {
    hide Run, Remembered, LastOf;
    SeenIsNewest(actions, k, m);
  }

  /** Two lists whose ends line up carry the same shape one place further ahead. */
  lemma LinedUp(x: seq<Step>, y: seq<Step>, b: seq<Step>, u: seq<Step>, i: nat, j: nat, k: nat)
    requires x == LastOf(b, k) && y == LastOf(u, k) && SameShapes(x, y)
    requires i < |b| && j <= |u| && |b| - i - 1 == |u| - j && |b| - i <= k && b[i].ToolUse?
    ensures j > 0 && u[j - 1] == b[i]
  {
    var back := |b| - i;
    assert x[|x| - back] == b[i];
    assert |y| >= back && y[|y| - back] == u[j - 1];
    assert Shape(b[i]) == Shape(u[j - 1]);
  }

  /** On a well-behaved log the bounded parser returns the tail of the unbounded output if and only if
      every repeated call step has left the buffer. */
  lemma TailIff(actions: seq<Action>, k: nat, n: nat)
    requires n <= |actions| && WellBehaved(actions)
    ensures IsTail(actions, k, n) <==> RepeatsHaveLeft(actions, k, n)
  {
    hide Run, Emitted, Forgotten, ForgottenCount, IsTail, WellBehaved;
    if RepeatsHaveLeft(actions, k, n) {
      TailIfRepeatsHaveLeft(actions, k, n);
    } else {
      var early :| 0 <= early < n && Forgotten(actions, k, early)
                   && |Emitted(actions, Some(k), n)| - |Emitted(actions, Some(k), early)| <= k;
      if ForgottenCount(actions, k, n) == 0 { NoneForgotten(actions, k, n); }
      var m := LastForgotten(actions, k, n);
      EmittedGrows(actions, Some(k), early, m);
      RepeatInBufferShows(actions, k, n, m);
    }
  }

  lemma CodexIsNamed(record: CodexRecord)
    ensures Named(Codex(record)) && (Codex(record).Tool? && !Codex(record).always ==> Codex(record).results != [])
  {
  }

  /** For every Codex log, and after each of its records. */
  lemma CodexIsTailIff(records: seq<CodexRecord>, k: nat, n: nat)
    requires n <= |records|
    ensures IsTail(CodexActions(records), k, n) <==> RepeatsHaveLeft(CodexActions(records), k, n)
  {
    hide Codex, Plain, Named, IsTail, RepeatsHaveLeft;
    var actions := CodexActions(records);
    forall i | 0 <= i < |actions|
      ensures Plain(actions[i]) && Named(actions[i])
      ensures actions[i].Tool? && !actions[i].always ==> actions[i].results != []
    {
      CodexIsPlain(records[i]);
      CodexIsNamed(records[i]);
    }
    TailIff(actions, k, n);
  }

  lemma OpenCodeIsNamed(record: OpenCodeRecord)
    ensures Named(OpenCode(record))
  {
  }

  /** For every OpenCode log, "if". */
  lemma OpenCodeIsTailIf(records: seq<OpenCodeRecord>, k: nat, n: nat)
    requires n <= |records| && RepeatsHaveLeft(OpenCodeActions(records), k, n)
    ensures IsTail(OpenCodeActions(records), k, n)
  {
    TailIfRepeatsHaveLeft(OpenCodeActions(records), k, n);
  }

  predicate Progress(record: OpenCodeRecord) {
    record.ToolPart? && !Finished(record.status)
  }

  /** Both ways for every OpenCode log without repeated progress reports: each record of an unfinished tool
      is the first to name it. */
  predicate NoProgressReports(records: seq<OpenCodeRecord>) {
    forall m, j :: 0 <= j < m < |records| && records[j].ToolPart? && Progress(records[m]) ==>
        records[j].id != records[m].id
  }

  lemma OpenCodeIsTailIff(records: seq<OpenCodeRecord>, k: nat, n: nat)
    requires n <= |records| && NoProgressReports(records)
    ensures IsTail(OpenCodeActions(records), k, n) <==> RepeatsHaveLeft(OpenCodeActions(records), k, n)
  {
    hide Plain, Named, IsTail, RepeatsHaveLeft, OpenCodeActions, Finished;
    var actions := OpenCodeActions(records);
    forall i | 0 <= i < |actions| ensures Plain(actions[i]) && Named(actions[i]) {
      OpenCodeIsPlain(records[i]);
      OpenCodeIsNamed(records[i]);
    }
    TailIff(actions, k, n);
  }
}
