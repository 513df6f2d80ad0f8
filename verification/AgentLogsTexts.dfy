/** When a bounded answer keeps its text, and logs at which the two parsers differ. */
module AgentLogsTexts {
  import opened Common
  import opened AgentLogs
  import opened AgentLogsBounds
  import opened AgentLogsExact

  // ----- the text an answer repeats

  predicate HasText(steps: seq<Step>) {
    exists i :: 0 <= i < |steps| && steps[i].Text?
  }

  /** Shown texts are not empty, and only a text record shows one. */
  predicate Spoken(a: Action) {
    a.Emit? && a.step.Text? ==> a.step.text != ""
  }

  lemma {:induction false} NoTextIsEmpty(steps: seq<Step>)
    requires !HasText(steps)
    ensures LastText(steps) == ""
  {
    if steps != [] {
      var front := steps[..|steps| - 1];
      assert forall i :: 0 <= i < |front| ==> front[i] == steps[i];
      NoTextIsEmpty(front);
    }
  }

  lemma {:induction false} LastTextOfConcat(s: seq<Step>, t: seq<Step>)
    ensures LastText(s + t) == if HasText(t) then LastText(t) else LastText(s)
    ensures HasText(s + t) <==> HasText(s) || HasText(t)
    decreases |t|
  {
    if t == [] {
      assert s + t == s;
    } else {
      var front, last := t[..|t| - 1], t[|t| - 1];
      LastTextOfConcat(s, front);
      assert (s + t)[..|s + t| - 1] == s + front && (s + t)[|s + t| - 1] == last;
      HasTextOfLast(s + t);
      HasTextOfLast(t);
    }
  }

  lemma HasTextOfLast(s: seq<Step>)
    requires s != []
    ensures HasText(s) <==> HasText(s[..|s| - 1]) || s[|s| - 1].Text?
  {
    var front := s[..|s| - 1];
    assert forall i :: 0 <= i < |front| ==> front[i] == s[i];
    if i :| 0 <= i < |s| && s[i].Text? {
      assert i < |front| ==> front[i].Text?;
    }
  }

  /** What an action appends holds a text only when it is a text record, and then the same in any parser. */
  lemma AppendedText(p: Parser, a: Action)
    requires Plain(a)
    ensures HasText(Appended(p, a)) <==> a.Emit? && a.step.Text?
    ensures HasText(Appended(p, a)) ==> LastText(Appended(p, a)) == a.step.text
  {
    var added := Appended(p, a);
    match a
    case Skip =>
    case Emit(step) =>
      assert added[0] == step;
    case Answer(_) =>
    case Tool(_, _, use, results) =>
      forall i | 0 <= i < |added| ensures !added[i].Text? {
        assert added[i] == use || exists j :: 0 <= j < |results| && results[j] == added[i];
      }
  }

  /** Both parsers have said the same last text, whatever calls they have repeated. */
  lemma {:induction false} SameLastText(actions: seq<Action>, k: nat, n: nat)
    requires n <= |actions| && forall i :: 0 <= i < |actions| ==> Plain(actions[i]) && Spoken(actions[i])
    ensures var b, u := Emitted(actions, Some(k), n), Emitted(actions, None, n);
            LastText(b) == LastText(u) && (HasText(b) <==> HasText(u)) && (HasText(u) <==> LastText(u) != "")
  {
    hide Run, Appended, Plain, HasText, LastText;
    if n == 0 {
      NothingSaid();
    } else {
      var a, p, q := actions[n - 1], Run(actions, Some(k), n - 1), Run(actions, None, n - 1);
      SameLastText(actions, k, n - 1);
      LastTextOfConcat(Emitted(actions, Some(k), n - 1), Appended(p, a));
      LastTextOfConcat(Emitted(actions, None, n - 1), Appended(q, a));
      AppendedText(p, a);
      AppendedText(q, a);
      assert Plain(a) && Spoken(a);
    }
  }

  lemma NothingSaid()
    ensures LastText([]) == "" && !HasText([])
  {
  }

  /** After any record of any log, an answer of the bounded parser carries the text of the unbounded answer
      if and only if a text is still among the buffered steps, or nothing has been said at all. */
  lemma AnswerKeepsItsTextIff(actions: seq<Action>, k: nat, n: nat)
    requires n <= |actions| && forall i :: 0 <= i < |actions| ==> Plain(actions[i]) && Spoken(actions[i])
    ensures var b, u := Run(actions, Some(k), n).steps, Run(actions, None, n).steps;
            LastText(b) == LastText(u) <==> HasText(b) || !HasText(u)
  {
    hide Run, Emitted, Plain, HasText, LastText, Spoken;
    BufferIsNewest(actions, None, n);
    BufferIsNewest(actions, Some(k), n);
    SameLastText(actions, k, n);
    var all := Emitted(actions, Some(k), n);
    var front := all[..|all| - |LastOf(all, k)|];
    assert all == front + LastOf(all, k);
    LastTextOfConcat(front, LastOf(all, k));
    if !HasText(LastOf(all, k)) { NoTextIsEmpty(LastOf(all, k)); }
  }

  lemma CodexIsSpoken(record: CodexRecord)
    ensures Spoken(Codex(record))
  {
  }

  lemma OpenCodeIsSpoken(record: OpenCodeRecord)
    ensures Spoken(OpenCode(record))
  {
  }

  lemma CodexAnswerKeepsItsTextIff(records: seq<CodexRecord>, k: nat, n: nat)
    requires n <= |records|
    ensures var b, u := Run(CodexActions(records), Some(k), n).steps, Run(CodexActions(records), None, n).steps;
            LastText(b) == LastText(u) <==> HasText(b) || !HasText(u)
  {
    hide Run, Codex, Plain, Spoken, HasText, LastText, CodexActions;
    forall i | 0 <= i < |records| ensures Plain(CodexActions(records)[i]) && Spoken(CodexActions(records)[i]) {
      CodexIsPlain(records[i]);
      CodexIsSpoken(records[i]);
    }
    AnswerKeepsItsTextIff(CodexActions(records), k, n);
  }

  lemma OpenCodeAnswerKeepsItsTextIff(records: seq<OpenCodeRecord>, k: nat, n: nat)
    requires n <= |records|
    ensures var b, u := Run(OpenCodeActions(records), Some(k), n).steps, Run(OpenCodeActions(records), None, n).steps;
            LastText(b) == LastText(u) <==> HasText(b) || !HasText(u)
  {
    hide Run, OpenCode, Plain, Spoken, HasText, LastText, OpenCodeActions;
    forall i | 0 <= i < |records| ensures Plain(OpenCodeActions(records)[i]) && Spoken(OpenCodeActions(records)[i]) {
      OpenCodeIsPlain(records[i]);
      OpenCodeIsSpoken(records[i]);
    }
    AnswerKeepsItsTextIff(OpenCodeActions(records), k, n);
  }

  // ----- an answer that loses its text

  function Message(words: string): CodexRecord {
    ItemCompleted(Some(Item("agent_message", "", Words(words), "", [], "", "", "", false)))
  }

  /** One message, then as many error events as the buffer has room for, then the end of the turn. */
  function LongTurn(words: string, k: nat): seq<CodexRecord> {
    [Message(words)] + seq(k, i => ErrorEvent("failed")) + [TurnCompleted("")]
  }

  lemma LongTurnActions(words: string, k: nat)
    requires !Blank(words)
    ensures var actions := CodexActions(LongTurn(words, k));
            && |actions| == k + 2 && actions[0] == Emit(Text(words)) && actions[k + 1] == Answer("")
            && forall i :: 1 <= i <= k ==> actions[i] == Emit(ToolResult("", "failed", true))
  {
    var records := LongTurn(words, k);
    assert records[0] == Message(words) && records[k + 1] == TurnCompleted("");
    forall i | 1 <= i <= k ensures records[i] == ErrorEvent("failed") {}
  }

  lemma {:induction false} LongTurnEmits(actions: seq<Action>, max: Option<nat>, words: string, n: nat)
    requires 1 <= n <= |actions| && actions[0] == Emit(Text(words))
    requires forall i :: 1 <= i < n ==> actions[i] == Emit(ToolResult("", "failed", true))
    ensures Emitted(actions, max, n) == [Text(words)] + seq(n - 1, i => ToolResult("", "failed", true))
  {
    hide Run;
    if n == 1 {
      assert Emitted(actions, max, 0) == [];
    } else {
      LongTurnEmits(actions, max, words, n - 1);
    }
  }

  /** For every `k` there is a log whose answer repeats its message in full, and nothing when bounded. */
  lemma AnswerLosesItsText(words: string, k: nat)
    requires !Blank(words) && k >= 1
    ensures var actions := CodexActions(LongTurn(words, k));
            var b, u := Run(actions, Some(k), k + 2).steps, Run(actions, None, k + 2).steps;
            b != [] && u != [] && b[|b| - 1] == Result("", false, "") && u[|u| - 1] == Result(words, false, "")
  {
    hide Run, CodexActions, LongTurn, Blank, LastText;
    var actions := CodexActions(LongTurn(words, k));
    LongTurnActions(words, k);
    AnswerIsLast(actions, Some(k), k + 1);
    AnswerIsLast(actions, None, k + 1);
    LongTurnTexts(actions, words, k);
  }

  lemma LongTurnTexts(actions: seq<Action>, words: string, k: nat)
    requires |actions| == k + 2 && actions[0] == Emit(Text(words)) && k >= 1
    requires forall i :: 1 <= i <= k ==> actions[i] == Emit(ToolResult("", "failed", true))
    ensures LastText(Run(actions, Some(k), k + 1).steps) == "" && LastText(Run(actions, None, k + 1).steps) == words
  {
    hide Run, Emitted, LastText;
    LongTurnEmits(actions, Some(k), words, k + 1);
    LongTurnEmits(actions, None, words, k + 1);
    BufferIsNewest(actions, Some(k), k + 1);
    BufferIsNewest(actions, None, k + 1);
    var failures := seq(k, i => ToolResult("", "failed", true));
    assert LastOf([Text(words)] + failures, k) == failures;
    NoTextIsEmpty(failures);
    LastTextOfConcat([Text(words)], failures);
    OneText(words);
  }

  lemma OneText(words: string)
    ensures LastText([Text(words)]) == words
  {
  }

  lemma AnswerIsLast(actions: seq<Action>, max: Option<nat>, n: nat)
    requires n < |actions| && actions[n].Answer? && (max.Some? ==> max.value >= 1)
    ensures var steps := Run(actions, max, n + 1).steps;
            && steps != []
            && steps[|steps| - 1] == Result(LastText(Run(actions, max, n).steps), false, actions[n].usage)
  {
    hide Run, LastText;
    NextSteps(actions, max, n);
  }

  // ----- an OpenCode log whose repeats agree

  function Pending(id: string): OpenCodeRecord {
    ToolPart(id, "tool", "", "pending", "")
  }

  function Call(id: string): Step {
    ToolUse(id, "tool", "")
  }

  /** Every tool reported as pending once, and then every tool once more. */
  function ReportedTwice(ids: seq<string>): seq<OpenCodeRecord> {
    seq(2 * |ids|, i requires 0 <= i < 2 * |ids| => Pending(Again(ids, i)))
  }

  function Again(ids: seq<string>, i: nat): string
    requires i < 2 * |ids|
  {
    if i < |ids| then ids[i] else ids[i - |ids|]
  }

  function Round(ids: seq<string>, n: nat): seq<string>
    requires n <= 2 * |ids|
  {
    seq(n, i requires 0 <= i < n => Again(ids, i))
  }

  lemma TwiceActions(ids: seq<string>)
    ensures var actions := OpenCodeActions(ReportedTwice(ids));
            |actions| == 2 * |ids|
            && forall i :: 0 <= i < 2 * |ids| ==> actions[i] == Tool(Again(ids, i), false, Call(Again(ids, i)), [])
  {
    var records := ReportedTwice(ids);
    forall i | 0 <= i < 2 * |ids| ensures OpenCode(records[i]) == Tool(Again(ids, i), false, Call(Again(ids, i)), []) {
      assert !Finished("pending");
    }
  }

  /** A report of a tool comes after the reports of all others, so its id has just been evicted. */
  lemma JustEvicted(ids: seq<string>, n: nat, cap: nat)
    requires Distinct(ids) && |ids| == cap + 1 && n < 2 * |ids| && cap > 0
    ensures Again(ids, n) !in LastOf(Round(ids, n), cap)
    ensures n >= |ids| ==> Again(ids, n) in Round(ids, n)
    ensures n < |ids| ==> Again(ids, n) !in Round(ids, n)
  {
    var past := Round(ids, n);
    assert forall i :: 0 <= i < n ==> past[i] == Again(ids, i);
    if n >= |ids| {
      assert past[n - |ids|] == Again(ids, n);
      forall i | n - cap <= i < n ensures Again(ids, i) != Again(ids, n) {}
    }
  }

  lemma {:induction false} AlwaysNew(ids: seq<string>, actions: seq<Action>, k: nat, n: nat)
    requires Distinct(ids) && |ids| == Cap(k) + 1 && n <= 2 * |ids| == |actions|
    requires forall i :: 0 <= i < |actions| ==> actions[i] == Tool(Again(ids, i), false, Call(Again(ids, i)), [])
    ensures Remembered(actions, Some(k), n) == Round(ids, n)
  {
    hide Run, Cap, LastOf, Distinct, Call;
    if n > 0 {
      AlwaysNew(ids, actions, k, n - 1);
      SeenIsNewest(actions, k, n - 1);
      CapIsPositive(k);
      JustEvicted(ids, n - 1, Cap(k));
      assert Round(ids, n) == Round(ids, n - 1) + [Again(ids, n - 1)];
    }
  }

  /** In the second round the bounded parser repeats each call, and the unbounded one appends nothing. */
  lemma SecondRound(ids: seq<string>, actions: seq<Action>, k: nat, n: nat)
    requires Distinct(ids) && |ids| == Cap(k) + 1 && n < 2 * |ids| == |actions|
    requires forall i :: 0 <= i < |actions| ==> actions[i] == Tool(Again(ids, i), false, Call(Again(ids, i)), [])
    ensures Appended(Run(actions, None, n), actions[n]) == if n < |ids| then [Call(ids[n])] else []
    ensures n >= |ids| ==> Forgotten(actions, k, n)
    ensures n >= |ids| ==> Appended(Run(actions, Some(k), n), actions[n]) == [Call(ids[n - |ids|])]
  {
    hide Run, Cap, LastOf, Distinct, Call, Round, Remembered;
    CapIsPositive(k);
    EveryToolIsRemembered(actions, k, n);
    AlwaysNew(ids, actions, k, n);
    JustEvicted(ids, n, Cap(k));
    if n >= |ids| { ForgottenAppends(actions, k, n); }
  }

  lemma NextEmitted(actions: seq<Action>, max: Option<nat>, n: nat)
    requires n < |actions|
    ensures Emitted(actions, max, n + 1) == Emitted(actions, max, n) + Appended(Run(actions, max, n), actions[n])
  {
    hide Run, Appended;
  }

  lemma {:induction false} CallsStay(ids: seq<string>, actions: seq<Action>, k: nat, n: nat)
    requires Distinct(ids) && |ids| == Cap(k) + 1 && |ids| <= n <= 2 * |ids| == |actions|
    requires forall i :: 0 <= i < |actions| ==> actions[i] == Tool(Again(ids, i), false, Call(Again(ids, i)), [])
    ensures var u := Emitted(actions, None, n); u != [] && u[|u| - 1] == Call(ids[|ids| - 1])
  {
    hide Run, Cap, Distinct, Call, Appended, Forgotten, Emitted;
    SecondRound(ids, actions, k, n - 1);
    NextEmitted(actions, None, n - 1);
    if n > |ids| {
      CallsStay(ids, actions, k, n - 1);
    }
  }

  lemma NewestIsTail(actions: seq<Action>, n: nat)
    requires n <= |actions|
    requires var b, u := Emitted(actions, Some(1), n), Emitted(actions, None, n);
             b != [] && u != [] && b[|b| - 1] == u[|u| - 1]
    ensures IsTail(actions, 1, n)
  {
    hide Run, Emitted, Shape;
    BufferIsNewest(actions, Some(1), n);
    BufferIsNewest(actions, None, n);
  }

  lemma SecondRoundAgrees(ids: seq<string>, actions: seq<Action>)
    requires Distinct(ids) && |ids| == Cap(1) + 1 && |actions| == 2 * |ids|
    requires forall i :: 0 <= i < |actions| ==> actions[i] == Tool(Again(ids, i), false, Call(Again(ids, i)), [])
    ensures IsTail(actions, 1, |actions|) && !RepeatsHaveLeft(actions, 1, |actions|)
  {
    hide Run, Distinct, Cap, Call, Appended, Forgotten, IsTail, Emitted;
    var n := |actions|;
    SecondRound(ids, actions, 1, n - 1);
    NextEmitted(actions, Some(1), n - 1);
    CallsStay(ids, actions, 1, n);
    NewestIsTail(actions, n);
    assert |Emitted(actions, Some(1), n)| - |Emitted(actions, Some(1), n - 1)| == 1;
  }

  /** "Only if" fails for OpenCode when progress is reported again: such a report adds nothing to the
      unbounded output, so a repeated call step can stand for the original one. */
  lemma RepeatsCanAgree(ids: seq<string>)
    requires Distinct(ids) && |ids| == Cap(1) + 1
    ensures var actions := OpenCodeActions(ReportedTwice(ids));
            IsTail(actions, 1, |actions|) && !RepeatsHaveLeft(actions, 1, |actions|)
  {
    hide OpenCodeActions, ReportedTwice, Distinct, Cap, Call, IsTail, RepeatsHaveLeft;
    TwiceActions(ids);
    SecondRoundAgrees(ids, OpenCodeActions(ReportedTwice(ids)));
  }
}
