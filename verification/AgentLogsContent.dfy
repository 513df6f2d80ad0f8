/** What the unbounded parsers show of a log, read off the records directly: every message, thought, tool
    call, tool result, session and answer, in order and with its content. */
module AgentLogsContent {
  import opened Common
  import opened AgentLogs
  import opened AgentLogsTexts

  // ----- one kind of step

  datatype Kind = Sessions | Thoughts | Texts | Calls | ToolResults | Answers

  predicate IsOf(kind: Kind, step: Step) {
    match kind
    case Sessions => step.Session?
    case Thoughts => step.Thinking?
    case Texts => step.Text?
    case Calls => step.ToolUse?
    case ToolResults => step.ToolResult?
    case Answers => step.Result?
  }

  function Only(kind: Kind, steps: seq<Step>): seq<Step> {
    if steps == [] then []
    else Only(kind, steps[..|steps| - 1]) + if IsOf(kind, steps[|steps| - 1]) then [steps[|steps| - 1]] else []
  }

  lemma {:induction false} OnlyOfConcat(kind: Kind, s: seq<Step>, t: seq<Step>)
    ensures Only(kind, s + t) == Only(kind, s) + Only(kind, t)
    decreases |t|
  {
    hide IsOf;
    if t == [] {
      assert s + t == s;
    } else {
      OnlyOfConcat(kind, s, t[..|t| - 1]);
      assert (s + t)[..|s + t| - 1] == s + t[..|t| - 1] && (s + t)[|s + t| - 1] == t[|t| - 1];
    }
  }

  lemma OnlyOne(kind: Kind, step: Step)
    ensures Only(kind, [step]) == if IsOf(kind, step) then [step] else []
  {
    assert [step][..0] == [];
  }

  // ----- Codex logs

  predicate IsToolItem(item: Item) {
    || item.itemType == "command_execution" || item.itemType == "file_change" || item.itemType == "mcp_tool_call"
    || item.itemType == "dynamic_tool_call" || item.itemType == "collab_tool_call" || item.itemType == "web_search"
    || item.itemType == "todo_list"
  }

  /** The record starts or completes a tool with this id. */
  predicate NamesTool(record: CodexRecord, id: string) {
    && (record.ItemStarted? || record.ItemCompleted?) && record.item.Some?
    && IsToolItem(record.item.value) && record.item.value.id == id
  }

  predicate NamedBefore(records: seq<CodexRecord>, id: string, n: nat)
    requires n <= |records|
  {
    exists j :: 0 <= j < n && NamesTool(records[j], id)
  }

  function CallOf(item: Item): Step {
    ToolUse(item.id,
            if item.itemType == "command_execution" then "shell"
            else if item.itemType == "file_change" then "apply_patch"
            else if item.itemType == "mcp_tool_call" then (if item.mcpName == "" then "mcp" else item.mcpName)
            else item.itemType,
            item.input)
  }

  /** A started tool is always shown; a completed one when nothing named it before. */
  function CallsAt(records: seq<CodexRecord>, n: nat): seq<Step>
    requires n < |records|
  {
    match records[n]
    case ItemStarted(Some(item)) => if IsToolItem(item) then [CallOf(item)] else []
    case ItemCompleted(Some(item)) =>
      if IsToolItem(item) && !NamedBefore(records, item.id, n) then [CallOf(item)] else []
    case _ => []
  }

  /** A completed tool gives its output, and an error its message. */
  function ResultsAt(record: CodexRecord): seq<Step> {
    match record
    case ItemCompleted(Some(item)) =>
      if IsToolItem(item) then [ToolResult(item.id, item.output, item.failed)]
      else if item.itemType == "error" then [ToolResult(item.id, item.message, true)]
      else []
    case ErrorEvent(message) => if message != "" then [ToolResult("", message, true)] else []
    case _ => []
  }

  predicate HasInk(s: string) {
    exists i :: 0 <= i < |s| && !IsSpace(s[i])
  }

  /** A completed agent message that is a string with something else than whitespace. */
  predicate IsMessage(record: CodexRecord) {
    && record.ItemCompleted? && record.item.Some? && record.item.value.itemType == "agent_message"
    && record.item.value.text.Words?
    && HasInk(record.item.value.text.words)
  }

  function Said(record: CodexRecord): string
    requires IsMessage(record)
  {
    record.item.value.text.words
  }

  function TextsAt(record: CodexRecord): seq<Step> {
    if IsMessage(record) then [Text(Said(record))] else []
  }

  /** The text of a thought, or the lines of its summary when it has none. */
  function Thought(item: Item): string
    requires item.text.Words?
  {
    if item.text.words != "" then item.text.words else JoinLines(item.summary)
  }

  function ThoughtsAt(record: CodexRecord): seq<Step> {
    match record
    case ItemCompleted(Some(item)) =>
      if item.itemType == "reasoning" && item.text.Words? && HasInk(Thought(item)) then [Thinking(Thought(item))]
      else []
    case _ => []
  }

  function SessionsAt(record: CodexRecord): seq<Step> {
    if record.ThreadStarted? then [Session(record.threadId)] else []
  }

  /** The newest message before record `n`, or "". */
  function LastSaid(records: seq<CodexRecord>, n: nat): string
    requires n <= |records|
  {
    if n == 0 then "" else if IsMessage(records[n - 1]) then Said(records[n - 1]) else LastSaid(records, n - 1)
  }

  function AnswersAt(records: seq<CodexRecord>, n: nat): seq<Step>
    requires n < |records|
  {
    match records[n]
    case TurnFailed(message) => [Result(if message == "" then "codex turn failed" else message, true, "")]
    case TurnCompleted(usage) => [Result(LastSaid(records, n), false, usage)]
    case _ => []
  }

  /** All that record `n` shows: a call comes before its result. */
  function ShownAt(records: seq<CodexRecord>, n: nat): seq<Step>
    requires n < |records|
  {
    CallsAt(records, n) + ResultsAt(records[n]) + TextsAt(records[n]) + ThoughtsAt(records[n]) + SessionsAt(records[n])
    + AnswersAt(records, n)
  }

  function ShownBy(records: seq<CodexRecord>, n: nat): seq<Step>
    requires n <= |records|
  {
    if n == 0 then [] else ShownBy(records, n - 1) + ShownAt(records, n - 1)
  }

  lemma {:induction false} SeenIsNamed(records: seq<CodexRecord>, n: nat, id: string)
    requires n <= |records|
    ensures id in Run(CodexActions(records), None, n).seen <==> NamedBefore(records, id, n)
  {
    hide Codex, Ring, Appended, NamesTool;
    if n > 0 {
      SeenIsNamed(records, n - 1, id);
      ToolIsNamed(records[n - 1], id);
    }
  }

  lemma ToolIsNamed(record: CodexRecord, id: string)
    ensures NamesTool(record, id) <==> Codex(record).Tool? && Codex(record).id == id
  {
  }

  lemma BlankIff(s: string)
    ensures Blank(s) <==> !HasInk(s)
  {
    hide IsSpace;
  }

  lemma {:induction false} LastTextIsLastSaid(records: seq<CodexRecord>, n: nat)
    requires n <= |records|
    ensures LastText(ShownBy(records, n)) == LastSaid(records, n)
  {
    hide ShownAt, IsMessage;
    if n > 0 {
      LastTextIsLastSaid(records, n - 1);
      LastTextOfConcat(ShownBy(records, n - 1), ShownAt(records, n - 1));
      TextShownAt(records, n - 1);
    }
  }

  lemma TextShownAt(records: seq<CodexRecord>, n: nat)
    requires n < |records|
    ensures HasText(ShownAt(records, n)) <==> IsMessage(records[n])
    ensures IsMessage(records[n]) ==> LastText(ShownAt(records, n)) == Said(records[n])
  {
    hide IsMessage, LastText, CallsAt, ResultsAt, ThoughtsAt, SessionsAt, AnswersAt, HasText;
    var calls, results, texts := CallsAt(records, n), ResultsAt(records[n]), TextsAt(records[n]);
    var thoughts, sessions, answers := ThoughtsAt(records[n]), SessionsAt(records[n]), AnswersAt(records, n);
    PartsAreOfKind(records, n);
    LastTextOfConcat(calls, results);
    LastTextOfConcat(calls + results, texts);
    LastTextOfConcat(calls + results + texts, thoughts);
    LastTextOfConcat(calls + results + texts + thoughts, sessions);
    LastTextOfConcat(calls + results + texts + thoughts + sessions, answers);
    NoTextIn(Calls, calls);
    NoTextIn(ToolResults, results);
    NoTextIn(Thoughts, thoughts);
    NoTextIn(Sessions, sessions);
    NoTextIn(Answers, answers);
    NoTextIn(Texts, []);
    if IsMessage(records[n]) { TextIn(Said(records[n])); }
  }

  lemma NoTextIn(own: Kind, part: seq<Step>)
    requires OneOf(own, part) && (own != Texts || part == [])
    ensures !HasText(part)
  {
  }

  lemma TextIn(words: string)
    ensures HasText([Text(words)]) && LastText([Text(words)]) == words
  {
    OneText(words);
    assert [Text(words)][0].Text?;
  }

  lemma ToolTypes(item: Item)
    ensures IsToolItem(item) <==> item.itemType in CODEX_TOOL_ITEMS
    ensures IsToolItem(item) ==>
              item.itemType != "agent_message" && item.itemType != "reasoning" && item.itemType != "error"
    ensures "agent_message" != "reasoning" && "agent_message" != "error" && "reasoning" != "error"
  {
  }

  lemma ToolUseIsCall(item: Item)
    ensures CodexToolUse(item) == CallOf(item)
  {
  }

  /** What an item record asks of the parser, by its type. */
  lemma ItemAppends(p: Parser, item: Item, completed: bool)
    ensures IsToolItem(item) ==>
              Appended(p, CodexItem(item, completed))
              == (if !completed || item.id !in p.seen then [CallOf(item)] else [])
                 + (if completed then [ToolResult(item.id, item.output, item.failed)] else [])
    ensures item.itemType == "agent_message" ==>
              Appended(p, CodexItem(item, completed))
              == if completed && Shown(item.text) then [Text(item.text.words)] else []
    ensures item.itemType == "reasoning" ==>
              Appended(p, CodexItem(item, completed))
              == if completed && Shown(ReasoningText(item)) then [Thinking(ReasoningText(item).words)] else []
    ensures item.itemType == "error" ==>
              Appended(p, CodexItem(item, completed))
              == if completed then [ToolResult(item.id, item.message, true)] else []
    ensures !IsToolItem(item) && item.itemType != "agent_message" && item.itemType != "reasoning"
            && item.itemType != "error" ==>
              Appended(p, CodexItem(item, completed)) == []
  {
    hide IsToolItem, CodexToolUse, CallOf, Shown, ReasoningText;
    ToolTypes(item);
    ToolUseIsCall(item);
  }

  lemma TextsAtItem(item: Item)
    ensures TextsAt(ItemCompleted(Some(item)))
            == if item.itemType == "agent_message" && Shown(item.text) then [Text(item.text.words)] else []
  {
    hide Blank, HasInk;
    if item.text.Words? { BlankIff(item.text.words); }
  }

  lemma ThoughtsAtItem(item: Item)
    ensures ThoughtsAt(ItemCompleted(Some(item)))
            == if item.itemType == "reasoning" && Shown(ReasoningText(item)) then [Thinking(ReasoningText(item).words)]
               else []
  {
    hide Blank, HasInk, JoinLines;
    if item.text.Words? { BlankIff(Thought(item)); }
  }

  lemma CompletedShown(records: seq<CodexRecord>, n: nat, item: Item, p: Parser)
    requires n < |records| && records[n] == ItemCompleted(Some(item))
    requires item.id in p.seen <==> NamedBefore(records, item.id, n)
    ensures Appended(p, Codex(records[n])) == ShownAt(records, n)
  {
    hide NamedBefore, IsToolItem, CallOf, Shown, ReasoningText, TextsAt, ThoughtsAt, CodexItem, Appended;
    ItemAppends(p, item, true);
    TextsAtItem(item);
    ThoughtsAtItem(item);
    ToolTypes(item);
  }

  lemma StartedShown(records: seq<CodexRecord>, n: nat, item: Item, p: Parser)
    requires n < |records| && records[n] == ItemStarted(Some(item))
    ensures Appended(p, Codex(records[n])) == ShownAt(records, n)
  {
    hide NamedBefore, IsToolItem, CallOf, Shown, ReasoningText, CodexItem, Appended;
    ItemAppends(p, item, false);
    ToolTypes(item);
  }

  lemma AppendedIsShown(records: seq<CodexRecord>, n: nat, p: Parser)
    requires n < |records|
    requires forall id :: NamedBefore(records, id, n) <==> id in p.seen
    requires LastText(p.steps) == LastSaid(records, n)
    ensures Appended(p, Codex(records[n])) == ShownAt(records, n)
  {
    hide NamedBefore, LastSaid, LastText, CodexItem;
    match records[n]
    case ItemStarted(Some(item)) => StartedShown(records, n, item, p);
    case ItemCompleted(Some(item)) => CompletedShown(records, n, item, p);
    case _ =>
  }

  /** The unbounded parser shows exactly this, after every record of every Codex log. */
  lemma {:induction false} CodexShows(records: seq<CodexRecord>, n: nat)
    requires n <= |records|
    ensures Run(CodexActions(records), None, n).steps == ShownBy(records, n)
  {
    hide Codex, Appended, ShownAt, LastText, LastSaid, NamedBefore;
    if n > 0 {
      CodexShows(records, n - 1);
      var p := Run(CodexActions(records), None, n - 1);
      forall id ensures NamedBefore(records, id, n - 1) <==> id in p.seen { SeenIsNamed(records, n - 1, id); }
      LastTextIsLastSaid(records, n - 1);
      AppendedIsShown(records, n - 1, Run(CodexActions(records), None, n - 1));
    }
  }

  /** The steps of one kind, record by record. */
  function KindAt(kind: Kind, records: seq<CodexRecord>, n: nat): seq<Step>
    requires n < |records|
  {
    match kind
    case Sessions => SessionsAt(records[n])
    case Thoughts => ThoughtsAt(records[n])
    case Texts => TextsAt(records[n])
    case Calls => CallsAt(records, n)
    case ToolResults => ResultsAt(records[n])
    case Answers => AnswersAt(records, n)
  }

  function KindBy(kind: Kind, records: seq<CodexRecord>, n: nat): seq<Step>
    requires n <= |records|
  {
    if n == 0 then [] else KindBy(kind, records, n - 1) + KindAt(kind, records, n - 1)
  }

  lemma OnlyOfShown(kind: Kind, records: seq<CodexRecord>, n: nat)
    requires n < |records|
    ensures Only(kind, ShownAt(records, n)) == KindAt(kind, records, n)
  {
    hide NamedBefore, LastSaid, IsMessage, IsSpace, CallOf, JoinLines, Only, IsToolItem;
    var calls, results, texts := CallsAt(records, n), ResultsAt(records[n]), TextsAt(records[n]);
    var thoughts, sessions, answers := ThoughtsAt(records[n]), SessionsAt(records[n]), AnswersAt(records, n);
    OnlyOfConcat(kind, calls + results + texts + thoughts + sessions, answers);
    OnlyOfConcat(kind, calls + results + texts + thoughts, sessions);
    OnlyOfConcat(kind, calls + results + texts, thoughts);
    OnlyOfConcat(kind, calls + results, texts);
    OnlyOfConcat(kind, calls, results);
    PartsAreOfKind(records, n);
    AtMostOne(kind, calls, Calls);
    AtMostOne(kind, results, ToolResults);
    AtMostOne(kind, texts, Texts);
    AtMostOne(kind, thoughts, Thoughts);
    AtMostOne(kind, sessions, Sessions);
    AtMostOne(kind, answers, Answers);
  }

  /** At most one step, of the given kind. */
  predicate OneOf(own: Kind, part: seq<Step>) {
    |part| <= 1 && (part != [] ==> IsOf(own, part[0]))
  }

  lemma AtMostOne(kind: Kind, part: seq<Step>, own: Kind)
    requires OneOf(own, part)
    ensures Only(kind, part) == if kind == own then part else []
  {
    if part != [] {
      OnlyOne(kind, part[0]);
      assert part == [part[0]];
    }
  }

  lemma PartsAreOfKind(records: seq<CodexRecord>, n: nat)
    requires n < |records|
    ensures OneOf(Calls, CallsAt(records, n)) && OneOf(ToolResults, ResultsAt(records[n]))
    ensures OneOf(Texts, TextsAt(records[n])) && OneOf(Thoughts, ThoughtsAt(records[n]))
    ensures OneOf(Sessions, SessionsAt(records[n])) && OneOf(Answers, AnswersAt(records, n))
  {
    hide NamedBefore, LastSaid, IsMessage, IsSpace, JoinLines, IsToolItem;
  }

  /** The steps of each kind are, in order, one for each record that shows one: the tool results carry id,
      output and failure of the completed tools and the messages of the errors, the texts are the agent
      messages, and the calls carry id, name and input. */
  lemma {:induction false} CodexShowsKind(kind: Kind, records: seq<CodexRecord>, n: nat)
    requires n <= |records|
    ensures Only(kind, Run(CodexActions(records), None, n).steps) == KindBy(kind, records, n)
  {
    hide Run, ShownAt, KindAt, Only;
    CodexShows(records, n);
    if n == 0 {
      assert Only(kind, []) == [] by { OnlyNothing(kind); }
    } else {
      CodexShowsKind(kind, records, n - 1);
      CodexShows(records, n - 1);
      OnlyOfConcat(kind, ShownBy(records, n - 1), ShownAt(records, n - 1));
      OnlyOfShown(kind, records, n - 1);
    }
  }

  lemma OnlyNothing(kind: Kind)
    ensures Only(kind, []) == []
  {
  }

  /** What the dashboard gets without a bound. */
  method ReadCodex(records: seq<CodexRecord>) returns (steps: seq<Step>)
    ensures steps == ShownBy(records, |records|)
    ensures forall kind :: Only(kind, steps) == KindBy(kind, records, |records|)
  {
    hide Run, ShownBy, KindBy, Only;
    steps := CodexTrajectory(records, None);
    CodexShows(records, |records|);
    forall kind ensures Only(kind, steps) == KindBy(kind, records, |records|) {
      CodexShowsKind(kind, records, |records|);
    }
  }
}
