/** The dashboard's trajectory parsers (src/lh_harness/agent_logs.py): one loop per log format, each
    over a ring buffer of steps and, when bounded, a seen-set evicted first in, first out. */
module AgentLogs {
  import opened Common

  datatype Step =
    | Session(threadId: string)
    | Thinking(text: string)
    | Text(text: string)
    | ToolUse(id: string, name: string, input: string)
    | ToolResult(toolUseId: string, text: string, isError: bool)
    | Result(text: string, isError: bool, usage: string)

  // ----- decoded log records; a missing or ill-typed string field reads as "" unless said otherwise

  /** A `text` field: missing and empty values read as no words; any other non-string is kept apart, since
      it stops the fallback to the summary. */
  datatype TextField = Words(words: string) | IllTyped

  datatype Item = Item(itemType: string, id: string, text: TextField, message: string, summary: seq<string>,
                       mcpName: string, input: string, output: string, failed: bool)

  datatype CodexRecord =
    | ThreadStarted(threadId: string)
    | ErrorEvent(message: string)
    | TurnFailed(message: string)
    | TurnCompleted(usage: string)
    | ItemStarted(item: Option<Item>)
    | ItemCompleted(item: Option<Item>)
    | OtherCodex

  datatype OpenCodeRecord =
    | TextPart(text: string)
    | ToolPart(id: string, tool: string, input: string, status: string, output: string)
    | StepFinish(reason: string, usage: string)
    | OtherOpenCode

  const CODEX_TOOL_ITEMS := {"command_execution", "file_change", "mcp_tool_call", "dynamic_tool_call",
                             "collab_tool_call", "web_search", "todo_list"}

  function JoinLines(parts: seq<string>): string {
    if parts == [] then "" else if |parts| == 1 then parts[0] else parts[0] + "\n" + JoinLines(parts[1..])
  }

  function ReasoningText(item: Item): TextField {
    if item.text == Words("") then Words(JoinLines(item.summary)) else item.text
  }

  /** Text that is shown: a string that is not blank. */
  predicate Shown(text: TextField) {
    text.Words? && !Blank(text.words)
  }

  function CodexToolUse(item: Item): Step {
    var name :=
      if item.itemType == "command_execution" then "shell"
      else if item.itemType == "file_change" then "apply_patch"
      else if item.itemType == "mcp_tool_call" then if item.mcpName == "" then "mcp" else item.mcpName
      else item.itemType;
    ToolUse(item.id, name, item.input)
  }

  function Or(text: string, fallback: string): string {
    if text == "" then fallback else text
  }

  // ----- what one record asks of the parser

  /** `Answer` emits a result that repeats the newest text still buffered. `Tool` emits its call step
      when `always` holds or the id is not remembered, and then its results. */
  datatype Action =
    | Skip
    | Emit(step: Step)
    | Answer(usage: string)
    | Tool(id: string, always: bool, use: Step, results: seq<Step>)

  function CodexItem(item: Item, completed: bool): Action {
    if item.itemType == "agent_message" then
      if completed && Shown(item.text) then Emit(Text(item.text.words)) else Skip
    else if item.itemType == "reasoning" then
      if completed && Shown(ReasoningText(item)) then Emit(Thinking(ReasoningText(item).words)) else Skip
    else if item.itemType == "error" then
      if completed then Emit(ToolResult(item.id, item.message, true)) else Skip
    else if item.itemType !in CODEX_TOOL_ITEMS then Skip
    else Tool(item.id, !completed, CodexToolUse(item),
              if completed then [ToolResult(item.id, item.output, item.failed)] else [])
  }

  function Codex(record: CodexRecord): Action {
    match record
    case ThreadStarted(threadId) => Emit(Session(threadId))
    case ErrorEvent(message) => if message == "" then Skip else Emit(ToolResult("", message, true))
    case TurnFailed(message) => Emit(Result(Or(message, "codex turn failed"), true, ""))
    case TurnCompleted(usage) => Answer(usage)
    case ItemStarted(item) => if item.None? then Skip else CodexItem(item.value, false)
    case ItemCompleted(item) => if item.None? then Skip else CodexItem(item.value, true)
    case OtherCodex => Skip
  }

  predicate Finished(status: string) {
    status == "completed" || status == "failed" || status == "error"
  }

  function OpenCode(record: OpenCodeRecord): Action {
    match record
    case TextPart(text) => if Blank(text) then Skip else Emit(Text(text))
    case ToolPart(id, tool, input, status, output) =>
      Tool(id, false, ToolUse(id, Or(tool, "tool"), input),
           if Finished(status) then [ToolResult(id, output, status != "completed")] else [])
    case StepFinish(reason, usage) => if reason == "stop" then Answer(usage) else Skip
    case OtherOpenCode => Skip
  }

  function CodexActions(records: seq<CodexRecord>): (actions: seq<Action>)
    ensures |actions| == |records| && forall i :: 0 <= i < |records| ==> actions[i] == Codex(records[i])
  {
    if records == [] then []
    else CodexActions(records[..|records| - 1]) + [Codex(records[|records| - 1])]
  }

  function OpenCodeActions(records: seq<OpenCodeRecord>): (actions: seq<Action>)
    ensures |actions| == |records| && forall i :: 0 <= i < |records| ==> actions[i] == OpenCode(records[i])
  {
    if records == [] then []
    else OpenCodeActions(records[..|records| - 1]) + [OpenCode(records[|records| - 1])]
  }

  // ----- the parser state, as a function of the records read

  datatype Parser = Parser(steps: seq<Step>, seen: set<string>, order: seq<string>)

  /** A deque with `maxlen`; None is unbounded. */
  function Ring(steps: seq<Step>, max: Option<nat>): seq<Step> {
    if max.None? then steps else LastOf(steps, max.value)
  }

  function Cap(k: nat): nat {
    if 4 * k > 32 then 4 * k else 32
  }

  function LastText(steps: seq<Step>): string {
    if steps == [] then ""
    else if steps[|steps| - 1].Text? then steps[|steps| - 1].text
    else LastText(steps[..|steps| - 1])
  }

  /** The steps one action appends. */
  function Appended(p: Parser, a: Action): seq<Step> {
    match a
    case Skip => []
    case Emit(step) => [step]
    case Answer(usage) => [Result(LastText(p.steps), false, usage)]
    case Tool(id, always, use, results) => (if always || id !in p.seen then [use] else []) + results
  }

  function Evict(seen: set<string>, order: seq<string>, cap: nat): (set<string>, seq<string>) {
    if |order| <= cap then (seen, order) else Evict(seen - {order[0]}, order[1..], cap)
  }

  function Apply(p: Parser, a: Action, max: Option<nat>): Parser {
    var steps := Ring(p.steps + Appended(p, a), max);
    if !a.Tool? || a.id in p.seen then p.(steps := steps)
    else if max.None? then Parser(steps, p.seen + {a.id}, p.order)
    else
      var (seen, order) := Evict(p.seen + {a.id}, p.order + [a.id], Cap(max.value));
      Parser(steps, seen, order)
  }

  function Run(actions: seq<Action>, max: Option<nat>, n: nat): Parser
    requires n <= |actions|
  {
    if n == 0 then Parser([], {}, []) else Apply(Run(actions, max, n - 1), actions[n - 1], max)
  }

  // ----- the loops

  method LastBufferedText(steps: seq<Step>) returns (text: string)
    ensures text == LastText(steps)
  {
    var i := |steps|;
    assert steps[..i] == steps;
    while i > 0
      invariant 0 <= i <= |steps|
      invariant LastText(steps) == LastText(steps[..i])
    {
      assert steps[..i][..i - 1] == steps[..i - 1];
      i := i - 1;
      if steps[i].Text? { return steps[i].text; }
    }
    return "";
  }

  method Remember(seen: set<string>, order: seq<string>, id: string, max: Option<nat>)
    returns (seen': set<string>, order': seq<string>)
    ensures if max.None? then seen' == seen + {id} && order' == order
            else (seen', order') == Evict(seen + {id}, order + [id], Cap(max.value))
  {
    seen', order' := seen + {id}, order;
    if max.Some? {
      order' := order' + [id];
      while |order'| > Cap(max.value)
        invariant Evict(seen', order', Cap(max.value)) == Evict(seen + {id}, order + [id], Cap(max.value))
      {
        seen', order' := seen' - {order'[0]}, order'[1..];
      }
    }
  }

  method ToolSteps(p: Parser, id: string, always: bool, use: Step, results: seq<Step>, max: Option<nat>)
    returns (p': Parser)
    requires p.steps == Ring(p.steps, max)
    ensures p' == Apply(p, Tool(id, always, use, results), max)
  {
    var steps, seen, order := p.steps, p.seen, p.order;
    if always || id !in seen {
      if id !in seen {
        seen, order := Remember(seen, order, id, max);
      }
      steps := Ring(steps + [use], max);
    }
    RingTwice(p.steps, [use], results, max);
    steps := Ring(steps + results, max);
    assert [] + results == results;
    p' := Parser(steps, seen, order);
  }

  method CodexRecordSteps(p: Parser, record: CodexRecord, max: Option<nat>) returns (p': Parser)
    requires p.steps == Ring(p.steps, max)
    ensures p' == Apply(p, Codex(record), max)
  {
    hide Evict, Cap, LastOf, Blank, ReasoningText, CodexToolUse, LastText, Ring;
    p' := p;
    assert p.steps + [] == p.steps;
    match record
    case ThreadStarted(threadId) =>
      p' := p.(steps := Ring(p.steps + [Session(threadId)], max));
    case ErrorEvent(message) =>
      if message != "" { p' := p.(steps := Ring(p.steps + [ToolResult("", message, true)], max)); }
    case TurnFailed(message) =>
      p' := p.(steps := Ring(p.steps + [Result(Or(message, "codex turn failed"), true, "")], max));
    case TurnCompleted(usage) =>
      var text := LastBufferedText(p.steps);
      p' := p.(steps := Ring(p.steps + [Result(text, false, usage)], max));
    case OtherCodex =>
    case ItemStarted(item) =>
      if item.Some? && item.value.itemType in CODEX_TOOL_ITEMS {
        p' := ToolSteps(p, item.value.id, true, CodexToolUse(item.value), [], max);
      }
    case ItemCompleted(item) =>
      if item.Some? {
        var item := item.value;
        if item.itemType == "agent_message" {
          if item.text.Words? && !Blank(item.text.words) {
            p' := p.(steps := Ring(p.steps + [Text(item.text.words)], max));
          }
        } else if item.itemType == "reasoning" {
          var text := ReasoningText(item);
          if text.Words? && !Blank(text.words) {
            p' := p.(steps := Ring(p.steps + [Thinking(text.words)], max));
          }
        } else if item.itemType == "error" {
          p' := p.(steps := Ring(p.steps + [ToolResult(item.id, item.message, true)], max));
        } else if item.itemType in CODEX_TOOL_ITEMS {
          p' := ToolSteps(p, item.id, false, CodexToolUse(item),
                          [ToolResult(item.id, item.output, item.failed)], max);
        }
      }
  }

  method CodexTrajectory(records: seq<CodexRecord>, max: Option<nat>) returns (steps: seq<Step>)
    ensures steps == Run(CodexActions(records), max, |records|).steps
  {
    hide Codex, Apply;
    var p := Parser([], {}, []);
    ghost var actions := CodexActions(records);
    for i := 0 to |records|
      invariant |actions| == |records| && p == Run(actions, max, i)
      invariant p.steps == Ring(p.steps, max)
    {
      AppliedSteps(p, Codex(records[i]), max);
      p := CodexRecordSteps(p, records[i], max);
      assert actions[i] == Codex(records[i]);
    }
    steps := p.steps;
  }

  method OpenCodeRecordSteps(p: Parser, record: OpenCodeRecord, max: Option<nat>) returns (p': Parser)
    requires p.steps == Ring(p.steps, max)
    ensures p' == Apply(p, OpenCode(record), max)
  {
    p' := p;
    assert p.steps + [] == p.steps;
    match record
    case TextPart(text) =>
      if !Blank(text) { p' := p.(steps := Ring(p.steps + [Text(text)], max)); }
    case ToolPart(id, tool, input, status, output) =>
      var results := if Finished(status) then [ToolResult(id, output, status != "completed")] else [];
      p' := ToolSteps(p, id, false, ToolUse(id, Or(tool, "tool"), input), results, max);
    case StepFinish(reason, usage) =>
      if reason == "stop" {
        var text := LastBufferedText(p.steps);
        p' := p.(steps := Ring(p.steps + [Result(text, false, usage)], max));
      }
    case OtherOpenCode =>
  }

  method OpenCodeTrajectory(records: seq<OpenCodeRecord>, max: Option<nat>) returns (steps: seq<Step>)
    ensures steps == Run(OpenCodeActions(records), max, |records|).steps
  {
    hide OpenCode, Apply;
    var p := Parser([], {}, []);
    ghost var actions := OpenCodeActions(records);
    for i := 0 to |records|
      invariant |actions| == |records| && p == Run(actions, max, i)
      invariant p.steps == Ring(p.steps, max)
    {
      AppliedSteps(p, OpenCode(records[i]), max);
      p := OpenCodeRecordSteps(p, records[i], max);
      assert actions[i] == OpenCode(records[i]);
    }
    steps := p.steps;
  }

  lemma LastOfLastOf<T>(s: seq<T>, t: seq<T>, k: nat)
    ensures LastOf(LastOf(s, k) + t, k) == LastOf(s + t, k)
  {
  }

  lemma AppliedSteps(p: Parser, a: Action, max: Option<nat>)
    ensures var steps := Apply(p, a, max).steps; steps == Ring(p.steps + Appended(p, a), max) == Ring(steps, max)
  {
    hide Appended, Evict;
  }

  /** Appending in two pushes is appending at once. */
  lemma RingTwice(steps: seq<Step>, a: seq<Step>, b: seq<Step>, max: Option<nat>)
    ensures Ring(Ring(steps + a, max) + b, max) == Ring(steps + (a + b), max)
  {
    assert steps + (a + b) == (steps + a) + b;
    if max.Some? { LastOfLastOf(steps + a, b, max.value); }
  }
}
