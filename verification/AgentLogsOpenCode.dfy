/** What the unbounded OpenCode parser shows of a log, read off the records directly. */
module AgentLogsOpenCode {
  import opened Common
  import opened AgentLogs
  import opened AgentLogsTexts
  import opened AgentLogsContent

  predicate ReportsTool(record: OpenCodeRecord, id: string) {
    record.ToolPart? && record.id == id
  }

  predicate ReportedBefore(records: seq<OpenCodeRecord>, id: string, n: nat)
    requires n <= |records|
  {
    exists j :: 0 <= j < n && ReportsTool(records[j], id)
  }

  /** The first report of a tool shows its call. */
  function FirstCall(records: seq<OpenCodeRecord>, n: nat): seq<Step>
    requires n < |records|
  {
    match records[n]
    case ToolPart(id, tool, input, _, _) =>
      if ReportedBefore(records, id, n) then [] else [ToolUse(id, if tool == "" then "tool" else tool, input)]
    case _ => []
  }

  /** A report that the tool has ended gives its output; any end but "completed" is an error. */
  function EndResult(record: OpenCodeRecord): seq<Step> {
    match record
    case ToolPart(id, _, _, status, output) =>
      if status == "completed" then [ToolResult(id, output, false)]
      else if status == "failed" || status == "error" then [ToolResult(id, output, true)]
      else []
    case _ => []
  }

  predicate IsSpoken(record: OpenCodeRecord) {
    record.TextPart? && HasInk(record.text)
  }

  function Spoken(record: OpenCodeRecord): seq<Step> {
    if IsSpoken(record) then [Text(record.text)] else []
  }

  /** The newest text before record `n`, or "". */
  function LastSpoken(records: seq<OpenCodeRecord>, n: nat): string
    requires n <= |records|
  {
    if n == 0 then "" else if IsSpoken(records[n - 1]) then records[n - 1].text else LastSpoken(records, n - 1)
  }

  function StopAnswer(records: seq<OpenCodeRecord>, n: nat): seq<Step>
    requires n < |records|
  {
    match records[n]
    case StepFinish(reason, usage) => if reason == "stop" then [Result(LastSpoken(records, n), false, usage)] else []
    case _ => []
  }

  /** All that record `n` shows: a call comes before its result. */
  function PartShown(records: seq<OpenCodeRecord>, n: nat): seq<Step>
    requires n < |records|
  {
    FirstCall(records, n) + EndResult(records[n]) + Spoken(records[n]) + StopAnswer(records, n)
  }

  function PartsShown(records: seq<OpenCodeRecord>, n: nat): seq<Step>
    requires n <= |records|
  {
    if n == 0 then [] else PartsShown(records, n - 1) + PartShown(records, n - 1)
  }

  lemma {:induction false} SeenIsReported(records: seq<OpenCodeRecord>, n: nat, id: string)
    requires n <= |records|
    ensures id in Run(OpenCodeActions(records), None, n).seen <==> ReportedBefore(records, id, n)
  {
    hide OpenCode, Ring, Appended, ReportsTool;
    if n > 0 {
      SeenIsReported(records, n - 1, id);
      ToolIsReported(records[n - 1], id);
    }
  }

  lemma ToolIsReported(record: OpenCodeRecord, id: string)
    ensures ReportsTool(record, id) <==> OpenCode(record).Tool? && OpenCode(record).id == id
  {
  }

  lemma PartsOfKind(records: seq<OpenCodeRecord>, n: nat)
    requires n < |records|
    ensures OneOf(Calls, FirstCall(records, n)) && OneOf(ToolResults, EndResult(records[n]))
    ensures OneOf(Texts, Spoken(records[n])) && OneOf(Answers, StopAnswer(records, n))
  {
    hide ReportedBefore, LastSpoken, HasInk;
  }

  lemma TextOfPart(records: seq<OpenCodeRecord>, n: nat)
    requires n < |records|
    ensures HasText(PartShown(records, n)) <==> IsSpoken(records[n])
    ensures IsSpoken(records[n]) ==> LastText(PartShown(records, n)) == records[n].text
  {
    hide IsSpoken, LastText, FirstCall, EndResult, StopAnswer, HasText;
    var calls, results, texts := FirstCall(records, n), EndResult(records[n]), Spoken(records[n]);
    PartsOfKind(records, n);
    LastTextOfConcat(calls, results);
    LastTextOfConcat(calls + results, texts);
    LastTextOfConcat(calls + results + texts, StopAnswer(records, n));
    NoTextIn(Calls, calls);
    NoTextIn(ToolResults, results);
    NoTextIn(Answers, StopAnswer(records, n));
    NoTextIn(Texts, []);
    if IsSpoken(records[n]) {
      SpokenIsText(records[n]);
      TextIn(records[n].text);
    }
  }

  lemma SpokenIsText(record: OpenCodeRecord)
    ensures IsSpoken(record) ==> record.TextPart?
  {
  }

  lemma {:induction false} LastTextIsLastSpoken(records: seq<OpenCodeRecord>, n: nat)
    requires n <= |records|
    ensures LastText(PartsShown(records, n)) == LastSpoken(records, n)
  {
    hide PartShown, IsSpoken;
    if n > 0 {
      LastTextIsLastSpoken(records, n - 1);
      LastTextOfConcat(PartsShown(records, n - 1), PartShown(records, n - 1));
      SpokenIsText(records[n - 1]);
      TextOfPart(records, n - 1);
    }
  }

  lemma AppendedIsPart(records: seq<OpenCodeRecord>, n: nat, p: Parser)
    requires n < |records|
    requires forall id :: ReportedBefore(records, id, n) <==> id in p.seen
    requires LastText(p.steps) == LastSpoken(records, n)
    ensures Appended(p, OpenCode(records[n])) == PartShown(records, n)
  {
    hide ReportedBefore, LastSpoken, LastText, HasInk, Blank;
    if records[n].TextPart? { BlankIff(records[n].text); }
  }

  /** The unbounded parser shows exactly this, after every record of every OpenCode log. */
  lemma {:induction false} OpenCodeShows(records: seq<OpenCodeRecord>, n: nat)
    requires n <= |records|
    ensures Run(OpenCodeActions(records), None, n).steps == PartsShown(records, n)
  {
    hide OpenCode, Appended, PartShown, LastText, LastSpoken, ReportedBefore;
    if n > 0 {
      OpenCodeShows(records, n - 1);
      var p := Run(OpenCodeActions(records), None, n - 1);
      forall id ensures ReportedBefore(records, id, n - 1) <==> id in p.seen { SeenIsReported(records, n - 1, id); }
      LastTextIsLastSpoken(records, n - 1);
      AppendedIsPart(records, n - 1, p);
    }
  }

  /** The steps of one kind, record by record. */
  function PartOfKind(kind: Kind, records: seq<OpenCodeRecord>, n: nat): seq<Step>
    requires n < |records|
  {
    match kind
    case Texts => Spoken(records[n])
    case Calls => FirstCall(records, n)
    case ToolResults => EndResult(records[n])
    case Answers => StopAnswer(records, n)
    case _ => []
  }

  function PartsOfOneKind(kind: Kind, records: seq<OpenCodeRecord>, n: nat): seq<Step>
    requires n <= |records|
  {
    if n == 0 then [] else PartsOfOneKind(kind, records, n - 1) + PartOfKind(kind, records, n - 1)
  }

  lemma OnlyOfPart(kind: Kind, records: seq<OpenCodeRecord>, n: nat)
    requires n < |records|
    ensures Only(kind, PartShown(records, n)) == PartOfKind(kind, records, n)
  {
    hide ReportedBefore, LastSpoken, IsSpoken, Only;
    var calls, results, texts := FirstCall(records, n), EndResult(records[n]), Spoken(records[n]);
    OnlyOfConcat(kind, calls + results + texts, StopAnswer(records, n));
    OnlyOfConcat(kind, calls + results, texts);
    OnlyOfConcat(kind, calls, results);
    PartsOfKind(records, n);
    AtMostOne(kind, calls, Calls);
    AtMostOne(kind, results, ToolResults);
    AtMostOne(kind, texts, Texts);
    AtMostOne(kind, StopAnswer(records, n), Answers);
  }

  /** The steps of each kind are, in order, one for each record that shows one. */
  lemma {:induction false} OpenCodeShowsKind(kind: Kind, records: seq<OpenCodeRecord>, n: nat)
    requires n <= |records|
    ensures Only(kind, Run(OpenCodeActions(records), None, n).steps) == PartsOfOneKind(kind, records, n)
  {
    hide Run, PartShown, PartOfKind, Only;
    OpenCodeShows(records, n);
    if n == 0 {
      OnlyNothing(kind);
    } else {
      OpenCodeShowsKind(kind, records, n - 1);
      OpenCodeShows(records, n - 1);
      OnlyOfConcat(kind, PartsShown(records, n - 1), PartShown(records, n - 1));
      OnlyOfPart(kind, records, n - 1);
    }
  }

  /** What the dashboard gets without a bound. */
  method ReadOpenCode(records: seq<OpenCodeRecord>) returns (steps: seq<Step>)
    ensures steps == PartsShown(records, |records|)
    ensures forall kind :: Only(kind, steps) == PartsOfOneKind(kind, records, |records|)
  {
    hide Run, PartsShown, PartsOfOneKind, Only;
    steps := OpenCodeTrajectory(records, None);
    OpenCodeShows(records, |records|);
    forall kind ensures Only(kind, steps) == PartsOfOneKind(kind, records, |records|) {
      OpenCodeShowsKind(kind, records, |records|);
    }
  }
}
