/** The bounded parser against the unbounded one: what the ring buffer and the evicted seen-set change. */
module AgentLogsBounds {
  import opened Common
  import opened AgentLogs

  /** Every step ever appended, before the ring buffer drops any. */
  function Emitted(actions: seq<Action>, max: Option<nat>, n: nat): seq<Step>
    requires n <= |actions|
  {
    if n == 0 then [] else Emitted(actions, max, n - 1) + Appended(Run(actions, max, n - 1), actions[n - 1])
  }

  /** Every id ever remembered, oldest first. */
  function Remembered(actions: seq<Action>, max: Option<nat>, n: nat): seq<string>
    requires n <= |actions|
  {
    if n == 0 then []
    else
      var a := actions[n - 1];
      Remembered(actions, max, n - 1) + if a.Tool? && a.id !in Run(actions, max, n - 1).seen then [a.id] else []
  }

  ghost predicate Distinct(s: seq<string>) {
    forall i, j :: 0 <= i < j < |s| ==> s[i] != s[j]
  }

  // ----- the ring buffer and the seen-set, whatever the log holds

  lemma NextSteps(actions: seq<Action>, max: Option<nat>, n: nat)
    requires n < |actions|
    ensures Run(actions, max, n + 1).steps
            == Ring(Run(actions, max, n).steps + Appended(Run(actions, max, n), actions[n]), max)
  {
    hide Appended, Evict, Ring;
  }

  lemma NothingRun(actions: seq<Action>, max: Option<nat>)
    ensures Run(actions, max, 0).steps == []
  {
  }

  lemma LastOfNothing(k: nat)
    ensures LastOf<Step>([], k) == []
  {
  }

  /** The buffer is always the newest `k` steps ever appended. */
  lemma {:induction false} BufferIsNewest(actions: seq<Action>, max: Option<nat>, n: nat)
    requires n <= |actions|
    ensures Run(actions, max, n).steps == Ring(Emitted(actions, max, n), max)
  {
    hide Appended, Run, LastOf;
    if n == 0 {
      assert Run(actions, max, 0).steps == [] by { NothingRun(actions, max); }
      LastOfNothing(if max.Some? then max.value else 0);
    } else {
      BufferIsNewest(actions, max, n - 1);
      NextSteps(actions, max, n - 1);
      if max.Some? {
        LastOfLastOf(Emitted(actions, max, n - 1), Appended(Run(actions, max, n - 1), actions[n - 1]), max.value);
      }
    }
  }

  lemma EvictOne(seen: set<string>, order: seq<string>, id: string, cap: nat)
    requires cap > 0 && |order| <= cap && Distinct(order) && id !in seen
    requires forall x :: x in seen <==> x in order
    ensures var (seen', order') := Evict(seen + {id}, order + [id], cap);
            && order' == LastOf(order + [id], cap)
            && Distinct(order')
            && (forall x :: x in seen' <==> x in order')
  {
    var all := order + [id];
    assert forall x :: x in all <==> x in seen + {id};
    if |all| > cap {
      assert all[1..] == LastOf(all, cap);
      assert all == [all[0]] + all[1..];
      assert Evict(seen + {id}, all, cap) == (seen + {id} - {all[0]}, all[1..]);
    }
  }

  /** The bookkeeping of the bounded parser: the seen-set holds exactly the newest `Cap(k)` remembered
      ids, the queue lists them once each in order, and all three structures stay within their bounds. */
  lemma {:induction false} SeenIsNewest(actions: seq<Action>, k: nat, n: nat)
    requires n <= |actions|
    ensures var p := Run(actions, Some(k), n);
            && p.order == LastOf(Remembered(actions, Some(k), n), Cap(k))
            && Distinct(p.order) && (forall id :: id in p.seen <==> id in p.order)
            && |p.order| <= Cap(k) && |p.steps| <= k
  {
    hide Appended, Evict;
    if n > 0 {
      SeenIsNewest(actions, k, n - 1);
      var p, a := Run(actions, Some(k), n - 1), actions[n - 1];
      var past := Remembered(actions, Some(k), n - 1);
      assert past + [] == past;
      if a.Tool? && a.id !in p.seen {
        EvictOne(p.seen, p.order, a.id, Cap(k));
        LastOfLastOf(past, [a.id], Cap(k));
      }
    }
  }

  /** Unbounded, every tool id met so far is remembered; bounded, it was remembered at least once. */
  lemma {:induction false} EveryToolIsRemembered(actions: seq<Action>, k: nat, n: nat)
    requires n <= |actions|
    ensures forall id :: id in Run(actions, None, n).seen <==> id in Remembered(actions, Some(k), n)
  {
    hide Appended, Ring, LastOf, Distinct;
    SeenIsNewest(actions, k, n);
    if n > 0 {
      EveryToolIsRemembered(actions, k, n - 1);
      SeenIsNewest(actions, k, n - 1);
      LastOfMembers(Remembered(actions, Some(k), n - 1), Cap(k));
    }
  }

  lemma LastOfMembers<T>(s: seq<T>, k: nat)
    ensures forall x :: x in LastOf(s, k) ==> x in s
  {
  }

  // ----- when the two parsers part

  /** Step `n` completes a tool whose id was remembered but has been evicted since: it is older than
      the last `Cap(k)` remembered ids. */
  predicate Forgotten(actions: seq<Action>, k: nat, n: nat)
    requires n < |actions|
  {
    var a := actions[n];
    var past := Remembered(actions, Some(k), n);
    a.Tool? && !a.always && a.id in past && a.id !in LastOf(past, Cap(k))
  }

  function ForgottenCount(actions: seq<Action>, k: nat, n: nat): nat
    requires n <= |actions|
  {
    if n == 0 then 0
    else ForgottenCount(actions, k, n - 1) + if Forgotten(actions, k, n - 1) then 1 else 0
  }

  /** What the dashboard lines up by: everything but the text an answer repeats. */
  function Shape(s: Step): Step {
    if s.Result? && !s.isError then s.(text := "") else s
  }

  predicate SameShapes(s: seq<Step>, t: seq<Step>) {
    |s| == |t| && forall i :: 0 <= i < |s| ==> Shape(s[i]) == Shape(t[i])
  }

  lemma AppendedCompared(actions: seq<Action>, k: nat, n: nat)
    requires n < |actions|
    ensures var u := Appended(Run(actions, None, n), actions[n]);
            var b := Appended(Run(actions, Some(k), n), actions[n]);
            if Forgotten(actions, k, n) then |b| == |u| + 1 else SameShapes(b, u)
  {
    EveryToolIsRemembered(actions, k, n);
    SeenIsNewest(actions, k, n);
  }

  /** Each forgotten completion costs the bounded parser exactly one repeated call step. */
  lemma {:induction false} EmissionCount(actions: seq<Action>, k: nat, n: nat)
    requires n <= |actions|
    ensures |Emitted(actions, Some(k), n)| == |Emitted(actions, None, n)| + ForgottenCount(actions, k, n)
  {
    hide Appended, Apply, Forgotten;
    if n > 0 {
      EmissionCount(actions, k, n - 1);
      AppendedCompared(actions, k, n - 1);
    }
  }

  lemma {:induction false} NothingForgottenSameShapes(actions: seq<Action>, k: nat, n: nat)
    requires n <= |actions| && ForgottenCount(actions, k, n) == 0
    ensures SameShapes(Emitted(actions, Some(k), n), Emitted(actions, None, n))
  {
    hide Appended, Apply, Forgotten;
    if n > 0 {
      NothingForgottenSameShapes(actions, k, n - 1);
      AppendedCompared(actions, k, n - 1);
    }
  }

  /** The bounded parser appends the same steps as the unbounded one if and only if no completed tool
      id had been evicted. */
  lemma SameEmissionIff(actions: seq<Action>, k: nat)
    ensures SameShapes(Emitted(actions, Some(k), |actions|), Emitted(actions, None, |actions|))
            <==> ForgottenCount(actions, k, |actions|) == 0
  {
    EmissionCount(actions, k, |actions|);
    if ForgottenCount(actions, k, |actions|) == 0 {
      NothingForgottenSameShapes(actions, k, |actions|);
    }
  }

  // ----- the bounded output, exactly

  /** The unbounded steps, but with each answer repeating only a text among the `k` steps before it. */
  function Clipped(steps: seq<Step>, k: nat): seq<Step> {
    if steps == [] then []
    else
      var front, s := steps[..|steps| - 1], steps[|steps| - 1];
      Clipped(front, k) + [if s.Result? && !s.isError then s.(text := LastText(LastOf(front, k))) else s]
  }

  /** An action carries no ready-made answer; only the parser writes one. */
  predicate Plain(a: Action) {
    match a
    case Skip => true
    case Answer(_) => true
    case Emit(step) => step.Result? ==> step.isError
    case Tool(_, _, use, results) => use.ToolUse? && forall i :: 0 <= i < |results| ==> results[i].ToolResult?
  }

  lemma {:induction false} ClippedLength(steps: seq<Step>, k: nat)
    ensures |Clipped(steps, k)| == |steps|
  {
    if steps != [] { ClippedLength(steps[..|steps| - 1], k); }
  }

  lemma ClippedOne(s: seq<Step>, step: Step, k: nat)
    requires step.Result? ==> step.isError
    ensures Clipped(s + [step], k) == Clipped(s, k) + [step]
  {
    hide LastText, LastOf;
    assert (s + [step])[..|s|] == s;
  }

  lemma {:induction false} ClippedConcat(s: seq<Step>, t: seq<Step>, k: nat)
    requires forall i :: 0 <= i < |t| ==> t[i].Result? ==> t[i].isError
    ensures Clipped(s + t, k) == Clipped(s, k) + t
  {
    hide Clipped;
    if t == [] {
      assert s + t == s;
    } else {
      var front, last := t[..|t| - 1], t[|t| - 1];
      ClippedConcat(s, front, k);
      ClippedOne(s + front, last, k);
      assert s + t == s + front + [last];
      assert Clipped(s, k) + front + [last] == Clipped(s, k) + t;
    }
  }

  lemma {:induction false} SameShapesSameText(s: seq<Step>, t: seq<Step>)
    requires SameShapes(s, t)
    ensures LastText(s) == LastText(t)
  {
    if s != [] {
      var x, y := s[|s| - 1], t[|t| - 1];
      assert Shape(x) == Shape(y);
      SameShapesSameText(s[..|s| - 1], t[..|t| - 1]);
    }
  }

  /** One action extends the bounded log as clipping extends the unbounded one. */
  lemma AppendedIsClipped(b: seq<Step>, u: seq<Step>, bp: Parser, up: Parser, a: Action, k: nat)
    requires Plain(a) && SameShapes(b, u) && SameShapes(Appended(bp, a), Appended(up, a))
    requires bp.steps == LastOf(b, k)
    ensures Clipped(u + Appended(up, a), k) == Clipped(u, k) + Appended(bp, a)
  {
    var appended := Appended(up, a);
    if a.Answer? {
      SameShapesLastOf(b, u, k);
      SameShapesSameText(LastOf(b, k), LastOf(u, k));
      assert (u + appended)[..|u|] == u;
    } else {
      forall i | 0 <= i < |appended|
          ensures (appended[i].Result? ==> appended[i].isError) && Appended(bp, a)[i] == appended[i] {
        assert Shape(Appended(bp, a)[i]) == Shape(appended[i]);
      }
      ClippedConcat(u, appended, k);
    }
  }

  lemma SameShapesLastOf(s: seq<Step>, t: seq<Step>, k: nat)
    requires SameShapes(s, t)
    ensures SameShapes(LastOf(s, k), LastOf(t, k))
  {
    hide Shape;
  }

  lemma {:induction false} EmittedIsClipped(actions: seq<Action>, k: nat, n: nat)
    requires n <= |actions| && ForgottenCount(actions, k, n) == 0
    requires forall i :: 0 <= i < |actions| ==> Plain(actions[i])
    ensures Emitted(actions, Some(k), n) == Clipped(Emitted(actions, None, n), k)
  {
    hide Apply, Forgotten, Appended, Plain, Shape, LastText, Run, LastOf;
    if n > 0 {
      EmittedIsClipped(actions, k, n - 1);
      NothingForgottenSameShapes(actions, k, n - 1);
      AppendedCompared(actions, k, n - 1);
      BufferIsNewest(actions, Some(k), n - 1);
      AppendedIsClipped(Emitted(actions, Some(k), n - 1), Emitted(actions, None, n - 1),
                        Run(actions, Some(k), n - 1), Run(actions, None, n - 1), actions[n - 1], k);
    }
  }

  /** If no completed id had been evicted, the bounded output is the last `k` steps of the unbounded
      output, up to answers whose text had already left the buffer. */
  lemma BoundedIsSuffix(actions: seq<Action>, k: nat)
    requires forall i :: 0 <= i < |actions| ==> Plain(actions[i])
    requires ForgottenCount(actions, k, |actions|) == 0
    ensures Run(actions, Some(k), |actions|).steps == LastOf(Clipped(Run(actions, None, |actions|).steps, k), k)
    ensures SameShapes(Run(actions, Some(k), |actions|).steps, LastOf(Run(actions, None, |actions|).steps, k))
  {
    hide Run, Emitted, Forgotten, ForgottenCount, Plain, Clipped, LastOf, SameShapes;
    EmittedIsClipped(actions, k, |actions|);
    NothingForgottenSameShapes(actions, k, |actions|);
    BufferIsNewest(actions, None, |actions|);
    BufferIsNewest(actions, Some(k), |actions|);
    SameShapesLastOf(Emitted(actions, Some(k), |actions|), Emitted(actions, None, |actions|), k);
  }

  lemma CodexIsPlain(record: CodexRecord)
    ensures Plain(Codex(record))
  {
  }

  lemma OpenCodeIsPlain(record: OpenCodeRecord)
    ensures Plain(OpenCode(record))
  {
  }

  // ----- a condition on the log alone

  function ToolIds(actions: seq<Action>): set<string> {
    set i | 0 <= i < |actions| && actions[i].Tool? :: actions[i].id
  }

  lemma {:induction false} DistinctSize(s: seq<string>, ids: set<string>)
    requires Distinct(s) && forall i :: 0 <= i < |s| ==> s[i] in ids
    ensures |s| <= |ids|
  {
    if s != [] {
      DistinctSize(s[1..], ids - {s[0]});
    }
  }

  lemma {:induction false} FewIdsAllKept(actions: seq<Action>, k: nat, n: nat)
    requires n <= |actions| && |ToolIds(actions)| <= Cap(k)
    ensures var past := Remembered(actions, Some(k), n);
            && Distinct(past) && |past| <= Cap(k)
            && (forall i :: 0 <= i < |past| ==> past[i] in ToolIds(actions))
            && ForgottenCount(actions, k, n) == 0
  {
    hide Appended, Ring, Run, Apply, Evict;
    if n > 0 {
      FewIdsAllKept(actions, k, n - 1);
      SeenIsNewest(actions, k, n - 1);
      DistinctSize(Remembered(actions, Some(k), n), ToolIds(actions));
    }
  }

  /** A log with at most max(32, 4k) distinct tool ids is always shown exactly. */
  lemma CodexFewIdsIsExact(records: seq<CodexRecord>, k: nat)
    requires |ToolIds(CodexActions(records))| <= Cap(k)
    ensures Run(CodexActions(records), Some(k), |records|).steps
            == LastOf(Clipped(Run(CodexActions(records), None, |records|).steps, k), k)
  {
    hide Run, Codex, CodexActions, ForgottenCount, Forgotten, Clipped, Cap, Plain, ToolIds, LastOf;
    forall i | 0 <= i < |records| ensures Plain(CodexActions(records)[i]) { CodexIsPlain(records[i]); }
    FewIdsAllKept(CodexActions(records), k, |records|);
    BoundedIsSuffix(CodexActions(records), k);
  }

  lemma OpenCodeFewIdsIsExact(records: seq<OpenCodeRecord>, k: nat)
    requires |ToolIds(OpenCodeActions(records))| <= Cap(k)
    ensures Run(OpenCodeActions(records), Some(k), |records|).steps
            == LastOf(Clipped(Run(OpenCodeActions(records), None, |records|).steps, k), k)
  {
    hide Run, OpenCode, OpenCodeActions, ForgottenCount, Forgotten, Clipped, Cap, Plain, ToolIds, LastOf;
    forall i | 0 <= i < |records| ensures Plain(OpenCodeActions(records)[i]) { OpenCodeIsPlain(records[i]); }
    FewIdsAllKept(OpenCodeActions(records), k, |records|);
    BoundedIsSuffix(OpenCodeActions(records), k);
  }

  // ----- a log on which the two parsers differ

  function Search(id: string): Item {
    Item("web_search", id, Words(""), "", [], "", "", "", false)
  }

  /** Start every tool once, then complete the first. */
  function StartAllFinishFirst(ids: seq<string>): (records: seq<CodexRecord>)
    requires ids != []
  {
    seq(|ids|, i requires 0 <= i < |ids| => ItemStarted(Some(Search(ids[i])))) + [ItemCompleted(Some(Search(ids[0])))]
  }

  lemma {:induction false} AllStarted(ids: seq<string>, actions: seq<Action>, k: nat, n: nat)
    requires Distinct(ids) && n <= |ids| <= |actions|
    requires forall i :: 0 <= i < |ids| ==> actions[i] == Tool(ids[i], true, CodexToolUse(Search(ids[i])), [])
    ensures Remembered(actions, Some(k), n) == ids[..n]
    ensures n > 0 ==> var steps := Run(actions, None, n).steps;
                      steps != [] && steps[|steps| - 1] == CodexToolUse(Search(ids[n - 1]))
  {
    hide Run, Appended, CodexToolUse, Cap, LastOf;
    if n > 0 {
      AllStarted(ids, actions, k, n - 1);
      SeenIsNewest(actions, k, n - 1);
      LastOfMembers(ids[..n - 1], Cap(k));
      assert ids[..n] == ids[..n - 1] + [ids[n - 1]];
      NextSteps(actions, None, n - 1);
      StartedAppends(Run(actions, None, n - 1), actions[n - 1]);
    }
  }

  lemma StartedAppends(p: Parser, a: Action)
    requires a.Tool? && a.always && a.results == []
    ensures Appended(p, a) == [a.use]
  {
  }

  /** With more than max(32, 4k) tools open, completing the oldest shows a second call step, so the
      bounded output is then not the tail of the full one. */
  lemma EvictionRepeatsACall(ids: seq<string>, k: nat)
    requires Distinct(ids) && |ids| == Cap(k) + 1 && k >= 2
    ensures var actions := CodexActions(StartAllFinishFirst(ids));
            && ForgottenCount(actions, k, |actions|) >= 1
            && !SameShapes(Run(actions, Some(k), |actions|).steps, LastOf(Run(actions, None, |actions|).steps, k))
  {
    hide Codex, Evict, Run, Apply, Remembered, ForgottenCount;
    var records := StartAllFinishFirst(ids);
    var actions := CodexActions(records);
    var n := |ids|;
    LastAction(ids);
    AllStarted(ids, actions, k, n);
    assert ids[..n] == ids;
    FirstIsForgotten(ids, actions, k);
  }

  lemma LastAction(ids: seq<string>)
    requires ids != []
    ensures var actions := CodexActions(StartAllFinishFirst(ids));
            && |actions| == |ids| + 1
            && (forall i :: 0 <= i < |ids| ==> actions[i] == Tool(ids[i], true, CodexToolUse(Search(ids[i])), []))
            && actions[|ids|] == Tool(ids[0], false, CodexToolUse(Search(ids[0])), [ToolResult(ids[0], "", false)])
  {
    var records := StartAllFinishFirst(ids);
    forall i | 0 <= i < |ids| ensures CodexActions(records)[i] == Codex(ItemStarted(Some(Search(ids[i])))) {
      assert records[i] == ItemStarted(Some(Search(ids[i])));
    }
    assert records[|ids|] == ItemCompleted(Some(Search(ids[0])));
  }

  lemma UseCarriesId(id: string)
    ensures CodexToolUse(Search(id)).ToolUse? && CodexToolUse(Search(id)).id == id
  {
  }

  lemma OldestIsEvicted(ids: seq<string>, cap: nat)
    requires Distinct(ids) && |ids| == cap + 1 && cap > 0
    ensures ids[0] in ids && ids[0] != ids[cap] && ids[0] !in LastOf(ids, cap)
  {
    assert LastOf(ids, cap) == ids[1..];
  }

  lemma TailsDiffer(s: seq<Step>, t: seq<Step>, use: Step, other: Step, result: Step, k: nat)
    requires k >= 2 && t != [] && t[|t| - 1] == other
    requires use.ToolUse? && other.ToolUse? && use.id != other.id
    ensures !SameShapes(LastOf(s + [use, result], k), LastOf(t + [result], k))
  {
    var x, y := LastOf(s + [use, result], k), LastOf(t + [result], k);
    assert x[|x| - 2] == use && y[|y| - 2] == other;
    assert Shape(use) != Shape(other);
  }

  lemma FirstIsForgotten(ids: seq<string>, actions: seq<Action>, k: nat)
    requires Distinct(ids) && |ids| == Cap(k) + 1 && k >= 2 && Cap(k) > 0 && |actions| == |ids| + 1
    requires actions[|ids|] == Tool(ids[0], false, CodexToolUse(Search(ids[0])), [ToolResult(ids[0], "", false)])
    requires Remembered(actions, Some(k), |ids|) == ids
    requires var steps := Run(actions, None, |ids|).steps;
             steps != [] && steps[|steps| - 1] == CodexToolUse(Search(ids[|ids| - 1]))
    ensures ForgottenCount(actions, k, |actions|) >= 1
    ensures !SameShapes(Run(actions, Some(k), |actions|).steps, LastOf(Run(actions, None, |actions|).steps, k))
  {
    hide Run, Remembered, Apply, CodexToolUse, Cap, SameShapes, LastOf, Distinct;
    var n := |ids|;
    OldestIsEvicted(ids, Cap(k));
    assert Forgotten(actions, k, n);
    SeenIsNewest(actions, k, n);
    EveryToolIsRemembered(actions, k, n);
    NextSteps(actions, None, n);
    NextSteps(actions, Some(k), n);
    UseCarriesId(ids[0]);
    UseCarriesId(ids[n - 1]);
    var use, result := CodexToolUse(Search(ids[0])), ToolResult(ids[0], "", false);
    assert Appended(Run(actions, Some(k), n), actions[n]) == [use, result];
    assert Appended(Run(actions, None, n), actions[n]) == [result];
    TailsDiffer(Run(actions, Some(k), n).steps, Run(actions, None, n).steps, CodexToolUse(Search(ids[0])),
                CodexToolUse(Search(ids[n - 1])), ToolResult(ids[0], "", false), k);
  }
}
