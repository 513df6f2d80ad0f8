/** Agreement between the launcher's decisions and the shadow's, entry by entry
    (scripts/compare_shadow.py). */
module ShadowVerdicts {
  import opened Common

  datatype PcKind = Launch | Hold

  datatype PcDecision = PcDecision(kind: PcKind, name: string, ts: real, reason: string, runId: string,
                                   exactTs: Option<real>)

  datatype ShadowKind = WouldLaunch | Skip

  datatype ShadowDecision = ShadowDecision(kind: ShadowKind, queueId: string, name: string, ts: real, trio: string,
                                           reason: string, workspace: string)

  datatype Verdict =
    | Unjudged | Agree | Phantom | Missed | ShadowMoreConservative | SelfOccupied | UnobservedRace | PcOnly | ShadowOnly
    | Probe

  /** An entry's report; without a basis its shadow decision reads "absent". */
  datatype Report = Report(verdict: Verdict, basis: Option<ShadowDecision>, selfOccupiedAfter: nat)

  const STAMP_TOLERANCE := 60.0

  /** Exact when the run id carries the instant; otherwise the end of the stamped minute. */
  function CompareTs(d: PcDecision): real {
    if d.exactTs.Some? then d.exactTs.value else d.ts + STAMP_TOLERANCE
  }

  // ----- reading a skip reason

  function SpaceRun(s: string): (n: nat)
    ensures n <= |s|
  {
    if s != "" && IsSpace(s[0]) then 1 + SpaceRun(s[1..]) else 0
  }

  function WordRun(s: string): (n: nat)
    ensures n <= |s|
  {
    if s != "" && !IsSpace(s[0]) then 1 + WordRun(s[1..]) else 0
  }

  const ACTIVE_RUN := "has active run"

  /** The run id behind the first "has active run <run id>", or "". */
  function Occupier(reason: string): string {
    if reason == "" then ""
    else if ACTIVE_RUN <= reason then
      var rest := reason[|ACTIVE_RUN|..];
      var spaces := SpaceRun(rest);
      var word := WordRun(rest[spaces..]);
      if spaces > 0 && word > 0 then rest[spaces..spaces + word] else Occupier(reason[1..])
    else Occupier(reason[1..])
  }

  predicate ContainsFolded(s: string, word: string) {
    exists i :: 0 <= i <= |s| && FoldedPrefix(s[i..], word)
  }

  const SAFETY_WORDS := ["dirty tree", "dirty worktree", "uncommitted", "unpushed", "not pushed", "ahead of",
                         "no upstream", "commits not on"]

  const OCCUPIED := "occupied:"
  const OCCUPIED_WORDS := ["dirty", "unpushed", "uncommitted"]

  predicate OccupiedBySafety(s: string) {
    && FoldedPrefix(s, OCCUPIED)
    && var rest := s[|OCCUPIED|..];
       exists k :: 0 <= k < |OCCUPIED_WORDS| && FoldedPrefix(rest[SpaceRun(rest)..], OCCUPIED_WORDS[k])
  }

  predicate SafetyWording(reason: string) {
    || (exists k :: 0 <= k < |SAFETY_WORDS| && ContainsFolded(reason, SAFETY_WORDS[k]))
    || (exists i :: 0 <= i <= |reason| && OccupiedBySafety(reason[i..]))
  }

  predicate IsSafetySkip(reason: string, occupier: string) {
    SafetyWording(reason) || occupier != ""
  }

  // ----- the entry's events

  function Basename(workspace: string): string
    decreases |workspace|
  {
    if workspace != "" && workspace[|workspace| - 1] == '/' then Basename(workspace[..|workspace| - 1])
    else LastSegment(workspace)
  }

  predicate IsProbeName(name: string) {
    |name| >= 5 && "__" <= name && name[|name| - 2..] == "__"
  }

  datatype Window = Always | Between(low: real, high: real)

  predicate InWindow(window: Window, ts: real) {
    window.Always? || window.low <= ts <= window.high
  }

  function PcEvents(pc: seq<PcDecision>, name: string, window: Window): seq<PcDecision> {
    if pc == [] then []
    else (if pc[0].name == name && InWindow(window, pc[0].ts) then [pc[0]] else []) + PcEvents(pc[1..], name, window)
  }

  function ShadowEvents(shadow: seq<ShadowDecision>, name: string, window: Window): seq<ShadowDecision> {
    if shadow == [] then []
    else
      (if name != "" && shadow[0].name == name && InWindow(window, shadow[0].ts) then [shadow[0]] else [])
      + ShadowEvents(shadow[1..], name, window)
  }

  /** The first of the latest events. */
  function LatestPc(events: seq<PcDecision>): (r: Option<PcDecision>) {
    if events == [] then None
    else
      var best := LatestPc(events[..|events| - 1]);
      var d := events[|events| - 1];
      if best.Some? && d.ts <= best.value.ts then best else Some(d)
  }

  function Latest(events: seq<ShadowDecision>): (r: Option<ShadowDecision>) {
    if events == [] then None
    else
      var best := Latest(events[..|events| - 1]);
      var d := events[|events| - 1];
      if best.Some? && d.ts <= best.value.ts then best else Some(d)
  }

  function AtOrBefore(events: seq<ShadowDecision>, cmp: real): seq<ShadowDecision> {
    if events == [] then []
    else (if events[0].ts <= cmp then [events[0]] else []) + AtOrBefore(events[1..], cmp)
  }

  function SelfOccupiedAfter(events: seq<ShadowDecision>, cmp: real, runId: string): nat {
    if events == [] || runId == "" then 0
    else
      (if events[0].kind.Skip? && events[0].ts > cmp && Occupier(events[0].reason) == runId then 1 else 0)
      + SelfOccupiedAfter(events[1..], cmp, runId)
  }

  // ----- the verdict

  function Judge(pc: PcDecision, basis: ShadowDecision): Verdict {
    match (pc.kind, basis.kind)
    case (Launch, WouldLaunch) => Agree
    case (Hold, Skip) => Agree
    case (Hold, WouldLaunch) => Phantom
    case (Launch, Skip) =>
      var occupier := Occupier(basis.reason);
      if pc.runId != "" && occupier == pc.runId then SelfOccupied
      else if IsSafetySkip(basis.reason, occupier) then ShadowMoreConservative
      else Missed
  }

  /** The report an entry starts with: nothing judged, the shadow decision absent. */
  function NewReport(): Report {
    Report(Unjudged, None, 0)
  }

  /** The report after classification, from whatever it held before. */
  function Classified(start: Report, pcLatest: Option<PcDecision>, events: seq<ShadowDecision>): Report {
    if pcLatest.None? then
      start.(verdict := if start.basis.Some? && start.basis.value.kind == WouldLaunch then Phantom else ShadowOnly)
    else
      var pc := pcLatest.value;
      var cmp := CompareTs(pc);
      var later := if pc.runId == "" then start.selfOccupiedAfter else SelfOccupiedAfter(events, cmp, pc.runId);
      var basis := Latest(AtOrBefore(events, cmp));
      if basis.None? && events != [] then Report(UnobservedRace, start.basis, later)
      else
        var judged := if basis.Some? then basis else start.basis;
        Report(if judged.None? then PcOnly else Judge(pc, judged.value), judged, later)
  }

  class EntryReport {
    var verdict: Verdict
    var basis: Option<ShadowDecision>
    var selfOccupiedAfter: nat

    constructor ()
      ensures Value() == NewReport()
    {
      verdict, basis, selfOccupiedAfter := Unjudged, None, 0;
    }

    function Value(): Report
      reads this
    {
      Report(verdict, basis, selfOccupiedAfter)
    }

    method Classify(pcLatest: Option<PcDecision>, events: seq<ShadowDecision>)
      modifies this
      ensures Value() == Classified(old(Value()), pcLatest, events)
    {
      hide Occupier, IsSafetySkip, AtOrBefore, Latest, SelfOccupiedAfter;
      if pcLatest.Some? && pcLatest.value.runId != "" {
        selfOccupiedAfter := SelfOccupiedAfter(events, CompareTs(pcLatest.value), pcLatest.value.runId);
      }
      if pcLatest.None? && basis.None? {
        verdict := ShadowOnly;
        return;
      }
      if pcLatest.None? {
        if basis.value.kind == WouldLaunch {
          verdict := Phantom;
        } else {
          verdict := ShadowOnly;
        }
        return;
      }
      var pc := pcLatest.value;
      var latest := Latest(AtOrBefore(events, CompareTs(pc)));
      if latest.Some? {
        basis := latest;
      } else if events != [] {
        verdict := UnobservedRace;
        return;
      }
      if basis.None? {
        verdict := PcOnly;
        return;
      }
      if pc.kind == Launch && basis.value.kind == WouldLaunch {
        verdict := Agree;
      } else if pc.kind == Hold && basis.value.kind == Skip {
        verdict := Agree;
      } else if pc.kind == Launch {
        var occupier := Occupier(basis.value.reason);
        if pc.runId != "" && occupier == pc.runId {
          verdict := SelfOccupied;
        } else if IsSafetySkip(basis.value.reason, occupier) {
          verdict := ShadowMoreConservative;
        } else {
          verdict := Missed;
        }
      } else {
        verdict := Phantom;
      }
    }
  }

  predicate ProbeWorkspace(events: seq<ShadowDecision>) {
    exists i :: 0 <= i < |events| && IsProbeName(Basename(events[i].workspace))
  }

  /** What `compare_streams` reports for one name. */
  function ReportFor(name: string, pc: seq<PcDecision>, shadow: seq<ShadowDecision>, window: Window): Report {
    var events := ShadowEvents(shadow, name, window);
    if IsProbeName(name) || ProbeWorkspace(events) then Report(Probe, None, 0)
    else Classified(NewReport(), LatestPc(PcEvents(pc, name, window)), events)
  }

  /** One name's report in `compare_streams`: created with its defaults, and classified once. */
  method CompareEntry(name: string, pc: seq<PcDecision>, shadow: seq<ShadowDecision>, window: Window)
    returns (report: EntryReport)
    ensures fresh(report) && report.Value() == ReportFor(name, pc, shadow, window)
  {
    hide IsProbeName, Basename, ProbeWorkspace, PcEvents, LatestPc, ShadowEvents, Classified;
    var pcLatest := LatestPc(PcEvents(pc, name, window));
    var events := ShadowEvents(shadow, name, window);
    report := new EntryReport();
    if IsProbeName(name) || ProbeWorkspace(events) {
      report.verdict := Probe;
    } else {
      report.Classify(pcLatest, events);
    }
  }

  // ----- the basis is the latest shadow decision the launcher could have seen

  lemma {:induction false} LatestIsMaximal(events: seq<ShadowDecision>)
    ensures match Latest(events)
            case None => events == []
            case Some(d) =>
              exists i :: 0 <= i < |events| && events[i] == d
                       && (forall j :: 0 <= j < |events| ==> events[j].ts <= d.ts)
                       && (forall j :: 0 <= j < i ==> events[j].ts < d.ts)
  {
    if events != [] {
      var front := events[..|events| - 1];
      LatestIsMaximal(front);
      assert forall j :: 0 <= j < |front| ==> front[j] == events[j];
      var d := events[|events| - 1];
      assert events[|events| - 1] == d;
      if Latest(front).Some? {
        var i :| 0 <= i < |front| && front[i] == Latest(front).value
                 && (forall j :: 0 <= j < |front| ==> front[j].ts <= front[i].ts)
                 && (forall j :: 0 <= j < i ==> front[j].ts < front[i].ts);
        assert events[i] == front[i];
      }
    }
  }

  // ----- later observations

  /** `more` is `shadow` with records inserted; each record inserted for this name lies after `cmp` and
      carries no probe workspace. */
  predicate Extends(shadow: seq<ShadowDecision>, more: seq<ShadowDecision>, name: string, cmp: real)
    decreases |more|
  {
    if more == [] then shadow == []
    else
      || (LaterOrOther(more[0], name, cmp) && Extends(shadow, more[1..], name, cmp))
      || (shadow != [] && shadow[0] == more[0] && Extends(shadow[1..], more[1..], name, cmp))
  }

  predicate LaterOrOther(d: ShadowDecision, name: string, cmp: real) {
    d.name != name || (d.ts > cmp && !IsProbeName(Basename(d.workspace)))
  }

  lemma ProbeOfConcat(a: seq<ShadowDecision>, b: seq<ShadowDecision>)
    ensures ProbeWorkspace(a + b) <==> ProbeWorkspace(a) || ProbeWorkspace(b)
  {
    hide IsProbeName, Basename;
    assert forall i :: 0 <= i < |a| ==> (a + b)[i] == a[i];
    assert forall i :: 0 <= i < |b| ==> (a + b)[|a| + i] == b[i];
  }

  lemma {:induction false} ExtensionKeepsPast(shadow: seq<ShadowDecision>, more: seq<ShadowDecision>, name: string,
                                              cmp: real, window: Window)
    requires Extends(shadow, more, name, cmp)
    ensures var events, all := ShadowEvents(shadow, name, window), ShadowEvents(more, name, window);
            && AtOrBefore(all, cmp) == AtOrBefore(events, cmp)
            && ProbeWorkspace(all) == ProbeWorkspace(events)
            && (events != [] ==> all != [])
    decreases |more|
  {
    hide IsProbeName, Basename, ProbeWorkspace, InWindow, AtOrBefore, LaterOrOther;
    if more != [] {
      var d := more[0];
      var head := if name != "" && d.name == name && InWindow(window, d.ts) then [d] else [];
      var later := ShadowEvents(more[1..], name, window);
      ProbeOfConcat(head, later);
      AtOrBeforeConcat(head, later, cmp);
      if LaterOrOther(d, name, cmp) && Extends(shadow, more[1..], name, cmp) {
        ExtensionKeepsPast(shadow, more[1..], name, cmp, window);
        LaterAlone(d, head, name, cmp);
        assert [] + AtOrBefore(later, cmp) == AtOrBefore(later, cmp);
      } else {
        ExtensionKeepsPast(shadow[1..], more[1..], name, cmp, window);
        var rest := ShadowEvents(shadow[1..], name, window);
        ProbeOfConcat(head, rest);
        AtOrBeforeConcat(head, rest, cmp);
      }
    }
  }

  lemma LaterAlone(d: ShadowDecision, head: seq<ShadowDecision>, name: string, cmp: real)
    requires LaterOrOther(d, name, cmp) && (head == [] || (d.name == name && head == [d]))
    ensures !ProbeWorkspace(head) && AtOrBefore(head, cmp) == []
  {
    hide IsProbeName, Basename;
  }

  lemma AtOrBeforeConcat(head: seq<ShadowDecision>, rest: seq<ShadowDecision>, cmp: real)
    requires |head| <= 1
    ensures AtOrBefore(head + rest, cmp) == AtOrBefore(head, cmp) + AtOrBefore(rest, cmp)
  {
    if head != [] {
      assert (head + rest)[1..] == rest && head[1..] == [];
    } else {
      assert head + rest == rest;
    }
  }

  /** Records that come in after the launcher's decision change an entry's verdict in one case only: the
      shadow had no record of the entry at all, and now it has. With a record at or before the
      decision, neither the verdict nor the decision it is based on ever flips. */
  lemma LaterObservationsFlipOnlyPcOnly(name: string, pc: seq<PcDecision>, shadow: seq<ShadowDecision>,
                                        more: seq<ShadowDecision>, window: Window)
    requires LatestPc(PcEvents(pc, name, window)).Some?
    requires Extends(shadow, more, name, CompareTs(LatestPc(PcEvents(pc, name, window)).value))
    ensures var before, after := ReportFor(name, pc, shadow, window), ReportFor(name, pc, more, window);
            && before.basis == after.basis
            && (before.verdict == after.verdict
                <==> !(before.verdict == PcOnly && ShadowEvents(more, name, window) != []))
            && (before.basis.Some? ==> before.verdict == after.verdict)
            && (before.verdict != after.verdict ==> after.verdict == UnobservedRace)
  {
    hide IsProbeName, Basename, ProbeWorkspace, PcEvents, LatestPc, ShadowEvents, AtOrBefore, Latest,
         SelfOccupiedAfter, Extends, Judge;
    ExtensionKeepsPast(shadow, more, name, CompareTs(LatestPc(PcEvents(pc, name, window)).value), window);
    JudgeIsAboutTheBasis(name, pc, shadow, window);
  }

  lemma JudgeIsAboutTheBasis(name: string, pc: seq<PcDecision>, shadow: seq<ShadowDecision>, window: Window)
    ensures var r := ReportFor(name, pc, shadow, window); r.basis.Some? ==>
            r.verdict != PcOnly && r.verdict != UnobservedRace
  {
    hide IsProbeName, Basename, ProbeWorkspace, PcEvents, LatestPc, ShadowEvents, AtOrBefore, Latest,
         SelfOccupiedAfter, Occupier, IsSafetySkip;
  }

  /** An entry the launcher never decided is called a phantom exactly when its report already holds a
      shadow launch before it is classified. */
  lemma UndecidedPhantomIff(start: Report, events: seq<ShadowDecision>)
    ensures Classified(start, None, events).verdict == Phantom
            <==> start.basis.Some? && start.basis.value.kind == WouldLaunch
    ensures Classified(start, None, events).basis == start.basis
  {
  }

  /** No report of `compare_streams` takes that branch: every report starts without a shadow decision and is
      classified once, so an undecided entry is never a phantom, even when the shadow would launch it. */
  lemma UndecidedIsNeverPhantom(name: string, pc: seq<PcDecision>, shadow: seq<ShadowDecision>, window: Window)
    requires LatestPc(PcEvents(pc, name, window)).None?
    ensures ReportFor(name, pc, shadow, window).verdict != Phantom && ReportFor(name, pc, shadow, window).basis.None?
  {
    hide IsProbeName, Basename, ProbeWorkspace, PcEvents, LatestPc, ShadowEvents, Classified;
    UndecidedPhantomIff(NewReport(), ShadowEvents(shadow, name, window));
  }

  /** A phantom is a shadow launch against a launcher's hold. An entry the launcher never decided is
      always shadow-only, even when the shadow would launch it. */
  lemma PhantomIff(name: string, pc: seq<PcDecision>, shadow: seq<ShadowDecision>, window: Window)
    requires !IsProbeName(name) && !ProbeWorkspace(ShadowEvents(shadow, name, window))
    ensures var r := ReportFor(name, pc, shadow, window);
            var d := LatestPc(PcEvents(pc, name, window));
            && (r.verdict == Phantom
                <==> d.Some? && d.value.kind == Hold && r.basis.Some? && r.basis.value.kind == WouldLaunch)
            && (r.verdict == ShadowOnly <==> d.None?)
  {
    hide IsProbeName, Basename, ProbeWorkspace, PcEvents, LatestPc, ShadowEvents, AtOrBefore, Latest,
         SelfOccupiedAfter, Occupier, IsSafetySkip;
  }

  /** A launch is called missed exactly when the shadow's basis is a skip that names no occupying run and
      uses no safety wording. */
  lemma MissedIff(name: string, pc: seq<PcDecision>, shadow: seq<ShadowDecision>, window: Window)
    requires !IsProbeName(name) && !ProbeWorkspace(ShadowEvents(shadow, name, window))
    ensures var r := ReportFor(name, pc, shadow, window);
            var d := LatestPc(PcEvents(pc, name, window));
            r.verdict == Missed <==>
              && d.Some? && d.value.kind == Launch && r.basis.Some? && r.basis.value.kind == Skip
              && Occupier(r.basis.value.reason) == "" && !SafetyWording(r.basis.value.reason)
  {
    hide IsProbeName, Basename, ProbeWorkspace, PcEvents, LatestPc, ShadowEvents, AtOrBefore, Latest,
         SelfOccupiedAfter, Occupier, SafetyWording;
  }
}
