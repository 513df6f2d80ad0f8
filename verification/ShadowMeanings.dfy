/** The verdicts read off the two logs: which records decide an entry, and when each verdict is given. */
module ShadowMeanings {
  import opened Common
  import opened ShadowVerdicts

  // ----- which records decide

  /** The launcher decided this entry with the record. */
  predicate Decides(d: PcDecision, name: string, window: Window) {
    d.name == name && (window.Always? || window.low <= d.ts <= window.high)
  }

  /** The shadow's record is about this entry. */
  predicate Concerns(d: ShadowDecision, name: string, window: Window) {
    name != "" && d.name == name && (window.Always? || window.low <= d.ts <= window.high)
  }

  lemma {:induction false} PcEventIff(pc: seq<PcDecision>, name: string, window: Window, d: PcDecision)
    ensures d in PcEvents(pc, name, window) <==> d in pc && Decides(d, name, window)
  {
    if pc != [] { PcEventIff(pc[1..], name, window, d); }
  }

  lemma {:induction false} ShadowEventIff(shadow: seq<ShadowDecision>, name: string, window: Window, d: ShadowDecision)
    ensures d in ShadowEvents(shadow, name, window) <==> d in shadow && Concerns(d, name, window)
  {
    if shadow != [] { ShadowEventIff(shadow[1..], name, window, d); }
  }

  lemma {:induction false} AtOrBeforeIff(events: seq<ShadowDecision>, cmp: real, d: ShadowDecision)
    ensures d in AtOrBefore(events, cmp) <==> d in events && d.ts <= cmp
  {
    if events != [] { AtOrBeforeIff(events[1..], cmp, d); }
  }

  lemma {:induction false} LatestPcIsMaximal(events: seq<PcDecision>)
    ensures LatestPc(events).None? <==> events == []
    ensures LatestPc(events).Some? ==> LatestPc(events).value in events
    ensures LatestPc(events).Some? ==> forall d :: d in events ==> d.ts <= LatestPc(events).value.ts
  {
    if events != [] {
      LatestPcIsMaximal(events[..|events| - 1]);
    }
  }

  /** The launcher's last word on an entry: a decision of its own, and none of them is later. */
  lemma DecisionIsLatest(name: string, pc: seq<PcDecision>, window: Window)
    ensures var d := LatestPc(PcEvents(pc, name, window));
            && (d.Some? <==> exists e :: e in pc && Decides(e, name, window))
            && (d.Some? ==> d.value in pc && Decides(d.value, name, window)
                            && forall e :: e in pc && Decides(e, name, window) ==> e.ts <= d.value.ts)
  {
    hide Decides, PcEvents, LatestPc;
    var events := PcEvents(pc, name, window);
    LatestPcIsMaximal(events);
    forall e ensures e in events <==> e in pc && Decides(e, name, window) { PcEventIff(pc, name, window, e); }
    if events != [] { assert events[0] in events; }
  }

  /** The instant up to which shadow records count: the run id's own, or the end of the stamped minute. */
  lemma CompareInstant(d: PcDecision)
    ensures CompareTs(d) == match d.exactTs case Some(t) => t case None => d.ts + 60.0
  {
  }

  /** The basis of a judged entry: a shadow record on it at or before the decision's compare instant, and none of
      those is later. There is no basis exactly when there is no such record. */
  lemma BasisIsLatestKnown(name: string, pc: seq<PcDecision>, shadow: seq<ShadowDecision>, window: Window)
    requires !IsProbeName(name) && !ProbeWorkspace(ShadowEvents(shadow, name, window))
    requires LatestPc(PcEvents(pc, name, window)).Some?
    ensures var cmp := CompareTs(LatestPc(PcEvents(pc, name, window)).value);
            var basis := ReportFor(name, pc, shadow, window).basis;
            && (basis.Some? <==> exists e :: e in shadow && Concerns(e, name, window) && e.ts <= cmp)
            && (basis.Some? ==> basis.value in shadow && Concerns(basis.value, name, window) && basis.value.ts <= cmp)
            && (basis.Some? ==>
                  forall e :: e in shadow && Concerns(e, name, window) && e.ts <= cmp ==> e.ts <= basis.value.ts)
  {
    hide IsProbeName, Basename, ProbeWorkspace, PcEvents, LatestPc, Concerns, ShadowEvents, AtOrBefore, Latest,
         CompareTs, SelfOccupiedAfter, Judge;
    var cmp := CompareTs(LatestPc(PcEvents(pc, name, window)).value);
    var events := ShadowEvents(shadow, name, window);
    var known := AtOrBefore(events, cmp);
    forall e ensures e in known <==> e in shadow && Concerns(e, name, window) && e.ts <= cmp {
      ShadowEventIff(shadow, name, window, e);
      AtOrBeforeIff(events, cmp, e);
    }
    LatestIn(known);
    if known != [] { assert known[0] in known; }
  }

  lemma LatestIn(events: seq<ShadowDecision>)
    ensures Latest(events).None? <==> events == []
    ensures Latest(events).Some? ==> Latest(events).value in events
    ensures Latest(events).Some? ==> forall d :: d in events ==> d.ts <= Latest(events).value.ts
  {
    hide Latest;
    LatestIsMaximal(events);
  }

  // ----- the verdicts

  predicate NotProbe(name: string, shadow: seq<ShadowDecision>, window: Window) {
    !IsProbeName(name) && !ProbeWorkspace(ShadowEvents(shadow, name, window))
  }

  /** Agreement is a launch on both sides, or a hold against a skip. */
  lemma AgreeIff(name: string, pc: seq<PcDecision>, shadow: seq<ShadowDecision>, window: Window)
    requires NotProbe(name, shadow, window)
    ensures var r := ReportFor(name, pc, shadow, window);
            var d := LatestPc(PcEvents(pc, name, window));
            r.verdict == Agree <==>
              && d.Some? && r.basis.Some?
              && ((d.value.kind == Launch && r.basis.value.kind == WouldLaunch)
                  || (d.value.kind == Hold && r.basis.value.kind == Skip))
  {
    hide IsProbeName, Basename, ProbeWorkspace, PcEvents, LatestPc, ShadowEvents, AtOrBefore, Latest, SelfOccupiedAfter,
         Occupier, IsSafetySkip;
  }

  /** Self-occupied is a launch against a skip that names the launched run itself. */
  lemma SelfOccupiedIff(name: string, pc: seq<PcDecision>, shadow: seq<ShadowDecision>, window: Window)
    requires NotProbe(name, shadow, window)
    ensures var r := ReportFor(name, pc, shadow, window);
            var d := LatestPc(PcEvents(pc, name, window));
            r.verdict == SelfOccupied <==>
              && d.Some? && d.value.kind == Launch && r.basis.Some? && r.basis.value.kind == Skip
              && d.value.runId != "" && Occupier(r.basis.value.reason) == d.value.runId
  {
    hide IsProbeName, Basename, ProbeWorkspace, PcEvents, LatestPc, ShadowEvents, AtOrBefore, Latest, SelfOccupiedAfter,
         Occupier, IsSafetySkip;
  }

  /** More conservative is a launch against a skip that names another run or uses safety wording. */
  lemma MoreConservativeIff(name: string, pc: seq<PcDecision>, shadow: seq<ShadowDecision>, window: Window)
    requires NotProbe(name, shadow, window)
    ensures var r := ReportFor(name, pc, shadow, window);
            var d := LatestPc(PcEvents(pc, name, window));
            r.verdict == ShadowMoreConservative <==>
              && d.Some? && d.value.kind == Launch && r.basis.Some? && r.basis.value.kind == Skip
              && !(d.value.runId != "" && Occupier(r.basis.value.reason) == d.value.runId)
              && (Occupier(r.basis.value.reason) != "" || SafetyWording(r.basis.value.reason))
  {
    hide IsProbeName, Basename, ProbeWorkspace, PcEvents, LatestPc, ShadowEvents, AtOrBefore, Latest, SelfOccupiedAfter,
         Occupier, SafetyWording;
  }

  /** Pc-only is a decision on an entry of which the shadow has no record at all; an unobserved race is one of
      which it has later records only. */
  lemma UnseenIff(name: string, pc: seq<PcDecision>, shadow: seq<ShadowDecision>, window: Window)
    requires NotProbe(name, shadow, window)
    ensures var r := ReportFor(name, pc, shadow, window);
            var d := LatestPc(PcEvents(pc, name, window));
            var seen := exists e :: e in shadow && Concerns(e, name, window);
            && (r.verdict == PcOnly <==> d.Some? && !seen)
            && (r.verdict == UnobservedRace <==> d.Some? && seen && r.basis.None?)
  {
    hide IsProbeName, Basename, ProbeWorkspace, PcEvents, LatestPc, ShadowEvents, Occupier, IsSafetySkip, Concerns,
         AtOrBefore, Latest, SelfOccupiedAfter;
    var events := ShadowEvents(shadow, name, window);
    forall e ensures e in events <==> e in shadow && Concerns(e, name, window) {
      ShadowEventIff(shadow, name, window, e);
    }
    if events != [] { assert events[0] in events; }
    if LatestPc(PcEvents(pc, name, window)).Some? && events == [] {
      NoBasisOfNothing(CompareTs(LatestPc(PcEvents(pc, name, window)).value));
    }
  }

  lemma NoBasisOfNothing(cmp: real)
    ensures Latest(AtOrBefore([], cmp)) == None
  {
  }

  // ----- the run a skip names

  predicate AllSpace(s: string) {
    forall k :: 0 <= k < |s| ==> IsSpace(s[k])
  }

  predicate NoSpace(s: string) {
    forall k :: 0 <= k < |s| ==> !IsSpace(s[k])
  }

  /** The text starts with "has active run", whitespace and this run. */
  ghost predicate Names(s: string, run: string) {
    exists gap, rest ::
      s == "has active run" + gap + run + rest && gap != "" && AllSpace(gap) && run != "" && NoSpace(run)
      && (rest == "" || IsSpace(rest[0]))
  }

  lemma {:induction false} SpaceRunOf(gap: string, rest: string)
    requires AllSpace(gap) && (rest == "" || !IsSpace(rest[0]))
    ensures SpaceRun(gap + rest) == |gap|
  {
    hide IsSpace;
    if gap == "" {
      assert gap + rest == rest;
    } else {
      SpaceRunOf(gap[1..], rest);
      assert (gap + rest)[1..] == gap[1..] + rest;
    }
  }

  lemma {:induction false} WordRunOf(run: string, rest: string)
    requires NoSpace(run) && (rest == "" || IsSpace(rest[0]))
    ensures WordRun(run + rest) == |run|
  {
    hide IsSpace;
    if run == "" {
      assert run + rest == rest;
    } else {
      WordRunOf(run[1..], rest);
      assert (run + rest)[1..] == run[1..] + rest;
    }
  }

  lemma {:induction false} SpaceRunIs(s: string)
    ensures AllSpace(s[..SpaceRun(s)])
  {
    hide IsSpace;
    if s != "" && IsSpace(s[0]) {
      SpaceRunIs(s[1..]);
      assert s[..SpaceRun(s)] == [s[0]] + s[1..][..SpaceRun(s[1..])];
    }
  }

  lemma {:induction false} WordRunIs(s: string)
    ensures NoSpace(s[..WordRun(s)]) && (WordRun(s) == |s| || IsSpace(s[WordRun(s)]))
  {
    hide IsSpace;
    if s != "" && !IsSpace(s[0]) {
      WordRunIs(s[1..]);
      assert s[..WordRun(s)] == [s[0]] + s[1..][..WordRun(s[1..])];
    }
  }

  /** The run named at the start of the text, or "". */
  function NamedAtStart(s: string): string {
    if ACTIVE_RUN <= s then
      var rest := s[|ACTIVE_RUN|..];
      var spaces := SpaceRun(rest);
      if spaces > 0 then rest[spaces..spaces + WordRun(rest[spaces..])] else ""
    else ""
  }

  lemma NamesBy(s: string, gap: string, run: string, rest: string)
    requires s == ACTIVE_RUN + (gap + run + rest) && gap != "" && AllSpace(gap) && run != "" && NoSpace(run)
    requires rest == "" || IsSpace(rest[0])
    ensures Names(s, run)
  {
    hide AllSpace, NoSpace, IsSpace;
    assert s == "has active run" + gap + run + rest;
  }

  lemma NamedAtStartIs(s: string)
    ensures NamedAtStart(s) != "" ==> Names(s, NamedAtStart(s))
  {
    hide IsSpace, SpaceRun, WordRun, AllSpace, NoSpace;
    if NamedAtStart(s) != "" {
      var rest := s[|ACTIVE_RUN|..];
      var spaces := SpaceRun(rest);
      var tail := rest[spaces..];
      var word := WordRun(tail);
      SpaceRunIs(rest);
      WordRunIs(tail);
      assert rest[spaces..spaces + word] == tail[..word];
      assert rest == rest[..spaces] + tail[..word] + tail[word..];
      assert s == ACTIVE_RUN + rest;
      NamesBy(s, rest[..spaces], tail[..word], tail[word..]);
    }
  }

  lemma NamesIsNamedAtStart(s: string, run: string)
    requires Names(s, run)
    ensures NamedAtStart(s) == run
  {
    hide IsSpace, SpaceRun, WordRun, AllSpace, NoSpace;
    var gap, rest :| s == "has active run" + gap + run + rest && gap != "" && AllSpace(gap) && run != "" && NoSpace(run)
                     && (rest == "" || IsSpace(rest[0]));
    var tail := s[|ACTIVE_RUN|..];
    assert tail == gap + (run + rest);
    FirstOfRun(run);
    SpaceRunOf(gap, run + rest);
    WordRunOf(run, rest);
    assert tail[|gap|..] == run + rest;
    assert tail[|gap|..|gap| + |run|] == run;
  }

  lemma FirstOfRun(run: string)
    requires run != "" && NoSpace(run)
    ensures !IsSpace(run[0])
  {
  }

  lemma OccupierStep(reason: string)
    requires reason != ""
    ensures Occupier(reason) == if NamedAtStart(reason) != "" then NamedAtStart(reason) else Occupier(reason[1..])
  {
    hide IsSpace, SpaceRun, WordRun;
  }

  ghost predicate NoneNamed(reason: string, n: nat) {
    forall j, run :: 0 <= j < n && j <= |reason| ==> !Names(reason[j..], run)
  }

  /** The occupier is the run behind the first "has active run" that names one, and "" when none does. */
  lemma {:induction false} OccupierIs(reason: string)
    ensures Occupier(reason) == "" ==> NoneNamed(reason, |reason| + 1)
    ensures Occupier(reason) != "" ==>
              exists i :: 0 <= i <= |reason| && Names(reason[i..], Occupier(reason)) && NoneNamed(reason, i)
  {
    hide NamedAtStart, Names;
    if reason == "" {
      forall run ensures !Names(reason[0..], run) { NothingNamed(reason[0..], run); }
    } else {
      OccupierStep(reason);
      NamedAtStartIs(reason);
      assert reason[0..] == reason;
      if NamedAtStart(reason) == "" {
        var tail := reason[1..];
        OccupierIs(tail);
        forall run ensures !Names(reason[0..], run) { NotNamedHere(reason, run); }
        assert forall j :: 0 <= j <= |tail| ==> tail[j..] == reason[j + 1..];
        if Occupier(tail) == "" {
          ShiftNone(reason, |reason|);
        } else {
          var i :| 0 <= i <= |tail| && Names(tail[i..], Occupier(tail)) && NoneNamed(tail, i);
          ShiftNone(reason, i);
          assert Names(reason[i + 1..], Occupier(reason));
        }
      }
    }
  }

  lemma NothingNamed(s: string, run: string)
    requires s == ""
    ensures !Names(s, run)
  {
  }

  lemma NotNamedHere(reason: string, run: string)
    requires NamedAtStart(reason) == ""
    ensures !Names(reason[0..], run)
  {
    hide NamedAtStart;
    assert reason[0..] == reason;
    if Names(reason, run) {
      NamesIsNamedAtStart(reason, run);
      NamedIsSome(reason, run);
    }
  }

  lemma NamedIsSome(s: string, run: string)
    requires Names(s, run)
    ensures run != ""
  {
  }

  lemma ShiftNone(reason: string, n: nat)
    requires reason != "" && NoneNamed(reason[1..], n) && forall run :: !Names(reason[0..], run)
    ensures NoneNamed(reason, n + 1)
  {
    hide Names;
    var tail := reason[1..];
    forall j, run | 0 <= j < n + 1 && j <= |reason| ensures !Names(reason[j..], run) {
      if j > 0 { assert tail[j - 1..] == reason[j..]; }
    }
  }
}
