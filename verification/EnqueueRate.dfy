/** The hourly enqueue ceiling and its retry advice (src/lh_harness/caller_auth.py). */
module EnqueueRate {
  import opened Common

  datatype Entry = Entry(requestedBy: string, createdAt: real)

  const WINDOW := 3600.0

  function Ceil(x: real): int {
    -((-x).Floor)
  }

  function Max(a: int, b: int): int {
    if a > b then a else b
  }

  /** The caller's entries not older than `since`. */
  function Since(entries: seq<Entry>, caller: string, since: real): seq<Entry> {
    if entries == [] then []
    else
      var rest := Since(entries[..|entries| - 1], caller, since);
      var e := entries[|entries| - 1];
      if e.requestedBy == caller && e.createdAt >= since then rest + [e] else rest
  }

  function Oldest(entries: seq<Entry>): (t: real)
    requires entries != []
    ensures exists i :: 0 <= i < |entries| && entries[i].createdAt == t
    ensures forall i :: 0 <= i < |entries| ==> entries[i].createdAt >= t
  {
    if |entries| == 1 then entries[0].createdAt
    else
      var t := Oldest(entries[..|entries| - 1]);
      var e := entries[|entries| - 1];
      assert forall i :: 0 <= i < |entries| - 1 ==> entries[..|entries| - 1][i] == entries[i];
      if e.createdAt < t then e.createdAt else t
  }

  /** None admits the caller; otherwise the advised number of seconds to wait. No limit, or a malformed
      one, admits everyone. */
  function RateViolation(limit: Option<int>, entries: seq<Entry>, caller: string, now: real): Option<int> {
    if limit.None? || limit.value < 0 then None
    else
      var recent := Since(entries, caller, now - WINDOW);
      if |recent| < limit.value then None
      else if recent != [] then Some(Max(1, Ceil(Oldest(recent) + WINDOW - now)))
      else Some(3600)
  }

  // ----- the ceiling holds in every window

  /** How many of the caller's entries lie in the closed window [low, low + 3600]. */
  function InWindow(entries: seq<Entry>, caller: string, low: real): nat {
    if entries == [] then 0
    else
      var e := entries[|entries| - 1];
      InWindow(entries[..|entries| - 1], caller, low)
      + if e.requestedBy == caller && low <= e.createdAt <= low + WINDOW then 1 else 0
  }

  lemma {:induction false} WindowWithinSince(entries: seq<Entry>, caller: string, low: real, since: real)
    requires since <= low
    ensures InWindow(entries, caller, low) <= |Since(entries, caller, since)|
  {
    if entries != [] { WindowWithinSince(entries[..|entries| - 1], caller, low, since); }
  }

  datatype Attempt = Attempt(caller: string, now: real)

  /** The queue after `n` attempts; `limits` is the configured ceiling of each caller. */
  function QueueAt(limits: map<string, int>, attempts: seq<Attempt>, n: nat): seq<Entry>
    requires n <= |attempts|
  {
    if n == 0 then []
    else
      var entries, a := QueueAt(limits, attempts, n - 1), attempts[n - 1];
      var limit := if a.caller in limits then Some(limits[a.caller]) else None;
      if RateViolation(limit, entries, a.caller, a.now).None? then entries + [Entry(a.caller, a.now)] else entries
  }

  /** Whatever the attempts and their clocks, no closed window of 3600 seconds ever holds more than the
      ceiling of a caller's admitted entries. */
  lemma {:induction false} EveryWindowIsBounded(limits: map<string, int>, attempts: seq<Attempt>, n: nat,
                                                caller: string, low: real)
    requires n <= |attempts| && caller in limits && limits[caller] >= 0
    ensures InWindow(QueueAt(limits, attempts, n), caller, low) <= limits[caller]
  {
    if n > 0 {
      EveryWindowIsBounded(limits, attempts, n - 1, caller, low);
      var entries, a := QueueAt(limits, attempts, n - 1), attempts[n - 1];
      var more := entries + [Entry(a.caller, a.now)];
      assert more[..|more| - 1] == entries;
      if a.caller == caller && low <= a.now <= low + WINDOW {
        WindowWithinSince(entries, caller, low, a.now - WINDOW);
      }
    }
  }

  // ----- the retry advice

  lemma {:induction false} SinceMembers(entries: seq<Entry>, caller: string, since: real)
    ensures forall i :: 0 <= i < |Since(entries, caller, since)| ==> Since(entries, caller, since)[i].createdAt >= since
  {
    if entries != [] { SinceMembers(entries[..|entries| - 1], caller, since); }
  }

  lemma {:induction false} SinceLater(entries: seq<Entry>, caller: string, since: real, later: real)
    requires since <= later
    ensures |Since(entries, caller, later)| <= |Since(entries, caller, since)|
    ensures (forall i :: 0 <= i < |Since(entries, caller, since)| ==>
             Since(entries, caller, since)[i].createdAt >= later)
            <==> |Since(entries, caller, later)| == |Since(entries, caller, since)|
    ensures (forall i :: 0 <= i < |Since(entries, caller, since)| ==>
             Since(entries, caller, since)[i].createdAt >= later)
            ==> Since(entries, caller, later) == Since(entries, caller, since)
  {
    if entries != [] {
      var front, e := entries[..|entries| - 1], entries[|entries| - 1];
      SinceLater(front, caller, since, later);
      var s, rest := Since(entries, caller, since), Since(front, caller, since);
      assert forall i :: 0 <= i < |rest| ==> s[i] == rest[i];
      if e.requestedBy == caller && e.createdAt >= since {
        assert s[|rest|] == e;
      }
    }
  }

  /** How many of the entries have left the window by `later`. */
  function LeftBy(entries: seq<Entry>, later: real): nat {
    if entries == [] then 0
    else
      LeftBy(entries[..|entries| - 1], later) + if entries[|entries| - 1].createdAt + WINDOW < later then 1 else 0
  }

  lemma {:induction false} LeftByConcat(s: seq<Entry>, e: Entry, later: real)
    ensures LeftBy(s + [e], later) == LeftBy(s, later) + if e.createdAt + WINDOW < later then 1 else 0
  {
    assert (s + [e])[..|s|] == s;
  }

  /** Time takes entries out of the window one by one, as they come of age. */
  lemma {:induction false} SinceLoses(entries: seq<Entry>, caller: string, now: real, later: real)
    requires now <= later
    ensures var recent := Since(entries, caller, now - WINDOW);
            |Since(entries, caller, later - WINDOW)| == |recent| - LeftBy(recent, later)
  {
    if entries != [] {
      var front, e := entries[..|entries| - 1], entries[|entries| - 1];
      SinceLoses(front, caller, now, later);
      LeftByConcat(Since(front, caller, now - WINDOW), e, later);
    }
  }

  lemma {:induction false} LeftByBounds(entries: seq<Entry>, later: real)
    ensures LeftBy(entries, later) <= |entries|
    ensures LeftBy(entries, later) > 0 <==> exists i :: 0 <= i < |entries| && entries[i].createdAt + WINDOW < later
  {
    if entries != [] {
      var front, e := entries[..|entries| - 1], entries[|entries| - 1];
      LeftByBounds(front, later);
      assert forall i :: 0 <= i < |front| ==> front[i] == entries[i];
      assert entries[|front|] == e;
    }
  }

  /** Whatever the ceiling and however many entries the window holds, a later attempt on the same queue is
      admitted if and only if by then so many of them have left that fewer than `limit` remain. */
  lemma AdmittedIffEnoughLeft(limit: int, entries: seq<Entry>, caller: string, now: real, later: real)
    requires limit >= 0 && now <= later
    ensures var recent := Since(entries, caller, now - WINDOW);
            RateViolation(Some(limit), entries, caller, later).None? <==> LeftBy(recent, later) > |recent| - limit
  {
    hide Since, LeftBy;
    SinceLoses(entries, caller, now, later);
  }

  /** With exactly `limit` entries in the window, that is when the oldest of them is more than 3600 seconds
      old. */
  lemma AdmittedIffOldestLeft(limit: int, entries: seq<Entry>, caller: string, now: real, later: real)
    requires limit > 0 && |Since(entries, caller, now - WINDOW)| == limit && now <= later
    ensures RateViolation(Some(limit), entries, caller, later).None?
            <==> later > Oldest(Since(entries, caller, now - WINDOW)) + WINDOW
  {
    hide Since, LeftBy, RateViolation;
    AdmittedIffEnoughLeft(limit, entries, caller, now, later);
    LeftByBounds(Since(entries, caller, now - WINDOW), later);
  }

  /** A refused caller stays refused until its oldest recent entry leaves the window, however far over
      the ceiling it is. */
  lemma RefusedUntilOldestLeaves(limit: int, entries: seq<Entry>, caller: string, now: real, later: real)
    requires limit >= 0 && RateViolation(Some(limit), entries, caller, now).Some?
             && Since(entries, caller, now - WINDOW) != []
    requires now <= later <= Oldest(Since(entries, caller, now - WINDOW)) + WINDOW
    ensures RateViolation(Some(limit), entries, caller, later).Some?
  {
    SinceLater(entries, caller, now - WINDOW, later - WINDOW);
  }

  predicate IsWhole(x: real) {
    x == x.Floor as real
  }

  lemma CeilBounds(x: real)
    ensures x <= Ceil(x) as real < x + 1.0
    ensures IsWhole(x) <==> Ceil(x) as real == x
  {
    var f := (-x).Floor;
    assert f as real <= -x < f as real + 1.0;
    assert Ceil(x) as real == -(f as real);
    if IsWhole(x) {
      WholeFloor(x.Floor, f);
    }
  }

  lemma WholeFloor(n: int, f: int)
    requires f as real <= -(n as real) < f as real + 1.0
    ensures f == -n
  {
    assert (-n) as real == -(n as real);
  }

  /** The advised wait, for any ceiling and any number of recent entries of a refused caller: it is the time
      until the oldest of them leaves, right to within one second, or an hour when there are none. Coming
      back then succeeds if and only if by then more of them have left than the window holds above the
      ceiling: never under a zero ceiling, and with exactly `limit` entries unless the oldest leaves after
      a whole, positive number of seconds - the entry is then still counted at that very instant. */
  lemma RetryAdvice(limit: int, entries: seq<Entry>, caller: string, now: real)
    requires limit >= 0 && RateViolation(Some(limit), entries, caller, now).Some?
    ensures var advice := RateViolation(Some(limit), entries, caller, now).value;
            var recent := Since(entries, caller, now - WINDOW);
            var back := now + advice as real;
            var admitted := RateViolation(Some(limit), entries, caller, back).None?;
            && (recent == [] ==> limit == 0 && advice == 3600)
            && (recent != [] ==> var wait := Oldest(recent) + WINDOW - now; wait <= advice as real <= wait + 1.0)
            && (admitted <==> LeftBy(recent, back) > |recent| - limit)
            && (limit == 0 ==> !admitted)
            && (limit > 0 && |recent| == limit ==>
                  var wait := Oldest(recent) + WINDOW - now; admitted <==> !(wait > 0.0 && IsWhole(wait)))
  {
    hide LeftBy, Oldest;
    var recent := Since(entries, caller, now - WINDOW);
    var advice := RateViolation(Some(limit), entries, caller, now).value;
    hide Since;
    AdviceIsClose(limit, entries, caller, now);
    AdmittedIffEnoughLeft(limit, entries, caller, now, now + advice as real);
    LeftByBounds(recent, now + advice as real);
    if limit > 0 && |recent| == limit {
      AdmittedIffOldestLeft(limit, entries, caller, now, now + advice as real);
    }
  }

  lemma AdviceIsClose(limit: int, entries: seq<Entry>, caller: string, now: real)
    requires limit >= 0 && RateViolation(Some(limit), entries, caller, now).Some?
    ensures var advice := RateViolation(Some(limit), entries, caller, now).value;
            var recent := Since(entries, caller, now - WINDOW);
            && advice >= 1 && (recent == [] ==> limit == 0 && advice == 3600)
            && (recent != [] ==>
                  var wait := Oldest(recent) + WINDOW - now;
                  wait <= advice as real <= wait + 1.0 && (advice as real > wait <==> !(wait > 0.0 && IsWhole(wait))))
  {
    var recent := Since(entries, caller, now - WINDOW);
    if recent != [] {
      SinceMembers(entries, caller, now - WINDOW);
      var wait := Oldest(recent) + WINDOW - now;
      hide Since;
      if wait > 0.0 { CeilBounds(wait); }
    }
  }

  // ----- whose entries count

  /** The positions of the caller's entries that are at most an hour old. */
  function Recent(entries: seq<Entry>, caller: string, now: real): set<nat> {
    set i: nat | i < |entries| && entries[i].requestedBy == caller && now - entries[i].createdAt <= 3600.0
  }

  lemma {:induction false} SinceCounts(entries: seq<Entry>, caller: string, now: real)
    ensures |Since(entries, caller, now - WINDOW)| == |Recent(entries, caller, now)|
  {
    if entries == [] {
      assert Recent(entries, caller, now) == {};
    } else {
      var n := |entries| - 1;
      var front := entries[..n];
      SinceCounts(front, caller, now);
      assert Recent(entries, caller, now) - {n} == Recent(front, caller, now);
    }
  }

  /** A caller with a ceiling is refused exactly when at least that many of its own entries are at most an hour
      old; without one, or with a negative one, it is never refused. */
  lemma RefusedIff(limit: Option<int>, entries: seq<Entry>, caller: string, now: real)
    ensures RateViolation(limit, entries, caller, now).Some?
            <==> limit.Some? && 0 <= limit.value <= |Recent(entries, caller, now)|
  {
    hide Since, Oldest;
    SinceCounts(entries, caller, now);
  }

  /** The caller's entries in order. */
  function Own(entries: seq<Entry>, caller: string): seq<Entry> {
    if entries == [] then []
    else
      Own(entries[..|entries| - 1], caller)
      + if entries[|entries| - 1].requestedBy == caller then [entries[|entries| - 1]] else []
  }

  lemma {:induction false} SinceOfOwn(entries: seq<Entry>, caller: string, since: real)
    ensures Since(Own(entries, caller), caller, since) == Since(entries, caller, since)
  {
    if entries != [] {
      var front, e := entries[..|entries| - 1], entries[|entries| - 1];
      SinceOfOwn(front, caller, since);
      var own := Own(front, caller);
      assert (own + [e])[..|own|] == own;
      assert own + [] == own;
    }
  }

  /** Other callers' entries change nothing: queues with the same entries of the caller give the same answer. */
  lemma OthersDoNotCount(limit: Option<int>, entries: seq<Entry>, other: seq<Entry>, caller: string, now: real)
    requires Own(entries, caller) == Own(other, caller)
    ensures RateViolation(limit, entries, caller, now) == RateViolation(limit, other, caller, now)
  {
    hide Since, Own;
    SinceOfOwn(entries, caller, now - WINDOW);
    SinceOfOwn(other, caller, now - WINDOW);
  }
}
