/** Recovering full instants from the bare HH:MM stamps of a launcher log (scripts/compare_shadow.py).
    Instants are seconds on a clock of fixed UTC offset; a day is counted from the same origin. */
module ShadowDates {
  import opened Common

  const DAY := 86400
  const DAY_ROLL_THRESHOLD := 1800
  const HALF_DAY := 43200

  /** A valid HH:MM, as minutes after midnight. */
  type Minute = m: int | 0 <= m < 1440

  function NaiveStamp(logDate: int, m: Minute): int {
    logDate * DAY + m * 60
  }

  function ResolveStamp(logDate: int, m: Minute, prev: Option<int>): int {
    var epoch := NaiveStamp(logDate, m);
    if prev.Some? && epoch - prev.value > HALF_DAY then epoch - DAY else epoch
  }

  predicate ReAnchors(logDate: int, m: Minute, prev: Option<int>) {
    prev.Some? && prev.value - NaiveStamp(logDate, m) > DAY_ROLL_THRESHOLD
  }

  /** The anchor date and the instant after one stamped line. */
  function NextStamp(logDate: int, m: Minute, prev: Option<int>): (int, int) {
    if ReAnchors(logDate, m, prev) then (logDate + 1, NaiveStamp(logDate + 1, m))
    else (logDate, ResolveStamp(logDate, m, prev))
  }

  function Recover(logDate: int, prev: Option<int>, stamps: seq<Minute>): seq<int>
    decreases |stamps|
  {
    if stamps == [] then []
    else
      var (date, ts) := NextStamp(logDate, stamps[0], prev);
      [ts] + Recover(date, Some(ts), stamps[1..])
  }

  function ReAnchorCount(logDate: int, prev: Option<int>, stamps: seq<Minute>): nat
    decreases |stamps|
  {
    if stamps == [] then 0
    else
      var (date, ts) := NextStamp(logDate, stamps[0], prev);
      (if ReAnchors(logDate, stamps[0], prev) then 1 else 0) + ReAnchorCount(date, Some(ts), stamps[1..])
  }

  /** The stamp loop of the log parser; `segments` counts the launcher invocations it told apart. */
  method RecoverStamps(logDate: int, stamps: seq<Minute>) returns (instants: seq<int>, segments: nat)
    ensures instants == Recover(logDate, None, stamps)
    ensures segments == 1 + ReAnchorCount(logDate, None, stamps)
  {
    instants, segments := [], 1;
    var date := logDate;
    var prev: Option<int> := None;
    for i := 0 to |stamps|
      invariant segments + ReAnchorCount(date, prev, stamps[i..]) == 1 + ReAnchorCount(logDate, None, stamps)
      invariant instants + Recover(date, prev, stamps[i..]) == Recover(logDate, None, stamps)
    {
      assert stamps[i..][1..] == stamps[i + 1..];
      var ts;
      if prev.Some? && prev.value - NaiveStamp(date, stamps[i]) > DAY_ROLL_THRESHOLD {
        date := date + 1;
        segments := segments + 1;
        ts := NaiveStamp(date, stamps[i]);
      } else {
        ts := ResolveStamp(date, stamps[i], prev);
      }
      prev := Some(ts);
      instants := instants + [ts];
    }
  }

  // ----- what a log line shows of an instant

  function DayOf(t: int): int {
    t / DAY
  }

  function MinuteOf(t: int): Minute {
    (t % DAY) / 60
  }

  predicate WholeMinutes(ts: seq<int>) {
    forall i :: 0 <= i < |ts| ==> ts[i] % 60 == 0
  }

  function Shown(ts: seq<int>): seq<Minute> {
    seq(|ts|, i requires 0 <= i < |ts| => MinuteOf(ts[i]))
  }

  function Max(a: int, b: int): int {
    if a > b then a else b
  }

  /** When the step from `prev` to `t` can be read back, `reached` being the latest day seen so far. */
  predicate Readable(reached: int, prev: int, t: int) {
    var step := t - prev;
    || (DayOf(t) == reached && -DAY_ROLL_THRESHOLD <= step <= HALF_DAY)
    || (DayOf(t) == reached + 1 && step < DAY - DAY_ROLL_THRESHOLD)
    || (DayOf(t) == reached - 1 && step > -HALF_DAY)
  }

  predicate AllReadable(reached: int, prev: int, ts: seq<int>)
    decreases |ts|
  {
    ts == [] || (Readable(reached, prev, ts[0]) && AllReadable(Max(reached, DayOf(ts[0])), ts[0], ts[1..]))
  }

  lemma NaiveOfShown(day: int, t: int)
    requires t % 60 == 0
    ensures NaiveStamp(day, MinuteOf(t)) == t + (day - DayOf(t)) * DAY
  {
    var r := t % DAY;
    assert t == DayOf(t) * DAY + r;
    assert r % 60 == 0 by { assert t % 60 == (1440 * DayOf(t) * 60 + r) % 60; }
    assert r / 60 * 60 == r;
  }

  /** One step is read back exactly when it is readable, and then the anchor moves to the latest day. */
  lemma StepIsReadBackIff(reached: int, prev: int, t: int)
    requires t % 60 == 0
    ensures var (date, ts) := NextStamp(reached, MinuteOf(t), Some(prev));
            && (ts == t <==> Readable(reached, prev, t))
            && (ts == t ==> date == Max(reached, DayOf(t)))
  {
    hide MinuteOf;
    NaiveOfShown(reached, t);
    NaiveOfShown(reached + 1, t);
    hide DayOf;
  }

  lemma {:induction false} RestIsReadBackIff(reached: int, prev: int, ts: seq<int>)
    requires WholeMinutes(ts)
    ensures Recover(reached, Some(prev), Shown(ts)) == ts <==> AllReadable(reached, prev, ts)
    decreases |ts|
  {
    if ts != [] {
      assert Shown(ts)[1..] == Shown(ts[1..]);
      StepIsReadBackIff(reached, prev, ts[0]);
      var (date, t) := NextStamp(reached, MinuteOf(ts[0]), Some(prev));
      RestIsReadBackIff(date, t, ts[1..]);
      assert ts == [ts[0]] + ts[1..];
      assert Recover(reached, Some(prev), Shown(ts)) == [t] + Recover(date, Some(t), Shown(ts[1..]));
      if Recover(reached, Some(prev), Shown(ts)) == ts {
        assert ([t] + Recover(date, Some(t), Shown(ts[1..])))[1..] == ts[1..];
      }
    }
  }

  /** The parser recovers every instant of a log from its HH:MM stamps if and only if the log starts on
      the given date and every step is readable. */
  lemma LogIsReadBackIff(logDate: int, ts: seq<int>)
    requires WholeMinutes(ts)
    ensures Recover(logDate, None, Shown(ts)) == ts
            <==> (ts == [] || (DayOf(ts[0]) == logDate && AllReadable(logDate, ts[0], ts[1..])))
  {
    if ts != [] {
      NaiveOfShown(logDate, ts[0]);
      assert Shown(ts)[1..] == Shown(ts[1..]);
      var t := NaiveStamp(logDate, MinuteOf(ts[0]));
      RestIsReadBackIff(logDate, t, ts[1..]);
      assert ts == [ts[0]] + ts[1..];
      assert Recover(logDate, None, Shown(ts)) == [t] + Recover(logDate, Some(t), Shown(ts[1..]));
      if Recover(logDate, None, Shown(ts)) == ts {
        assert ([t] + Recover(logDate, Some(t), Shown(ts[1..])))[1..] == ts[1..];
      }
    }
  }

  /** Consecutive steps between half an hour back and half a day forward, and never more than one
      calendar day behind the latest day reached. */
  predicate Orderly(reached: int, prev: int, ts: seq<int>)
    decreases |ts|
  {
    ts == [] ||
    (&& -DAY_ROLL_THRESHOLD <= ts[0] - prev <= HALF_DAY
     && DayOf(ts[0]) >= reached - 1
     && Orderly(Max(reached, DayOf(ts[0])), ts[0], ts[1..]))
  }

  lemma {:induction false} OrderlyIsReadable(reached: int, prev: int, ts: seq<int>)
    requires DayOf(prev) <= reached && Orderly(reached, prev, ts)
    ensures AllReadable(reached, prev, ts)
    decreases |ts|
  {
    if ts != [] {
      OrderlyIsReadable(Max(reached, DayOf(ts[0])), ts[0], ts[1..]);
    }
  }

  /** An orderly log is recovered exactly. */
  lemma OrderlyLogIsReadBack(logDate: int, ts: seq<int>)
    requires WholeMinutes(ts) && ts != [] && DayOf(ts[0]) == logDate && Orderly(logDate, ts[0], ts[1..])
    ensures Recover(logDate, None, Shown(ts)) == ts
  {
    OrderlyIsReadable(logDate, ts[0], ts[1..]);
    LogIsReadBackIff(logDate, ts);
  }
}
