/** One-time nonces inside the signature window of the ask tools (src/lh_harness/caller_auth.py). */
module NonceWindow {
  import opened Common

  datatype Key = Key(caller: string, nonce: string)

  type Seen = map<Key, real>

  const MAX_PAST := 300.0
  const MAX_FUTURE := 30.0
  const LIFETIME := MAX_PAST + MAX_FUTURE

  function Live(seen: Seen, now: real): Seen {
    map key | key in seen && seen[key] > now :: seen[key]
  }

  /** One call of `use`: the table afterwards, and whether the nonce was accepted. */
  function UseNonce(seen: Seen, max: int, key: Key, now: real): (Seen, bool) {
    var table := if |seen| >= max then Live(seen, now) else seen;
    if |table| >= max then (table, false)
    else if key in table && table[key] > now then (table, false)
    else (table[key := now + LIFETIME], true)
  }

  class NonceCache {
    var seen: Seen
    const max: int

    constructor (max: int)
      ensures seen == map[] && this.max == max
    {
      seen, this.max := map[], max;
    }

    method Use(caller: string, nonce: string, now: real) returns (accepted: bool)
      modifies this
      ensures (seen, accepted) == UseNonce(old(seen), max, Key(caller, nonce), now)
    {
      if |seen| >= max {
        seen := map key | key in seen && seen[key] > now :: seen[key];
        if |seen| >= max { return false; }
      }
      var key := Key(caller, nonce);
      if key in seen && seen[key] > now { return false; }
      seen := seen[key := now + LIFETIME];
      return true;
    }
  }

  /** A nonce is accepted exactly when it is not live and the live entries leave room; an unexpired
      entry is never dropped, and the table stays within its maximum. */
  lemma UseMeans(seen: Seen, max: int, key: Key, now: real)
    ensures var (after, accepted) := UseNonce(seen, max, key, now);
            && (accepted <==> key !in Live(seen, now) && (|seen| < max || |Live(seen, now)| < max))
            && (forall k :: k in Live(seen, now) ==> k in after && after[k] == seen[k])
            && (accepted ==> after[key] == now + LIFETIME)
            && (|seen| <= max ==> |after| <= max)
            && (max <= 0 ==> !accepted)
  {
    assert Live(seen, now).Keys <= seen.Keys;
    SmallerMap(Live(seen, now), seen);
  }

  lemma SmallerMap(m: Seen, n: Seen)
    requires m.Keys <= n.Keys
    ensures |m| <= |n|
  {
    SubsetSize(m.Keys, n.Keys);
    assert |m.Keys| == |m| && |n.Keys| == |n|;
  }

  // ----- requests

  /** A request as it arrives at `now`; whether its signature is right does not change between arrivals. */
  datatype Request = Request(key: Key, ts: int, signatureOk: bool, now: real)

  predicate InTime(r: Request) {
    -MAX_FUTURE <= r.now - r.ts as real <= MAX_PAST
  }

  function Verify(seen: Seen, max: int, r: Request): (Seen, bool) {
    if !InTime(r) || !r.signatureOk then (seen, false) else UseNonce(seen, max, r.key, r.now)
  }

  function SeenAt(max: int, requests: seq<Request>, n: nat): Seen
    requires n <= |requests|
  {
    if n == 0 then map[] else Verify(SeenAt(max, requests, n - 1), max, requests[n - 1]).0
  }

  predicate Accepted(max: int, requests: seq<Request>, n: nat)
    requires n < |requests|
  {
    Verify(SeenAt(max, requests, n), max, requests[n]).1
  }

  predicate ClockNeverRunsBack(requests: seq<Request>) {
    forall i, j :: 0 <= i < j < |requests| ==> requests[i].now <= requests[j].now
  }

  /** An accepted nonce stays in the table for the whole lifetime of its entry. */
  lemma {:induction false} EntryStays(max: int, requests: seq<Request>, i: nat, n: nat)
    requires i < n <= |requests| && ClockNeverRunsBack(requests) && Accepted(max, requests, i)
    requires forall m :: i < m < n ==> requests[m].now < requests[i].now + LIFETIME
    ensures var seen := SeenAt(max, requests, n);
            requests[i].key in seen && seen[requests[i].key] == requests[i].now + LIFETIME
    decreases n - i
  {
    if n > i + 1 {
      EntryStays(max, requests, i, n - 1);
    }
  }

  /** Two acceptances of one nonce lie at least 330 seconds apart. */
  lemma AcceptancesAreFarApart(max: int, requests: seq<Request>, i: nat, j: nat)
    requires i < j < |requests| && ClockNeverRunsBack(requests)
    requires Accepted(max, requests, i) && Accepted(max, requests, j) && requests[i].key == requests[j].key
    ensures requests[j].now >= requests[i].now + LIFETIME
  {
    if requests[j].now < requests[i].now + LIFETIME {
      EntryStays(max, requests, i, j);
    }
  }

  /** One signed request is accepted twice at most at a single instant: 330 seconds after the first time,
      and only if its stamp lay the full 30 seconds in the future then. */
  lemma ReplayOnlyAtOneInstant(max: int, requests: seq<Request>, i: nat, j: nat)
    requires i < j < |requests| && ClockNeverRunsBack(requests)
    requires Accepted(max, requests, i) && Accepted(max, requests, j)
    requires requests[i].key == requests[j].key && requests[i].ts == requests[j].ts
    ensures requests[j].now == requests[i].now + LIFETIME && requests[i].ts as real == requests[i].now + MAX_FUTURE
  {
    AcceptancesAreFarApart(max, requests, i, j);
  }

  /** That instant is real: replayed next at any later time, an accepted request passes again exactly
      there. The window therefore closes one instant too late. */
  lemma ReplayPassesIff(seen: Seen, max: int, first: Request, later: real)
    requires Verify(seen, max, first).1 && |Verify(seen, max, first).0| < max && first.now <= later
    ensures Verify(Verify(seen, max, first).0, max, first.(now := later)).1
            <==> later == first.now + LIFETIME && first.ts as real == first.now + MAX_FUTURE
  {
  }

  lemma {:induction false} TableIsBounded(max: nat, requests: seq<Request>, n: nat)
    requires n <= |requests|
    ensures |SeenAt(max, requests, n)| <= max
  {
    if n > 0 {
      TableIsBounded(max, requests, n - 1);
      UseMeans(SeenAt(max, requests, n - 1), max, requests[n - 1].key, requests[n - 1].now);
    }
  }
}
