/** Grouping active runs that share a workspace (src/lh_harness/contention.py). */
module Contention {
  import opened Common

  /** The identity of a workspace; "" stands for a value git did not give. */
  datatype Identity = Identity(path: string, key: string, repoId: string, branch: string, commonDir: string)

  // The tiers in ascending order.
  const SAME_REPO := 0
  const SAME_REPO_SAME_BRANCH := 1
  const SHARED_GIT_DIR := 2
  const SAME_TREE := 3

  function TierFor(left: Identity, right: Identity): Option<nat> {
    if left.key != "" && left.key == right.key then Some(SAME_TREE)
    else if left.commonDir != "" && left.commonDir == right.commonDir then Some(SHARED_GIT_DIR)
    else if left.repoId != "" && left.repoId == right.repoId then
      if left.branch != "" && left.branch == right.branch then Some(SAME_REPO_SAME_BRANCH) else Some(SAME_REPO)
    else None
  }

  /** The group of a pair. The path key is never passed on, so pairs known only by path share "unknown". */
  function GroupKey(left: Identity, right: Identity): string {
    var repoId := if left.repoId != "" then left.repoId else right.repoId;
    var commonDir := if left.commonDir != "" then left.commonDir else right.commonDir;
    if commonDir != "" then "common:" + commonDir else if repoId != "" then "repo:" + repoId else "unknown"
  }

  /** Each tier on the identities: one tree, else one git directory, else one repository - on one known branch or
      not - else nothing. An identity git does not give is never shared. */
  lemma TierIff(l: Identity, r: Identity)
    ensures var tree, dir := l.key != "" && l.key == r.key, l.commonDir != "" && l.commonDir == r.commonDir;
            var repo, branch := l.repoId != "" && l.repoId == r.repoId, l.branch != "" && l.branch == r.branch;
            && (TierFor(l, r) == Some(3) <==> tree)
            && (TierFor(l, r) == Some(2) <==> !tree && dir)
            && (TierFor(l, r) == Some(1) <==> !tree && !dir && repo && branch)
            && (TierFor(l, r) == Some(0) <==> !tree && !dir && repo && !branch)
            && (TierFor(l, r) == None <==> !tree && !dir && !repo)
            && TierFor(l, r) == TierFor(r, l)
  {
  }

  /** Pairs share a group exactly when their git directories - or, lacking those, their repositories - agree;
      the left side's value counts, and the right side's when the left has none. */
  lemma GroupKeyIff(l: Identity, r: Identity, m: Identity, n: Identity)
    ensures var dir, other := (if l.commonDir != "" then l.commonDir else r.commonDir),
                              (if m.commonDir != "" then m.commonDir else n.commonDir);
            var repo, another := (if l.repoId != "" then l.repoId else r.repoId),
                                 (if m.repoId != "" then m.repoId else n.repoId);
            GroupKey(l, r) == GroupKey(m, n) <==> dir == other && (dir == "" ==> repo == another)
  {
    var dir, other := (if l.commonDir != "" then l.commonDir else r.commonDir),
                      (if m.commonDir != "" then m.commonDir else n.commonDir);
    var repo := if l.repoId != "" then l.repoId else r.repoId;
    var another := if m.repoId != "" then m.repoId else n.repoId;
    assert ("common:" + dir)[7..] == dir && ("common:" + other)[7..] == other;
    assert ("repo:" + repo)[5..] == repo && ("repo:" + another)[5..] == another;
    assert ("common:" + dir)[0] == 'c' && ("common:" + other)[0] == 'c';
    assert ("repo:" + repo)[0] == 'r' && ("repo:" + another)[0] == 'r' && "unknown"[0] == 'u';
  }

  // ----- orders

  /** Strings compare by code point. */
  predicate Less(a: string, b: string) {
    b != "" && (a == "" || a[0] < b[0] || (a[0] == b[0] && Less(a[1..], b[1..])))
  }

  lemma {:induction false} LessIsTotal(a: string, b: string)
    ensures Less(a, b) || a == b || Less(b, a)
  {
    if a != "" && b != "" && a[0] == b[0] {
      LessIsTotal(a[1..], b[1..]);
      assert a == [a[0]] + a[1..] && b == [b[0]] + b[1..];
    }
  }

  lemma {:induction false} LessIsAsymmetric(a: string, b: string)
    requires Less(a, b)
    ensures !Less(b, a) && a != b
  {
    if a != "" && b != "" && a[0] == b[0] { LessIsAsymmetric(a[1..], b[1..]); }
  }

  lemma {:induction false} LessIsTransitive(a: string, b: string, c: string)
    requires Less(a, b) && Less(b, c)
    ensures Less(a, c)
  {
    if a != "" && a[0] == b[0] && b[0] == c[0] { LessIsTransitive(a[1..], b[1..], c[1..]); }
  }

  predicate SortedStrings(s: seq<string>) {
    forall i, j :: 0 <= i < j < |s| ==> Less(s[i], s[j])
  }

  function Insert(s: seq<string>, x: string): seq<string> {
    if s == [] || Less(x, s[0]) then [x] + s else [s[0]] + Insert(s[1..], x)
  }

  lemma {:induction false} InsertKeepsOrder(s: seq<string>, x: string)
    requires SortedStrings(s) && x !in s
    ensures SortedStrings(Insert(s, x)) && forall y :: y in Insert(s, x) <==> y == x || y in s
  {
    hide Less;
    if s == [] {
    } else if Less(x, s[0]) {
      forall k | 0 <= k < |s| ensures Less(x, s[k]) {
        if k > 0 { LessIsTransitive(x, s[0], s[k]); }
      }
    } else {
      LessIsTotal(x, s[0]);
      InsertKeepsOrder(s[1..], x);
      var t := Insert(s[1..], x);
      forall k | 0 <= k < |t| ensures Less(s[0], t[k]) {
        assert t[k] in t;
        if t[k] != x {
          var i :| 0 <= i < |s[1..]| && s[1..][i] == t[k];
          assert s[i + 1] == t[k];
        }
      }
    }
  }

  method SortStrings(values: set<string>) returns (s: seq<string>)
    ensures SortedStrings(s) && forall x :: x in s <==> x in values
  {
    hide Less, SortedStrings;
    s := [];
    var todo := values;
    NothingIsSorted();
    while todo != {}
      invariant todo <= values
      invariant SortedStrings(s) && forall x :: x in s <==> x in values && x !in todo
      decreases todo
    {
      var x :| x in todo;
      InsertKeepsOrder(s, x);
      s := Insert(s, x);
      todo := todo - {x};
    }
  }

  lemma NothingIsSorted()
    ensures SortedStrings([])
  {
  }

  /** A group as the list is ordered by it. */
  datatype Head = Head(key: string, tier: nat)

  /** Severity descending, then group key. */
  predicate Before(a: Head, b: Head) {
    a.tier > b.tier || (a.tier == b.tier && Less(a.key, b.key))
  }

  datatype Group = Group(head: Head, members: seq<string>, truncated: bool)

  predicate SortedGroups(s: seq<Group>) {
    forall i, j :: 0 <= i < j < |s| ==> Before(s[i].head, s[j].head)
  }

  // ----- the groups before the cuts

  datatype RawGroup = RawGroup(runIds: set<string>, tier: nat)

  predicate Qualifies(active: map<string, Identity>, minTier: nat, l: string, r: string) {
    && l in active && r in active && Less(l, r)
    && TierFor(active[l], active[r]).Some? && TierFor(active[l], active[r]).value >= minTier
  }

  type Pairs = set<(string, string)>

  predicate Covered(active: map<string, Identity>, raw: map<string, RawGroup>, l: string, r: string)
    requires l in active && r in active && TierFor(active[l], active[r]).Some?
  {
    var key := GroupKey(active[l], active[r]);
    key in raw && l in raw[key].runIds && r in raw[key].runIds && TierFor(active[l], active[r]).value <= raw[key].tier
  }

  predicate TopPair(active: map<string, Identity>, group: RawGroup, key: string, l: string, r: string)
    requires l in active && r in active
  {
    GroupKey(active[l], active[r]) == key && TierFor(active[l], active[r]) == Some(group.tier)
  }

  predicate HasMember(active: map<string, Identity>, key: string, id: string, l: string, r: string)
    requires l in active && r in active
  {
    GroupKey(active[l], active[r]) == key && (id == l || id == r)
  }

  ghost predicate QualifyingPairs(active: map<string, Identity>, minTier: nat, pairs: Pairs) {
    forall l, r :: (l, r) in pairs ==> Qualifies(active, minTier, l, r)
  }

  /** `raw` is the grouping of the given pairs: a group for each key that occurs, holding both runs of
      each of its pairs and nothing else, with the highest tier among them. */
  ghost predicate IsGroupingOf(active: map<string, Identity>, minTier: nat, pairs: Pairs, raw: map<string, RawGroup>)
    requires QualifyingPairs(active, minTier, pairs)
  {
    && AllCovered(active, minTier, pairs, raw) && TiersAttained(active, minTier, pairs, raw)
        && MembersPaired(active, minTier, pairs, raw)
  }

  ghost predicate AllCovered(active: map<string, Identity>, minTier: nat, pairs: Pairs, raw: map<string, RawGroup>)
    requires QualifyingPairs(active, minTier, pairs)
  {
    forall l, r :: (l, r) in pairs ==> Covered(active, raw, l, r)
  }

  ghost predicate TiersAttained(active: map<string, Identity>, minTier: nat, pairs: Pairs, raw: map<string, RawGroup>)
    requires QualifyingPairs(active, minTier, pairs)
  {
    forall key :: key in raw ==> exists l, r :: (l, r) in pairs && TopPair(active, raw[key], key, l, r)
  }

  ghost predicate MembersPaired(active: map<string, Identity>, minTier: nat, pairs: Pairs, raw: map<string, RawGroup>)
    requires QualifyingPairs(active, minTier, pairs)
  {
    forall key, id :: key in raw && id in raw[key].runIds ==>
        exists l, r :: (l, r) in pairs && HasMember(active, key, id, l, r)
  }

  function AddPair(raw: map<string, RawGroup>, key: string, l: string, r: string, tier: nat): map<string, RawGroup> {
    var entry := if key in raw then raw[key] else RawGroup({}, tier);
    raw[key := RawGroup(entry.runIds + {l, r}, if entry.tier > tier then entry.tier else tier)]
  }

  lemma AddedPairIsGrouped(active: map<string, Identity>, minTier: nat, pairs: Pairs, raw: map<string, RawGroup>,
                           l: string, r: string)
    requires QualifyingPairs(active, minTier, pairs) && IsGroupingOf(active, minTier, pairs, raw)
    requires Qualifies(active, minTier, l, r)
    ensures IsGroupingOf(active, minTier, pairs + {(l, r)},
                         AddPair(raw, GroupKey(active[l], active[r]), l, r, TierFor(active[l], active[r]).value))
  {
    hide AddPair, AllCovered, TiersAttained, MembersPaired, Qualifies, GroupKey, TierFor;
    AddedPairIsCovered(active, minTier, pairs, raw, l, r);
    AddedTierIsAttained(active, minTier, pairs, raw, l, r);
    AddedMembersArePaired(active, minTier, pairs, raw, l, r);
  }

  lemma AddedPairIsCovered(active: map<string, Identity>, minTier: nat, pairs: Pairs, raw: map<string, RawGroup>,
                           l: string, r: string)
    requires QualifyingPairs(active, minTier, pairs + {(l, r)}) && AllCovered(active, minTier, pairs, raw)
    ensures AllCovered(active, minTier, pairs + {(l, r)},
                       AddPair(raw, GroupKey(active[l], active[r]), l, r, TierFor(active[l], active[r]).value))
  {
    hide GroupKey, TierFor, Less;
    var after := AddPair(raw, GroupKey(active[l], active[r]), l, r, TierFor(active[l], active[r]).value);
    forall a, b | (a, b) in pairs + {(l, r)} ensures Covered(active, after, a, b) {
      if (a, b) in pairs { assert Covered(active, raw, a, b); }
    }
  }

  lemma AddedTierIsAttained(active: map<string, Identity>, minTier: nat, pairs: Pairs, raw: map<string, RawGroup>,
                            l: string, r: string)
    requires QualifyingPairs(active, minTier, pairs + {(l, r)}) && TiersAttained(active, minTier, pairs, raw)
    ensures TiersAttained(active, minTier, pairs + {(l, r)},
                          AddPair(raw, GroupKey(active[l], active[r]), l, r, TierFor(active[l], active[r]).value))
  {
    hide GroupKey, TierFor, Less;
    var key, all := GroupKey(active[l], active[r]), pairs + {(l, r)};
    var after := AddPair(raw, key, l, r, TierFor(active[l], active[r]).value);
    forall k | k in after ensures exists a, b :: (a, b) in all && TopPair(active, after[k], k, a, b) {
      if k in raw && (k != key || raw[k].tier == after[k].tier) {
        var a, b :| (a, b) in pairs && TopPair(active, raw[k], k, a, b);
        assert (a, b) in all && TopPair(active, after[k], k, a, b);
      } else {
        assert (l, r) in all && TopPair(active, after[k], k, l, r);
      }
    }
  }

  lemma AddedMembersArePaired(active: map<string, Identity>, minTier: nat, pairs: Pairs, raw: map<string, RawGroup>,
                              l: string, r: string)
    requires QualifyingPairs(active, minTier, pairs + {(l, r)}) && MembersPaired(active, minTier, pairs, raw)
    ensures MembersPaired(active, minTier, pairs + {(l, r)},
                          AddPair(raw, GroupKey(active[l], active[r]), l, r, TierFor(active[l], active[r]).value))
  {
    hide GroupKey, TierFor, Less;
    var key, all := GroupKey(active[l], active[r]), pairs + {(l, r)};
    var after := AddPair(raw, key, l, r, TierFor(active[l], active[r]).value);
    forall k, id | k in after && id in after[k].runIds
        ensures exists a, b :: (a, b) in all && HasMember(active, k, id, a, b) {
      if k in raw && id in raw[k].runIds {
        var a, b :| (a, b) in pairs && HasMember(active, k, id, a, b);
        assert (a, b) in all && HasMember(active, k, id, a, b);
      } else {
        assert (l, r) in all && HasMember(active, k, id, l, r);
      }
    }
  }

  /** The grouping of all qualifying pairs. */
  ghost predicate IsGrouping(active: map<string, Identity>, minTier: nat, raw: map<string, RawGroup>) {
    exists pairs :: QualifyingPairs(active, minTier, pairs) && Complete(active, minTier, pairs)
                    && IsGroupingOf(active, minTier, pairs, raw)
  }

  ghost predicate Complete(active: map<string, Identity>, minTier: nat, pairs: Pairs) {
    forall l, r :: Qualifies(active, minTier, l, r) ==> (l, r) in pairs
  }

  method GroupPairs(active: map<string, Identity>, minTier: nat) returns (raw: map<string, RawGroup>)
    ensures IsGrouping(active, minTier, raw)
  {
    hide GroupKey, TierFor, Less, IsGroupingOf, SortedStrings;
    var ids := SortStrings(active.Keys);
    raw := map[];
    ghost var pairs: Pairs := {};
    NothingIsGrouped(active, minTier);
    for i := 0 to |ids|
      invariant QualifyingPairs(active, minTier, pairs) && IsGroupingOf(active, minTier, pairs, raw)
      invariant forall p, q :: 0 <= p < q < |ids| && p < i && Qualifies(active, minTier, ids[p], ids[q]) ==>
                (ids[p], ids[q]) in pairs
    {
      assert ids[i] in ids;
      for j := i + 1 to |ids|
        invariant QualifyingPairs(active, minTier, pairs) && IsGroupingOf(active, minTier, pairs, raw)
        invariant forall p, q ::
                    0 <= p < q < |ids| && (p < i || (p == i && q < j)) && Qualifies(active, minTier, ids[p], ids[q]) ==>
                      (ids[p], ids[q]) in pairs
      {
        assert ids[j] in ids;
        var left, right := active[ids[i]], active[ids[j]];
        var tier := TierFor(left, right);
        if tier.Some? && tier.value >= minTier {
          SortedPair(ids, i, j);
          AddedPairIsGrouped(active, minTier, pairs, raw, ids[i], ids[j]);
          raw := AddPair(raw, GroupKey(left, right), ids[i], ids[j], tier.value);
          pairs := pairs + {(ids[i], ids[j])};
        }
      }
    }
    AllPairsSeen(active, minTier, ids, pairs);
  }

  lemma SortedPair(ids: seq<string>, i: nat, j: nat)
    requires SortedStrings(ids) && i < j < |ids|
    ensures Less(ids[i], ids[j])
  {
  }

  lemma NothingIsGrouped(active: map<string, Identity>, minTier: nat)
    ensures QualifyingPairs(active, minTier, {}) && IsGroupingOf(active, minTier, {}, map[])
  {
  }

  lemma AllPairsSeen(active: map<string, Identity>, minTier: nat, ids: seq<string>, pairs: Pairs)
    requires SortedStrings(ids) && forall x :: x in ids <==> x in active
    requires forall p, q :: 0 <= p < q < |ids| && Qualifies(active, minTier, ids[p], ids[q]) ==>
             (ids[p], ids[q]) in pairs
    ensures Complete(active, minTier, pairs)
  {
    hide TierFor, Less;
    forall l, r | Qualifies(active, minTier, l, r) ensures (l, r) in pairs {
      var p :| 0 <= p < |ids| && ids[p] == l;
      var q :| 0 <= q < |ids| && ids[q] == r;
      LessIsAsymmetric(l, r);
      assert p < q;
    }
  }

  // ----- the list

  ghost predicate Lists(group: Group, raw: map<string, RawGroup>, maxMembers: nat) {
    && group.head.key in raw && group.head.tier == raw[group.head.key].tier
    && IsVisible(group, raw[group.head.key].runIds, maxMembers)
  }

  /** The members shown are the first `maxMembers` of the group's sorted run ids. */
  ghost predicate IsVisible(group: Group, runIds: set<string>, maxMembers: nat) {
    exists all :: SortedStrings(all) && (forall x :: x in all <==> x in runIds)
                  && group.members == FirstOf(all, maxMembers) && (group.truncated <==> |all| > maxMembers)
  }

  function FirstOf<T>(s: seq<T>, n: nat): seq<T> {
    if |s| <= n then s else s[..n]
  }

  /** The list before `max_groups`: every group once, in order. */
  ghost predicate IsListing(full: seq<Group>, raw: map<string, RawGroup>, maxMembers: nat) {
    && SortedGroups(full) && (forall i :: 0 <= i < |full| ==> Lists(full[i], raw, maxMembers))
    && (forall key :: key in raw ==> Head(key, raw[key].tier) in Heads(full))
  }

  function Heads(groups: seq<Group>): (heads: seq<Head>)
    ensures |heads| == |groups| && forall i :: 0 <= i < |groups| ==> heads[i] == groups[i].head
  {
    if groups == [] then [] else Heads(groups[..|groups| - 1]) + [groups[|groups| - 1].head]
  }

  function InsertGroup(s: seq<Group>, g: Group): seq<Group> {
    if s == [] || Before(g.head, s[0].head) then [g] + s else [s[0]] + InsertGroup(s[1..], g)
  }

  lemma BeforeIsTransitive(a: Head, b: Head, c: Head)
    requires Before(a, b) && Before(b, c)
    ensures Before(a, c)
  {
    hide Less;
    if a.tier == b.tier == c.tier { LessIsTransitive(a.key, b.key, c.key); }
  }

  lemma BeforeIsAsymmetric(a: Head, b: Head)
    requires Before(a, b)
    ensures !Before(b, a) && a != b
  {
    hide Less;
    if a.tier == b.tier { LessIsAsymmetric(a.key, b.key); }
  }

  lemma {:induction false} InsertGroupKeepsOrder(s: seq<Group>, g: Group)
    requires SortedGroups(s) && forall i :: 0 <= i < |s| ==> s[i].head.key != g.head.key
    ensures SortedGroups(InsertGroup(s, g)) && forall x :: x in InsertGroup(s, g) <==> x == g || x in s
  {
    hide Less, Before;
    if s == [] {
    } else if Before(g.head, s[0].head) {
      forall k | 0 <= k < |s| ensures Before(g.head, s[k].head) {
        if k > 0 { BeforeIsTransitive(g.head, s[0].head, s[k].head); }
      }
    } else {
      BeforeIsTotal(g.head, s[0].head);
      InsertGroupKeepsOrder(s[1..], g);
      var t := InsertGroup(s[1..], g);
      forall k | 0 <= k < |t| ensures Before(s[0].head, t[k].head) {
        assert t[k] in t;
        if t[k] != g {
          var i :| 0 <= i < |s[1..]| && s[1..][i] == t[k];
          assert s[i + 1] == t[k];
        }
      }
    }
  }

  lemma BeforeIsTotal(a: Head, b: Head)
    requires a.key != b.key
    ensures Before(a, b) || Before(b, a)
  {
    hide Less;
    LessIsTotal(a.key, b.key);
  }

  /** What is returned: all groups in order, cut to the first `maxGroups`. */
  ghost predicate IsContentionList(active: map<string, Identity>, minTier: nat, maxGroups: nat, maxMembers: nat,
                                   groups: seq<Group>) {
    exists raw, full :: IsCutOf(active, minTier, maxGroups, maxMembers, groups, raw, full)
  }

  ghost predicate IsCutOf(active: map<string, Identity>, minTier: nat, maxGroups: nat, maxMembers: nat,
                          groups: seq<Group>, raw: map<string, RawGroup>, full: seq<Group>) {
    IsGrouping(active, minTier, raw) && IsListing(full, raw, maxMembers) && groups == FirstOf(full, maxGroups)
  }

  method DetectContention(active: map<string, Identity>, minTier: nat, maxGroups: nat, maxMembers: nat)
    returns (groups: seq<Group>)
    ensures IsContentionList(active, minTier, maxGroups, maxMembers, groups)
  {
    hide Before, IsGrouping, SortedGroups, SortedStrings, IsVisible;
    var found := GroupPairs(active, minTier);
    var list: seq<Group> := [];
    var todo := found.Keys;
    EmptyIsSorted();
    while todo != {}
      invariant todo <= found.Keys && SortedGroups(list)
      invariant forall x :: x in list ==> Lists(x, found, maxMembers) && x.head.key !in todo
      invariant forall key :: key in found && key !in todo ==>
                exists x :: x in list && x.head == Head(key, found[key].tier)
      decreases todo
    {
      var key :| key in todo;
      var runIds := SortStrings(found[key].runIds);
      var group := Group(Head(key, found[key].tier), FirstOf(runIds, maxMembers), |runIds| > maxMembers);
      MembersAreVisible(group, found[key].runIds, runIds, maxMembers);
      InsertGroupKeepsOrder(list, group);
      ghost var before := list;
      list := InsertGroup(list, group);
      todo := todo - {key};
      forall k | k in found && k !in todo ensures exists x :: x in list && x.head == Head(k, found[k].tier) {
        if k == key {
          assert group in list;
        } else {
          var x :| x in before && x.head == Head(k, found[k].tier);
          assert x in list;
        }
      }
    }
    ListedHeads(list);
    groups := FirstOf(list, maxGroups);
    assert IsCutOf(active, minTier, maxGroups, maxMembers, groups, found, list);
  }

  lemma EmptyIsSorted()
    ensures SortedGroups([])
  {
  }

  lemma MembersAreVisible(group: Group, runIds: set<string>, all: seq<string>, maxMembers: nat)
    requires SortedStrings(all) && forall x :: x in all <==> x in runIds
    requires group.members == FirstOf(all, maxMembers) && group.truncated == (|all| > maxMembers)
    ensures IsVisible(group, runIds, maxMembers)
  {
  }

  lemma ListedHeads(full: seq<Group>)
    ensures forall x :: x in full ==> x.head in Heads(full)
  {
    forall x | x in full ensures x.head in Heads(full) {
      var i :| 0 <= i < |full| && full[i] == x;
      assert Heads(full)[i] == x.head;
    }
  }

  // ----- raising the threshold

  /** Every qualifying pair lies in a group, which is at least as severe. */
  lemma QualifyingPairIsCovered(active: map<string, Identity>, minTier: nat, raw: map<string, RawGroup>, l: string,
                                r: string)
    requires IsGrouping(active, minTier, raw) && Qualifies(active, minTier, l, r)
    ensures Covered(active, raw, l, r)
  {
    hide GroupKey, TierFor, Less, Covered, TiersAttained, MembersPaired;
    var pairs :| QualifyingPairs(active, minTier, pairs) && Complete(active, minTier, pairs)
                 && IsGroupingOf(active, minTier, pairs, raw);
  }

  /** A group's severity is that of one of its pairs. */
  lemma TopPairOf(active: map<string, Identity>, minTier: nat, raw: map<string, RawGroup>, key: string)
    returns (l: string, r: string)
    requires IsGrouping(active, minTier, raw) && key in raw
    ensures Qualifies(active, minTier, l, r) && TopPair(active, raw[key], key, l, r)
  {
    hide GroupKey, TierFor, Less, TopPair, AllCovered, MembersPaired;
    var pairs :| QualifyingPairs(active, minTier, pairs) && Complete(active, minTier, pairs)
                 && IsGroupingOf(active, minTier, pairs, raw);
    l, r :| (l, r) in pairs && TopPair(active, raw[key], key, l, r);
  }

  /** A member belongs to one of the group's pairs. */
  lemma PairOfMember(active: map<string, Identity>, minTier: nat, raw: map<string, RawGroup>, key: string, id: string)
    returns (l: string, r: string)
    requires IsGrouping(active, minTier, raw) && key in raw && id in raw[key].runIds
    ensures Qualifies(active, minTier, l, r) && HasMember(active, key, id, l, r)
  {
    hide GroupKey, TierFor, Less, HasMember, AllCovered, TiersAttained;
    var pairs :| QualifyingPairs(active, minTier, pairs) && Complete(active, minTier, pairs)
                 && IsGroupingOf(active, minTier, pairs, raw);
    l, r :| (l, r) in pairs && HasMember(active, key, id, l, r);
  }

  lemma HighGroupIsLowGroup(active: map<string, Identity>, low: nat, high: nat, raw: map<string, RawGroup>,
                            few: map<string, RawGroup>, key: string)
    requires low <= high && IsGrouping(active, low, raw) && IsGrouping(active, high, few) && key in few
    ensures key in raw && raw[key].tier == few[key].tier && raw[key].tier >= high && few[key].runIds <= raw[key].runIds
  {
    hide IsGrouping, GroupKey, TierFor, Less;
    var l, r := TopPairOf(active, high, few, key);
    QualifyingPairIsCovered(active, low, raw, l, r);
    var a, b := TopPairOf(active, low, raw, key);
    QualifyingPairIsCovered(active, high, few, a, b);
    forall id | id in few[key].runIds ensures id in raw[key].runIds {
      var x, y := PairOfMember(active, high, few, key, id);
      QualifyingPairIsCovered(active, low, raw, x, y);
    }
  }

  /** Before the cuts, raising the threshold keeps exactly the groups that reach it, with their severity
      unchanged and no new member. */
  lemma ThresholdSelectsGroups(active: map<string, Identity>, low: nat, high: nat, raw: map<string, RawGroup>,
                               few: map<string, RawGroup>)
    requires low <= high && IsGrouping(active, low, raw) && IsGrouping(active, high, few)
    ensures forall key :: key in few <==> key in raw && raw[key].tier >= high
    ensures forall key :: key in few ==> few[key].tier == raw[key].tier && few[key].runIds <= raw[key].runIds
  {
    hide IsGrouping, GroupKey, TierFor, Less;
    forall key | key in few
      ensures key in raw && raw[key].tier == few[key].tier && raw[key].tier >= high
              && few[key].runIds <= raw[key].runIds
    {
      HighGroupIsLowGroup(active, low, high, raw, few, key);
    }
    forall key | key in raw && raw[key].tier >= high ensures key in few {
      var a, b := TopPairOf(active, low, raw, key);
      QualifyingPairIsCovered(active, high, few, a, b);
    }
  }

  predicate SortedHeads(s: seq<Head>) {
    forall i, j :: 0 <= i < j < |s| ==> Before(s[i], s[j])
  }

  lemma FirstIsTop(s: seq<Head>, x: Head)
    requires SortedHeads(s) && x in s
    ensures x == s[0] || Before(s[0], x)
  {
    hide Before;
    var i :| 0 <= i < |s| && s[i] == x;
    if i > 0 { assert Before(s[0], s[i]); }
  }

  /** In a list sorted by falling severity, the entries that reach a threshold form a prefix. */
  lemma {:induction false} SelectedIsPrefix(s: seq<Head>, t: seq<Head>, high: nat)
    requires SortedHeads(s) && SortedHeads(t) && forall x :: x in t <==> x in s && x.tier >= high
    ensures t <= s
  {
    hide Less, SortedHeads;
    if t != [] {
      assert t[0] in t && s != [];
      FirstIsTop(s, t[0]);
      assert s[0] in s && s[0].tier >= t[0].tier;
      FirstIsTop(t, s[0]);
      if s[0] != t[0] { BeforeIsAsymmetric(s[0], t[0]); }
      TailsSelect(s, t, high);
      TailIsSorted(s);
      TailIsSorted(t);
      SelectedIsPrefix(s[1..], t[1..], high);
      assert s == [s[0]] + s[1..] && t == [t[0]] + t[1..];
    }
  }

  lemma TailIsSorted(s: seq<Head>)
    requires SortedHeads(s) && s != []
    ensures SortedHeads(s[1..])
  {
    hide Before;
  }

  lemma TailsSelect(s: seq<Head>, t: seq<Head>, high: nat)
    requires s != [] && t != [] && s[0] == t[0] && SortedHeads(s) && SortedHeads(t)
    requires forall x :: x in t <==> x in s && x.tier >= high
    ensures forall x :: x in t[1..] <==> x in s[1..] && x.tier >= high
  {
    HeadNotInTail(s);
    HeadNotInTail(t);
    assert forall x :: x in s <==> x == s[0] || x in s[1..];
    assert forall x :: x in t <==> x == t[0] || x in t[1..];
  }

  lemma HeadNotInTail(s: seq<Head>)
    requires s != [] && SortedHeads(s)
    ensures s[0] !in s[1..]
  {
    if s[0] in s[1..] {
      var i :| 0 <= i < |s[1..]| && s[1..][i] == s[0];
      BeforeIsAsymmetric(s[0], s[i + 1]);
    }
  }

  lemma ListingsArePrefixed(active: map<string, Identity>, low: nat, high: nat, maxMembers: nat,
                            raw: map<string, RawGroup>, few: map<string, RawGroup>, full: seq<Group>, short: seq<Group>)
    requires low <= high && IsGrouping(active, low, raw) && IsGrouping(active, high, few)
    requires IsListing(full, raw, maxMembers) && IsListing(short, few, maxMembers)
    ensures Heads(short) <= Heads(full)
  {
    hide IsGrouping, Before, IsVisible, IsListing, SortedHeads, Heads;
    ThresholdSelectsGroups(active, low, high, raw, few);
    var s, t := Heads(full), Heads(short);
    ListingHeads(full, raw, maxMembers);
    ListingHeads(short, few, maxMembers);
    forall x ensures x in t <==> x in s && x.tier >= high {
      assert x in t <==> x.key in few && few[x.key].tier == x.tier;
      assert x in s <==> x.key in raw && raw[x.key].tier == x.tier;
    }
    SelectedIsPrefix(s, t, high);
  }

  /** Raising `min_emit_severity` yields a prefix of the list of keys and severities, also behind the
      `max_groups` cut. */
  lemma ThresholdIsPrefix(active: map<string, Identity>, low: nat, high: nat, maxGroups: nat, maxMembers: nat,
                          all: seq<Group>, severe: seq<Group>)
    requires low <= high
    requires IsContentionList(active, low, maxGroups, maxMembers, all)
             && IsContentionList(active, high, maxGroups, maxMembers, severe)
    ensures Heads(severe) <= Heads(all)
  {
    hide IsGrouping, IsListing, Heads;
    var raw, full :| IsCutOf(active, low, maxGroups, maxMembers, all, raw, full);
    var few, short :| IsCutOf(active, high, maxGroups, maxMembers, severe, few, short);
    ListingsArePrefixed(active, low, high, maxMembers, raw, few, full, short);
    HeadsOfFirst(full, maxGroups);
    HeadsOfFirst(short, maxGroups);
  }

  // ----- the list is determined

  lemma {:induction false} SameStringsSameOrder(s: seq<string>, t: seq<string>)
    requires SortedStrings(s) && SortedStrings(t) && forall x :: x in s <==> x in t
    ensures s == t
  {
    hide Less, SortedStrings;
    EmptyTogether(s, t);
    if s != [] {
      assert s[0] in s && t[0] in t;
      FirstIsLeast(s, t[0]);
      FirstIsLeast(t, s[0]);
      if s[0] != t[0] { LessIsAsymmetric(s[0], t[0]); }
      TailIsRest(s);
      TailIsRest(t);
      SameStringsSameOrder(s[1..], t[1..]);
      assert s == [s[0]] + s[1..] && t == [t[0]] + t[1..];
    }
  }

  lemma EmptyTogether(s: seq<string>, t: seq<string>)
    requires forall x :: x in s <==> x in t
    ensures s == [] <==> t == []
  {
    if s != [] { assert s[0] in s; }
    if t != [] { assert t[0] in t; }
  }

  lemma FirstIsLeast(s: seq<string>, x: string)
    requires SortedStrings(s) && x in s
    ensures x == s[0] || Less(s[0], x)
  {
    hide Less;
  }

  lemma TailIsRest(s: seq<string>)
    requires SortedStrings(s) && s != []
    ensures SortedStrings(s[1..]) && forall x :: x in s[1..] <==> x in s && x != s[0]
  {
    hide Less;
    forall i | 1 <= i < |s| ensures s[i] != s[0] { LessIsAsymmetric(s[0], s[i]); }
    assert forall i :: 1 <= i < |s| ==> s[1..][i - 1] == s[i];
  }

  lemma VisibleIsDetermined(a: Group, b: Group, runIds: set<string>, maxMembers: nat)
    requires IsVisible(a, runIds, maxMembers) && IsVisible(b, runIds, maxMembers)
    ensures a.members == b.members && a.truncated == b.truncated
  {
    hide SortedStrings;
    var s :| SortedStrings(s) && (forall x :: x in s <==> x in runIds)
            && a.members == FirstOf(s, maxMembers) && (a.truncated <==> |s| > maxMembers);
    var t :| SortedStrings(t) && (forall x :: x in t <==> x in runIds)
            && b.members == FirstOf(t, maxMembers) && (b.truncated <==> |t| > maxMembers);
    SameStringsSameOrder(s, t);
  }

  lemma GroupingIsDetermined(active: map<string, Identity>, minTier: nat, raw: map<string, RawGroup>,
                             other: map<string, RawGroup>)
    requires IsGrouping(active, minTier, raw) && IsGrouping(active, minTier, other)
    ensures raw == other
  {
    hide IsGrouping;
    ThresholdSelectsGroups(active, minTier, minTier, raw, other);
    ThresholdSelectsGroups(active, minTier, minTier, other, raw);
    forall key ensures key in raw <==> key in other {
      if key in raw { assert key in other; }
    }
    forall key | key in raw ensures raw[key] == other[key] {
      assert raw[key].runIds <= other[key].runIds && other[key].runIds <= raw[key].runIds;
    }
  }

  lemma ListingIsDetermined(raw: map<string, RawGroup>, maxMembers: nat, full: seq<Group>, other: seq<Group>)
    requires IsListing(full, raw, maxMembers) && IsListing(other, raw, maxMembers)
    requires Heads(full) == Heads(other)
    ensures full == other
  {
    hide IsVisible, Before;
    assert |full| == |other|;
    forall i | 0 <= i < |full| ensures full[i] == other[i] {
      assert full[i].head == Heads(full)[i] == other[i].head;
      assert Lists(full[i], raw, maxMembers) && Lists(other[i], raw, maxMembers);
      VisibleIsDetermined(full[i], other[i], raw[full[i].head.key].runIds, maxMembers);
    }
  }

  /** The active runs and the limits determine the whole list: its groups, their order and their members. */
  lemma ListIsDetermined(active: map<string, Identity>, minTier: nat, maxGroups: nat, maxMembers: nat,
                         groups: seq<Group>, other: seq<Group>)
    requires IsContentionList(active, minTier, maxGroups, maxMembers, groups)
    requires IsContentionList(active, minTier, maxGroups, maxMembers, other)
    ensures groups == other
  {
    hide IsGrouping, IsListing, Heads;
    var raw, full :| IsCutOf(active, minTier, maxGroups, maxMembers, groups, raw, full);
    var same, again :| IsCutOf(active, minTier, maxGroups, maxMembers, other, same, again);
    GroupingIsDetermined(active, minTier, raw, same);
    ListingsArePrefixed(active, minTier, minTier, maxMembers, raw, same, full, again);
    ListingsArePrefixed(active, minTier, minTier, maxMembers, same, raw, again, full);
    ListingIsDetermined(raw, maxMembers, full, again);
  }

  lemma ListingHeads(full: seq<Group>, raw: map<string, RawGroup>, maxMembers: nat)
    requires IsListing(full, raw, maxMembers)
    ensures SortedHeads(Heads(full))
    ensures forall x :: x in Heads(full) <==> x.key in raw && raw[x.key].tier == x.tier
  {
    hide Before, IsVisible;
    forall x ensures x in Heads(full) <==> x.key in raw && raw[x.key].tier == x.tier {
      if x in Heads(full) {
        var i :| 0 <= i < |Heads(full)| && Heads(full)[i] == x;
        assert Lists(full[i], raw, maxMembers);
      }
      if x.key in raw && raw[x.key].tier == x.tier {
        assert x == Head(x.key, raw[x.key].tier);
      }
    }
  }

  lemma HeadsOfFirst(full: seq<Group>, n: nat)
    ensures Heads(FirstOf(full, n)) == FirstOf(Heads(full), n)
  {
  }

  // ----- the group of runs known only by path

  /** A pair for which git gave neither side a repository id or a common directory. */
  predicate PathOnlyPair(left: Identity, right: Identity) {
    left.repoId == "" && right.repoId == "" && left.commonDir == "" && right.commonDir == ""
  }

  lemma UnknownIff(left: Identity, right: Identity)
    ensures GroupKey(left, right) == "unknown" <==> PathOnlyPair(left, right)
    ensures PathOnlyPair(left, right) && TierFor(left, right).Some? ==> left.key == right.key != ""
  {
    var key := GroupKey(left, right);
    if !PathOnlyPair(left, right) {
      assert key[0] == 'c' || key[0] == 'r';
      assert "unknown"[0] == 'u';
    }
  }

  /** The run is one of a qualifying pair known only by path. */
  ghost predicate InPathOnlyPair(active: map<string, Identity>, minTier: nat, id: string) {
    exists l, r :: Qualifies(active, minTier, l, r) && PathOnlyPair(active[l], active[r]) && (id == l || id == r)
  }

  /** For any active runs: the members of the group "unknown" are exactly the runs of the qualifying pairs
      known only by path, whatever their paths; there is no other path group. */
  lemma UnknownGroupIff(active: map<string, Identity>, minTier: nat, raw: map<string, RawGroup>, id: string)
    requires IsGrouping(active, minTier, raw)
    ensures "unknown" in raw && id in raw["unknown"].runIds <==> InPathOnlyPair(active, minTier, id)
  {
    hide IsGrouping, GroupKey, TierFor, Less, PathOnlyPair;
    if "unknown" in raw && id in raw["unknown"].runIds {
      var l, r := PairOfMember(active, minTier, raw, "unknown", id);
      UnknownIff(active[l], active[r]);
    }
    if l, r :| Qualifies(active, minTier, l, r) && PathOnlyPair(active[l], active[r]) && (id == l || id == r) {
      QualifyingPairIsCovered(active, minTier, raw, l, r);
      UnknownIff(active[l], active[r]);
    }
  }

  /** When all active runs are known only by path, there is no other group at all. */
  lemma PathOnlyRunsShareOneGroup(active: map<string, Identity>, minTier: nat, raw: map<string, RawGroup>)
    requires IsGrouping(active, minTier, raw)
    requires forall id :: id in active ==> active[id].repoId == "" && active[id].commonDir == ""
    ensures forall key :: key in raw ==> key == "unknown"
  {
    hide IsGrouping, Less, TierFor;
    forall key | key in raw ensures key == "unknown" {
      var l, r := TopPairOf(active, minTier, raw, key);
    }
  }

  lemma {:induction false} LessByFirst(a: string, b: string)
    requires a != "" && b != "" && a[0] < b[0]
    ensures Less(a, b)
  {
  }

  /** Two runs each in two unrelated workspaces outside git. */
  function TwoWorkspaces(): map<string, Identity> {
    var x, y := Identity("/x", "x", "", "", ""), Identity("/y", "y", "", "", "");
    map["a" := x, "b" := x, "c" := y, "d" := y]
  }

  predicate AllInUnknown(raw: map<string, RawGroup>, ids: set<string>, tier: nat) {
    "unknown" in raw && raw["unknown"].runIds == ids && raw["unknown"].tier == tier
  }

  lemma TwoPairs(minTier: nat)
    requires minTier <= SAME_TREE
    ensures var active := TwoWorkspaces();
            && Qualifies(active, minTier, "a", "b") && PathOnlyPair(active["a"], active["b"])
            && Qualifies(active, minTier, "c", "d") && PathOnlyPair(active["c"], active["d"])
  {
    hide Less;
    LessByFirst("a", "b");
    LessByFirst("c", "d");
  }

  /** All four share one group, at the highest severity, although the two workspaces have nothing in common. */
  lemma UnrelatedPathsShareOneGroup(minTier: nat, raw: map<string, RawGroup>)
    requires minTier <= SAME_TREE && IsGrouping(TwoWorkspaces(), minTier, raw)
    ensures AllInUnknown(raw, {"a", "b", "c", "d"}, SAME_TREE)
  {
    hide IsGrouping, Less, GroupKey;
    var active := TwoWorkspaces();
    TwoPairs(minTier);
    forall id ensures id in {"a", "b", "c", "d"} <==> "unknown" in raw && id in raw["unknown"].runIds {
      UnknownGroupIff(active, minTier, raw, id);
      if InPathOnlyPair(active, minTier, id) { assert id in active; }
    }
    assert InPathOnlyPair(active, minTier, "a");
    UnknownGroupIff(active, minTier, raw, "a");
    var l, r := TopPairOf(active, minTier, raw, "unknown");
    UnknownIff(active[l], active[r]);
  }
}
