/** Merge order of stacked pull requests (scripts/overseer/format_prs.py). A pull request is its
    position in the group, as the original compares identities. */
module MergeOrder {
  import opened Common

  datatype PR = PR(headRef: string, baseRef: string)

  /** The last pull request of the group with the given head branch. */
  function ByHead(prs: seq<PR>, ref: string): (r: Option<nat>)
    ensures r.None? <==> forall j :: 0 <= j < |prs| ==> prs[j].headRef != ref
    ensures r.Some? ==> r.value < |prs| && prs[r.value].headRef == ref
    ensures r.Some? ==> forall j :: r.value < j < |prs| ==> prs[j].headRef != ref
  {
    if prs == [] then None
    else if prs[|prs| - 1].headRef == ref then Some(|prs| - 1)
    else
      var front := prs[..|prs| - 1];
      assert forall j :: 0 <= j < |front| ==> front[j] == prs[j];
      ByHead(front, ref)
  }

  /** `i` is stacked on `j`: its base branch is the head branch of `j`, and of none behind `j`. */
  predicate StacksOn(prs: seq<PR>, i: nat, j: nat) {
    && i < |prs| && j < |prs| && prs[j].headRef == prs[i].baseRef
    && forall k :: j < k < |prs| ==> prs[k].headRef != prs[i].baseRef
  }

  /** The pull request that `i` is stacked on. */
  function Base(prs: seq<PR>, i: nat): (r: Option<nat>)
    requires i < |prs|
    ensures r.Some? ==> r.value < |prs| && StacksOn(prs, i, r.value)
    ensures r.None? <==> forall j :: 0 <= j < |prs| ==> prs[j].headRef != prs[i].baseRef
    ensures forall j: nat :: StacksOn(prs, i, j) ==> r == Some(j)
  {
    ByHead(prs, prs[i].baseRef)
  }

  predicate Stacked(prs: seq<PR>) {
    exists i :: 0 <= i < |prs| && Base(prs, i).Some?
  }

  lemma StackedIff(prs: seq<PR>)
    ensures Stacked(prs) <==> exists i, j :: 0 <= i < |prs| && 0 <= j < |prs| && prs[j].headRef == prs[i].baseRef
  {
    hide Base;
    if i :| 0 <= i < |prs| && Base(prs, i).Some? {
      assert prs[Base(prs, i).value].headRef == prs[i].baseRef;
    }
    if i, j :| 0 <= i < |prs| && 0 <= j < |prs| && prs[j].headRef == prs[i].baseRef {
      assert Base(prs, i).Some?;
    }
  }

  /** The recursion of `emit`, cut off after `fuel` nested calls; the original has no such bound. */
  function Emit(prs: seq<PR>, i: nat, ordered: seq<nat>, fuel: nat): Option<seq<nat>>
    requires i < |prs|
    decreases fuel
  {
    if i in ordered then Some(ordered)
    else if fuel == 0 then None
    else
      match Base(prs, i)
      case None => Some(ordered + [i])
      case Some(b) =>
        var below := Emit(prs, b, ordered, fuel - 1);
        if below.None? then None else Some(below.value + [i])
  }

  /** The list after the first `n` pull requests of the group have been emitted. */
  function Order(prs: seq<PR>, n: nat, fuel: nat): Option<seq<nat>>
    requires n <= |prs|
  {
    if n == 0 then Some([])
    else
      var before := Order(prs, n - 1, fuel);
      if before.None? then None else Emit(prs, n - 1, before.value, fuel)
  }

  // ----- when the recursion ends

  /** Every pull request has a rank above that of the one it is stacked on. */
  ghost predicate RankedBy(prs: seq<PR>, rank: seq<nat>) {
    |rank| == |prs| && forall i: nat, j: nat :: StacksOn(prs, i, j) ==> rank[j] < rank[i]
  }

  ghost predicate HasRanks(prs: seq<PR>) {
    exists rank :: RankedBy(prs, rank)
  }

  /** A chain of pull requests, each stacked on the next. */
  ghost predicate IsChain(prs: seq<PR>, chain: seq<nat>) {
    |chain| >= 2 && forall k :: 0 <= k < |chain| - 1 ==> StacksOn(prs, chain[k], chain[k + 1])
  }

  /** `a` is reached from `i` by following bases, in one step or more. */
  ghost predicate IsAncestor(prs: seq<PR>, a: nat, i: nat) {
    exists chain :: IsChain(prs, chain) && chain[0] == i && chain[|chain| - 1] == a
  }

  /** No chain of bases closes on itself. */
  ghost predicate Acyclic(prs: seq<PR>) {
    forall i :: 0 <= i < |prs| ==> !IsAncestor(prs, i, i)
  }

  lemma AncestorOfBase(prs: seq<PR>, a: nat, i: nat, b: nat)
    requires StacksOn(prs, i, b) && (a == b || IsAncestor(prs, a, b))
    ensures IsAncestor(prs, a, i)
  {
    hide StacksOn;
    if a == b {
      assert IsChain(prs, [i, b]);
    } else {
      var chain :| IsChain(prs, chain) && chain[0] == b && chain[|chain| - 1] == a;
      assert IsChain(prs, [i] + chain);
    }
  }

  lemma {:induction false} ChainRanksFall(prs: seq<PR>, rank: seq<nat>, chain: seq<nat>)
    requires RankedBy(prs, rank) && IsChain(prs, chain)
    ensures chain[0] < |prs| && chain[|chain| - 1] < |prs| && rank[chain[|chain| - 1]] < rank[chain[0]]
    decreases |chain|
  {
    assert StacksOn(prs, chain[0], chain[1]);
    if |chain| > 2 {
      assert IsChain(prs, chain[1..]);
      ChainRanksFall(prs, rank, chain[1..]);
    }
  }

  ghost function Ancestors(prs: seq<PR>, i: nat): set<nat>
    requires i < |prs|
  {
    set a: nat | a < |prs| && IsAncestor(prs, a, i)
  }

  /** A base has fewer ancestors than what is stacked on it, unless a chain closes. */
  lemma BaseHasFewerAncestors(prs: seq<PR>, i: nat)
    requires Acyclic(prs) && i < |prs| && Base(prs, i).Some?
    ensures |Ancestors(prs, Base(prs, i).value)| < |Ancestors(prs, i)|
  {
    hide IsAncestor;
    var b := Base(prs, i).value;
    AncestorOfBase(prs, b, i, b);
    forall a | a in Ancestors(prs, b) ensures a in Ancestors(prs, i) { AncestorOfBase(prs, a, i, b); }
    SubsetSize(Ancestors(prs, b), Ancestors(prs, i) - {b});
  }

  /** The two readings of "acyclic" agree: the numbers of ancestors are ranks. */
  lemma AcyclicIffRanked(prs: seq<PR>)
    ensures Acyclic(prs) <==> HasRanks(prs)
  {
    hide Ancestors;
    if Acyclic(prs) {
      var rank := seq(|prs|, i requires 0 <= i < |prs| => |Ancestors(prs, i)|);
      forall i: nat, j: nat | StacksOn(prs, i, j) ensures rank[j] < rank[i] {
        assert Base(prs, i) == Some(j);
        BaseHasFewerAncestors(prs, i);
      }
      assert RankedBy(prs, rank);
    }
    if rank :| RankedBy(prs, rank) {
      forall i | 0 <= i < |prs| ensures !IsAncestor(prs, i, i) {
        if chain :| IsChain(prs, chain) && chain[0] == i && chain[|chain| - 1] == i {
          ChainRanksFall(prs, rank, chain);
        }
      }
    }
  }

  lemma {:induction false} RankedEmits(prs: seq<PR>, rank: seq<nat>, i: nat, ordered: seq<nat>, fuel: nat)
    requires RankedBy(prs, rank) && i < |prs| && fuel > rank[i]
    ensures Emit(prs, i, ordered, fuel).Some?
    decreases fuel
  {
    if i !in ordered && Base(prs, i).Some? {
      RankedEmits(prs, rank, Base(prs, i).value, ordered, fuel - 1);
    }
  }

  lemma {:induction false} RankedOrders(prs: seq<PR>, rank: seq<nat>, n: nat, fuel: nat)
    requires RankedBy(prs, rank) && n <= |prs| && forall i :: 0 <= i < |prs| ==> fuel > rank[i]
    ensures Order(prs, n, fuel).Some?
  {
    if n > 0 {
      RankedOrders(prs, rank, n - 1, fuel);
      RankedEmits(prs, rank, n - 1, Order(prs, n - 1, fuel).value, fuel);
    }
  }

  lemma {:induction false} Bound(rank: seq<nat>) returns (fuel: nat)
    ensures forall i :: 0 <= i < |rank| ==> fuel > rank[i]
  {
    if rank == [] {
      fuel := 0;
    } else {
      fuel := Bound(rank[..|rank| - 1]);
      assert forall i :: 0 <= i < |rank| - 1 ==> rank[..|rank| - 1][i] == rank[i];
      if fuel <= rank[|rank| - 1] { fuel := rank[|rank| - 1] + 1; }
    }
  }

  // ----- what any finished run produces

  predicate BaseBefore(prs: seq<PR>, ordered: seq<nat>, p: nat)
    requires p < |ordered|
  {
    ordered[p] < |prs| && forall j: nat :: j < |prs| && StacksOn(prs, ordered[p], j) ==> j in ordered[..p]
  }

  /** Whatever stands in the list stands behind its base. */
  ghost predicate BasesFirst(prs: seq<PR>, ordered: seq<nat>) {
    forall p :: 0 <= p < |ordered| ==> BaseBefore(prs, ordered, p)
  }

  ghost predicate NoRepeats(ordered: seq<nat>) {
    forall p, q :: 0 <= p < q < |ordered| ==> ordered[p] != ordered[q]
  }

  /** `j` is an ancestor of `i` or of something before `i`. */
  ghost predicate Pulled(prs: seq<PR>, j: nat, i: nat) {
    exists k: nat :: k <= i && k < |prs| && IsAncestor(prs, j, k)
  }

  lemma AppendKeepsBases(prs: seq<PR>, ordered: seq<nat>, i: nat)
    requires BasesFirst(prs, ordered) && i < |prs| && (Base(prs, i).Some? ==> Base(prs, i).value in ordered)
    ensures BasesFirst(prs, ordered + [i])
  {
    var after := ordered + [i];
    forall p | 0 <= p < |after| ensures BaseBefore(prs, after, p) {
      if p < |ordered| {
        assert BaseBefore(prs, ordered, p) && after[..p] == ordered[..p];
      } else {
        assert after[..p] == ordered;
      }
    }
  }

  /** `emit` appends its argument last, behind its unplaced ancestors. */
  lemma {:induction false} EmitAppends(prs: seq<PR>, i: nat, ordered: seq<nat>, fuel: nat)
    requires i < |prs| && BasesFirst(prs, ordered) && Emit(prs, i, ordered, fuel).Some?
    ensures var after := Emit(prs, i, ordered, fuel).value;
            && ordered <= after && i in after && BasesFirst(prs, after)
            && (forall p :: |ordered| <= p < |after| ==> after[p] == i || IsAncestor(prs, after[p], i))
    decreases fuel
  {
    if i !in ordered && Base(prs, i).Some? {
      var b := Base(prs, i).value;
      EmitAppends(prs, b, ordered, fuel - 1);
      var below := Emit(prs, b, ordered, fuel - 1).value;
      var after := below + [i];
      AppendKeepsBases(prs, below, i);
      forall p | |ordered| <= p < |below| ensures IsAncestor(prs, below[p], i) { AncestorOfBase(prs, below[p], i, b); }
      AncestorOfBase(prs, b, i, b);
    } else if i !in ordered {
      AppendKeepsBases(prs, ordered, i);
    }
  }

  lemma PrefixMembers(a: seq<nat>, b: seq<nat>)
    requires a <= b
    ensures forall x :: x in a ==> x in b
  {
    assert forall i :: 0 <= i < |a| ==> a[i] == b[i];
  }

  lemma {:induction false} FinishedOrder(prs: seq<PR>, n: nat, fuel: nat)
    requires n <= |prs| && Order(prs, n, fuel).Some?
    ensures var ordered := Order(prs, n, fuel).value;
            && BasesFirst(prs, ordered) && (forall i :: 0 <= i < n ==> i in ordered)
            && (forall x :: x in ordered && x >= n ==> n > 0 && Pulled(prs, x, n - 1))
  {
    if n > 0 {
      FinishedOrder(prs, n - 1, fuel);
      var before, after := Order(prs, n - 1, fuel).value, Order(prs, n, fuel).value;
      EmitAppends(prs, n - 1, before, fuel);
      PrefixMembers(before, after);
      forall x | x in after && x >= n ensures Pulled(prs, x, n - 1) {
        if x !in before {
          assert IsAncestor(prs, x, n - 1);
        }
      }
    }
  }

  function FirstIndex(s: seq<nat>, x: nat): (p: nat)
    requires x in s
    ensures p < |s| && s[p] == x && forall q :: 0 <= q < p ==> s[q] != x
  {
    if s[0] == x then 0 else 1 + FirstIndex(s[1..], x)
  }

  /** A finished run proves that the bases are acyclic: positions in its list are ranks. */
  lemma FinishedIsAcyclic(prs: seq<PR>, fuel: nat)
    requires Order(prs, |prs|, fuel).Some?
    ensures Acyclic(prs)
  {
    FinishedOrder(prs, |prs|, fuel);
    var ordered := Order(prs, |prs|, fuel).value;
    var rank := seq(|prs|, i requires 0 <= i < |prs| => FirstIndex(ordered, i));
    forall i: nat, b: nat | StacksOn(prs, i, b) ensures rank[b] < rank[i] {
      var p := FirstIndex(ordered, i);
      assert ordered[p] == i && BaseBefore(prs, ordered, p);
      var q :| 0 <= q < p && ordered[..p][q] == b;
      assert ordered[q] == b;
    }
    assert RankedBy(prs, rank);
    AcyclicIffRanked(prs);
  }

  /** The original's recursion ends if and only if no chain of bases closes on itself. */
  lemma EndsIffAcyclic(prs: seq<PR>)
    ensures (exists fuel: nat :: Order(prs, |prs|, fuel).Some?) <==> Acyclic(prs)
  {
    if fuel: nat :| Order(prs, |prs|, fuel).Some? {
      FinishedIsAcyclic(prs, fuel);
    }
    if Acyclic(prs) {
      AcyclicIffRanked(prs);
      var rank :| RankedBy(prs, rank);
      var fuel := Bound(rank);
      RankedOrders(prs, rank, |prs|, fuel);
    }
  }

  /** A pull request whose base is its own head: the original calls itself without end. */
  lemma {:induction false} OwnBaseNeverEnds(ref: string, fuel: nat)
    ensures Order([PR(ref, ref)], 1, fuel).None?
    ensures !Acyclic([PR(ref, ref)])
  {
    var prs := [PR(ref, ref)];
    assert ByHead(prs, ref) == Some(0);
    OwnBaseNeverEmits(prs, ref, fuel);
    assert Order(prs, 0, fuel) == Some([]);
    var chain: seq<nat> := [0, 0];
    assert StacksOn(prs, 0, 0);
    assert IsChain(prs, chain);
    assert IsAncestor(prs, 0, 0);
  }

  lemma {:induction false} OwnBaseNeverEmits(prs: seq<PR>, ref: string, fuel: nat)
    requires prs == [PR(ref, ref)]
    ensures Emit(prs, 0, [], fuel).None?
    decreases fuel
  {
    assert ByHead(prs, ref) == Some(0);
    if fuel > 0 { OwnBaseNeverEmits(prs, ref, fuel - 1); }
  }

  // ----- the order itself

  lemma {:induction false} EmitNoRepeats(prs: seq<PR>, rank: seq<nat>, i: nat, ordered: seq<nat>, fuel: nat)
    requires RankedBy(prs, rank) && i < |prs| && NoRepeats(ordered) && BasesFirst(prs, ordered)
    requires Emit(prs, i, ordered, fuel).Some?
    ensures var after := Emit(prs, i, ordered, fuel).value;
            NoRepeats(after) && forall x :: x in after && x !in ordered ==> x < |prs| && rank[x] <= rank[i]
    decreases fuel
  {
    if i !in ordered && Base(prs, i).Some? {
      EmitNoRepeats(prs, rank, Base(prs, i).value, ordered, fuel - 1);
    }
  }

  lemma {:induction false} OrderNoRepeats(prs: seq<PR>, n: nat, fuel: nat)
    requires Acyclic(prs) && n <= |prs| && Order(prs, n, fuel).Some?
    ensures NoRepeats(Order(prs, n, fuel).value)
  {
    if n > 0 {
      OrderNoRepeats(prs, n - 1, fuel);
      FinishedOrder(prs, n - 1, fuel);
      AcyclicIffRanked(prs);
      var rank :| RankedBy(prs, rank);
      EmitNoRepeats(prs, rank, n - 1, Order(prs, n - 1, fuel).value, fuel);
    }
  }

  lemma {:induction false} OrderGrows(prs: seq<PR>, n: nat, m: nat, fuel: nat)
    requires n <= m <= |prs| && Order(prs, m, fuel).Some?
    ensures Order(prs, n, fuel).Some? && Order(prs, n, fuel).value <= Order(prs, m, fuel).value
    decreases m
  {
    if n < m {
      OrderGrows(prs, n, m - 1, fuel);
      FinishedOrder(prs, m - 1, fuel);
      EmitAppends(prs, m - 1, Order(prs, m - 1, fuel).value, fuel);
    }
  }

  /** A permutation of the group in which everything stands behind its base, and which moves `j` ahead
      of an earlier `i` only when `j` is an ancestor of `i` or of something before `i`. */
  ghost predicate IsMergeOrder(prs: seq<PR>, ordered: seq<nat>) {
    && (forall i :: 0 <= i < |prs| ==> i in ordered) && NoRepeats(ordered) && BasesFirst(prs, ordered)
    && (forall p, q :: 0 <= p < q < |ordered| && ordered[q] < ordered[p] ==> Pulled(prs, ordered[p], ordered[q]))
  }

  lemma PulledAhead(prs: seq<PR>, fuel: nat, p: nat, q: nat)
    requires Acyclic(prs) && Order(prs, |prs|, fuel).Some?
    requires var ordered := Order(prs, |prs|, fuel).value;
             p < q < |ordered| && NoRepeats(ordered) && ordered[q] < ordered[p] && ordered[q] < |prs|
    ensures var ordered := Order(prs, |prs|, fuel).value; Pulled(prs, ordered[p], ordered[q])
  {
    hide Order, BasesFirst, Pulled, Acyclic, NoRepeats;
    var ordered := Order(prs, |prs|, fuel).value;
    var j, i := ordered[p], ordered[q];
    OrderGrows(prs, i + 1, |prs|, fuel);
    FinishedOrder(prs, i + 1, fuel);
    var early := Order(prs, i + 1, fuel).value;
    var r := FirstIndex(early, i);
    assert ordered[r] == i;
    SameIndex(ordered, r, q);
    assert early[p] == j && j in early;
  }

  lemma SameIndex(ordered: seq<nat>, r: nat, q: nat)
    requires NoRepeats(ordered) && r < |ordered| && q < |ordered| && ordered[r] == ordered[q]
    ensures r == q
  {
  }

  lemma OrderIsMergeOrder(prs: seq<PR>, fuel: nat)
    requires Acyclic(prs) && Order(prs, |prs|, fuel).Some?
    ensures IsMergeOrder(prs, Order(prs, |prs|, fuel).value)
  {
    hide Order, Acyclic, Pulled, NoRepeats;
    var ordered := Order(prs, |prs|, fuel).value;
    FinishedOrder(prs, |prs|, fuel);
    OrderNoRepeats(prs, |prs|, fuel);
    forall p, q | 0 <= p < q < |ordered| && ordered[q] < ordered[p] ensures Pulled(prs, ordered[p], ordered[q]) {
      assert BaseBefore(prs, ordered, q);
      PulledAhead(prs, fuel, p, q);
    }
  }

  lemma OrderIsFull(prs: seq<PR>, ordered: seq<nat>)
    requires IsMergeOrder(prs, ordered) && prs != []
    ensures ordered != []
  {
    hide NoRepeats, BasesFirst, Pulled;
    assert 0 in ordered;
  }

  class Orderer {
    const prs: seq<PR>
    var ordered: seq<nat>
    var placed: seq<nat>

    constructor (prs: seq<PR>)
      ensures this.prs == prs && ordered == placed == []
    {
      this.prs, ordered, placed := prs, [], [];
    }

    method EmitOne(i: nat, ghost fuel: nat)
      requires i < |prs| && placed == ordered && Emit(prs, i, ordered, fuel).Some?
      modifies this
      ensures placed == ordered && Some(ordered) == Emit(prs, i, old(ordered), fuel)
      decreases fuel
    {
      if i in placed { return; }
      var base := Base(prs, i);
      if base.Some? {
        EmitOne(base.value, fuel - 1);
      }
      placed := placed + [i];
      ordered := ordered + [i];
    }
  }

  /** The group in merge order; an empty list exactly when no base branch is a head branch of the group.
      The original recurses without end on a cycle of bases, which the precondition excludes. */
  method ComputeMergeOrder(prs: seq<PR>) returns (ordered: seq<nat>)
    requires Acyclic(prs)
    ensures ordered != [] <==> exists i, j :: 0 <= i < |prs| && 0 <= j < |prs| && prs[j].headRef == prs[i].baseRef
    ensures ordered != [] ==> IsMergeOrder(prs, ordered)
  {
    hide Base, IsMergeOrder, Acyclic;
    StackedIff(prs);
    if !Stacked(prs) { return []; }
    AcyclicIffRanked(prs);
    ghost var rank :| RankedBy(prs, rank);
    ghost var fuel := Bound(rank);
    RankedOrders(prs, rank, |prs|, fuel);
    var o := new Orderer(prs);
    for i := 0 to |prs|
      invariant o.prs == prs && o.placed == o.ordered && Some(o.ordered) == Order(prs, i, fuel)
    {
      OrderGrows(prs, i + 1, |prs|, fuel);
      o.EmitOne(i, fuel);
    }
    OrderIsMergeOrder(prs, fuel);
    OrderIsFull(prs, o.ordered);
    return o.ordered;
  }
}
