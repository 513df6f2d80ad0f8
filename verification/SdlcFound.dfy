/** Exactly which credentials a redacted text still holds, and exactly which texts come back unchanged. */
module SdlcFound {
  import opened Common
  import opened SdlcRedact
  import opened SdlcRedactClean
  import opened SdlcRedactScan
  import opened SdlcText
  import opened SdlcCredentials

  // ----- credentials in a part of a text

  lemma HeadShift(s: string, k: nat, i: nat, n: nat, e: nat, q: nat)
    requires k <= |s|
    ensures HeadAt(s[k..], i, n, e, q) <==> HeadAt(s, i + k, n + k, e + k, q + k)
  {
    hide IsName, White, Quote;
    var t := s[k..];
    assert forall j {:trigger t[j]} :: 0 <= j < |t| ==> t[j] == s[j + k];
    assert forall j {:trigger s[j]} :: k <= j < |s| ==> s[j] == t[j - k];
    if i <= n <= |t| { assert t[i..n] == s[i + k..n + k]; }
  }

  lemma ValueShift(s: string, k: nat, q: nat, w: nat)
    requires k <= |s|
    ensures ValueAt(s[k..], q, w) <==> ValueAt(s, q + k, w + k)
    ensures ValueAt(s, q + k, w + k) ==> s[k..][q + 1..w] == s[q + k + 1..w + k]
  {
    hide Quote;
    var t := s[k..];
    assert forall j {:trigger t[j]} :: 0 <= j < |t| ==> t[j] == s[j + k];
    assert forall j {:trigger s[j]} :: k <= j < |s| ==> s[j] == t[j - k];
  }

  lemma NoQuoteInHead(s: string, i: nat, n: nat, e: nat, q: nat)
    requires HeadAt(s, i, n, e, q)
    ensures forall k :: i <= k < q ==> !Quote(s[k])
  {
    hide IsName;
    forall k | i <= k < q ensures !Quote(s[k]) {
      ClassesIff(s[k]);
      if k < n { NameHasNoQuote(s[i..n], k - i); }
    }
  }

  lemma NameHasNoQuote(name: string, k: nat)
    requires IsName(name) && k < |name|
    ensures !Quote(name[k])
  {
    hide EndsLike;
    ClassesIff(name[k]);
  }

  /** No head that ends in the quote at `q` starts before `k`. */
  ghost predicate StartsBehind(s: string, k: nat, q: nat) {
    forall i: nat, n: nat, e: nat :: HeadAt(s, i, n, e, q) ==> k <= i
  }

  lemma AssignedShift(s: string, k: nat, q: nat, w: nat)
    requires k <= |s| && (ValueAt(s, q + k, w + k) ==> StartsBehind(s, k, q + k))
    ensures Assigned(s[k..], q, w) <==> Assigned(s, q + k, w + k)
    ensures Live(s[k..], q, w) <==> Live(s, q + k, w + k)
  {
    hide HeadAt, ValueAt, IsPlaceholder;
    ValueShift(s, k, q, w);
    if HeadBefore(s[k..], q) {
      var i: nat, n: nat, e: nat :| HeadAt(s[k..], i, n, e, q);
      HeadShift(s, k, i, n, e, q);
    }
    if HeadBefore(s, q + k) && ValueAt(s, q + k, w + k) {
      var i: nat, n: nat, e: nat :| HeadAt(s, i, n, e, q + k);
      HeadOrder(s, i, n, e, q + k);
      HeadShift(s, k, i - k, n - k, e - k, q);
    }
  }

  lemma HeadOrder(s: string, i: nat, n: nat, e: nat, q: nat)
    requires HeadAt(s, i, n, e, q)
    ensures i < n <= e < q < |s| && Quote(s[q])
  {
  }

  /** `k` is a place where a search may start anew: no head straddles it, and no credential found before
      it reaches across. */
  ghost predicate Restart(s: string, k: nat) {
    && k <= |s|
    && (forall q: nat, w: nat :: Assigned(s[k..], q, w) <==> Assigned(s, q + k, w + k))
    && (forall q: nat, w: nat :: Live(s[k..], q, w) <==> Live(s, q + k, w + k))
    && forall p: nat, q: nat :: p < k && Found(s, p) && Assigned(s, p, q) ==> q < k
  }

  lemma {:induction false} FoundShift(s: string, k: nat, q: nat)
    requires Restart(s, k)
    ensures Found(s[k..], q) <==> Found(s, q + k)
    decreases q
  {
    hide Assigned, Live, Opens;
    SomeShift(s, k, q);
    forall p: nat | p < q ensures Found(s[k..], p) <==> Found(s, p + k) {
      FoundShift(s, k, p);
    }
    if p: nat :| p < q && Assigned(s[k..], p, q) && Found(s[k..], p) {
      assert Assigned(s, p + k, q + k) && Found(s, p + k);
    }
    if p: nat :| p < q + k && Assigned(s, p, q + k) && Found(s, p) {
      assert p >= k;
      assert Assigned(s[k..], p - k, q) && Found(s[k..], p - k);
    }
  }

  /** Found again behind the restart, or met before it. */
  lemma Restarted(s: string, k: nat)
    requires Restart(s, k)
    ensures HasLive(s) <==> HasLive(s[k..]) || exists q: nat :: q < k && LiveAt(s, q)
    ensures FoundLive(s) <==> FoundLive(s[k..]) || exists q: nat :: q < k && Found(s, q) && LiveAt(s, q)
    ensures Overlooked(s) <==> Overlooked(s[k..]) || exists p: nat :: p < k && OverlookedBy(s, p)
  {
    LiveRestarted(s, k);
    FoundLiveRestarted(s, k);
    OverlookedRestarted(s, k);
  }

  ghost predicate LiveAt(s: string, q: nat) {
    exists w: nat :: Live(s, q, w)
  }

  ghost predicate OverlookedBy(s: string, p: nat) {
    exists q: nat, w: nat :: OverlookedAt(s, p, q, w)
  }

  lemma LiveRestarted(s: string, k: nat)
    requires Restart(s, k)
    ensures HasLive(s) <==> HasLive(s[k..]) || exists q: nat :: q < k && LiveAt(s, q)
  {
    hide Assigned, IsPlaceholder, Found;
    if q: nat, w: nat :| Live(s, q, w) {
      AssignedOrder(s, q, w);
      if q < k {
        assert LiveAt(s, q);
      } else {
        var q', w': nat := q - k, w - k;
        assert Live(s[k..], q', w');
      }
    }
    if q: nat, w: nat :| Live(s[k..], q, w) { assert Live(s, q + k, w + k); }
  }

  lemma FoundLiveRestarted(s: string, k: nat)
    requires Restart(s, k)
    ensures FoundLive(s) <==> FoundLive(s[k..]) || exists q: nat :: q < k && Found(s, q) && LiveAt(s, q)
  {
    hide Assigned, IsPlaceholder, Found;
    if q: nat, w: nat :| Found(s, q) && Live(s, q, w) {
      AssignedOrder(s, q, w);
      if q < k {
        assert LiveAt(s, q);
      } else {
        var q', w': nat := q - k, w - k;
        FoundShift(s, k, q');
        assert Found(s[k..], q') && Live(s[k..], q', w');
      }
    }
    if q: nat, w: nat :| Found(s[k..], q) && Live(s[k..], q, w) {
      FoundShift(s, k, q);
      assert Found(s, q + k) && Live(s, q + k, w + k);
    }
  }

  lemma OverlookedRestarted(s: string, k: nat)
    requires Restart(s, k)
    ensures Overlooked(s) <==> Overlooked(s[k..]) || exists p: nat :: p < k && OverlookedBy(s, p)
  {
    hide OverlookedAt;
    if p: nat, q: nat, w: nat :| OverlookedAt(s, p, q, w) {
      OverlookedOrder(s, p, q, w);
      if p < k {
        assert OverlookedBy(s, p);
      } else {
        var p', q', w': nat := p - k, q - k, w - k;
        OverlookedShift(s, k, p', q', w');
      }
    }
    if p: nat, q: nat, w: nat :| OverlookedAt(s[k..], p, q, w) {
      OverlookedShift(s, k, p, q, w);
    }
  }

  lemma OverlookedOrder(s: string, p: nat, q: nat, w: nat)
    requires OverlookedAt(s, p, q, w)
    ensures p < q < w < |s|
  {
    hide Assigned, IsPlaceholder, Found;
    AssignedOrder(s, p, q);
    AssignedOrder(s, q, w);
  }

  lemma OverlookedShift(s: string, k: nat, p: nat, q: nat, w: nat)
    requires Restart(s, k)
    ensures OverlookedAt(s[k..], p, q, w) <==> OverlookedAt(s, p + k, q + k, w + k)
  {
    hide Assigned, IsPlaceholder, Found, Live;
    FoundShift(s, k, p);
    if Assigned(s[k..], p, q) {
      assert Assigned(s, p + k, q + k);
      SameValue(s, k, p, q);
    }
  }

  lemma SameValue(s: string, k: nat, p: nat, q: nat)
    requires k <= |s| && Assigned(s, p + k, q + k)
    ensures s[k..][p + 1..q] == s[p + k + 1..q + k]
  {
    ValueShift(s, k, p, q);
  }

  lemma AssignedOrder(s: string, q: nat, w: nat)
    requires Assigned(s, q, w)
    ensures 3 < q < w < |s|
    ensures forall v: nat :: Assigned(s, q, v) ==> v == w
  {
  }

  lemma SomeShift(s: string, k: nat, q: nat)
    requires Restart(s, k)
    ensures Opens(s[k..], q) <==> Opens(s, q + k)
  {
    hide Assigned, Live, Found;
    var at := q + k;
    if w: nat :| Assigned(s[k..], q, w) { assert Assigned(s, at, w + k); }
    if w: nat :| Assigned(s, at, w) {
      AssignedOrder(s, at, w);
      var v: nat := w - k;
      assert Assigned(s[k..], q, v);
    }
  }

  // ----- one step of the search

  lemma CredentialMeans(s: string)
    ensures Credential(s) ==>
            var q := CredHead(s) - 1;
            (exists n: nat, e: nat :: HeadAt(s, 0, n, e, q)) && ValueAt(s, q, q + 1 + CredValue(s, q + 1))
    ensures (exists n: nat, e: nat, q: nat, w: nat :: HeadAt(s, 0, n, e, q) && ValueAt(s, q, w)) ==> Credential(s)
  {
    hide HeadAt, ValueAt, CredHead, CredValue;
    if Credential(s) {
      var q := CredHead(s) - 1;
      var n, e := FoundIsHead(s);
      HeadOrder(s, 0, n, e, q);
      ValueIff(s, q, q + 1 + CredValue(s, q + 1));
    }
    if n: nat, e: nat, q: nat, w: nat :| HeadAt(s, 0, n, e, q) && ValueAt(s, q, w) {
      HeadOrder(s, 0, n, e, q);
      HeadIsFound(s, n, e, q);
      ValueIff(s, q, w);
      assert w > q + 1 by { ValueOrder(s, q, w); }
    }
  }

  lemma StartsLater(s: string, i: nat, n: nat, e: nat, q: nat, w: nat)
    requires !Credential(s) && HeadAt(s, i, n, e, q) && ValueAt(s, q, w)
    ensures 1 <= i
  {
    hide HeadAt, ValueAt, Credential;
    CredentialMeans(s);
  }

  lemma ValueOrder(s: string, q: nat, w: nat)
    requires ValueAt(s, q, w)
    ensures q + 7 <= w < |s| && forall k :: q < k < w ==> !Quote(s[k])
  {
  }

  lemma RestartIntro(s: string, k: nat)
    requires k <= |s|
    requires forall q: nat, w: nat :: q >= k && ValueAt(s, q, w) ==> StartsBehind(s, k, q)
    requires forall p: nat, q: nat :: p < k && Found(s, p) && Assigned(s, p, q) ==> q < k
    ensures Restart(s, k)
  {
    hide Assigned, Live, Found, ValueAt, StartsBehind;
    forall q: nat, w: nat
      ensures Assigned(s[k..], q, w) <==> Assigned(s, q + k, w + k)
      ensures Live(s[k..], q, w) <==> Live(s, q + k, w + k)
    {
      AssignedShift(s, k, q, w);
    }
  }

  /** Where no credential starts, the search goes on one character later. */
  lemma SearchGoesOn(s: string)
    requires s != "" && !Credential(s)
    ensures Restart(s, 1)
    ensures HasLive(s) <==> HasLive(s[1..])
    ensures FoundLive(s) <==> FoundLive(s[1..])
    ensures Overlooked(s) <==> Overlooked(s[1..])
  {
    hide Assigned, ValueAt, HeadAt, Credential, Found, IsPlaceholder;
    CredentialMeans(s);
    forall q: nat, w: nat | q >= 1 && ValueAt(s, q, w) ensures StartsBehind(s, 1, q) {
      forall i: nat, n: nat, e: nat | HeadAt(s, i, n, e, q) ensures 1 <= i { StartsLater(s, i, n, e, q, w); }
    }
    forall q: nat | Assigned(s, 0, q) ensures false { AssignedOrder(s, 0, q); }
    RestartIntro(s, 1);
    Restarted(s, 1);
  }

  /** The places around the first credential of `s`. */
  ghost predicate First(s: string, q: nat, w: nat) {
    (exists n: nat, e: nat :: HeadAt(s, 0, n, e, q)) && ValueAt(s, q, w)
  }

  lemma FirstQuotes(s: string, q: nat, w: nat, p: nat)
    requires First(s, q, w) && p <= w && Quote(s[p])
    ensures p == q || p == w
  {
    hide HeadAt, ValueAt, Quote;
    ValueOrder(s, q, w);
    var n: nat, e: nat :| HeadAt(s, 0, n, e, q);
    NoQuoteInHead(s, 0, n, e, q);
  }

  lemma AssignedQuotes(s: string, q: nat, w: nat)
    requires Assigned(s, q, w)
    ensures q < w < |s| && Quote(s[q]) && Quote(s[w])
  {
    hide IsName, White;
  }

  lemma FirstIsFound(s: string, q: nat, w: nat)
    requires First(s, q, w)
    ensures Assigned(s, q, w) && Found(s, q) && !Found(s, w)
  {
    hide HeadAt, ValueAt;
    assert Assigned(s, q, w);
    forall p: nat | p < q && Assigned(s, p, q) ensures false {
      AssignedQuotes(s, p, q);
      AssignedQuotes(s, q, w);
      FirstQuotes(s, q, w, p);
    }
    AssignedQuotes(s, q, w);
    assert Opens(s, q);
  }

  lemma FirstOverlooks(s: string, q: nat, w: nat)
    requires Assigned(s, q, w) && Found(s, q)
    ensures OverlookedBy(s, q) <==> IsPlaceholder(s[q + 1..w]) && LiveAt(s, w)
  {
    hide Assigned, Found, IsPlaceholder;
    AssignedOrder(s, q, w);
    var held := IsPlaceholder(s[q + 1..w]);
    forall v: nat, x: nat ensures OverlookedAt(s, q, v, x) <==> v == w && held && Live(s, w, x) {
      AssignedOrder(s, q, w);
    }
    if x: nat :| Live(s, w, x) { assert held ==> OverlookedAt(s, q, w, x); }
  }

  /** Behind a credential the search goes on after its closing quote; only the credential itself and one
      that opens with that quote come earlier. */
  lemma SearchGoesOnBehind(s: string, q: nat, w: nat)
    requires First(s, q, w)
    ensures w < |s| && Assigned(s, q, w) && Restart(s, w + 1)
    ensures HasLive(s) <==> HasLive(s[w + 1..]) || !IsPlaceholder(s[q + 1..w]) || LiveAt(s, w)
    ensures FoundLive(s) <==> FoundLive(s[w + 1..]) || !IsPlaceholder(s[q + 1..w])
    ensures Overlooked(s) <==> Overlooked(s[w + 1..]) || (IsPlaceholder(s[q + 1..w]) && LiveAt(s, w))
  {
    hide Assigned, ValueAt, HeadAt, Found, IsPlaceholder, First, Quote;
    var k := w + 1;
    FirstIsFound(s, q, w);
    AssignedQuotes(s, q, w);
    forall p: nat, v: nat | p < k && Assigned(s, p, v) ensures (p == q && v == w) || p == w {
      AssignedQuotes(s, p, v);
      FirstQuotes(s, q, w, p);
      AssignedOrder(s, q, w);
    }
    forall p: nat, v: nat | p >= k && ValueAt(s, p, v) ensures StartsBehind(s, k, p) {
      forall i: nat, n: nat, e: nat | HeadAt(s, i, n, e, p) ensures k <= i { NoQuoteInHead(s, i, n, e, p); }
    }
    RestartIntro(s, k);
    Restarted(s, k);
    assert LiveAt(s, q) <==> !IsPlaceholder(s[q + 1..w]) by {
      if !IsPlaceholder(s[q + 1..w]) { assert Live(s, q, w); }
    }
    FirstOverlooks(s, q, w);
    assert !OverlookedBy(s, w);
  }

  // ----- what the credential pass leaves

  /** A scan without a finding: the search meets no live credential. */
  lemma {:induction false} NoneFoundIff(s: string)
    ensures LiveCredentials(s) == 0 <==> !FoundLive(s)
    decreases |s|
  {
    hide Credential, CredHead, CredValue, Found, Live, FoundLive, Placeholder, IsPlaceholder, LiveCredentials, First,
         Restart, HasLive, Overlooked, LiveAt;
    if s == "" {
      NothingLive(s);
    } else {
      ScanSteps(s);
      if Credential(s) {
        var q, w := FirstOfScan(s);
        SearchGoesOnBehind(s, q, w);
        PlaceholderIff(s[q + 1..w]);
        NoneFoundIff(s[w + 1..]);
      } else {
        SearchGoesOn(s);
        NoneFoundIff(s[1..]);
      }
    }
  }

  lemma ScanSteps(s: string)
    requires s != ""
    ensures !Credential(s) ==> (LiveCredentials(s) == 0 <==> LiveCredentials(s[1..]) == 0)
  {
    hide CredHead, CredValue, Placeholder;
  }

  lemma FirstOfScan(s: string) returns (q: nat, w: nat)
    requires Credential(s)
    ensures First(s, q, w) && q + 1 == CredHead(s) && w == CredHead(s) + CredValue(s, CredHead(s)) < |s|
    ensures LiveCredentials(s) == 0 <==> Placeholder(s[q + 1..w]) && LiveCredentials(s[w + 1..]) == 0
  {
    hide CredHead, CredValue, HeadAt, ValueAt, Placeholder;
    q, w := CredHead(s) - 1, CredHead(s) + CredValue(s, CredHead(s));
    CredentialMeans(s);
  }

  lemma NothingLive(s: string)
    requires s == ""
    ensures LiveCredentials(s) == 0 && !FoundLive(s) && !HasLive(s) && !Overlooked(s)
  {
    hide Found, IsPlaceholder;
    forall q: nat, w: nat ensures !Live(s, q, w) { if Assigned(s, q, w) { AssignedOrder(s, q, w); } }
  }

  lemma HeadOfPrefix(s: string, t: string, i: nat, n: nat, e: nat, q: nat)
    requires q < |s| && q < |t| && s[..q + 1] == t[..q + 1]
    ensures HeadAt(s, i, n, e, q) <==> HeadAt(t, i, n, e, q)
  {
    hide IsName, White, Quote;
    assert forall k {:trigger s[k]} {:trigger t[k]} :: 0 <= k <= q ==> s[k] == s[..q + 1][k] == t[..q + 1][k] == t[k];
    if i <= n <= q { assert s[i..n] == s[..q + 1][i..n] == t[..q + 1][i..n] == t[i..n]; }
  }

  lemma ValueOfPrefix(s: string, t: string, m: nat, q: nat, w: nat)
    requires q + 1 < m <= |s| && m <= |t| && s[..m] == t[..m] && Quote(s[m - 1]) && ValueAt(s, q, w)
    ensures ValueAt(t, q, w) && s[q + 1..w] == t[q + 1..w]
  {
    hide Quote;
    assert forall k {:trigger s[k]} {:trigger t[k]} :: 0 <= k < m ==> s[k] == s[..m][k] == t[..m][k] == t[k];
    assert w < m;
    assert s[q + 1..w] == s[..m][q + 1..w] == t[..m][q + 1..w] == t[q + 1..w];
  }

  /** A credential that opens where the first one ends is the same in both texts when both have the
      same quote behind it. */
  lemma SameLiveAt(s: string, t: string, m: nat, q: nat)
    requires q + 1 < m <= |s| && m <= |t| && s[..m] == t[..m] && Quote(s[m - 1])
    ensures LiveAt(s, q) <==> LiveAt(t, q)
  {
    if LiveAt(s, q) { LiveAtOfPrefix(s, t, m, q); }
    assert s[m - 1] == s[..m][m - 1] == t[..m][m - 1] == t[m - 1];
    if LiveAt(t, q) { LiveAtOfPrefix(t, s, m, q); }
  }

  lemma LiveAtOfPrefix(s: string, t: string, m: nat, q: nat)
    requires q + 1 < m <= |s| && m <= |t| && s[..m] == t[..m] && Quote(s[m - 1]) && LiveAt(s, q)
    ensures LiveAt(t, q)
  {
    hide HeadAt, ValueAt, IsPlaceholder, Quote;
    var w: nat :| Live(s, q, w);
    ValueOfPrefix(s, t, m, q, w);
    var i: nat, n: nat, e: nat :| HeadAt(s, i, n, e, q);
    assert s[..q + 1] == s[..m][..q + 1] == t[..m][..q + 1] == t[..q + 1];
    HeadOfPrefix(s, t, i, n, e, q);
    assert Live(t, q, w);
  }

  lemma HeadEnds(s: string, i: nat, n: nat, e: nat, q: nat)
    requires HeadAt(s, i, n, e, q)
    ensures q > 0 && s[q - 1] != ']'
  {
    hide IsName;
    assert e == q - 1 || White(s[q - 1]);
  }

  /** Behind a replaced value no credential opens with its closing quote: the mark is no name. */
  lemma NoneBehindMark(s: string, q: nat)
    requires 0 < q < |s| && s[q - 1] == ']'
    ensures !LiveAt(s, q)
  {
    hide HeadAt, ValueAt, IsPlaceholder;
    forall w: nat ensures !Live(s, q, w) {
      if HeadBefore(s, q) {
        var i: nat, n: nat, e: nat :| HeadAt(s, i, n, e, q);
        HeadEnds(s, i, n, e, q);
      }
    }
  }

  lemma LeftBehindKept(s: string, q: nat, w: nat, rest: string)
    requires First(s, q, w) && Credential(s) && q + 1 == CredHead(s) && w == q + 1 + CredValue(s, q + 1) < |s|
    requires Placeholder(s[q + 1..w]) && rest == CredentialsOut(s[w + 1..])
    requires HasLive(rest) <==> Overlooked(s[w + 1..])
    ensures HasLive(CredentialOut(s, rest)) <==> Overlooked(s)
  {
    hide Credential, CredHead, CredValue, Placeholder, IsPlaceholder, CredentialsOut, HasLive, Overlooked, LiveAt,
         FoundLive, Restart, First, Assigned, CredentialOut;
    var out := CredentialOut(s, rest);
    KeptOut(s, q, w, rest);
    PlaceholderIff(s[q + 1..w]);
    SearchGoesOnBehind(s, q, w);
    SearchGoesOnBehind(out, q, w);
    SameBehindKept(s, w, rest);
  }

  lemma KeptOut(s: string, q: nat, w: nat, rest: string)
    requires Credential(s) && q + 1 == CredHead(s) && w == q + 1 + CredValue(s, q + 1) < |s| && Placeholder(s[q + 1..w])
    ensures var out := CredentialOut(s, rest);
            && out == s[..w + 1] + rest && First(out, q, w)
            && out[q + 1..w] == s[q + 1..w] && out[w + 1..] == rest
  {
    hide CredHead, CredValue, Placeholder, First;
    KeptCredential(s, rest);
    var q', w' := FirstOfScan(CredentialOut(s, rest));
  }

  lemma SameBehindKept(s: string, w: nat, rest: string)
    requires w < |s| && rest == CredentialsOut(s[w + 1..])
    ensures LiveAt(s[..w + 1] + rest, w) <==> LiveAt(s, w)
  {
    hide CredValue, CredentialsOut, LiveAt, FirstCutAt;
    var v, out := s[w + 1..], s[..w + 1] + rest;
    FirstCutHolds(v);
    match FirstCutAt(v)
    case None => assert out == s;
    case Some(m) =>
      var n := w + 1 + m;
      assert out[..n] == s[..w + 1] + rest[..m] == s[..w + 1] + v[..m] == s[..n];
      assert s[n - 1] == v[m - 1];
      ClassesIff(v[m - 1]);
      SameLiveAt(s, out, n, w);
  }

  lemma LeftBehindMark(s: string, q: nat, w: nat, rest: string)
    requires First(s, q, w) && Credential(s) && q + 1 == CredHead(s) && w == q + 1 + CredValue(s, q + 1) < |s|
    requires !Placeholder(s[q + 1..w]) && (HasLive(rest) <==> Overlooked(s[w + 1..]))
    ensures HasLive(CredentialOut(s, rest)) <==> Overlooked(s)
  {
    hide CredHead, CredValue, Placeholder, IsPlaceholder, HasLive, Overlooked, LiveAt, FoundLive, Restart, First,
         CredentialMark;
    var out := CredentialOut(s, rest);
    ReplacedCredential(s, rest);
    var q', w' := FirstOfScan(out);
    PlaceholderIff(s[q + 1..w]);
    PlaceholderIff(out[q' + 1..w']);
    SearchGoesOnBehind(s, q, w);
    SearchGoesOnBehind(out, q', w');
    CredentialMarkChars();
    assert out[q' + 21] == CredentialMark()[20] == ']';
    NoneBehindMark(out, w');
  }

  /** The credential pass leaves a live credential exactly when one was overlooked: its opening quote
      closes a placeholder that the pass has found and kept. */
  lemma {:induction false} LiveLeftIff(s: string)
    ensures HasLive(CredentialsOut(s)) <==> Overlooked(s)
    decreases |s|
  {
    hide Credential, CredHead, CredValue, Placeholder, IsPlaceholder, CredentialsOut, HasLive, Overlooked, LiveAt,
         FoundLive, Restart, First, CredentialOut, LiveCredentials;
    if s == "" {
      NothingLive(s);
      NothingOut();
    } else {
      CredentialsOutSteps(s);
      if Credential(s) {
        var q, w := FirstOfScan(s);
        var rest := CredentialsOut(s[w + 1..]);
        LiveLeftIff(s[w + 1..]);
        if Placeholder(s[q + 1..w]) {
          LeftBehindKept(s, q, w, rest);
        } else {
          LeftBehindMark(s, q, w, rest);
        }
      } else {
        NoNewCredential(s);
        SearchGoesOn(s);
        SearchGoesOn(CredentialsOut(s));
        LiveLeftIff(s[1..]);
      }
    }
  }

  // ----- what the credential pass replaces

  /** `edit` replaces the live value between the quotes at `q` and `w`, with `tail` characters from its
      start to the end of `s`; the search finds this credential. */
  ghost predicate ReplacesAt(s: string, q: nat, w: nat, tail: nat, edit: Edit) {
    && Found(s, q) && Live(s, q, w)
    && edit == Cut(s[q + 1..w], "[REDACTED:credential]") && q + 1 + tail == |s|
  }

  ghost predicate CutsValue(s: string, tail: nat, edit: Edit) {
    exists q: nat, w: nat :: ReplacesAt(s, q, w, tail, edit)
  }

  lemma CutsValueBehind(s: string, k: nat, tail: nat, edit: Edit)
    requires k <= |s| && Restart(s, k) && CutsValue(s[k..], tail, edit)
    ensures CutsValue(s, tail, edit)
  {
    hide Found, Live, Restart;
    var t := s[k..];
    var q: nat, w: nat :| ReplacesAt(t, q, w, tail, edit);
    FoundShift(s, k, q);
    LiveBehind(s, k, q, w);
    assert ReplacesAt(s, q + k, w + k, tail, edit);
  }

  lemma LiveBehind(s: string, k: nat, q: nat, w: nat)
    requires Restart(s, k) && Live(s[k..], q, w)
    ensures Live(s, q + k, w + k) && s[k..][q + 1..w] == s[q + k + 1..w + k]
  {
    hide Assigned, IsPlaceholder, Found;
    SameValue(s, k, q, w);
  }

  lemma FirstIsCut(s: string, q: nat, w: nat, rest: Script)
    requires First(s, q, w) && w < |s| && !IsPlaceholder(s[q + 1..w]) && Before(rest) == s[w + 1..]
    ensures var cut := Cut(s[q + 1..w], CredentialMark());
            CutsValue(s, |Before([cut, Keep(s[w])] + rest)|, cut)
  {
    hide Found, Assigned, First, IsPlaceholder;
    FirstIsFound(s, q, w);
    AssignedOrder(s, q, w);
    var cut := Cut(s[q + 1..w], CredentialMark());
    CutsAfterCut(cut.old_, cut.mark, s[w], rest);
    assert ReplacesAt(s, q, w, |Before([cut, Keep(s[w])] + rest)|, cut);
  }

  lemma CutsAfterCut(old_: string, mark: string, c: char, rest: Script)
    ensures Before([Cut(old_, mark), Keep(c)] + rest) == old_ + [c] + Before(rest)
  {
    var script := [Cut(old_, mark), Keep(c)] + rest;
    assert script[1..][0] == Keep(c) && script[1..][1..] == rest;
  }

  lemma KeptEdits(s: string)
    ensures |Kept(s)| == |s| && forall k :: 0 <= k < |s| ==> Kept(s)[k].Keep?
  {
  }

  /** Where the edits of the first credential end and those behind it begin. */
  lemma ScriptOfFirst(s: string, q: nat, w: nat, k: nat) returns (head: nat)
    requires Credential(s) && q + 1 == CredHead(s) && w == q + 1 + CredValue(s, q + 1) < |s|
    requires k < |SubstituteCredentials(s)| && SubstituteCredentials(s)[k].Cut?
    ensures var script, rest := SubstituteCredentials(s), SubstituteCredentials(s[w + 1..]);
            if k > head then
              k - head - 1 < |rest| && script[k..] == rest[k - head - 1..] && script[k] == rest[k - head - 1]
            else
              && !Placeholder(s[q + 1..w]) && script[k] == Cut(s[q + 1..w], CredentialMark())
              && script[k..] == [Cut(s[q + 1..w], CredentialMark()), Keep(s[w])] + rest
  {
    hide CredHead, CredValue, Placeholder, CredentialMark, Kept;
    var at := q + 1;
    var rest := SubstituteCredentials(s[w + 1..]);
    KeptEdits(s[..at]);
    KeptEdits(s[..w]);
    if Placeholder(s[at..w]) {
      head := w;
      assert SubstituteCredentials(s) == Kept(s[..w]) + [Keep(s[w])] + rest;
    } else {
      head := at + 1;
      assert SubstituteCredentials(s) == Kept(s[..at]) + [Cut(s[at..w], CredentialMark())] + [Keep(s[w])] + rest;
    }
  }

  /** Every cut of the credential pass replaces the value of a live credential, and nothing else. */
  lemma {:induction false} CredentialCutsAreLive(s: string, k: nat)
    requires k < |SubstituteCredentials(s)| && SubstituteCredentials(s)[k].Cut?
    ensures CutsValue(s, |Before(SubstituteCredentials(s)[k..])|, SubstituteCredentials(s)[k])
    decreases |s|
  {
    hide Credential, CredHead, CredValue, Placeholder, IsPlaceholder, CutsValue, Restart, First, Before, HasLive,
         Overlooked, FoundLive, LiveAt, CredentialMark, LiveCredentials, Kept, CutsOk, SubstituteCredentials;
    if Credential(s) {
      var q, w := FirstOfScan(s);
      var head := ScriptOfFirst(s, q, w, k);
      var rest := SubstituteCredentials(s[w + 1..]);
      if k > head {
        SearchGoesOnBehind(s, q, w);
        CredentialCutsAreLive(s[w + 1..], k - head - 1);
        CutsValueBehind(s, w + 1, |Before(rest[k - head - 1..])|, rest[k - head - 1]);
      } else {
        PlaceholderIff(s[q + 1..w]);
        CredentialScript(s[w + 1..], false);
        FirstIsCut(s, q, w, rest);
      }
    } else {
      NoCredentialStep(s, k);
      var rest := SubstituteCredentials(s[1..]);
      SearchGoesOn(s);
      CredentialCutsAreLive(s[1..], k - 1);
      CutsValueBehind(s, 1, |Before(rest[k - 1..])|, rest[k - 1]);
    }
  }

  lemma NoCredentialStep(s: string, k: nat)
    requires !Credential(s) && k < |SubstituteCredentials(s)| && SubstituteCredentials(s)[k].Cut?
    ensures s != "" && k > 0
    ensures var script, rest := SubstituteCredentials(s), SubstituteCredentials(s[1..]);
            k - 1 < |rest| && script[k..] == rest[k - 1..] && script[k] == rest[k - 1]
  {
    hide CredHead, CredValue, Placeholder;
  }

  // ----- the whole redactor

  /** The redacted text holds a live credential exactly when the text before the last pass has one that
      the search from left to right overlooks. */
  lemma CredentialLeftIff(text: string)
    ensures HasLive(Redacted(text)) <==> Overlooked(WithoutKeys(text))
  {
    hide WithoutKeys, HasLive, Overlooked, SubstituteCredentials, After;
    LiveLeftIff(WithoutKeys(text));
  }

  /** A text comes back unchanged exactly when it holds no key, token or private key header, and no live
      credential that the search finds. */
  lemma UnchangedIff(text: string)
    ensures Redacted(text) == text <==>
            !HasSkKey(text) && !HasToken(text) && !HasHeader(text) && !FoundLive(text)
    ensures !HasSkKey(text) && !HasToken(text) && !HasHeader(text) && !HasLive(text) ==> Redacted(text) == text
  {
    hide Redacted, HasSkKey, HasToken, HasHeader, Clean, Occurrences, LiveCredentials, ScanForSecrets, Counted, Found,
         Live;
    RedactedScansClean(text);
    NothingFoundIffNothingCounted(text);
    NothingFound(text);
    CleanIffNoOccurrence(Header, false, text);
    CleanIffNoOccurrence(Token, false, text);
    CleanIffNoOccurrence(SkKey, false, text);
    CleanMeans(text);
    NoneFoundIff(text);
  }

  /** Every live credential in a redacted text opens with the closing quote of a placeholder before it. */
  lemma LeftIsOverlooked(text: string, q: nat, w: nat)
    requires Live(Redacted(text), q, w)
    ensures exists p: nat :: OverlookedAt(Redacted(text), p, q, w)
  {
    hide Assigned, IsPlaceholder, WithoutKeys, SubstituteCredentials, LiveCredentials;
    var out := Redacted(text);
    OnlyPlaceholdersLeft(WithoutKeys(text));
    NoneFoundIff(out);
    assert !Found(out, q) && Opens(out, q);
    var p: nat :| p < q && Assigned(out, p, q) && Found(out, p);
    assert !Live(out, p, q);
    assert OverlookedAt(out, p, q, w);
  }

  const TWICE := "a_token=\"your_key=\"secret12\""

  /** A live credential that comes back unredacted: its opening quote closes a placeholder. */
  lemma QuoteUsedTwice()
    ensures Live(TWICE, 18, 27) && TWICE[19..27] == "secret12" && Redacted(TWICE) == TWICE
  {
    hide Redacted, HasSkKey, HasToken, HasHeader, HasLive, Assigned, IsPlaceholder;
    var t := TWICE;
    TwiceShape(t);
    assert HeadBefore(t, 8) by { assert HeadAt(t, 0, 7, 7, 8); }
    assert HeadBefore(t, 18) by { assert HeadAt(t, 9, 17, 17, 18); }
    TwiceIsAssigned(t);
    assert Opens(t, 8);
    forall p: nat | Assigned(t, p, 8) ensures false { AssignedQuotes(t, p, 8); }
    assert Found(t, 8) && !Found(t, 18);
    forall q: nat, w: nat | Found(t, q) ensures !Live(t, q, w) {
      if Assigned(t, q, w) {
        AssignedQuotes(t, q, w);
        if q == 8 { AssignedOrder(t, 8, 18); }
      }
    }
    UnchangedIff(t);
  }

  lemma TwiceShape(t: string)
    requires t == TWICE
    ensures |t| == 28 && t[8] == t[18] == t[27] == '"'
    ensures forall k :: 0 <= k < 28 && Quote(t[k]) ==> k == 8 || k == 18 || k == 27
    ensures HeadAt(t, 0, 7, 7, 8) && HeadAt(t, 9, 17, 17, 18)
    ensures ValueAt(t, 8, 18) && ValueAt(t, 18, 27)
    ensures IsPlaceholder(t[9..18]) && !IsPlaceholder(t[19..27]) && t[19..27] == "secret12"
    ensures !HasSkKey(t) && !HasToken(t) && !HasHeader(t)
  {
    hide IsName, IsPlaceholder, HasSkKey, HasToken, HasHeader, HeadAt, ValueAt, White, Quote, TWICE;
    TwiceSlices(t);
    TwiceNames();
    TwiceValues();
    TwiceHolds(t);
    TwiceHoldsNoOther(t);
  }

  lemma TwiceSlices(t: string)
    requires t == TWICE
    ensures |t| == 28 && t[8] == t[18] == t[27] == '"' && '-' !in t
    ensures forall k :: 0 <= k < 28 && Quote(t[k]) ==> k == 8 || k == 18 || k == 27
    ensures t[0..7] == "a_token" && t[9..17] == "your_key" && t[9..18] == "your_key=" && t[19..27] == "secret12"
  {
  }

  lemma TwiceNames()
    ensures IsName("a_token") && IsName("your_key")
  {
    var a, b := "a_token", "your_key";
    assert EndsLike(a, "_token") && EndsLike(b, "_key");
  }

  lemma TwiceValues()
    ensures IsPlaceholder("your_key=") && !IsPlaceholder("secret12")
  {
    var a, b := "your_key=", "secret12";
    assert StartsLike(a, "your_");
    assert b[0] == 's' && |b| == 8 && b[7] == '2';
  }

  lemma TwiceHolds(t: string)
    requires t == TWICE && IsName(t[0..7]) && IsName(t[9..17])
    ensures HeadAt(t, 0, 7, 7, 8) && HeadAt(t, 9, 17, 17, 18) && ValueAt(t, 8, 18) && ValueAt(t, 18, 27)
  {
    hide IsName;
  }

  lemma TwiceHoldsNoOther(t: string)
    requires |t| == 28 && '-' !in t
    ensures !HasSkKey(t) && !HasToken(t) && !HasHeader(t)
  {
    forall i: nat ensures SkKeyAt(t, i) ==> '-' in t { if SkKeyAt(t, i) { WordChars(t, i, "sk-", 2); } }
    forall i: nat, j: nat ensures HeaderAt(t, i, j) ==> '-' in t {
      if HeaderAt(t, i, j) { WordChars(t, i, "-----BEGIN ", 0); }
    }
  }

  lemma WordChars(t: string, i: nat, word: string, k: nat)
    requires At(t, i, word) && k < |word|
    ensures word[k] in t
  {
    assert t[i + k] == t[i..i + |word|][k];
  }

  lemma TwiceIsAssigned(t: string)
    requires t == TWICE
    ensures Assigned(t, 8, 18) && Assigned(t, 18, 27) && Live(t, 18, 27) && !Live(t, 8, 18)
  {
    hide HeadAt, ValueAt, IsPlaceholder;
    TwiceShape(t);
  }
}
