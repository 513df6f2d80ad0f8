/** Credential assignments stated on the characters of a text, and exactly which of them the redactor
    replaces (scripts/sdlc_export.py). */
module SdlcCredentials {
  import opened Common
  import opened SdlcRedact
  import opened SdlcRedactClean
  import opened SdlcRedactScan
  import opened SdlcText

  // ----- credentials, character by character

  /** `c` stands for the lower-case letter or sign `l` when case is ignored. */
  predicate Spelled(c: char, l: char) {
    || c == l || ('a' <= l <= 'z' && c as int == l as int - 32)
    || (l == 'i' && (c == '\U{130}' || c == '\U{131}')) || (l == 's' && c == '\U{17f}') || (l == 'k' && c == '\U{212a}')
  }

  predicate Spells(s: string, word: string) {
    |s| == |word| && forall k :: 0 <= k < |s| ==> Spelled(s[k], word[k])
  }

  predicate StartsLike(s: string, word: string) {
    |word| <= |s| && forall k :: 0 <= k < |word| ==> Spelled(s[k], word[k])
  }

  /** At least one character, and then the word. */
  predicate EndsLike(s: string, word: string) {
    |word| < |s| && forall k :: 0 <= k < |word| ==> Spelled(s[|s| - |word| + k], word[k])
  }

  /** A letter when case is ignored, or `_`. */
  predicate NameLetter(c: char) {
    || 'a' <= c <= 'z' || 'A' <= c <= 'Z' || c == '_'
    || c == '\U{130}' || c == '\U{131}' || c == '\U{17f}' || c == '\U{212a}'
  }

  predicate IsName(s: string) {
    && s != "" && NameLetter(s[0]) && (forall k :: 0 <= k < |s| ==> NameLetter(s[k]) || Digit(s[k]))
    && (EndsLike(s, "_token") || EndsLike(s, "_key") || EndsLike(s, "_secret") || EndsLike(s, "_password")
        || EndsLike(s, "_passwd") || EndsLike(s, "api_key") || EndsLike(s, "auth_token"))
  }

  predicate White(c: char) {
    || c == '\t' || c == '\n' || c == '\U{b}' || c == '\U{c}' || c == '\r' || c == ' '
    || c == '\U{1c}' || c == '\U{1d}' || c == '\U{1e}' || c == '\U{1f}' || c == '\U{85}' || c == '\U{a0}'
    || c == '\U{1680}' || '\U{2000}' <= c <= '\U{200a}' || c == '\U{2028}' || c == '\U{2029}'
    || c == '\U{202f}' || c == '\U{205f}' || c == '\U{3000}'
  }

  predicate Quote(c: char) {
    c == '\'' || c == '"'
  }

  /** The name from `i` to `n`, blanks, `=` or `:` at `e`, blanks, and the opening quote at `q`. */
  predicate HeadAt(t: string, i: nat, n: nat, e: nat, q: nat) {
    && i < n <= e < q < |t| && IsName(t[i..n])
    && (forall k :: n <= k < e ==> White(t[k])) && (t[e] == '=' || t[e] == ':')
    && (forall k :: e < k < q ==> White(t[k])) && Quote(t[q])
  }

  /** Six or more characters between the quotes at `q` and `w`, on one line. */
  predicate ValueAt(t: string, q: nat, w: nat) {
    q + 7 <= w < |t| && t[w] == t[q] && forall k :: q < k < w ==> !Quote(t[k]) && t[k] != '\n'
  }

  ghost predicate HeadBefore(t: string, q: nat) {
    exists i: nat, n: nat, e: nat :: HeadAt(t, i, n, e, q)
  }

  /** A credential whose value stands between the quotes at `q` and `w`. */
  ghost predicate Assigned(t: string, q: nat, w: nat) {
    HeadBefore(t, q) && ValueAt(t, q, w)
  }

  ghost predicate Opens(t: string, q: nat) {
    exists w: nat :: Assigned(t, q, w)
  }

  predicate Letters(s: string) {
    forall k :: 0 <= k < |s| ==> NameLetter(s[k])
  }

  predicate IsPlaceholder(v: string) {
    || (v != "" && forall k :: 0 <= k < |v| ==> v[k] == 'x' || v[k] == 'X')
    || (|v| >= 2 && v[0] == '<' && v[|v| - 1] == '>')
    || (v != "" && v[0] == '$')
    || Spells(v, "changeme") || Spells(v, "change-me") || Spells(v, "change_me") || Spells(v, "change me")
    || Spells(v, "example") || Spells(v, "example.com")
    || StartsLike(v, "your-") || StartsLike(v, "your_") || StartsLike(v, "your ")
    || Spells(v, "placeholder") || Spells(v, "redacted") || Spells(v, "[redacted]")
    || (|v| >= 12 && StartsLike(v, "[redacted:") && Letters(v[10..|v| - 1]) && v[|v| - 1] == ']')
    || Spells(v, "todo") || Spells(v, "none") || Spells(v, "null")
  }

  /** A credential with something else than a placeholder. */
  ghost predicate Live(t: string, q: nat, w: nat) {
    Assigned(t, q, w) && !IsPlaceholder(t[q + 1..w])
  }

  ghost predicate HasLive(t: string) {
    exists q: nat, w: nat :: Live(t, q, w)
  }

  /** A search from left to right finds a credential unless its opening quote has closed one before. */
  ghost predicate Found(t: string, q: nat)
    decreases q
  {
    && Opens(t, q)
    && !exists p: nat :: p < q && Assigned(t, p, q) && Found(t, p)
  }

  /** The search finds a placeholder at `p`, and its closing quote opens a live credential. */
  ghost predicate OverlookedAt(t: string, p: nat, q: nat, w: nat) {
    Found(t, p) && Assigned(t, p, q) && IsPlaceholder(t[p + 1..q]) && Live(t, q, w)
  }

  ghost predicate Overlooked(t: string) {
    exists p: nat, q: nat, w: nat :: OverlookedAt(t, p, q, w)
  }

  ghost predicate FoundLive(t: string) {
    exists q: nat, w: nat :: Found(t, q) && Live(t, q, w)
  }

  // ----- the matchers find credentials and nothing else

  lemma FoldIff(c: char, l: char)
    requires 'a' <= l <= 'z' || l in "_-. []:"
    ensures Spelled(c, l) <==> Fold(c) == l
  {
  }

  predicate Plain(word: string) {
    forall k :: 0 <= k < |word| ==> 'a' <= word[k] <= 'z' || word[k] in "_-. []:"
  }

  lemma SpellsIff(s: string, word: string)
    requires Plain(word)
    ensures Spells(s, word) <==> SameFolded(s, word)
  {
    hide Fold, Spelled;
    forall k | 0 <= k < |s| && k < |word| ensures Spelled(s[k], word[k]) <==> Fold(s[k]) == word[k] {
      FoldIff(s[k], word[k]);
    }
  }

  lemma StartsIff(s: string, word: string)
    requires Plain(word)
    ensures StartsLike(s, word) <==> FoldedPrefix(s, word)
  {
    if |word| <= |s| {
      SpellsIff(s[..|word|], word);
      assert forall k :: 0 <= k < |word| ==> s[..|word|][k] == s[k];
    }
  }

  lemma EndsIff(s: string, word: string)
    requires Plain(word) && word != ""
    ensures EndsLike(s, word) <==> |s| > |word| && FoldedSuffix(s, word)
  {
    if |word| < |s| {
      var tail := s[|s| - |word|..];
      SpellsIff(tail, word);
      assert forall k :: 0 <= k < |word| ==> tail[k] == s[|s| - |word| + k];
    }
  }

  /** The placeholders of the code are the words listed above. */
  lemma PlaceholderIff(v: string)
    ensures Placeholder(v) <==> IsPlaceholder(v)
  {
    hide SameFolded, FoldedPrefix, Spells, StartsLike, Fold, RedactedMark;
    SpellsIff(v, "changeme");
    SpellsIff(v, "change-me");
    SpellsIff(v, "change_me");
    SpellsIff(v, "change me");
    SpellsIff(v, "example");
    SpellsIff(v, "example.com");
    StartsIff(v, "your-");
    StartsIff(v, "your_");
    StartsIff(v, "your ");
    SpellsIff(v, "placeholder");
    SpellsIff(v, "todo");
    SpellsIff(v, "none");
    SpellsIff(v, "null");
    XsIff(v);
    MarkIff(v);
  }

  lemma XsIff(v: string)
    ensures AllX(v) <==> v != "" && forall k :: 0 <= k < |v| ==> v[k] == 'x' || v[k] == 'X'
  {
  }

  lemma MarkIff(v: string)
    ensures RedactedMark(v) <==>
            || Spells(v, "redacted") || Spells(v, "[redacted]")
            || (|v| >= 12 && StartsLike(v, "[redacted:") && Letters(v[10..|v| - 1]) && v[|v| - 1] == ']')
  {
    hide SameFolded, FoldedPrefix, Spells, StartsLike;
    SpellsIff(v, "redacted");
    SpellsIff(v, "[redacted]");
    StartsIff(v, "[redacted:");
    if |v| >= 12 {
      var mid := v[10..|v| - 1];
      assert forall i :: 10 <= i < |v| - 1 ==> v[i] == mid[i - 10];
      assert forall i :: 0 <= i < |mid| ==> mid[i] == v[i + 10];
      assert forall c :: NameLetter(c) <==> IsLetter(c) || c == '_' || IsExtraLetter(c);
    }
  }

  lemma NamesIff(s: string)
    requires forall k :: 0 <= k < |s| ==> Is(NameChar, s[k])
    ensures CredName(s) <==> IsName(s)
  {
    hide FoldedSuffix, EndsLike, Fold;
    EndsIff(s, "_token");
    EndsIff(s, "_key");
    EndsIff(s, "_secret");
    EndsIff(s, "_password");
    EndsIff(s, "_passwd");
    EndsIff(s, "api_key");
    EndsIff(s, "auth_token");
    NamesListed(s);
  }

  lemma NamesListed(s: string)
    ensures CredName(s) <==>
            && s != "" && !IsDigit(s[0])
            && ((|s| > 6 && FoldedSuffix(s, "_token")) || (|s| > 4 && FoldedSuffix(s, "_key"))
                || (|s| > 7 && FoldedSuffix(s, "_secret")) || (|s| > 9 && FoldedSuffix(s, "_password"))
                || (|s| > 7 && FoldedSuffix(s, "_passwd")) || (|s| > 7 && FoldedSuffix(s, "api_key"))
                || (|s| > 10 && FoldedSuffix(s, "auth_token")))
  {
    hide FoldedSuffix;
    var names := CREDENTIAL_NAMES;
    assert |names| == 7;
    assert names[0] == "_token" && names[1] == "_key" && names[2] == "_secret" && names[3] == "_password";
    assert names[4] == "_passwd" && names[5] == "api_key" && names[6] == "auth_token";
  }

  lemma ClassesIff(c: char)
    ensures Is(NameChar, c) <==> NameLetter(c) || Digit(c)
    ensures Is(Space, c) <==> White(c)
    ensures Is(ValueChar, c) <==> !Quote(c) && c != '\n'
    ensures IsQuote(c) <==> Quote(c)
    ensures White(c) || Quote(c) || c == '=' || c == ':' ==> !NameLetter(c) && !Digit(c)
    ensures Quote(c) || c == '=' || c == ':' ==> !White(c)
  {
  }

  lemma RunIs(class_: Class, t: string, k: nat, n: nat)
    requires k <= n < |t| && (forall j :: k <= j < n ==> Is(class_, t[j])) && !Is(class_, t[n])
    ensures Run(class_, t[k..]) == n - k
  {
    hide Is, Run;
    RunReaches(class_, t, k, n - k);
    RunReaches(class_, t, k, n - k + 1);
  }

  lemma RunChars(class_: Class, t: string, k: nat)
    requires k <= |t|
    ensures forall j :: k <= j < k + Run(class_, t[k..]) ==> Is(class_, t[j])
  {
    hide Is, Run;
    RunReaches(class_, t, k, Run(class_, t[k..]));
  }

  lemma HeadIsFound(s: string, n: nat, e: nat, q: nat)
    requires HeadAt(s, 0, n, e, q)
    ensures CredHead(s) == q + 1
  {
    hide Is, Run, IsName, CredName, White, NameLetter, Quote, IsQuote, CredHead;
    forall k ensures 0 <= k < |s| ==> (Is(NameChar, s[k]) <==> NameLetter(s[k]) || Digit(s[k]))
             ensures 0 <= k < |s| ==> (Is(Space, s[k]) <==> White(s[k]))
    { if 0 <= k < |s| { ClassesIff(s[k]); } }
    ClassesIff(s[n]);
    ClassesIff(s[e]);
    ClassesIff(s[q]);
    NameCharsOf(s, n);
    assert s[0..] == s && s[0..n] == s[..n];
    RunIs(NameChar, s, 0, n);
    NamesIff(s[..n]);
    RunIs(Space, s, n, e);
    RunIs(Space, s, e + 1, q);
    HeadOfParts(s, n, e, q);
  }

  lemma NameCharsOf(s: string, n: nat)
    requires n <= |s| && IsName(s[0..n])
    ensures forall k :: 0 <= k < n ==> NameLetter(s[k]) || Digit(s[k])
    ensures forall k :: 0 <= k < n ==> s[..n][k] == s[k]
  {
    hide NameLetter, EndsLike;
    assert forall k :: 0 <= k < n ==> s[0..n][k] == s[k];
  }

  lemma FoundIsHead(s: string) returns (n: nat, e: nat)
    requires CredHead(s) > 0
    ensures HeadAt(s, 0, n, e, CredHead(s) - 1)
  {
    hide Is, Run, IsName, CredName, White, Quote, IsQuote, CredHead;
    n, e := PartsOfHead(s);
    var q := CredHead(s) - 1;
    RunChars(NameChar, s, 0);
    RunChars(Space, s, n);
    RunChars(Space, s, e + 1);
    assert s[0..] == s && s[0..n] == s[..n];
    NamesIff(s[..n]);
    NameIsNotEmpty(s[..n]);
    forall k | n <= k < e || e < k < q ensures White(s[k]) { ClassesIff(s[k]); }
    ClassesIff(s[q]);
  }

  lemma NameIsNotEmpty(s: string)
    requires IsName(s)
    ensures s != ""
  {
  }

  lemma ValueIff(s: string, q: nat, w: nat)
    requires q < |s| && Quote(s[q])
    ensures CredValue(s, q + 1) == w - q - 1 > 0 <==> ValueAt(s, q, w)
  {
    hide Is, Run, Quote;
    forall k ensures 0 <= k < |s| ==> (Is(ValueChar, s[k]) <==> !Quote(s[k]) && s[k] != '\n') {
      if 0 <= k < |s| { ClassesIff(s[k]); }
    }
    if ValueAt(s, q, w) { RunIs(ValueChar, s, q + 1, w); }
    if CredValue(s, q + 1) == w - q - 1 > 0 { RunChars(ValueChar, s, q + 1); }
  }
}
