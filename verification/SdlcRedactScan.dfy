/** The credential pass, and the theorem on the whole redactor: the second scan finds nothing. */
module SdlcRedactScan {
  import opened Common
  import opened SdlcRedact
  import opened SdlcRedactClean

  // ----- the script of the credential pass

  predicate Credential(s: string) {
    CredHead(s) > 0 && CredValue(s, CredHead(s)) > 0
  }

  lemma {:induction false} KeptThen(kept: string, afterHex: bool, rest: Script)
    requires CutsOk(if kept == "" then afterHex else EndsInHex(kept), rest)
    ensures var script := Kept(kept) + rest;
            CutsOk(afterHex, script) && Before(script) == kept + Before(rest) && After(script) == kept + After(rest)
            && Cuts(script) == Cuts(rest)
  {
    hide Is, CutsOk, Before, After, Cuts;
    if kept == "" {
      assert Kept(kept) + rest == rest;
      assert "" + Before(rest) == Before(rest) && "" + After(rest) == After(rest);
    } else {
      KeptThen(kept[1..], Is(Hex, kept[0]), rest);
      assert Kept(kept) + rest == [Keep(kept[0])] + (Kept(kept[1..]) + rest);
      KeepFirst(afterHex, kept[0], Kept(kept[1..]) + rest);
      assert kept == [kept[0]] + kept[1..];
      assert [kept[0]] + (kept[1..] + Before(rest)) == kept + Before(rest);
      assert [kept[0]] + (kept[1..] + After(rest)) == kept + After(rest);
    }
  }

  /** The output around the first credential of `s`: its value is replaced unless it is a placeholder. */
  function CredentialOut(s: string, rest: string): string
    requires Credential(s)
  {
    var at := CredHead(s);
    var end := at + CredValue(s, at);
    if Placeholder(s[at..end]) then s[..end + 1] + rest else s[..at] + CredentialMark() + [s[end]] + rest
  }

  lemma QuotesAreNotHex(c: char)
    requires IsQuote(c)
    ensures !Is(Hex, c)
  {
  }

  lemma CredentialMarkChars()
    ensures var m := CredentialMark();
            && |m| == 21 && m[0] == '[' && m[20] == ']' && m[9] == ':'
            && (forall i :: 10 <= i < 20 ==> IsLetter(m[i])) && (forall i :: 1 <= i < 9 ==> IsLetter(m[i]))
            && FoldedPrefix(m, "[redacted:")
  {
    var m := CredentialMark();
    assert forall i :: 0 <= i < 10 ==> m[..10][i] == m[i];
  }

  lemma CredentialMarkIsOk()
    ensures MarkOk(CredentialMark()) && RedactedMark(CredentialMark())
    ensures Run(ValueChar, CredentialMark()) == |CredentialMark()| && |CredentialMark()| == 21
  {
    hide FoldedPrefix, SameFolded, CredentialMark;
    CredentialMarkChars();
    var m := CredentialMark();
    forall i | 0 <= i < 21 ensures m[i] != '-' && Is(ValueChar, m[i]) {
      assert i == 0 || 1 <= i < 9 || i == 9 || 10 <= i < 20 || i == 20;
    }
  }

  lemma CredentialStep(s: string, afterHex: bool, rest: Script)
    requires Credential(s)
    requires var end := CredHead(s) + CredValue(s, CredHead(s)); CutsOk(false, rest) && Before(rest) == s[end + 1..]
    ensures var at := CredHead(s);
            var end := at + CredValue(s, at);
            var head := if Placeholder(s[at..end]) then Kept(s[..end])
                else Kept(s[..at]) + [Cut(s[at..end], CredentialMark())];
            var script := head + [Keep(s[end])] + rest;
            && CutsOk(afterHex, script) && Before(script) == s && After(script) == CredentialOut(s, After(rest))
            && Cuts(script) == (if Placeholder(s[at..end]) then 0 else 1) + Cuts(rest)
  {
    hide Is, CredentialMark, CutsOk, Placeholder, MarkOk, CredHead, CredValue, Before, After, Cuts, Kept, IsQuote;
    var at := CredHead(s);
    var end := at + CredValue(s, at);
    QuotesAreNotHex(s[end]);
    QuotesAreNotHex(s[at - 1]);
    if Placeholder(s[at..end]) {
      CredentialKept(s, end, afterHex, rest);
    } else {
      CredentialCut(s, at, end, afterHex, rest);
    }
  }

  lemma CredentialKept(s: string, end: nat, afterHex: bool, rest: Script)
    requires 0 < end < |s| && !Is(Hex, s[end]) && CutsOk(false, rest) && Before(rest) == s[end + 1..]
    ensures var script := Kept(s[..end]) + [Keep(s[end])] + rest;
            CutsOk(afterHex, script) && Before(script) == s && Cuts(script) == Cuts(rest)
                && After(script) == s[..end + 1] + After(rest)
  {
    hide Is, CutsOk, Before, After, Cuts, Kept;
    var tail := [Keep(s[end])] + rest;
    KeepFirst(EndsInHex(s[..end]), s[end], rest);
    KeptThen(s[..end], afterHex, tail);
    Reassociated(Kept(s[..end]), [Keep(s[end])], rest);
    Reassociated(s[..end], [s[end]], After(rest));
    assert s[..end] + [s[end]] == s[..end + 1];
    assert s[..end] + ([s[end]] + s[end + 1..]) == s;
  }

  lemma Reassociated<T>(a: seq<T>, b: seq<T>, c: seq<T>)
    ensures a + (b + c) == a + b + c
  {
  }

  lemma CredentialCut(s: string, at: nat, end: nat, afterHex: bool, rest: Script)
    requires 0 < at < end < |s| && !Is(Hex, s[at - 1]) && !Is(Hex, s[end])
    requires CutsOk(false, rest) && Before(rest) == s[end + 1..]
    ensures var script := Kept(s[..at]) + [Cut(s[at..end], CredentialMark())] + [Keep(s[end])] + rest;
            && CutsOk(afterHex, script) && Before(script) == s && Cuts(script) == 1 + Cuts(rest)
            && After(script) == s[..at] + CredentialMark() + [s[end]] + After(rest)
  {
    hide Is, CredentialMark, CutsOk, MarkOk, Before, After, Cuts, Kept;
    CredentialMarkIsOk();
    assert s[..at][|s[..at]| - 1] == s[at - 1];
    CutThen(s[..at], s[at..end], CredentialMark(), s[end], afterHex, rest);
    assert s[..at] + s[at..end] + [s[end]] + s[end + 1..] == s;
  }

  lemma CutThen(head: string, old_: string, mark: string, quote: char, afterHex: bool, rest: Script)
    requires head != "" && old_ != "" && MarkOk(mark) && !EndsInHex(head) && !Is(Hex, quote) && CutsOk(false, rest)
    ensures var script := Kept(head) + [Cut(old_, mark)] + [Keep(quote)] + rest;
            && CutsOk(afterHex, script) && Before(script) == head + old_ + [quote] + Before(rest)
            && After(script) == head + mark + [quote] + After(rest) && Cuts(script) == 1 + Cuts(rest)
  {
    hide Is, CutsOk, MarkOk, Before, After, Cuts, Kept, EndsInHex;
    KeepFirst(EndsInHex(old_), quote, rest);
    CutFirst(false, old_, mark, [Keep(quote)] + rest);
    KeptThen(head, afterHex, [Cut(old_, mark)] + ([Keep(quote)] + rest));
    Reassociated(Kept(head), [Cut(old_, mark)], [Keep(quote)] + rest);
    Reassociated(Kept(head) + [Cut(old_, mark)], [Keep(quote)], rest);
    Reassociated(head, mark, [quote] + After(rest));
    Reassociated(head + mark, [quote], After(rest));
    Reassociated(head, old_, [quote] + Before(rest));
    Reassociated(head + old_, [quote], Before(rest));
  }

  lemma {:induction false} CredentialScript(s: string, afterHex: bool)
    ensures var script := SubstituteCredentials(s); CutsOk(afterHex, script) && Before(script) == s
    ensures Cuts(SubstituteCredentials(s)) == LiveCredentials(s)
    decreases |s|
  {
    hide Is, CutsOk, Placeholder, CredHead, CredValue, Before, After, Cuts, Kept, CredentialMark;
    if s == "" {
      NoScript(afterHex);
    } else if Credential(s) {
      var end := CredHead(s) + CredValue(s, CredHead(s));
      CredentialScript(s[end + 1..], false);
      CredentialStep(s, afterHex, SubstituteCredentials(s[end + 1..]));
    } else {
      CredentialScript(s[1..], Is(Hex, s[0]));
      KeepFirst(afterHex, s[0], SubstituteCredentials(s[1..]));
      assert s == [s[0]] + s[1..];
    }
  }

  lemma NoScript(afterHex: bool)
    ensures CutsOk(afterHex, []) && Before([]) == "" && After([]) == "" && Cuts([]) == 0
  {
  }

  function CredentialsOut(s: string): string {
    After(SubstituteCredentials(s))
  }

  /** The output of the credential pass, one match or one character at a time. */
  lemma CredentialsOutSteps(s: string)
    requires s != ""
    ensures CredentialsOut(s) ==
            if Credential(s) then CredentialOut(s, CredentialsOut(s[CredHead(s) + CredValue(s, CredHead(s)) + 1..]))
            else [s[0]] + CredentialsOut(s[1..])
  {
    hide Is, CutsOk, Placeholder, CredHead, CredValue, Before, After, Cuts, Kept, CredentialMark, CredentialOut;
    if Credential(s) {
      var end := CredHead(s) + CredValue(s, CredHead(s));
      CredentialScript(s[end + 1..], false);
      CredentialStep(s, false, SubstituteCredentials(s[end + 1..]));
    } else {
      CredentialScript(s[1..], Is(Hex, s[0]));
      KeepFirst(false, s[0], SubstituteCredentials(s[1..]));
    }
  }

  // ----- what a credential match depends on

  lemma SameRun(class_: Class, s: string, t: string, k: nat, n: nat)
    requires k <= n <= |s| && n <= |t| && s[..n] == t[..n] && k + Run(class_, s[k..]) < n
    ensures Run(class_, t[k..]) == Run(class_, s[k..])
  {
    SameSlices(s, t, k, n);
    RunDependsOnPrefix(class_, s[k..], t[k..], n - k);
  }

  lemma SameChar(s: string, t: string, n: nat, i: nat)
    requires i < n <= |s| && n <= |t| && s[..n] == t[..n]
    ensures s[i] == t[i]
  {
    assert s[i] == s[..n][i] && t[i] == t[..n][i];
  }

  /** The parts of a credential's head: the name, the separator and the opening quote. */
  predicate HeadParts(s: string, name: nat, sep: nat, quote: nat) {
    && name == Run(NameChar, s) && CredName(s[..name])
    && sep == name + Run(Space, s[name..]) && sep < |s| && (s[sep] == '=' || s[sep] == ':')
    && quote == sep + 1 + Run(Space, s[sep + 1..]) && quote < |s| && IsQuote(s[quote])
  }

  lemma HeadOfParts(s: string, name: nat, sep: nat, quote: nat)
    requires HeadParts(s, name, sep, quote)
    ensures CredHead(s) == quote + 1
  {
    hide Is, IsSpace, CredName, Run, IsQuote;
  }

  lemma PartsOfHead(s: string) returns (name: nat, sep: nat)
    requires CredHead(s) > 0
    ensures HeadParts(s, name, sep, CredHead(s) - 1) && name <= sep < CredHead(s) - 1
  {
    hide Is, IsSpace, CredName;
    name := Run(NameChar, s);
    sep := name + Run(Space, s[name..]);
  }

  lemma SameParts(s: string, t: string, name: nat, sep: nat, quote: nat)
    requires HeadParts(s, name, sep, quote) && name <= sep < quote < |t| && s[..quote + 1] == t[..quote + 1]
    ensures HeadParts(t, name, sep, quote)
  {
    hide Is, IsSpace, CredName, Run, IsQuote;
    var n := quote + 1;
    assert Run(NameChar, t) == name && s[..name] == t[..name] by {
      assert s[0..] == s && t[0..] == t;
      SameRun(NameChar, s, t, 0, n);
      SameSlices(s, t, name, n);
    }
    assert Run(Space, t[name..]) == sep - name by { SameRun(Space, s, t, name, n); }
    assert t[sep] == s[sep] by { SameChar(s, t, n, sep); }
    assert Run(Space, t[sep + 1..]) == quote - sep - 1 by { SameRun(Space, s, t, sep + 1, n); }
    assert t[quote] == s[quote] by { SameChar(s, t, n, quote); }
  }

  lemma HeadDependsOnItself(s: string, t: string)
    requires var n := CredHead(s); 0 < n <= |t| && s[..n] == t[..n]
    ensures CredHead(t) == CredHead(s)
  {
    hide CredHead, HeadParts;
    var name, sep := PartsOfHead(s);
    SameParts(s, t, name, sep, CredHead(s) - 1);
    HeadOfParts(t, name, sep, CredHead(s) - 1);
  }

  lemma ValueDependsOnItself(s: string, t: string, at: nat)
    requires 0 < at <= |s| && CredValue(s, at) > 0
    requires var n := at + CredValue(s, at) + 1; n <= |t| && s[..n] == t[..n]
    ensures CredValue(t, at) == CredValue(s, at)
  {
    hide Is, Run;
    var n := at + CredValue(s, at) + 1;
    SameRun(ValueChar, s, t, at, n);
    SameChar(s, t, n, n - 1);
    SameChar(s, t, n, at - 1);
  }

  lemma HeadChars(s: string)
    requires CredHead(s) > 0
    ensures forall i :: 0 <= i < CredHead(s) ==> s[i] != '['
  {
    var n := CredHead(s);
    var name := Run(NameChar, s);
    var sep := name + Run(Space, s[name..]);
    forall i | 0 <= i < n ensures s[i] != '[' {
      if name <= i < sep {
        assert s[i] == s[name..][i - name];
      } else if sep < i < n - 1 {
        assert s[i] == s[sep + 1..][i - sep - 1];
      }
    }
  }

  // ----- the credential pass leaves only placeholders

  /** Where the first replaced value of `s` starts. */
  function FirstCutAt(s: string): Option<nat>
    decreases |s|
  {
    if s == "" then None
    else if Credential(s) then
      var at := CredHead(s);
      var end := at + CredValue(s, at);
      if !Placeholder(s[at..end]) then Some(at)
      else
        var later := FirstCutAt(s[end + 1..]);
        if later.None? then None else Some(end + 1 + later.value)
    else
      var later := FirstCutAt(s[1..]);
      if later.None? then None else Some(1 + later.value)
  }

  /** Before the first replaced value nothing changes; it stands right behind a quote, and its matching
      closing quote ends it. */
  ghost predicate FirstCutFacts(s: string, cut: Option<nat>, out: string) {
    match cut
    case None => out == s
    case Some(m) =>
      0 < m <= |s| && m < |out| && out[..m] == s[..m] && out[m] == '[' && IsQuote(s[m - 1]) && CredValue(s, m) > 0
  }

  lemma ShiftedFacts(s: string, k: nat, cut: Option<nat>, out: string)
    requires k <= |s| && FirstCutFacts(s[k..], cut, out)
    ensures FirstCutFacts(s, if cut.None? then None else Some(k + cut.value), s[..k] + out)
  {
    hide Is, Run;
    match cut
    case None => assert s == s[..k] + s[k..];
    case Some(m) =>
      var t, joined := s[k..], s[..k] + out;
      assert joined[..k + m] == s[..k] + out[..m] == s[..k] + t[..m] == s[..k + m];
      assert t[m - 1] == s[k + m - 1] && t[m..] == s[k + m..];
  }

  lemma {:induction false} FirstCutHolds(s: string)
    ensures FirstCutFacts(s, FirstCutAt(s), CredentialsOut(s))
    decreases |s|
  {
    hide Is, Placeholder, CredHead, CredValue, CredentialMark, FirstCutFacts, CredentialsOut;
    if s == "" {
      NothingOut();
    } else {
      CredentialsOutSteps(s);
      if Credential(s) {
        var at := CredHead(s);
        var end := at + CredValue(s, at);
        var rest := CredentialsOut(s[end + 1..]);
        if Placeholder(s[at..end]) {
          FirstCutHolds(s[end + 1..]);
          ShiftedFacts(s, end + 1, FirstCutAt(s[end + 1..]), rest);
        } else {
          CutFacts(s, rest);
        }
      } else {
        FirstCutHolds(s[1..]);
        ShiftedFacts(s, 1, FirstCutAt(s[1..]), CredentialsOut(s[1..]));
        assert s[..1] == [s[0]];
      }
    }
  }

  lemma NothingOut()
    ensures CredentialsOut("") == "" && FirstCutFacts("", None, "")
  {
  }

  lemma CutFacts(s: string, rest: string)
    requires Credential(s) && !Placeholder(s[CredHead(s)..CredHead(s) + CredValue(s, CredHead(s))])
    ensures FirstCutFacts(s, Some(CredHead(s)), CredentialOut(s, rest))
  {
    hide Placeholder, CredHead, CredValue, Run, CredentialMark;
    MarkStartsWithBracket();
    var m, out := CredHead(s), CredentialOut(s, rest);
    assert out[..m] == s[..m] && out[m] == CredentialMark()[0];
  }

  lemma MarkStartsWithBracket()
    ensures |CredentialMark()| == 21 && CredentialMark()[0] == '['
  {
  }

  /** No credential starts in the output where none starts in the input. */
  lemma NoNewCredential(s: string)
    requires s != "" && !Credential(s)
    ensures !Credential(CredentialsOut(s))
  {
    hide Is, Run, CredHead, CredValue, CredentialsOut, FirstCutAt;
    FirstCutHolds(s);
    var out, cut := CredentialsOut(s), FirstCutAt(s);
    if Credential(out) && cut.Some? {
      var m, v := cut.value, CredHead(out);
      var n := CredValue(out, v);
      HeadChars(out);
      SameSlices(out, s, v, m);
      HeadDependsOnItself(out, s);
      if v < m {
        if v + n < m {
          SameSlices(out, s, v + n + 1, m);
          ValueDependsOnItself(out, s, v);
        } else {
          SameChar(out, s, m, m - 1);
        }
      }
    }
  }

  lemma MarkIsPlaceholder(v: string)
    requires RedactedMark(v)
    ensures Placeholder(v)
  {
    hide RedactedMark, AllX, SameFolded, FoldedPrefix;
  }

  lemma ReplacedCredential(s: string, rest: string)
    requires Credential(s) && !Placeholder(s[CredHead(s)..CredHead(s) + CredValue(s, CredHead(s))])
    ensures var out := CredentialOut(s, rest);
            && CredHead(out) == CredHead(s) && CredValue(out, CredHead(s)) == 21
            && Placeholder(out[CredHead(s)..CredHead(s) + 21]) && out[CredHead(s) + 22..] == rest
  {
    hide Is, CredHead, CredentialMark, RedactedMark, Placeholder, Run, CredValue;
    var at := CredHead(s);
    var end := at + CredValue(s, at);
    var out, mark := CredentialOut(s, rest), CredentialMark();
    CredentialMarkIsOk();
    MarkIsPlaceholder(mark);
    MarkedValue(s[..at], mark, s[end], rest);
    assert out == s[..at] + mark + [s[end]] + rest;
    assert out[..at] == s[..at];
    HeadDependsOnItself(s, out);
  }

  lemma MarkedValue(head: string, mark: string, quote: char, rest: string)
    requires head != "" && head[|head| - 1] == quote && IsQuote(quote) && |mark| == 21 && Run(ValueChar, mark) == 21
    ensures var at, out := |head|, head + mark + [quote] + rest;
            CredValue(out, at) == 21 && out[at..at + 21] == mark && out[at + 22..] == rest
  {
    hide Is, Run;
    var at, out := |head|, head + mark + [quote] + rest;
    assert out[at..] == mark + ([quote] + rest);
    RunThenQuote(mark, [quote] + rest);
  }

  lemma RunThenQuote(mark: string, rest: string)
    requires Run(ValueChar, mark) == |mark| && rest != "" && IsQuote(rest[0])
    ensures Run(ValueChar, mark + rest) == |mark|
  {
    var s := mark + rest;
    assert forall i :: 0 <= i < |mark| ==> s[i] == mark[i];
    assert s[|mark|] == rest[0];
  }

  lemma KeptCredential(s: string, rest: string)
    requires Credential(s) && Placeholder(s[CredHead(s)..CredHead(s) + CredValue(s, CredHead(s))])
    ensures var out := CredentialOut(s, rest);
            var end := CredHead(s) + CredValue(s, CredHead(s));
            && CredHead(out) == CredHead(s) && CredValue(out, CredHead(s)) == CredValue(s, CredHead(s))
            && out[CredHead(s)..end] == s[CredHead(s)..end] && out[end + 1..] == rest
  {
    hide Is, CredHead, CredValue, Placeholder, Run;
    var at := CredHead(s);
    var end := at + CredValue(s, at);
    var out := CredentialOut(s, rest);
    assert out[..end + 1] == s[..end + 1];
    SameSlices(s, out, at, end + 1);
    HeadDependsOnItself(s, out);
    ValueDependsOnItself(s, out, at);
    assert out[at..end] == out[..end + 1][at..end] == s[..end + 1][at..end] == s[at..end];
  }

  lemma {:induction false} OnlyPlaceholdersLeft(s: string)
    ensures LiveCredentials(CredentialsOut(s)) == 0
    decreases |s|
  {
    hide Is, Placeholder, CredHead, CredValue, Run, CredentialMark, CredentialsOut, CredentialOut;
    if s == "" {
      NothingOut();
    } else {
      CredentialsOutSteps(s);
      if Credential(s) {
        var at := CredHead(s);
        var end := at + CredValue(s, at);
        var rest := CredentialsOut(s[end + 1..]);
        OnlyPlaceholdersLeft(s[end + 1..]);
        if Placeholder(s[at..end]) {
          KeptCredential(s, rest);
        } else {
          ReplacedCredential(s, rest);
        }
      } else {
        NoNewCredential(s);
        OnlyPlaceholdersLeft(s[1..]);
      }
    }
  }

  // ----- the whole redactor

  lemma {:induction false} CleanIffNoOccurrence(p: Pattern, afterHex: bool, s: string)
    ensures Clean(p, afterHex, s) <==> Occurrences(p, afterHex, s) == 0
    decreases |s|
  {
    hide MatchLen, Is;
    if s != "" && MatchLen(p, afterHex, s) == 0 {
      CleanIffNoOccurrence(p, Is(Hex, s[0]), s[1..]);
    }
  }

  lemma CutsAfter(edit: Edit, rest: Script)
    ensures Cuts([edit] + rest) == (if edit.Cut? then 1 else 0) + Cuts(rest)
  {
    assert ([edit] + rest)[1..] == rest;
  }

  /** A pass counts exactly what a scan of its input would find. */
  lemma {:induction false} PassCountsOccurrences(p: Pattern, afterHex: bool, s: string)
    ensures Cuts(Substitute(p, afterHex, s)) == Occurrences(p, afterHex, s)
    decreases |s|
  {
    hide MatchLen, Is, Mark, Cuts;
    NoScript(false);
    if s != "" {
      var n := MatchLen(p, afterHex, s);
      if n > 0 {
        PassCountsOccurrences(p, Is(Hex, s[n - 1]), s[n..]);
        CutsAfter(Cut(s[..n], Mark(p)), Substitute(p, Is(Hex, s[n - 1]), s[n..]));
      } else {
        PassCountsOccurrences(p, Is(Hex, s[0]), s[1..]);
        CutsAfter(Keep(s[0]), Substitute(p, Is(Hex, s[0]), s[1..]));
      }
    }
  }

  /** For every text, the scanner reports nothing on the redactor's output. */
  lemma RedactedScansClean(text: string)
    ensures ScanForSecrets(Redacted(text)) == []
  {
    hide Pass, Clean, Occurrences, LiveCredentials, SubstituteCredentials, CutsOk, After, Before;
    PassCleansItself(Header, WithoutBlocks(text));
    PassKeepsClean(Header, Token, WithoutHeaders(text));
    PassKeepsClean(Header, SkKey, WithoutTokens(text));
    PassCleansItself(Token, WithoutHeaders(text));
    PassKeepsClean(Token, SkKey, WithoutTokens(text));
    PassCleansItself(SkKey, WithoutTokens(text));
    var last := SubstituteCredentials(WithoutKeys(text));
    CredentialScript(WithoutKeys(text), false);
    ScriptKeepsClean(Header, last);
    ScriptKeepsClean(Token, last);
    ScriptKeepsClean(SkKey, last);
    CleanIffNoOccurrence(Header, false, Redacted(text));
    CleanIffNoOccurrence(Token, false, Redacted(text));
    CleanIffNoOccurrence(SkKey, false, Redacted(text));
    OnlyPlaceholdersLeft(WithoutKeys(text));
  }

  lemma {:induction false} NoCutsNoChange(script: Script)
    requires Cuts(script) == 0
    ensures After(script) == Before(script)
  {
    if script != [] { NoCutsNoChange(script[1..]); }
  }

  lemma PassWithoutOccurrence(p: Pattern, text: string)
    requires Occurrences(p, false, text) == 0
    ensures Pass(p, text) == text && PassCount(p, text) == 0
  {
    hide Occurrences, Substitute, MatchLen;
    PassCountsOccurrences(p, false, text);
    SubstituteCuts(p, false, text);
    NoCutsNoChange(Substitute(p, false, text));
  }

  lemma {:induction false} NoHeaderNoBlock(afterHex: bool, s: string)
    requires Occurrences(Header, afterHex, s) == 0
    ensures Occurrences(Block, afterHex, s) == 0
    decreases |s|
  {
    hide PemLine, Is, Run;
    if s != "" {
      NoHeaderNoBlock(Is(Hex, s[0]), s[1..]);
    }
  }

  /** The scanner and the redactor's counts agree on which texts hold a secret; a text that holds none
      comes back unchanged. */
  lemma NothingFoundIffNothingCounted(text: string)
    ensures ScanForSecrets(text) == [] <==> Counted(text) == Counts(0, 0, 0, 0)
    ensures ScanForSecrets(text) == [] ==> Redacted(text) == text
  {
    hide Pass, PassCount, Occurrences, LiveCredentials, SubstituteCredentials, Cuts, After, Before;
    if ScanForSecrets(text) == [] {
      assert Finding("private_key", Occurrences(Header, false, text)) == [];
      assert Finding("harness_token", Occurrences(Token, false, text)) == [];
      assert Finding("sk_key", Occurrences(SkKey, false, text)) == [];
      assert Finding("credential", LiveCredentials(text)) == [];
      NoHeaderNoBlock(false, text);
      PassWithoutOccurrence(Block, text);
      PassWithoutOccurrence(Header, text);
      PassWithoutOccurrence(Token, text);
      PassWithoutOccurrence(SkKey, text);
      CredentialScript(text, false);
      NoCutsNoChange(SubstituteCredentials(text));
    }
    if Counted(text) == Counts(0, 0, 0, 0) {
      NothingCountedNothingChanged(text);
      RedactedScansClean(text);
    }
  }

  lemma NothingCountedNothingChanged(text: string)
    requires Counted(text) == Counts(0, 0, 0, 0)
    ensures Redacted(text) == text
  {
    hide Occurrences, LiveCredentials, SubstituteCredentials, Cuts, After, Before, Substitute;
    SubstituteCuts(Block, false, text);
    NoCutsNoChange(Substitute(Block, false, text));
    SubstituteCuts(Header, false, text);
    NoCutsNoChange(Substitute(Header, false, text));
    SubstituteCuts(Token, false, text);
    NoCutsNoChange(Substitute(Token, false, text));
    SubstituteCuts(SkKey, false, text);
    NoCutsNoChange(Substitute(SkKey, false, text));
    CredentialScript(text, false);
    NoCutsNoChange(SubstituteCredentials(text));
  }

  /** Redacting twice changes nothing more, and the second time nothing is counted. */
  lemma RedactionIsIdempotent(text: string)
    ensures Redacted(Redacted(text)) == Redacted(text) && Counted(Redacted(text)) == Counts(0, 0, 0, 0)
  {
    hide Redacted, Counted, ScanForSecrets;
    RedactedScansClean(text);
    NothingFoundIffNothingCounted(Redacted(text));
  }
}
