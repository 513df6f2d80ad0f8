/** The matcher of the permission deny rules (src/lh_harness/auditor_verify.py): a greedy, leftmost glob
    match, proved equal to what the glob denotes. */
module DenyGlob {
  import opened Common

  /** The language of a glob: `*` stands for any run of characters, everything else for itself. */
  ghost predicate Denotes(pattern: string, target: string)
    decreases |pattern|
  {
    if pattern == "" then target == ""
    else if pattern[0] == '*' then exists k :: 0 <= k <= |target| && Denotes(pattern[1..], target[k..])
    else target != "" && target[0] == pattern[0] && Denotes(pattern[1..], target[1..])
  }

  /** `pattern.split("*")`. */
  function Split(pattern: string): (parts: seq<string>)
    ensures |parts| >= 1
    ensures |parts| == 1 <==> '*' !in pattern
  {
    if pattern == "" then [""]
    else
      var rest := Split(pattern[1..]);
      if pattern[0] == '*' then [""] + rest else [[pattern[0]] + rest[0]] + rest[1..]
  }

  predicate OccursAt(s: string, part: string, i: nat) {
    i <= |s| && part <= s[i..]
  }

  predicate EndsWith(s: string, part: string) {
    |part| <= |s| && s[|s| - |part|..] == part
  }

  /** `str.find`: the first occurrence, or -1. */
  method FindFirst(s: string, part: string) returns (index: int)
    ensures index >= 0 ==> OccursAt(s, part, index) && forall j :: 0 <= j < index ==> !OccursAt(s, part, j)
    ensures index < 0 ==> forall j :: 0 <= j <= |s| ==> !OccursAt(s, part, j)
  {
    index := 0;
    while index <= |s|
      invariant 0 <= index <= |s| + 1
      invariant forall j :: 0 <= j < index ==> !OccursAt(s, part, j)
    {
      if part <= s[index..] { return; }
      index := index + 1;
    }
    index := -1;
  }

  /** `s` is a gap, the first part, a gap, the next, and so on, and ends with the last part. */
  ghost predicate Cuts(parts: seq<string>, s: string)
    requires parts != []
    decreases |parts|
  {
    if |parts| == 1 then EndsWith(s, parts[0])
    else exists i :: 0 <= i && OccursAt(s, parts[0], i) && Cuts(parts[1..], s[i + |parts[0]|..])
  }

  method GlobMatches(pattern: string, target: string) returns (matched: bool)
    ensures '*' in pattern ==> (matched <==> Denotes(pattern, target))
    ensures '*' !in pattern ==> (matched <==> pattern <= target && EndsWith(target[|pattern|..], pattern))
  {
    var parts := Split(pattern);
    assert pattern != "" || parts == [""];
    if '*' in pattern { SplitDenotes(pattern, target); } else { SplitAlone(pattern); }
    if !(parts[0] <= target) { return false; }
    var remainder := target[|parts[0]|..];
    var last := parts[|parts| - 1];
    var i := 1;
    while i < |parts| - 1
      invariant 1 <= i && (|parts| > 1 ==> i < |parts|)
      invariant |parts| > 1 ==> (Cuts(parts[1..], target[|parts[0]|..]) <==> Cuts(parts[i..], remainder))
      invariant |parts| == 1 ==> i == 1 && remainder == target[|parts[0]|..]
    {
      assert parts[i..][1..] == parts[i + 1..];
      var index := FindFirst(remainder, parts[i]);
      if index < 0 { return false; }
      FirstIsBest(parts[i..], remainder, index);
      remainder := remainder[index + |parts[i]|..];
      i := i + 1;
    }
    assert |parts| > 1 ==> parts[i..] == [last];
    if last == "" { return true; }
    return EndsWith(remainder, last);
  }

  lemma SplitAlone(pattern: string)
    requires '*' !in pattern
    ensures Split(pattern) == [pattern]
  {
    if pattern != "" {
      SplitAlone(pattern[1..]);
      assert pattern == [pattern[0]] + pattern[1..];
    }
  }

  lemma OccursLater(s: string, part: string, k: nat, i: nat)
    requires k <= |s| && OccursAt(s[k..], part, i)
    ensures OccursAt(s, part, k + i) && s[k..][i + |part|..] == s[k + i + |part|..]
  {
    assert s[k..][i..] == s[k + i..];
  }

  /** A cut of a suffix is a cut of the whole, with a longer first gap. */
  lemma CutsOfSuffix(parts: seq<string>, s: string, k: nat)
    requires parts != [] && k <= |s| && Cuts(parts, s[k..])
    ensures Cuts(parts, s)
  {
    if |parts| == 1 {
      assert s[k..][|s[k..]| - |parts[0]|..] == s[|s| - |parts[0]|..];
    } else {
      var i :| 0 <= i && OccursAt(s[k..], parts[0], i) && Cuts(parts[1..], s[k..][i + |parts[0]|..]);
      OccursLater(s, parts[0], k, i);
      assert OccursAt(s, parts[0], k + i) && Cuts(parts[1..], s[k + i + |parts[0]|..]);
    }
  }

  /** Taking the first occurrence loses nothing. */
  lemma FirstIsBest(parts: seq<string>, s: string, first: nat)
    requires |parts| > 1 && OccursAt(s, parts[0], first) && forall j :: 0 <= j < first ==> !OccursAt(s, parts[0], j)
    ensures Cuts(parts, s) <==> Cuts(parts[1..], s[first + |parts[0]|..])
  {
    if Cuts(parts, s) {
      var i :| 0 <= i && OccursAt(s, parts[0], i) && Cuts(parts[1..], s[i + |parts[0]|..]);
      var rest := s[first + |parts[0]|..];
      assert rest[i - first..] == s[i + |parts[0]|..];
      CutsOfSuffix(parts[1..], rest, i - first);
    }
  }

  /** Without `*` a pattern denotes itself. */
  lemma {:induction false} LiteralDenotes(pattern: string, target: string)
    requires '*' !in pattern
    ensures Denotes(pattern, target) <==> target == pattern
    decreases |pattern|
  {
    if pattern != "" && target != "" {
      LiteralDenotes(pattern[1..], target[1..]);
      assert pattern == [pattern[0]] + pattern[1..] && target == [target[0]] + target[1..];
    }
  }

  /** The parts of a pattern, read as cuts, denote what the pattern denotes. */
  lemma {:induction false} SplitDenotes(pattern: string, target: string)
    requires '*' in pattern
    ensures var parts := Split(pattern);
            Denotes(pattern, target) <==> parts[0] <= target && Cuts(parts[1..], target[|parts[0]|..])
    decreases |pattern|, 0
  {
    var rest, parts := pattern[1..], Split(pattern);
    if pattern[0] == '*' {
      assert target[0..] == target && parts[1..] == Split(rest);
      StarDenotes(rest, target);
    } else {
      assert '*' in rest;
      assert parts[1..] == Split(rest)[1..];
      var first := Split(rest)[0];
      if target != "" && target[0] == pattern[0] {
        SplitDenotes(rest, target[1..]);
        assert target[1..][..|target| - 1] == target[1..];
        assert parts[0] <= target <==> first <= target[1..] by { ConsPrefix(pattern[0], first, target); }
        if parts[0] <= target { assert target[|parts[0]|..] == target[1..][|first|..]; }
      }
    }
  }

  lemma ConsPrefix(c: char, p: string, s: string)
    requires s != "" && s[0] == c
    ensures [c] + p <= s <==> p <= s[1..]
  {
    if p <= s[1..] { assert s == [s[0]] + s[1..]; }
    if [c] + p <= s { assert s[1..][..|p|] == ([c] + p)[1..]; }
  }

  lemma StarDenotes(rest: string, target: string)
    ensures (exists k :: 0 <= k <= |target| && Denotes(rest, target[k..])) <==> Cuts(Split(rest), target)
    decreases |rest|, 1
  {
    hide Split;
    if '*' in rest {
      StarThenStar(rest, target);
    } else {
      SplitAlone(rest);
      if k :| 0 <= k <= |target| && Denotes(rest, target[k..]) {
        LiteralDenotes(rest, target[k..]);
      }
      if Cuts([rest], target) {
        LiteralDenotes(rest, target[|target| - |rest|..]);
      }
    }
  }

  lemma StarThenStar(rest: string, target: string)
    requires '*' in rest
    ensures (exists k :: 0 <= k <= |target| && Denotes(rest, target[k..])) <==> Cuts(Split(rest), target)
    decreases |rest|, 1, 0
  {
    hide Split, Denotes;
    var parts := Split(rest);
    if k :| 0 <= k <= |target| && Denotes(rest, target[k..]) {
      SplitDenotes(rest, target[k..]);
      assert target[k..][|parts[0]|..] == target[k + |parts[0]|..];
      assert OccursAt(target, parts[0], k);
    }
    if Cuts(parts, target) {
      var i :| 0 <= i && OccursAt(target, parts[0], i) && Cuts(parts[1..], target[i + |parts[0]|..]);
      assert target[i..][|parts[0]|..] == target[i + |parts[0]|..];
      SplitDenotes(rest, target[i..]);
    }
  }

  // ----- deny rules

  const RULE_OPEN := "Bash("

  /** The glob inside a well-formed rule, or "". */
  function RulePattern(rule: string): string {
    var text := Strip(rule);
    if RULE_OPEN <= text && EndsWith(text, ")") && |text| > 5 then text[5..|text| - 1] else ""
  }

  ghost predicate Refuses(rule: string, command: string) {
    RulePattern(rule) != "" && Strip(command) != "" && Denotes(RulePattern(rule), Strip(command))
  }

  /** The glob of a rule is what stands between "Bash(" and ")", with blanks around the two only. */
  lemma RulePatternIff(rule: string, pattern: string)
    requires pattern != ""
    ensures RulePattern(rule) == pattern <==>
            exists front: string, back: string ::
              Blank(front) && Blank(back) && rule == front + ("Bash(" + pattern + ")") + back
  {
    hide Strip, Blank;
    var text := "Bash(" + pattern + ")";
    StripIff(rule, text);
    assert text[..5] == "Bash(" && text[5..|text| - 1] == pattern && text[|text| - 1..] == ")";
    if RulePattern(rule) == pattern {
      var t := Strip(rule);
      assert t == t[..5] + t[5..|t| - 1] + t[|t| - 1..];
    }
  }

  /** A rule refuses a command exactly when the rule is "Bash(glob)" and the glob denotes the command, each
      without the blanks around it. */
  lemma RefusesIff(rule: string, command: string)
    ensures Refuses(rule, command) <==>
            exists pattern: string, target: string ::
              RuleHolds(rule, pattern) && Between(command, target) && pattern != "" && target != ""
              && Denotes(pattern, target)
  {
    hide Strip, Blank, Denotes, RulePattern, Trimmed;
    var pattern, target := RulePattern(rule), Strip(command);
    StripIff(command, target);
    assert Between(command, target);
    if pattern != "" {
      RulePatternIff(rule, pattern);
      assert RuleHolds(rule, pattern);
    }
    forall p: string, t: string | RuleHolds(rule, p) && Between(command, t) && p != ""
      ensures p == pattern && t == target
    {
      RulePatternIff(rule, p);
      StripIff(command, t);
    }
  }

  ghost predicate RuleHolds(rule: string, pattern: string) {
    exists front: string, back: string ::
      Blank(front) && Blank(back) && rule == front + ("Bash(" + pattern + ")") + back
  }

  /** `inner` is `s` without the blanks at both ends. */
  ghost predicate Between(s: string, inner: string) {
    Trimmed(inner) && exists front: string, back: string :: Blank(front) && Blank(back) && s == front + inner + back
  }

  /** A rule matches a command exactly when the rule is well formed with a non-empty glob, and the glob
      denotes the trimmed, non-empty command. */
  method DenyRuleMatches(command: string, rule: string) returns (matched: bool)
    ensures matched <==> Refuses(rule, command)
  {
    hide Strip, Denotes;
    var text := Strip(rule);
    if !(RULE_OPEN <= text) || !EndsWith(text, ")") { return false; }
    assert |text| > 5 by { RuleIsLong(text); }
    var pattern := text[|RULE_OPEN|..|text| - 1];
    if pattern == "" { return false; }
    var target := Strip(command);
    if target == "" { return false; }
    if '*' !in pattern {
      LiteralDenotes(pattern, target);
      return target == pattern;
    }
    matched := GlobMatches(pattern, target);
  }

  lemma RuleIsLong(text: string)
    requires RULE_OPEN <= text && EndsWith(text, ")")
    ensures |text| > 5
  {
    assert text[4] == RULE_OPEN[4];
  }

  /** The rule that refuses a command, or None: the first that matches. */
  method IsDenied(command: string, rules: seq<string>) returns (by_: Option<string>)
    ensures by_.None? <==> forall i :: 0 <= i < |rules| ==> !Refuses(rules[i], command)
    ensures by_.Some? ==> exists i :: 0 <= i < |rules| && rules[i] == by_.value && Refuses(rules[i], command)
                                      && forall j :: 0 <= j < i ==> !Refuses(rules[j], command)
  {
    for i := 0 to |rules|
      invariant forall j :: 0 <= j < i ==> !Refuses(rules[j], command)
    {
      var matched := DenyRuleMatches(command, rules[i]);
      if matched { return Some(rules[i]); }
    }
    return None;
  }
}
