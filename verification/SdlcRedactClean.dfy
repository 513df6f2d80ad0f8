/** The redacted text against the independent scanner: no pass leaves a match of its own pattern, and
    no later pass creates one. */
module SdlcRedactClean {
  import opened Common
  import opened SdlcRedact

  /** No match of the pattern starts anywhere in `s`. */
  predicate Clean(p: Pattern, afterHex: bool, s: string)
    decreases |s|
  {
    s == "" || (MatchLen(p, afterHex, s) == 0 && Clean(p, Is(Hex, s[0]), s[1..]))
  }

  predicate MarkOk(mark: string) {
    1 <= |mark| < 48 && mark[0] == '[' && '-' !in mark && (mark[|mark| - 1] == ']' || mark[|mark| - 1] == '\n')
  }

  /** A cut splits no run of hex digits: what touches it from outside is not one when its edge is. */
  predicate CutOk(afterHex: bool, old_: string, mark: string, rest: string) {
    && old_ != "" && MarkOk(mark)
    && (Is(Hex, old_[0]) ==> !afterHex)
    && (EndsInHex(old_) && rest != "" ==> !Is(Hex, rest[0]))
  }

  predicate EndsInHex(s: string) {
    s != "" && Is(Hex, s[|s| - 1])
  }

  predicate CutsOk(afterHex: bool, script: Script)
    decreases |script|
  {
    script == [] ||
    match script[0]
    case Keep(c) => CutsOk(Is(Hex, c), script[1..])
    case Cut(old_, mark) => CutOk(afterHex, old_, mark, Before(script[1..])) && CutsOk(EndsInHex(old_), script[1..])
  }

  /** No match of the input starts at a character the script keeps. */
  predicate NoneAtKept(p: Pattern, afterHex: bool, script: Script)
    decreases |script|
  {
    script == [] ||
    match script[0]
    case Keep(c) => MatchLen(p, afterHex, Before(script)) == 0 && NoneAtKept(p, Is(Hex, c), script[1..])
    case Cut(old_, mark) => NoneAtKept(p, EndsInHex(old_), script[1..])
  }

  // ----- what a match depends on

  lemma RunDependsOnPrefix(class_: Class, s: string, t: string, n: nat)
    requires n <= |s| && n <= |t| && s[..n] == t[..n] && Run(class_, s) < n
    ensures Run(class_, t) == Run(class_, s)
  {
    assert forall k :: 0 <= k < n ==> s[..n][k] == s[k] && t[..n][k] == t[k];
  }

  lemma SameSlices(s: string, t: string, k: nat, n: nat)
    requires k <= n <= |s| && n <= |t| && s[..n] == t[..n]
    ensures s[..k] == t[..k] && s[k..][..n - k] == t[k..][..n - k]
  {
    assert s[k..][..n - k] == s[..n][k..] && t[k..][..n - k] == t[..n][k..];
    assert s[..k] == s[..n][..k] && t[..k] == t[..n][..k];
  }

  lemma SamePrefixOf(p: string, s: string, t: string)
    requires p <= s && |p| <= |t| && s[..|p|] == t[..|p|]
    ensures p <= t
  {
  }

  lemma PemLineDependsOnItself(open: string, s: string, t: string)
    requires open == BEGIN || open == END
    requires var n := PemLine(open, s); n > 0 && n <= |t| && t[..n] == s[..n]
    ensures PemLine(open, t) == PemLine(open, s)
  {
    var n, k := PemLine(open, s), |open|;
    SameSlices(s, t, k, n);
    SamePrefixOf(open, s, t);
    RunDependsOnPrefix(PemLabel, s[k..], t[k..], n - k);
    SameSlices(s, t, n - 16, n);
    SamePrefixOf(PEM_TAIL, s[n - 16..], t[n - 16..]);
    hide Is;
  }

  lemma SliceAt(s: string, k: nat, i: nat)
    requires k <= i < |s|
    ensures s[k..][i - k] == s[i]
  {
  }

  lemma PemLineShape(open: string, s: string)
    requires open == BEGIN || open == END
    requires PemLine(open, s) > 0
    ensures var n := PemLine(open, s); '[' !in s[..n] && s[0] == '-' && s[n - 1] == '-'
  {
    var n, k := PemLine(open, s), |open|;
    var tail := s[n - 16..];
    assert forall i :: 0 <= i < 16 ==> tail[i] == PEM_TAIL[i];
    forall i | 0 <= i < n ensures s[i] != '[' {
      if i < k {
        assert s[i] == open[i];
      } else if i < n - 5 {
        SliceAt(s, k, i);
      } else {
        SliceAt(s, n - 16, i);
      }
    }
    assert s[0] == open[0];
    SliceAt(s, n - 16, n - 1);
  }

  // ----- up to the first mark the output repeats the input

  lemma {:induction false} SamePrefix(script: Script, afterHex: bool, n: nat)
    requires CutsOk(afterHex, script) && n <= |After(script)| && '[' !in After(script)[..n]
    ensures n <= |Before(script)| && n <= |script| && Before(script)[..n] == After(script)[..n]
    ensures forall i :: 0 <= i < n ==> script[i].Keep?
  {
    if n > 0 {
      assert After(script)[0] in After(script)[..n];
      match script[0]
      case Keep(c) =>
        var rest := After(script[1..]);
        assert After(script)[1..n] == rest[..n - 1];
        SamePrefix(script[1..], Is(Hex, c), n - 1);
        assert Before(script)[..n] == [c] + Before(script[1..])[..n - 1];
        assert After(script)[..n] == [c] + rest[..n - 1];
      case Cut(_, _) =>
    }
  }

  /** Behind a kept hex digit, the input goes on with a hex digit only if the output does. */
  lemma {:induction false} AfterKeptHex(script: Script, afterHex: bool, n: nat)
    requires CutsOk(afterHex, script) && 0 < n <= |script| && forall i :: 0 <= i < n ==> script[i].Keep?
    requires n <= |Before(script)| && Is(Hex, Before(script)[n - 1])
    ensures n < |Before(script)| && Is(Hex, Before(script)[n]) ==>
            n < |After(script)| && After(script)[n] == Before(script)[n]
  {
    if n > 1 {
      AfterKeptHex(script[1..], Is(Hex, script[0].c), n - 1);
    } else if |script| > 1 {
      assert script[1..][0] == script[1];
    }
  }

  /** The hex context of the output agrees with that of the input, or does not matter. */
  predicate SameContext(inHex: bool, outHex: bool, rest: string) {
    inHex == outHex || (rest != "" ==> !Is(Hex, rest[0]))
  }

  lemma TokenComesFromInput(script: Script, inHex: bool, outHex: bool)
    requires CutsOk(inHex, script) && script != [] && script[0].Keep? && SameContext(inHex, outHex, Before(script))
    requires MatchLen(Token, outHex, After(script)) > 0
    ensures MatchLen(Token, inHex, Before(script)) > 0
  {
    hide CutsOk, Before, After;
    var s, t := Before(script), After(script);
    assert forall i :: 0 <= i < 48 ==> t[..48][i] == t[i] && Is(Hex, t[i]);
    SamePrefix(script, inHex, 48);
    assert forall i :: 0 <= i < 48 ==> s[..48][i] == s[i] && Is(Hex, s[i]);
    AfterKeptHex(script, inHex, 48);
    assert Run(Hex, s) == 48;
  }

  lemma SkKeyComesFromInput(script: Script, inHex: bool, outHex: bool)
    requires CutsOk(inHex, script) && MatchLen(SkKey, outHex, After(script)) > 0
    ensures MatchLen(SkKey, inHex, Before(script)) > 0
  {
    hide CutsOk, Before, After;
    var s, t := Before(script), After(script);
    assert forall i :: 0 <= i < 20 ==> Is(Alnum, t[3..][i]) && t[3..][i] == t[i + 3];
    assert forall i :: 3 <= i < 23 ==> Is(Alnum, t[i]);
    assert t[0] == 's' && t[1] == 'k' && t[2] == '-';
    SamePrefix(script, inHex, 23);
    assert forall i :: 0 <= i < 23 ==> s[..23][i] == s[i] && t[..23][i] == t[i];
    assert forall i :: 0 <= i < 20 ==> s[3..][i] == s[i + 3];
    assert Run(Alnum, s[3..]) >= 20;
  }

  lemma LineComesFromInput(open: string, script: Script, inHex: bool)
    requires (open == BEGIN || open == END) && CutsOk(inHex, script) && PemLine(open, After(script)) > 0
    ensures PemLine(open, Before(script)) == PemLine(open, After(script)) <= |script|
    ensures forall i :: 0 <= i < PemLine(open, After(script)) ==> script[i].Keep?
  {
    hide PemLine, CutsOk, Before, After;
    var t := After(script);
    PemLineShape(open, t);
    SamePrefix(script, inHex, PemLine(open, t));
    PemLineDependsOnItself(open, t, Before(script));
  }

  lemma HeaderComesFromInput(script: Script, inHex: bool, outHex: bool)
    requires CutsOk(inHex, script) && MatchLen(Header, outHex, After(script)) > 0
    ensures MatchLen(Header, inHex, Before(script)) > 0
  {
    hide PemLine, CutsOk, Before, After;
    LineComesFromInput(BEGIN, script, inHex);
  }

  lemma {:induction false} FooterInTail(old_: string, s: string)
    requires FirstEnd(s) > 0
    ensures FirstEnd(old_ + s) > 0
  {
    hide PemLine;
    if old_ == "" {
      assert old_ + s == s;
    } else {
      FooterInTail(old_[1..], s);
      assert (old_ + s)[1..] == old_[1..] + s;
    }
  }

  lemma {:induction false} NoFooterInMark(mark: string, s: string)
    requires '-' !in mark && FirstEnd(mark + s) > 0
    ensures FirstEnd(s) > 0
  {
    if mark == "" {
      assert mark + s == s;
    } else {
      assert (mark + s)[0] == mark[0] && (mark + s)[1..] == mark[1..] + s;
      if PemLine(END, mark + s) > 0 { PemLineShape(END, mark + s); }
      NoFooterInMark(mark[1..], s);
    }
  }

  lemma {:induction false} FooterComesFromInput(script: Script, inHex: bool)
    requires CutsOk(inHex, script) && FirstEnd(After(script)) > 0
    ensures FirstEnd(Before(script)) > 0
  {
    hide PemLine, CutOk, MarkOk, Is;
    if script != [] {
      match script[0]
      case Keep(c) =>
        if PemLine(END, After(script)) > 0 {
          LineComesFromInput(END, script, inHex);
        } else {
          assert After(script)[1..] == After(script[1..]) && Before(script)[1..] == Before(script[1..]);
          FooterComesFromInput(script[1..], Is(Hex, c));
        }
      case Cut(old_, mark) =>
        CutsAreMarked(script, inHex);
        NoFooterInMark(mark, After(script[1..]));
        FooterComesFromInput(script[1..], EndsInHex(old_));
        FooterInTail(old_, Before(script[1..]));
    }
  }

  lemma CutsAreMarked(script: Script, inHex: bool)
    requires CutsOk(inHex, script) && script != [] && script[0].Cut?
    ensures '-' !in script[0].mark
  {
  }

  /** Behind `n` kept characters the script goes on with the rest of both texts. */
  lemma {:induction false} BehindKept(script: Script, inHex: bool, n: nat) returns (hex: bool)
    requires CutsOk(inHex, script) && n <= |script| && forall i :: 0 <= i < n ==> script[i].Keep?
    ensures CutsOk(hex, script[n..]) && n <= |Before(script)| && n <= |After(script)|
    ensures Before(script)[n..] == Before(script[n..]) && After(script)[n..] == After(script[n..])
  {
    hide CutOk, Is;
    hex := inHex;
    if n > 0 {
      KeptStep(script, inHex);
      hide CutsOk, Before, After;
      hex := BehindKept(script[1..], Is(Hex, script[0].c), n - 1);
      assert script[1..][n - 1..] == script[n..];
      assert Before(script)[n..] == Before(script[1..])[n - 1..] && After(script)[n..] == After(script[1..])[n - 1..];
    } else {
      assert script[0..] == script;
    }
  }

  lemma KeptStep(script: Script, inHex: bool)
    requires CutsOk(inHex, script) && script != [] && script[0].Keep?
    ensures CutsOk(Is(Hex, script[0].c), script[1..])
    ensures Before(script) == [script[0].c] + Before(script[1..]) && After(script) == [script[0].c] + After(script[1..])
  {
    hide Is, CutOk;
  }

  lemma BlockComesFromInput(script: Script, inHex: bool, outHex: bool)
    requires CutsOk(inHex, script) && MatchLen(Block, outHex, After(script)) > 0
    ensures MatchLen(Block, inHex, Before(script)) > 0
  {
    hide PemLine, FirstEnd, CutsOk, Before, After, Run;
    var n := PemLine(BEGIN, After(script));
    LineComesFromInput(BEGIN, script, inHex);
    var hex := BehindKept(script, inHex, n);
    FooterComesFromInput(script[n..], hex);
  }

  /** A match in the output at a kept character would be a match in the input. */
  lemma MatchComesFromInput(p: Pattern, script: Script, inHex: bool, outHex: bool)
    requires CutsOk(inHex, script) && script != [] && script[0].Keep?
    requires SameContext(inHex, outHex, Before(script)) && MatchLen(p, outHex, After(script)) > 0
    ensures MatchLen(p, inHex, Before(script)) > 0
  {
    hide MatchLen, CutsOk, Before, After, SameContext;
    match p
    case Block => BlockComesFromInput(script, inHex, outHex);
    case Header => HeaderComesFromInput(script, inHex, outHex);
    case Token => TokenComesFromInput(script, inHex, outHex);
    case SkKey => SkKeyComesFromInput(script, inHex, outHex);
  }

  predicate MarkTail(mark: string) {
    1 <= |mark| < 48 && '-' !in mark && (mark[|mark| - 1] == ']' || mark[|mark| - 1] == '\n')
  }

  lemma NoMatchInMark(p: Pattern, afterHex: bool, mark: string, rest: string)
    requires MarkTail(mark)
    ensures MatchLen(p, afterHex, mark + rest) == 0
  {
    var s := mark + rest;
    assert s[0] == mark[0] && s[|mark| - 1] == mark[|mark| - 1];
    assert |mark| > 1 ==> s[1] == mark[1];
    assert |mark| > 2 ==> s[2] == mark[2];
  }

  lemma {:induction false} MarkIsClean(p: Pattern, afterHex: bool, mark: string, rest: string)
    requires MarkTail(mark) && Clean(p, false, rest)
    ensures Clean(p, afterHex, mark + rest)
    decreases |mark|
  {
    hide MatchLen;
    var s := mark + rest;
    NoMatchInMark(p, afterHex, mark, rest);
    assert s[0] == mark[0] && s[1..] == mark[1..] + rest;
    if |mark| == 1 {
      assert s[1..] == rest;
    } else {
      MarkIsClean(p, Is(Hex, mark[0]), mark[1..], rest);
    }
  }

  /** The heart of the argument: a pattern that matches nowhere at a kept character of the input
      matches nowhere in the output. */
  lemma {:induction false} OutputIsClean(p: Pattern, script: Script, inHex: bool, outHex: bool)
    requires CutsOk(inHex, script) && NoneAtKept(p, inHex, script)
    requires SameContext(inHex, outHex, Before(script))
    ensures Clean(p, outHex, After(script))
    decreases |script|
  {
    if script != [] {
      match script[0]
      case Keep(c) =>
        if MatchLen(p, outHex, After(script)) > 0 {
          MatchComesFromInput(p, script, inHex, outHex);
        }
        OutputIsClean(p, script[1..], Is(Hex, c), Is(Hex, c));
        assert After(script)[1..] == After(script[1..]);
      case Cut(old_, mark) =>
        OutputIsClean(p, script[1..], EndsInHex(old_), false);
        MarkIsClean(p, outHex, mark, After(script[1..]));
    }
  }

  // ----- a later pass keeps what an earlier one achieved

  lemma {:induction false} CleanTail(p: Pattern, afterHex: bool, s: string, n: nat)
    requires Clean(p, afterHex, s) && 0 < n <= |s|
    ensures Clean(p, Is(Hex, s[n - 1]), s[n..])
    decreases n
  {
    if n > 1 {
      CleanTail(p, Is(Hex, s[0]), s[1..], n - 1);
      assert s[1..][n - 1..] == s[n..];
    }
  }

  lemma {:induction false} CleanInputHasNone(p: Pattern, script: Script, inHex: bool)
    requires CutsOk(inHex, script) && Clean(p, inHex, Before(script))
    ensures NoneAtKept(p, inHex, script)
    decreases |script|
  {
    if script != [] {
      match script[0]
      case Keep(c) =>
        assert Before(script)[1..] == Before(script[1..]);
        CleanInputHasNone(p, script[1..], Is(Hex, c));
      case Cut(old_, _) =>
        CleanTail(p, inHex, Before(script), |old_|);
        assert Before(script)[|old_|..] == Before(script[1..]);
        CleanInputHasNone(p, script[1..], EndsInHex(old_));
    }
  }

  lemma ScriptKeepsClean(p: Pattern, script: Script)
    requires CutsOk(false, script) && Clean(p, false, Before(script))
    ensures Clean(p, false, After(script))
  {
    CleanInputHasNone(p, script, false);
    OutputIsClean(p, script, false, false);
  }

  // ----- the scripts of the passes

  lemma {:induction false} FirstEndShape(s: string)
    requires FirstEnd(s) > 0
    ensures s[FirstEnd(s) - 1] == '-'
  {
    if PemLine(END, s) > 0 {
      PemLineShape(END, s);
    } else {
      FirstEndShape(s[1..]);
    }
  }

  lemma NeitherSpaceNorDashIsHex(c: char)
    requires IsSpace(c) || c == '-'
    ensures !Is(Hex, c)
  {
  }

  lemma BlockEdges(s: string)
    requires MatchLen(Block, false, s) > 0
    ensures var n := MatchLen(Block, false, s); !Is(Hex, s[0]) && !Is(Hex, s[n - 1])
  {
    hide PemLine, FirstEnd, Is, IsSpace;
    PemLineShape(BEGIN, s);
    var open := PemLine(BEGIN, s);
    var rest := s[open..];
    FirstEndShape(rest);
    var n := open + FirstEnd(rest);
    assert s[n - 1] == rest[FirstEnd(rest) - 1];
    var spaces := Run(Space, s[n..]);
    NeitherSpaceNorDashIsHex(s[0]);
    if spaces > 0 {
      assert s[n + spaces - 1] == s[n..][spaces - 1];
      SpacesAreSpaces(s[n..]);
    }
    NeitherSpaceNorDashIsHex(s[n + spaces - 1]);
  }

  lemma SpacesAreSpaces(s: string)
    ensures forall i :: 0 <= i < Run(Space, s) ==> IsSpace(s[i])
  {
  }

  lemma HeaderEdges(s: string)
    requires MatchLen(Header, false, s) > 0
    ensures var n := MatchLen(Header, false, s); !Is(Hex, s[0]) && (n < |s| ==> s[n] == '\n')
  {
    PemLineShape(BEGIN, s);
    hide PemLine;
    var open := PemLine(BEGIN, s);
    var n := open + Run(NotNewline, s[open..]);
    if n < |s| { assert s[n] == s[open..][n - open]; }
  }

  lemma MatchEdges(p: Pattern, afterHex: bool, s: string)
    requires MatchLen(p, afterHex, s) > 0
    ensures var n := MatchLen(p, afterHex, s);
            && (Is(Hex, s[0]) ==> !afterHex)
            && (Is(Hex, s[n - 1]) && n < |s| ==> !Is(Hex, s[n]))
  {
    hide PemLine, FirstEnd;
    match p
    case Block => BlockEdges(s);
    case Header => HeaderEdges(s);
    case Token =>
    case SkKey =>
      var n := 3 + Run(Alnum, s[3..]);
      if n < |s| { assert s[n] == s[3..][n - 3]; }
  }

  lemma MarksAreOk(p: Pattern)
    ensures MarkOk(Mark(p))
  {
  }

  lemma MatchIsCut(p: Pattern, afterHex: bool, s: string)
    requires MatchLen(p, afterHex, s) > 0
    ensures var n := MatchLen(p, afterHex, s);
            CutOk(afterHex, s[..n], Mark(p), s[n..]) && EndsInHex(s[..n]) == Is(Hex, s[n - 1])
  {
    hide MatchLen, Is, Mark, MarkOk;
    MatchEdges(p, afterHex, s);
    MarksAreOk(p);
  }

  lemma SubstituteSteps(p: Pattern, afterHex: bool, s: string)
    requires s != ""
    ensures var n := MatchLen(p, afterHex, s);
            Substitute(p, afterHex, s) ==
              if n > 0 then [Cut(s[..n], Mark(p))] + Substitute(p, Is(Hex, s[n - 1]), s[n..])
              else [Keep(s[0])] + Substitute(p, Is(Hex, s[0]), s[1..])
  {
    hide MatchLen, Mark, Is;
  }

  lemma {:induction false} SubstituteCuts(p: Pattern, afterHex: bool, s: string)
    ensures var script := Substitute(p, afterHex, s); Before(script) == s && CutsOk(afterHex, script)
    decreases |s|
  {
    hide MatchLen, Mark, Is, CutOk, CutsOk, EndsInHex, Before, After, Cuts, Substitute;
    if s == "" {
      EmptyCuts(p, afterHex);
    } else {
      SubstituteSteps(p, afterHex, s);
      var n := MatchLen(p, afterHex, s);
      if n > 0 {
        MatchIsCut(p, afterHex, s);
        SubstituteCuts(p, Is(Hex, s[n - 1]), s[n..]);
        CutFirst(afterHex, s[..n], Mark(p), Substitute(p, Is(Hex, s[n - 1]), s[n..]));
        assert s == s[..n] + s[n..];
      } else {
        SubstituteCuts(p, Is(Hex, s[0]), s[1..]);
        KeepFirst(afterHex, s[0], Substitute(p, Is(Hex, s[0]), s[1..]));
        assert s == [s[0]] + s[1..];
      }
    }
  }

  lemma EmptyCuts(p: Pattern, afterHex: bool)
    ensures Substitute(p, afterHex, "") == [] && CutsOk(afterHex, []) && Before([]) == ""
  {
  }

  lemma KeepFirst(afterHex: bool, c: char, rest: Script)
    requires CutsOk(Is(Hex, c), rest)
    ensures var script := [Keep(c)] + rest;
            CutsOk(afterHex, script) && Before(script) == [c] + Before(rest) && After(script) == [c] + After(rest)
            && Cuts(script) == Cuts(rest)
  {
    assert ([Keep(c)] + rest)[1..] == rest;
  }

  lemma CutFirst(afterHex: bool, old_: string, mark: string, rest: Script)
    requires CutsOk(EndsInHex(old_), rest) && CutOk(afterHex, old_, mark, Before(rest))
    ensures var script := [Cut(old_, mark)] + rest;
            CutsOk(afterHex, script) && Before(script) == old_ + Before(rest) && After(script) == mark + After(rest)
            && Cuts(script) == 1 + Cuts(rest)
  {
    assert ([Cut(old_, mark)] + rest)[1..] == rest;
  }

  lemma NoneAtKeptFirst(p: Pattern, afterHex: bool, edit: Edit, rest: Script)
    ensures NoneAtKept(p, afterHex, [edit] + rest) <==>
            match edit
            case Keep(c) => MatchLen(p, afterHex, Before([edit] + rest)) == 0 && NoneAtKept(p, Is(Hex, c), rest)
            case Cut(old_, _) => NoneAtKept(p, EndsInHex(old_), rest)
  {
    hide MatchLen, Is, Before, EndsInHex;
    assert ([edit] + rest)[1..] == rest;
  }

  lemma {:induction false} SubstituteSkipsNothing(p: Pattern, afterHex: bool, s: string)
    ensures NoneAtKept(p, afterHex, Substitute(p, afterHex, s))
    decreases |s|
  {
    hide MatchLen, Mark, Is, Substitute, NoneAtKept, Before, CutsOk;
    SubstituteCuts(p, afterHex, s);
    if s == "" {
      EmptyCuts(p, afterHex);
      NothingAtKept(p, afterHex);
    } else {
      SubstituteSteps(p, afterHex, s);
      var n := MatchLen(p, afterHex, s);
      if n > 0 {
        SubstituteSkipsNothing(p, Is(Hex, s[n - 1]), s[n..]);
        NoneAtKeptFirst(p, afterHex, Cut(s[..n], Mark(p)), Substitute(p, Is(Hex, s[n - 1]), s[n..]));
      } else {
        SubstituteSkipsNothing(p, Is(Hex, s[0]), s[1..]);
        NoneAtKeptFirst(p, afterHex, Keep(s[0]), Substitute(p, Is(Hex, s[0]), s[1..]));
      }
    }
  }

  lemma NothingAtKept(p: Pattern, afterHex: bool)
    ensures NoneAtKept(p, afterHex, [])
  {
  }

  /** A pass leaves no match of its own pattern. */
  lemma PassCleansItself(p: Pattern, text: string)
    ensures Clean(p, false, Pass(p, text))
  {
    SubstituteCuts(p, false, text);
    SubstituteSkipsNothing(p, false, text);
    OutputIsClean(p, Substitute(p, false, text), false, false);
  }

  lemma PassKeepsClean(p: Pattern, pass: Pattern, text: string)
    requires Clean(p, false, text)
    ensures Clean(p, false, Pass(pass, text))
  {
    SubstituteCuts(pass, false, text);
    ScriptKeepsClean(p, Substitute(pass, false, text));
  }
}
