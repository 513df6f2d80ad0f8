/** The redactor's patterns for keys, tokens and private keys, stated on the characters of a text, and
    what the redacted text holds of them (scripts/sdlc_export.py). */
module SdlcText {
  import opened Common
  import opened SdlcRedact
  import opened SdlcRedactClean
  import opened SdlcRedactScan

  // ----- the secrets, character by character

  predicate Digit(c: char) {
    '0' <= c <= '9'
  }

  predicate Upper(c: char) {
    'A' <= c <= 'Z'
  }

  predicate HexDigit(c: char) {
    Digit(c) || 'a' <= c <= 'f' || 'A' <= c <= 'F'
  }

  predicate LetterOrDigit(c: char) {
    Digit(c) || 'a' <= c <= 'z' || Upper(c)
  }

  predicate At(t: string, i: nat, word: string) {
    i + |word| <= |t| && t[i..i + |word|] == word
  }

  /** "sk-" and twenty letters or digits. */
  predicate SkKeyAt(t: string, i: nat) {
    At(t, i, "sk-") && i + 23 <= |t| && forall k :: i + 3 <= k < i + 23 ==> LetterOrDigit(t[k])
  }

  /** Exactly 48 hex digits between characters that are none. */
  predicate TokenAt(t: string, i: nat) {
    && i + 48 <= |t| && (forall k :: i <= k < i + 48 ==> HexDigit(t[k]))
    && (i == 0 || !HexDigit(t[i - 1])) && (i + 48 == |t| || !HexDigit(t[i + 48]))
  }

  /** "-----BEGIN " or "-----END " at `i`, a label, and the closing words at `j`. */
  predicate PemAt(t: string, open: string, i: nat, j: nat) {
    && At(t, i, open) && i + |open| <= j && At(t, j, "PRIVATE KEY-----")
    && forall k :: i + |open| <= k < j ==> Upper(t[k]) || Digit(t[k]) || t[k] == ' '
  }

  predicate HeaderAt(t: string, i: nat, j: nat) {
    PemAt(t, "-----BEGIN ", i, j)
  }

  predicate FooterAt(t: string, i: nat, j: nat) {
    PemAt(t, "-----END ", i, j)
  }

  ghost predicate HasSkKey(t: string) {
    exists i: nat :: SkKeyAt(t, i)
  }

  ghost predicate HasToken(t: string) {
    exists i: nat :: TokenAt(t, i)
  }

  ghost predicate HeaderFrom(t: string, i: nat) {
    exists j: nat :: HeaderAt(t, i, j)
  }

  /** A header at `i` and, behind it, a footer. */
  ghost predicate BlockFrom(t: string, i: nat) {
    exists j: nat, f: nat, g: nat :: HeaderAt(t, i, j) && j + 16 <= f && FooterAt(t, f, g)
  }

  ghost predicate HasHeader(t: string) {
    exists i: nat :: HeaderFrom(t, i)
  }

  ghost predicate HasBlock(t: string) {
    exists i: nat :: BlockFrom(t, i)
  }

  // ----- the matchers find them and nothing else

  lemma RunReaches(class_: Class, t: string, k: nat, n: nat)
    requires k <= |t|
    ensures Run(class_, t[k..]) >= n <==> (k + n <= |t| && forall j :: k <= j < k + n ==> Is(class_, t[j]))
  {
    hide Is;
    var s, m := t[k..], Run(class_, t[k..]);
    assert forall j :: k <= j < |t| ==> t[j] == s[j - k];
    if m < n && k + n <= |t| { assert !Is(class_, t[k + m]); }
  }

  lemma WordAt(t: string, i: nat, word: string)
    ensures At(t, i, word) <==> i <= |t| && word <= t[i..]
  {
    if i + |word| <= |t| { assert t[i..][..|word|] == t[i..i + |word|]; }
  }

  /** Whether a hex digit stands just before `i`. */
  predicate HexBefore(t: string, i: nat)
    requires i <= |t|
  {
    i > 0 && Is(Hex, t[i - 1])
  }

  lemma SkKeyIff(t: string, i: nat, afterHex: bool)
    requires i <= |t|
    ensures MatchLen(SkKey, afterHex, t[i..]) > 0 <==> SkKeyAt(t, i)
  {
    hide Run;
    WordAt(t, i, "sk-");
    if i + 3 <= |t| {
      assert t[i..][3..] == t[i + 3..];
      RunReaches(Alnum, t, i + 3, 20);
    }
  }

  lemma TokenIff(t: string, i: nat)
    requires i <= |t|
    ensures MatchLen(Token, HexBefore(t, i), t[i..]) > 0 <==> TokenAt(t, i)
  {
    hide Run;
    RunReaches(Hex, t, i, 48);
    RunReaches(Hex, t, i, 49);
  }

  /** A PEM line starts at `i` when its closing words stand somewhere behind the label, and they stand
      at one place only. */
  lemma PemIff(t: string, open: string, i: nat)
    requires i <= |t| && (open == BEGIN || open == END)
    ensures PemLine(open, t[i..]) > 0 <==> exists j: nat :: PemAt(t, open, i, j)
    ensures PemLine(open, t[i..]) > 0 ==> PemAt(t, open, i, i + PemLine(open, t[i..]) - 16)
    ensures forall j: nat :: PemAt(t, open, i, j) ==> PemLine(open, t[i..]) == j + 16 - i
  {
    hide PemLine, Run, PemAt;
    if PemLine(open, t[i..]) > 0 {
      PemFound(t, open, i);
      var j: nat := i + PemLine(open, t[i..]) - 16;
      assert PemAt(t, open, i, j);
    }
    forall j: nat | PemAt(t, open, i, j) ensures i <= j && PemLine(open, t[i..]) == j + 16 - i {
      PemIsFound(t, open, i, j);
    }
  }

  lemma PemFound(t: string, open: string, i: nat)
    requires i <= |t| && (open == BEGIN || open == END) && PemLine(open, t[i..]) > 0
    ensures PemLine(open, t[i..]) >= 16 && PemAt(t, open, i, i + PemLine(open, t[i..]) - 16)
  {
    hide Run;
    var n, k := PemLine(open, t[i..]), i + |open|;
    WordAt(t, i, open);
    assert t[i..][|open|..] == t[k..];
    RunReaches(PemLabel, t, k, n - 5 - |open|);
    assert t[i..][n - 16..] == t[i + n - 16..];
    WordAt(t, i + n - 16, PEM_TAIL);
  }

  lemma PemIsFound(t: string, open: string, i: nat, j: nat)
    requires PemAt(t, open, i, j) && (open == BEGIN || open == END)
    ensures i <= j && PemLine(open, t[i..]) == j + 16 - i
  {
    hide Run, Is, At;
    WordAt(t, i, open);
    WordAt(t, j, PEM_TAIL);
    var s := t[i..];
    var k := i + |open|;
    assert s[|open|..] == t[k..] && s[j - i..] == t[j..];
    LabelRun(t, k, j);
    assert |open| + Run(PemLabel, s[|open|..]) == j + 11 - i;
  }

  lemma LabelRun(t: string, k: nat, j: nat)
    requires k <= j && At(t, j, "PRIVATE KEY-----")
    requires forall m :: k <= m < j ==> Upper(t[m]) || Digit(t[m]) || t[m] == ' '
    ensures Run(PemLabel, t[k..]) == j + 11 - k
  {
    hide Run, At;
    TailChars(t, j);
    RunReaches(PemLabel, t, k, j + 11 - k);
    RunReaches(PemLabel, t, k, j + 12 - k);
    assert !Is(PemLabel, t[j + 11]);
  }

  lemma TailChars(t: string, j: nat)
    requires At(t, j, "PRIVATE KEY-----")
    ensures j + 16 <= |t| && (forall k :: j <= k < j + 11 ==> Is(PemLabel, t[k])) && t[j + 11] == '-'
  {
    var tail := t[j..j + 16];
    assert forall k :: j <= k < j + 16 ==> t[k] == tail[k - j];
    assert forall k :: 0 <= k < 11 ==> Is(PemLabel, tail[k]);
  }

  lemma HeaderIff(t: string, i: nat, afterHex: bool)
    requires i <= |t|
    ensures MatchLen(Header, afterHex, t[i..]) > 0 <==> HeaderFrom(t, i)
  {
    hide PemLine, Run, PemAt;
    PemIff(t, BEGIN, i);
    assert forall j: nat :: HeaderAt(t, i, j) <==> PemAt(t, BEGIN, i, j);
  }

  /** The first footer at or behind `i`. */
  ghost predicate FirstFooter(t: string, i: nat, f: nat, g: nat) {
    i <= f && FooterAt(t, f, g) && forall h: nat, e: nat :: i <= h < f ==> !FooterAt(t, h, e)
  }

  lemma {:induction false} FooterIff(t: string, i: nat)
    requires i <= |t|
    ensures FirstEnd(t[i..]) > 0 <==> exists f: nat, g: nat :: i <= f && FooterAt(t, f, g)
    ensures FirstEnd(t[i..]) > 0 ==>
            exists f: nat, g: nat :: FirstFooter(t, i, f, g) && g + 16 == i + FirstEnd(t[i..])
    decreases |t| - i
  {
    hide PemLine, PemAt;
    PemIff(t, END, i);
    assert forall f: nat, g: nat :: FooterAt(t, f, g) <==> PemAt(t, END, f, g);
    if i < |t| {
      assert t[i..][1..] == t[i + 1..];
      FooterIff(t, i + 1);
      if PemLine(END, t[i..]) > 0 {
        var g: nat :| FooterAt(t, i, g);
        assert FirstFooter(t, i, i, g);
      } else if FirstEnd(t[i + 1..]) > 0 {
        var f: nat, g: nat :| FirstFooter(t, i + 1, f, g) && g + 16 == i + 1 + FirstEnd(t[i + 1..]);
        assert FirstFooter(t, i, f, g);
      } else {
        assert forall f: nat, g: nat :: i <= f ==> !FooterAt(t, f, g);
      }
    } else {
      forall f: nat, g: nat | i <= f ensures !FooterAt(t, f, g) { NothingBehind(t, f, g); }
    }
  }

  lemma NothingBehind(t: string, f: nat, g: nat)
    requires |t| <= f
    ensures !FooterAt(t, f, g)
  {
  }

  lemma BlockIff(t: string, i: nat, afterHex: bool)
    requires i <= |t|
    ensures MatchLen(Block, afterHex, t[i..]) > 0 <==> BlockFrom(t, i)
  {
    hide PemLine, Run, PemAt, FirstEnd, FooterAt;
    PemIff(t, BEGIN, i);
    assert forall j: nat :: HeaderAt(t, i, j) <==> PemAt(t, BEGIN, i, j);
    var open := PemLine(BEGIN, t[i..]);
    assert t[i..][open..] == t[i + open..];
    FooterIff(t, i + open);
  }

  // ----- a clean text is one without them

  lemma {:induction false} CleanIff(p: Pattern, t: string, k: nat)
    requires k <= |t|
    ensures Clean(p, HexBefore(t, k), t[k..]) <==>
            forall i :: k <= i < |t| ==> MatchLen(p, HexBefore(t, i), t[i..]) == 0
    decreases |t| - k
  {
    hide MatchLen, Is;
    if k < |t| {
      assert t[k..][1..] == t[k + 1..];
      CleanIff(p, t, k + 1);
    }
  }

  lemma CleanMeans(t: string)
    ensures Clean(Block, false, t) <==> !HasBlock(t)
    ensures Clean(Header, false, t) <==> !HasHeader(t)
    ensures Clean(Token, false, t) <==> !HasToken(t)
    ensures Clean(SkKey, false, t) <==> !HasSkKey(t)
  {
    hide MatchLen, Clean, TokenAt, PemAt, SkKeyAt, HeaderAt, FooterAt;
    assert t[0..] == t;
    CleanIff(Block, t, 0);
    CleanIff(Header, t, 0);
    CleanIff(Token, t, 0);
    CleanIff(SkKey, t, 0);
    forall i: nat
      ensures i < |t| ==> (MatchLen(SkKey, HexBefore(t, i), t[i..]) > 0 <==> SkKeyAt(t, i))
      ensures i < |t| ==> (MatchLen(Token, HexBefore(t, i), t[i..]) > 0 <==> TokenAt(t, i))
      ensures i < |t| ==> (MatchLen(Header, HexBefore(t, i), t[i..]) > 0 <==> HeaderFrom(t, i))
      ensures i < |t| ==> (MatchLen(Block, HexBefore(t, i), t[i..]) > 0 <==> BlockFrom(t, i))
      ensures i >= |t| ==> !SkKeyAt(t, i) && !TokenAt(t, i) && !HeaderFrom(t, i)
    {
      if i < |t| {
        SkKeyIff(t, i, HexBefore(t, i));
        TokenIff(t, i);
        HeaderIff(t, i, HexBefore(t, i));
        BlockIff(t, i, HexBefore(t, i));
      } else {
        NoneAtEnd(t, i);
      }
    }
    assert forall i: nat :: BlockFrom(t, i) ==> HeaderFrom(t, i);
  }

  lemma NoneAtEnd(t: string, i: nat)
    requires i >= |t|
    ensures !SkKeyAt(t, i) && !TokenAt(t, i) && !HeaderFrom(t, i)
  {
  }

  // ----- the redacted text

  /** The redacted text of any input holds no key, no token and no private key header. */
  lemma NoSecretIsLeft(text: string)
    ensures !HasSkKey(Redacted(text)) && !HasToken(Redacted(text)) && !HasHeader(Redacted(text))
  {
    hide Redacted, Clean, Occurrences, LiveCredentials, HasSkKey, HasToken, HasHeader;
    RedactedScansClean(text);
    CleanIffNoOccurrence(Header, false, Redacted(text));
    CleanIffNoOccurrence(Token, false, Redacted(text));
    CleanIffNoOccurrence(SkKey, false, Redacted(text));
    NothingFound(Redacted(text));
    CleanMeans(Redacted(text));
  }

  lemma NothingFound(text: string)
    ensures ScanForSecrets(text) == [] <==>
            Occurrences(Header, false, text) == 0 && Occurrences(Token, false, text) == 0
            && Occurrences(SkKey, false, text) == 0 && LiveCredentials(text) == 0
  {
    hide Occurrences, LiveCredentials;
  }

  /** Behind the first pass no header is followed by a footer: whole blocks are gone, with the lines
      between the two. */
  lemma NoBlockIsLeft(text: string)
    ensures !HasBlock(WithoutBlocks(text))
  {
    hide Pass, Clean, HasBlock;
    PassCleansItself(Block, text);
    CleanMeans(WithoutBlocks(text));
  }

  // ----- what is cut out

  /** A PEM block: a header, the first footer behind it, and blanks. */
  ghost predicate IsBlock(s: string) {
    exists j: nat, f: nat, g: nat ::
      && HeaderAt(s, 0, j) && j + 16 <= f && FooterAt(s, f, g)
      && (forall k :: g + 16 <= k < |s| ==> IsSpace(s[k]))
      && forall h: nat, e: nat :: j + 16 <= h < f ==> !FooterAt(s, h, e)
  }

  ghost predicate IsHeaderLine(s: string) {
    '\n' !in s && exists j: nat :: HeaderAt(s, 0, j)
  }

  predicate IsToken(s: string) {
    |s| == 48 && forall k :: 0 <= k < 48 ==> HexDigit(s[k])
  }

  predicate IsSkKey(s: string) {
    |s| >= 23 && At(s, 0, "sk-") && forall k :: 3 <= k < |s| ==> LetterOrDigit(s[k])
  }

  /** What each pass may cut in front of `rest`, and what it leaves in its place. */
  ghost predicate CutIsSecret(p: Pattern, old_: string, mark: string, rest: string) {
    match p
    case Block => IsBlock(old_) && mark == "[REDACTED:private_key]\n" && (rest != "" ==> !IsSpace(rest[0]))
    case Header => IsHeaderLine(old_) && mark == "[REDACTED:private_key]" && (rest != "" ==> rest[0] == '\n')
    case Token => IsToken(old_) && mark == "[REDACTED:harness_token]" && (rest != "" ==> !HexDigit(rest[0]))
    case SkKey => IsSkKey(old_) && mark == "[REDACTED:sk_key]" && (rest != "" ==> !LetterOrDigit(rest[0]))
  }

  lemma PemInPrefix(s: string, n: nat, open: string, i: nat, j: nat)
    requires n <= |s|
    ensures PemAt(s[..n], open, i, j) <==> PemAt(s, open, i, j) && j + 16 <= n
  {
    var p := s[..n];
    if j + 16 <= n && i + |open| <= j {
      assert p[j..j + 16] == s[j..j + 16] && p[i..i + |open|] == s[i..i + |open|];
    }
  }

  lemma BlockIsBlock(s: string)
    requires MatchLen(Block, false, s) > 0
    ensures var n := MatchLen(Block, false, s); CutIsSecret(Block, s[..n], Mark(Block), s[n..])
  {
    hide PemLine, Run, PemAt, FirstEnd, IsSpace, FooterAt, HeaderAt;
    var open := PemLine(BEGIN, s);
    var e := open + FirstEnd(s[open..]);
    var n := MatchLen(Block, false, s);
    assert s[0..] == s;
    PemIff(s, BEGIN, 0);
    FooterIff(s, open);
    var f: nat, g: nat :| FirstFooter(s, open, f, g) && g + 16 == e;
    HeaderInPrefix(s, n, open - 16);
    FootersInPrefix(s, n);
    RunOfSpaces(s, e);
    var p := s[..n];
    assert FooterAt(p, f, g);
    assert forall k :: e <= k < n ==> IsSpace(p[k]);
    assert forall h: nat, x: nat :: open <= h < f ==> !FooterAt(p, h, x);
    assert IsBlock(p);
  }

  lemma HeaderInPrefix(s: string, n: nat, j: nat)
    requires n <= |s| && PemAt(s, BEGIN, 0, j) && j + 16 <= n
    ensures HeaderAt(s[..n], 0, j)
  {
    PemInPrefix(s, n, BEGIN, 0, j);
  }

  lemma FootersInPrefix(s: string, n: nat)
    requires n <= |s|
    ensures forall h: nat, g: nat :: FooterAt(s[..n], h, g) <==> FooterAt(s, h, g) && g + 16 <= n
  {
    forall h: nat, g: nat ensures FooterAt(s[..n], h, g) <==> FooterAt(s, h, g) && g + 16 <= n {
      PemInPrefix(s, n, END, h, g);
    }
  }

  lemma RunOfSpaces(s: string, e: nat)
    requires e <= |s|
    ensures var n := e + Run(Space, s[e..]);
            (forall k :: e <= k < n ==> IsSpace(s[k])) && (n < |s| ==> !IsSpace(s[n]))
  {
    hide IsSpace, Run;
    RunReaches(Space, s, e, Run(Space, s[e..]));
    RunReaches(Space, s, e, Run(Space, s[e..]) + 1);
  }

  lemma HeaderIsHeader(s: string)
    requires MatchLen(Header, false, s) > 0
    ensures var n := MatchLen(Header, false, s); CutIsSecret(Header, s[..n], Mark(Header), s[n..])
  {
    hide PemLine, Run, PemAt, FirstEnd, IsSpace, HeaderAt;
    var open := PemLine(BEGIN, s);
    var n := MatchLen(Header, false, s);
    assert s[0..] == s;
    PemIff(s, BEGIN, 0);
    HeaderInPrefix(s, n, open - 16);
    HeaderLineChars(s, open - 16);
    RunReaches(NotNewline, s, open, n - open);
    RunReaches(NotNewline, s, open, n - open + 1);
    assert forall k :: 0 <= k < n ==> s[..n][k] == s[k] != '\n';
  }

  lemma HeaderLineChars(s: string, j: nat)
    requires PemAt(s, BEGIN, 0, j)
    ensures forall k :: 0 <= k < j + 16 ==> s[k] != '\n'
  {
    forall k | 0 <= k < j + 16 ensures s[k] != '\n' {
      if k < 11 {
        assert s[k] == s[0..11][k];
      } else if k >= j {
        assert s[k] == s[j..j + 16][k - j];
      }
    }
  }

  lemma MatchIsSecret(p: Pattern, afterHex: bool, s: string)
    requires MatchLen(p, afterHex, s) > 0
    ensures var n := MatchLen(p, afterHex, s); CutIsSecret(p, s[..n], Mark(p), s[n..])
  {
    match p
    case Block => BlockIsBlock(s);
    case Header => HeaderIsHeader(s);
    case Token => TokenIsToken(afterHex, s);
    case SkKey => SkKeyIsSkKey(s);
  }

  lemma TokenIsToken(afterHex: bool, s: string)
    requires MatchLen(Token, afterHex, s) > 0
    ensures MatchLen(Token, afterHex, s) == 48 && CutIsSecret(Token, s[..48], Mark(Token), s[48..])
  {
  }

  lemma SkKeyIsSkKey(s: string)
    requires MatchLen(SkKey, false, s) > 0
    ensures var n := MatchLen(SkKey, false, s); CutIsSecret(SkKey, s[..n], Mark(SkKey), s[n..])
  {
    hide Run;
    var n := MatchLen(SkKey, false, s);
    RunReaches(Alnum, s, 3, n - 3);
    RunReaches(Alnum, s, 3, n - 2);
    assert s[..n][0..3] == s[..3];
  }

  /** Every pass cuts out secrets of its own kind only, each whole, and leaves the mark of that kind. */
  lemma {:induction false} CutsAreSecrets(p: Pattern, afterHex: bool, s: string, k: nat)
    requires k < |Substitute(p, afterHex, s)| && Substitute(p, afterHex, s)[k].Cut?
    ensures var script := Substitute(p, afterHex, s);
            CutIsSecret(p, script[k].old_, script[k].mark, Before(script[k + 1..]))
    decreases |s|
  {
    hide MatchLen, Mark, Is, CutIsSecret, Before;
    var n := MatchLen(p, afterHex, s);
    var step := if n > 0 then n else 1;
    var rest := Substitute(p, Is(Hex, s[step - 1]), s[step..]);
    var script := Substitute(p, afterHex, s);
    assert script[1..] == rest;
    SubstituteCuts(p, Is(Hex, s[step - 1]), s[step..]);
    if k > 0 {
      CutsAreSecrets(p, Is(Hex, s[step - 1]), s[step..], k - 1);
      assert script[k] == rest[k - 1] && script[k + 1..] == rest[k..];
    } else {
      MatchIsSecret(p, afterHex, s);
    }
  }
}
