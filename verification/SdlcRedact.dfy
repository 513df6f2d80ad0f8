/** The record-store redactor and the independent scanner behind it (scripts/sdlc_export.py). Each
    regular expression is written out as a matcher on the rest of the text; `re.sub` is the leftmost,
    non-overlapping walk over it. */
module SdlcRedact {
  import opened Common

  // ----- character classes

  datatype Class = Hex | Alnum | PemLabel | NotNewline | Space | NameChar | ValueChar

  /** Under IGNORECASE, [a-z] also matches these four letters outside ASCII. */
  predicate IsExtraLetter(c: char) {
    c == '\U{130}' || c == '\U{131}' || c == '\U{17f}' || c == '\U{212a}'
  }

  predicate IsLetter(c: char) {
    'a' <= c <= 'z' || 'A' <= c <= 'Z'
  }

  predicate IsDigit(c: char) {
    '0' <= c <= '9'
  }

  predicate IsQuote(c: char) {
    c == '\'' || c == '"'
  }

  predicate Is(class_: Class, c: char) {
    match class_
    case Hex => IsDigit(c) || 'a' <= c <= 'f' || 'A' <= c <= 'F'
    case Alnum => IsDigit(c) || IsLetter(c)
    case PemLabel => IsDigit(c) || 'A' <= c <= 'Z' || c == ' '
    case NotNewline => c != '\n'
    case Space => IsSpace(c)
    case NameChar => IsDigit(c) || IsLetter(c) || c == '_' || IsExtraLetter(c)
    case ValueChar => !IsQuote(c) && c != '\n'
  }

  /** The length of the longest run of the class at the start of `s`. */
  function Run(class_: Class, s: string): (n: nat)
    ensures n <= |s| && (forall i :: 0 <= i < n ==> Is(class_, s[i])) && (n < |s| ==> !Is(class_, s[n]))
  {
    if s == "" || !Is(class_, s[0]) then 0 else 1 + Run(class_, s[1..])
  }

  predicate FoldedSuffix(s: string, suffix: string) {
    |suffix| <= |s| && SameFolded(s[|s| - |suffix|..], suffix)
  }

  // ----- the patterns; a matcher returns the length matched at the start of `s`, and 0 for no match

  /** `<open>[A-Z0-9 ]*PRIVATE KEY-----`. */
  function PemLine(open: string, s: string): (n: nat)
    ensures n <= |s|
  {
    if !(open <= s) then 0
    else
      var n := |open| + Run(PemLabel, s[|open|..]);
      if n >= |open| + 11 && PEM_TAIL <= s[n - 11..] then n + 5 else 0
  }

  const PEM_TAIL := "PRIVATE KEY-----"
  const BEGIN := "-----BEGIN "
  const END := "-----END "

  function FirstEnd(s: string): (n: nat)
    ensures n <= |s|
  {
    if s == "" then 0
    else if PemLine(END, s) > 0 then PemLine(END, s)
    else if FirstEnd(s[1..]) > 0 then 1 + FirstEnd(s[1..])
    else 0
  }

  datatype Pattern = Block | Header | Token | SkKey

  /** `afterHex` tells whether a hex digit precedes `s`. */
  function MatchLen(p: Pattern, afterHex: bool, s: string): (n: nat)
    ensures n <= |s|
  {
    match p
    case Block =>
      var open := PemLine(BEGIN, s);
      if open == 0 || FirstEnd(s[open..]) == 0 then 0
      else
        var n := open + FirstEnd(s[open..]);
        n + Run(Space, s[n..])
    case Header =>
      var open := PemLine(BEGIN, s);
      if open == 0 then 0 else open + Run(NotNewline, s[open..])
    case Token => if !afterHex && Run(Hex, s) == 48 then 48 else 0
    case SkKey => if "sk-" <= s && Run(Alnum, s[3..]) >= 20 then 3 + Run(Alnum, s[3..]) else 0
  }

  const CREDENTIAL_NAMES := ["_token", "_key", "_secret", "_password", "_passwd", "api_key", "auth_token"]

  /** One leading character, then anything, then one of the names. */
  predicate CredName(name: string) {
    && name != "" && !IsDigit(name[0])
    && exists i :: 0 <= i < |CREDENTIAL_NAMES| && |name| > |CREDENTIAL_NAMES[i]|
        && FoldedSuffix(name, CREDENTIAL_NAMES[i])
  }

  /** The length of `NAME\s*[=:]\s*` and the opening quote, or 0. */
  function CredHead(s: string): (n: nat)
    ensures n <= |s| && (n > 0 ==> IsQuote(s[n - 1]))
  {
    var name := Run(NameChar, s);
    var sep := name + Run(Space, s[name..]);
    if !CredName(s[..name]) || sep == |s| || (s[sep] != '=' && s[sep] != ':') then 0
    else
      var quote := sep + 1 + Run(Space, s[sep + 1..]);
      if quote == |s| || !IsQuote(s[quote]) then 0 else quote + 1
  }

  /** The value's length when the opening quote just before `s[at]` is closed by its like after six or
      more characters, else 0. */
  function CredValue(s: string, at: nat): (n: nat)
    requires 0 < at <= |s|
    ensures n > 0 ==> n >= 6 && at + n < |s| && s[at + n] == s[at - 1]
    ensures forall i :: at <= i < at + n ==> !IsQuote(s[i])
  {
    var n := Run(ValueChar, s[at..]);
    if n >= 6 && at + n < |s| && s[at + n] == s[at - 1] then n else 0
  }

  predicate AllX(v: string) {
    v != "" && forall i :: 0 <= i < |v| ==> Fold(v[i]) == 'x'
  }

  predicate RedactedMark(v: string) {
    || SameFolded(v, "redacted") || SameFolded(v, "[redacted]")
    || (|v| >= 12 && FoldedPrefix(v, "[redacted:") && v[|v| - 1] == ']'
        && forall i :: 10 <= i < |v| - 1 ==> IsLetter(v[i]) || v[i] == '_' || IsExtraLetter(v[i]))
  }

  predicate Placeholder(v: string) {
    || AllX(v)
    || (|v| >= 2 && v[0] == '<' && v[|v| - 1] == '>')
    || (v != "" && v[0] == '$')
    || SameFolded(v, "changeme")
    || SameFolded(v, "change-me") || SameFolded(v, "change_me") || SameFolded(v, "change me")
    || SameFolded(v, "example") || SameFolded(v, "example.com")
    || FoldedPrefix(v, "your-") || FoldedPrefix(v, "your_") || FoldedPrefix(v, "your ")
    || SameFolded(v, "placeholder") || RedactedMark(v)
    || SameFolded(v, "todo") || SameFolded(v, "none") || SameFolded(v, "null")
  }

  // ----- substitution as an edit script

  datatype Edit = Keep(c: char) | Cut(old_: string, mark: string)

  type Script = seq<Edit>

  function Before(script: Script): string {
    if script == [] then ""
    else (match script[0] case Keep(c) => [c] case Cut(old_, _) => old_) + Before(script[1..])
  }

  function After(script: Script): string {
    if script == [] then ""
    else (match script[0] case Keep(c) => [c] case Cut(_, mark) => mark) + After(script[1..])
  }

  function Cuts(script: Script): nat {
    if script == [] then 0 else (if script[0].Cut? then 1 else 0) + Cuts(script[1..])
  }

  function Kept(s: string): Script {
    if s == "" then [] else [Keep(s[0])] + Kept(s[1..])
  }

  function Mark(p: Pattern): string {
    match p
    case Block => "[REDACTED:private_key]\n"
    case Header => "[REDACTED:private_key]"
    case Token => "[REDACTED:harness_token]"
    case SkKey => "[REDACTED:sk_key]"
  }

  function Substitute(p: Pattern, afterHex: bool, s: string): Script
    decreases |s|
  {
    if s == "" then []
    else
      var n := MatchLen(p, afterHex, s);
      if n > 0 then [Cut(s[..n], Mark(p))] + Substitute(p, Is(Hex, s[n - 1]), s[n..])
      else [Keep(s[0])] + Substitute(p, Is(Hex, s[0]), s[1..])
  }

  function CredentialMark(): string {
    "[REDACTED:credential]"
  }

  function SubstituteCredentials(s: string): Script
    decreases |s|
  {
    if s == "" then []
    else if CredHead(s) > 0 && CredValue(s, CredHead(s)) > 0 then
      var at := CredHead(s);
      var end := at + CredValue(s, at);
      (if Placeholder(s[at..end]) then Kept(s[..end])
       else Kept(s[..at]) + [Cut(s[at..end], CredentialMark())])
      + [Keep(s[end])] + SubstituteCredentials(s[end + 1..])
    else [Keep(s[0])] + SubstituteCredentials(s[1..])
  }

  function Pass(p: Pattern, text: string): string {
    After(Substitute(p, false, text))
  }

  function PassCount(p: Pattern, text: string): nat {
    Cuts(Substitute(p, false, text))
  }

  datatype Counts = Counts(privateKey: nat, harnessToken: nat, skKey: nat, credential: nat)

  // The text after each of the first four passes.

  function WithoutBlocks(text: string): string {
    Pass(Block, text)
  }

  function WithoutHeaders(text: string): string {
    Pass(Header, WithoutBlocks(text))
  }

  function WithoutTokens(text: string): string {
    Pass(Token, WithoutHeaders(text))
  }

  function WithoutKeys(text: string): string {
    Pass(SkKey, WithoutTokens(text))
  }

  function Redacted(text: string): string {
    After(SubstituteCredentials(WithoutKeys(text)))
  }

  function Counted(text: string): Counts {
    Counts(PassCount(Block, text) + PassCount(Header, WithoutBlocks(text)), PassCount(Token, WithoutHeaders(text)),
           PassCount(SkKey, WithoutTokens(text)), Cuts(SubstituteCredentials(WithoutKeys(text))))
  }

  method RedactBody(text: string) returns (redacted: string, counts: Counts)
    ensures redacted == Redacted(text) && counts == Counted(text)
  {
    hide Pass, PassCount, SubstituteCredentials;
    var n := PassCount(Block, text);
    redacted := Pass(Block, text);
    counts := Counts(n, 0, 0, 0);
    n := PassCount(Header, redacted);
    redacted := Pass(Header, redacted);
    counts := counts.(privateKey := counts.privateKey + n);
    counts := counts.(harnessToken := PassCount(Token, redacted));
    redacted := Pass(Token, redacted);
    counts := counts.(skKey := PassCount(SkKey, redacted));
    redacted := Pass(SkKey, redacted);
    var script := SubstituteCredentials(redacted);
    counts := counts.(credential := Cuts(script));
    redacted := After(script);
  }

  // ----- the second scan

  /** How often `findall` finds the pattern. */
  function Occurrences(p: Pattern, afterHex: bool, s: string): nat
    decreases |s|
  {
    if s == "" then 0
    else
      var n := MatchLen(p, afterHex, s);
      if n > 0 then 1 + Occurrences(p, Is(Hex, s[n - 1]), s[n..]) else Occurrences(p, Is(Hex, s[0]), s[1..])
  }

  /** How many credential matches hold something else than a placeholder. */
  function LiveCredentials(s: string): nat
    decreases |s|
  {
    if s == "" then 0
    else if CredHead(s) > 0 && CredValue(s, CredHead(s)) > 0 then
      var end := CredHead(s) + CredValue(s, CredHead(s));
      (if Placeholder(s[CredHead(s)..end]) then 0 else 1) + LiveCredentials(s[end + 1..])
    else LiveCredentials(s[1..])
  }

  function Finding(kind: string, n: nat): seq<(string, nat)> {
    if n > 0 then [(kind, n)] else []
  }

  function ScanForSecrets(text: string): seq<(string, nat)> {
    Finding("private_key", Occurrences(Header, false, text)) + Finding("harness_token", Occurrences(Token, false, text))
    + Finding("sk_key", Occurrences(SkKey, false, text)) + Finding("credential", LiveCredentials(text))
  }
}
