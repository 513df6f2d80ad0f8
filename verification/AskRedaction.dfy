/** "The value is never in the message" (src/lh_harness/ask_store.py): what the redaction of a failure text
    hides, and that a failed apply does not show the secret it was to write. */
module AskRedaction {
  import opened Common
  import opened AskRecords

  predicate At(s: string, i: nat, v: string) {
    i + |v| <= |s| && s[i..i + |v|] == v
  }

  ghost predicate Holds(s: string, v: string) {
    exists i: nat :: At(s, i, v)
  }

  /** A secret without blanks and square brackets. */
  predicate Solid(v: string) {
    v != "" && forall i :: 0 <= i < |v| ==> !IsSpace(v[i]) && v[i] != '[' && v[i] != ']'
  }

  // ----- parts of a text

  lemma HoldsStep(s: string, v: string)
    requires s != ""
    ensures Holds(s, v) <==> v <= s || Holds(s[1..], v)
  {
    if i: nat :| At(s, i, v) {
      if i > 0 {
        var j: nat := i - 1;
        assert s[1..][j..j + |v|] == s[i..i + |v|];
        assert At(s[1..], j, v);
      }
    }
    if v <= s { assert At(s, 0, v); }
    if i: nat :| At(s[1..], i, v) {
      assert s[1..][i..i + |v|] == s[i + 1..i + 1 + |v|];
      assert At(s, i + 1, v);
    }
  }

  lemma EmptyHolds(v: string)
    requires v != ""
    ensures !Holds("", v)
  {
  }

  lemma PartHolds(s: string, a: nat, b: nat, v: string)
    requires a <= b <= |s| && Holds(s[a..b], v)
    ensures Holds(s, v)
  {
    var p := s[a..b];
    var i: nat :| At(p, i, v);
    var j: nat := a + i;
    assert forall k {:trigger p[k]} :: i <= k < i + |v| ==> p[k] == s[a + k];
    assert p[i..i + |v|] == s[j..j + |v|];
    assert At(s, j, v);
  }

  lemma {:induction false} LStripPart(s: string, v: string)
    requires Holds(LStrip(s), v)
    ensures Holds(s, v)
  {
    if s != "" && IsSpace(s[0]) {
      LStripPart(s[1..], v);
      HoldsStep(s, v);
    }
  }

  lemma {:induction false} RStripPart(s: string, v: string)
    requires Holds(RStrip(s), v)
    ensures Holds(s, v)
  {
    if s != "" && IsSpace(s[|s| - 1]) {
      RStripPart(s[..|s| - 1], v);
      assert s[..|s| - 1] == s[0..|s| - 1];
      PartHolds(s, 0, |s| - 1, v);
    }
  }

  lemma StripPart(s: string, v: string)
    requires Holds(Strip(s), v)
    ensures Holds(s, v)
  {
    hide Holds, LStrip, RStrip;
    RStripPart(LStrip(s), v);
    LStripPart(s, v);
  }

  lemma CharsOf(s: string, i: nat, v: string, k: nat)
    requires At(s, i, v) && i <= k < i + |v|
    ensures s[k] in v
  {
    assert s[i..i + |v|][k - i] == s[k];
  }

  /** What separates two parts is in no value that lacks it. */
  lemma HoldsAcross(a: string, c: char, b: string, v: string)
    requires c !in v && Holds(a + [c] + b, v)
    ensures Holds(a, v) || Holds(b, v)
  {
    var s := a + [c] + b;
    var i: nat :| At(s, i, v);
    assert !(i <= |a| < i + |v|) by { if i <= |a| < i + |v| { CharsOf(s, i, v, |a|); } }
    if i + |v| <= |a| {
      assert s[i..i + |v|] == a[i..i + |v|];
      assert At(a, i, v);
    } else {
      var j: nat := i - |a| - 1;
      assert s[i..i + |v|] == b[j..j + |v|];
      assert At(b, j, v);
    }
  }

  lemma TooShort(s: string, v: string)
    requires |s| < |v|
    ensures !Holds(s, v)
  {
  }

  // ----- the replacement

  const MARK := "[redacted]"

  /** Up to the first mark the output repeats the input. */
  lemma {:induction false} ReplacePrefix(s: string, v: string, n: nat)
    requires v != "" && n <= |ReplaceAll(s, v, MARK)| && '[' !in ReplaceAll(s, v, MARK)[..n]
    ensures n <= |s| && s[..n] == ReplaceAll(s, v, MARK)[..n]
    decreases |s|
  {
    var out := ReplaceAll(s, v, MARK);
    if n > 0 {
      assert out[0] in out[..n];
      if !(v <= s) {
        var rest := ReplaceAll(s[1..], v, MARK);
        assert out[1..n] == rest[..n - 1];
        assert forall c :: c in rest[..n - 1] ==> c in out[..n];
        ReplacePrefix(s[1..], v, n - 1);
        assert s[..n] == [s[0]] + s[1..][..n - 1] && out[..n] == [s[0]] + rest[..n - 1];
      }
    }
  }

  lemma NoBracketInPrefix(v: string, out: string)
    requires Solid(v) && v <= out
    ensures '[' !in out[..|v|]
  {
    assert out[..|v|] == v;
  }

  /** No solid value starts inside a mark unless it is part of the word between the brackets. */
  lemma {:induction false} MarkHides(k: nat, rest: string, v: string)
    requires k <= 10 && Solid(v) && !Holds("redacted", v) && !Holds(rest, v)
    ensures !Holds(MARK[k..] + rest, v)
    decreases 10 - k
  {
    var s := MARK[k..] + rest;
    if k == 10 {
      assert s == rest;
    } else {
      MarkHides(k + 1, rest, v);
      assert s[1..] == MARK[k + 1..] + rest;
      HoldsStep(s, v);
      if v <= s { InMark(k, rest, v); }
    }
  }

  lemma InMark(k: nat, rest: string, v: string)
    requires k < 10 && Solid(v) && v <= MARK[k..] + rest
    ensures Holds("redacted", v)
  {
    var s := MARK[k..] + rest;
    assert s[9 - k] == MARK[9] == ']' && s[0] == MARK[k];
    assert forall j :: 0 <= j < |v| ==> v[j] == s[j];
    assert |v| <= 9 - k;
    assert MARK[1..9] == "redacted";
    assert v == MARK[k..k + |v|] == "redacted"[k - 1..k - 1 + |v|];
    assert At("redacted", k - 1, v);
  }

  lemma {:induction false} ReplaceHides(s: string, v: string)
    requires Solid(v) && !Holds("redacted", v)
    ensures !Holds(ReplaceAll(s, v, MARK), v)
    decreases |s|
  {
    hide Holds;
    var out := ReplaceAll(s, v, MARK);
    if s == "" {
      EmptyHolds(v);
    } else if v <= s {
      ReplaceHides(s[|v|..], v);
      MarkHides(0, ReplaceAll(s[|v|..], v, MARK), v);
      assert MARK[0..] == MARK;
    } else {
      ReplaceHides(s[1..], v);
      assert out[1..] == ReplaceAll(s[1..], v, MARK);
      HoldsStep(out, v);
      if v <= out {
        NoBracketInPrefix(v, out);
        ReplacePrefix(s, v, |v|);
      }
    }
  }

  // ----- blanks

  lemma {:induction false} CollapsePrefix(s: string, n: nat)
    requires n <= |Collapse(s)| && forall i :: 0 <= i < n ==> !IsSpace(Collapse(s)[i])
    ensures n <= |s| && s[..n] == Collapse(s)[..n]
  {
    hide IsSpace;
    var out := Collapse(s);
    if n > 0 {
      if IsSpace(s[0]) {
        CollapsesToSpace(s);
      } else {
        var rest := Collapse(s[1..]);
        assert forall i :: 0 <= i < n - 1 ==> rest[i] == out[i + 1];
        CollapsePrefix(s[1..], n - 1);
        assert s[..n] == [s[0]] + s[1..][..n - 1] && out[..n] == [s[0]] + rest[..n - 1];
      }
    }
  }

  lemma {:induction false} CollapsesToSpace(s: string)
    requires s != "" && IsSpace(s[0])
    ensures Collapse(s) != "" && IsSpace(Collapse(s)[0])
  {
    if |s| > 1 && IsSpace(s[1]) { CollapsesToSpace(s[1..]); }
  }

  lemma {:induction false} CollapseHides(s: string, v: string)
    requires Solid(v) && Holds(Collapse(s), v)
    ensures Holds(s, v)
  {
    hide Holds, IsSpace;
    if s == "" {
      EmptyHolds(v);
    } else {
      var out := Collapse(s);
      EmptyHolds(v);
      HoldsStep(s, v);
      if v <= out {
        CollapsePrefix(s, |v|);
      } else {
        HoldsStep(out, v);
        var rest := Collapse(s[1..]);
        assert out == rest || out[1..] == rest;
        CollapseHides(s[1..], v);
      }
    }
  }

  /** Redacting for another value, or for none, brings no solid value in. */
  lemma RedactAddsNone(text: string, v: string)
    requires Solid(v) && Holds(Redact(text, ""), v)
    ensures Holds(text, v)
  {
    hide Holds, Strip, Collapse;
    Shortened(text, text, v);
  }

  lemma Shortened(text: string, replaced: string, v: string)
    requires Solid(v)
    requires var c := Strip(Collapse(Strip(replaced))); Holds(if |c| <= 300 then c else c[..300], v)
    ensures Holds(replaced, v)
  {
    hide Holds, Strip, Collapse;
    var c := Strip(Collapse(Strip(replaced)));
    if |c| > 300 {
      assert c[..300] == c[0..300];
      PartHolds(c, 0, 300, v);
    }
    StripPart(Collapse(Strip(replaced)), v);
    CollapseHides(Strip(replaced), v);
    StripPart(replaced, v);
  }

  lemma NotEmpty(v: string)
    requires Solid(v)
    ensures v != ""
  {
  }

  lemma RedactHides(text: string, v: string)
    requires Solid(v) && !Holds("redacted", v)
    ensures !Holds(Redact(text, v), v)
  {
    hide Holds, Strip, Collapse, ReplaceAll, Solid;
    NotEmpty(v);
    var replaced := ReplaceAll(Strip(text), v, MARK);
    ReplaceHides(Strip(text), v);
    var c := Strip(Collapse(replaced));
    if Holds(Redact(text, v), v) {
      if |c| > 300 {
        assert c[..300] == c[0..300];
        PartHolds(c, 0, 300, v);
      }
      StripPart(Collapse(replaced), v);
      CollapseHides(replaced, v);
    }
  }

  /** The redaction hides a solid value in every text exactly when the value is no part of the word it writes
      instead. */
  lemma RedactHidesIff(v: string)
    requires Solid(v)
    ensures (forall text: string :: !Holds(Redact(text, v), v)) <==> !Holds("redacted", v)
  {
    hide Holds, Solid, Redact;
    if Holds("redacted", v) {
      RedactedItself(v);
    } else {
      forall text: string ensures !Holds(Redact(text, v), v) { RedactHides(text, v); }
    }
  }

  lemma RedactedItself(v: string)
    requires Solid(v) && Holds("redacted", v)
    ensures Redact(v, v) == MARK && Holds(Redact(v, v), v)
  {
    hide Holds;
    assert Strip(v) == v && ReplaceAll("", v, MARK) == "" && v[|v|..] == "";
    assert ReplaceAll(v, v, MARK) == MARK;
    NoSpaceNoChange(MARK);
    assert MARK[1..9] == "redacted";
    PartHolds(MARK, 1, 9, v);
  }

  lemma {:induction false} NoSpaceNoChange(s: string)
    requires forall i :: 0 <= i < |s| ==> !IsSpace(s[i])
    ensures Collapse(s) == s && Strip(s) == s
  {
    hide IsSpace;
    if s != "" { NoSpaceNoChange(s[1..]); }
  }

  /** A short text on one line without the value is shown as it is. */
  lemma RedactKeeps(text: string, v: string)
    requires |text| <= 300 && (text != "" ==> !IsSpace(text[0]) && !IsSpace(text[|text| - 1]))
    requires forall i :: 0 <= i < |text| && IsSpace(text[i]) ==>
               text[i] == ' ' && (i + 1 < |text| ==> !IsSpace(text[i + 1]))
    requires v == "" || !Holds(text, v)
    ensures Redact(text, v) == text
  {
    hide Holds, IsSpace;
    if v != "" { NothingReplaced(text, v); }
    SingleSpaced(text);
  }

  lemma {:induction false} NothingReplaced(s: string, v: string)
    requires v != "" && !Holds(s, v)
    ensures ReplaceAll(s, v, MARK) == s
  {
    hide Holds;
    if s != "" {
      HoldsStep(s, v);
      NothingReplaced(s[1..], v);
    }
  }

  lemma {:induction false} SingleSpaced(s: string)
    requires forall i :: 0 <= i < |s| && IsSpace(s[i]) ==> s[i] == ' ' && (i + 1 < |s| ==> !IsSpace(s[i + 1]))
    ensures Collapse(s) == s
  {
    hide IsSpace;
    if s != "" { SingleSpaced(s[1..]); }
  }

  // ----- a failed apply

  predicate WordChar(c: char) {
    'a' <= c <= 'z' || 'A' <= c <= 'Z' || '0' <= c <= '9' || c == '_'
  }

  /** What the format of the one apply target has of a value: word characters, 24 or more. */
  predicate TokenLike(v: string) {
    |v| >= 24 && forall i :: 0 <= i < |v| ==> WordChar(v[i])
  }

  lemma TokenIsSolid(v: string)
    requires TokenLike(v)
    ensures Solid(v) && !Holds("redacted", v)
    ensures |v| >= 24 && ' ' !in v && ':' !in v
  {
    TooShort("redacted", v);
  }

  /** Three characters that the value lacks, never more than 24 apart. */
  lemma SpacedHides(s: string, v: string, i: nat, j: nat, k: nat)
    requires i < 24 && i <= j <= i + 24 && j <= k <= j + 24 && k < |s| <= k + 24 && |v| >= 24
    requires s[i] !in v && s[j] !in v && s[k] !in v
    ensures !Holds(s, v)
  {
    forall x: nat, p: nat | At(s, x, v) ensures !(x <= p < x + |v| && s[p] !in v) {
      if x <= p < x + |v| { CharsOf(s, x, v, p); }
    }
  }

  lemma NoTargetHides(v: string)
    requires |v| >= 24 && ' ' !in v
    ensures !Holds(Reason(NoTarget), v)
  {
    hide Holds;
    var s := Reason(NoTarget);
    assert |s| == 59 && s[15] == ' ' && s[28] == ' ' && s[45] == ' ';
    SpacedHides(s, v, 15, 28, 45);
  }

  lemma TargetDiffersHides(v: string)
    requires |v| >= 24 && ' ' !in v
    ensures !Holds(Reason(TargetDiffers), v)
  {
    hide Holds;
    var s := Reason(TargetDiffers);
    assert |s| == 67 && s[19] == ' ' && s[41] == ' ' && s[53] == ' ';
    SpacedHides(s, v, 19, 41, 53);
  }

  lemma ReasonHides(refusal: VaultRefusal, v: string)
    requires |v| >= 24 && ' ' !in v && (refusal.WriteFailed? ==> !Holds(refusal.text, v))
    ensures !Holds(Reason(refusal), v)
  {
    hide Holds;
    match refusal
    case WriteFailed(text) => assert Reason(refusal) == text;
    case NothingSealed => SpacedHides(Reason(refusal), v, 9, 16, 16);
    case NoTarget => NoTargetHides(v);
    case TargetDiffers => TargetDiffersHides(v);
    case ValueFormat => SpacedHides(Reason(refusal), v, 18, 28, 37);
  }

  lemma MessageHides(reason: string, v: string)
    requires |v| >= 24 && ' ' !in v && ':' !in v && !Holds(reason, v)
    ensures !Holds("apply failed: " + "ct202-mcp-tools-env:GITHUB_MCP_TOKEN" + " " + reason, v)
  {
    hide Holds;
    var front := "apply failed: " + "ct202-mcp-tools-env:GITHUB_MCP_TOKEN";
    SpacedHides(front, v, 13, 33, 33);
    if Holds(front + " " + reason, v) { HoldsAcross(front, ' ', reason, v); }
  }

  lemma RefusalHides(vault: Vault, field: string, target: string, write: WriteVerdict)
    requires field in vault && TokenLike(vault[field].value) && VaultApply(vault, field, target, write).1.Some?
    ensures !Holds(Redact(Reason(VaultApply(vault, field, target, write).1.value), ""), vault[field].value)
  {
    hide Redact, Holds, TokenLike, Solid, Reason;
    var v, refusal := vault[field].value, VaultApply(vault, field, target, write).1.value;
    TokenIsSolid(v);
    if write.Failed? { RedactHides(write.raw, v); }
    ReasonHides(refusal, v);
    if Holds(Redact(Reason(refusal), ""), v) { RedactAddsNone(Reason(refusal), v); }
  }

  /** A failed apply leaves a message, and a reason in the history, without the secret, whatever the writer
      reported. */
  lemma ApplyNeverShowsTheValue(slot: Slot, field: string, target: string, actor: string, at: string, env: Env)
    requires field in slot.vault && TokenLike(slot.vault[field].value)
    requires ApplySecret(slot, field, target, actor, at, env).1.Refused?
    requires ApplySecret(slot, field, target, actor, at, env).1.error.ApplyFailed?
    ensures var r, v := ApplySecret(slot, field, target, actor, at, env), slot.vault[field].value;
            && !Holds(r.1.error.text, v) && r.0.record.Some? && r.0.record.value.history != []
            && !Holds(r.0.record.value.history[|r.0.record.value.history| - 1].reason, v)
  {
    hide Redact, Reason, Holds, TokenLike, EffectiveFields, Strip, Find, IsSecret, TargetOf, VaultApply;
    var v := slot.vault[field].value;
    var refusal := VaultApply(slot.vault, field, target, env.write).1;
    TokenIsSolid(v);
    RefusalHides(slot.vault, field, target, env.write);
    MessageHides(Redact(Reason(refusal.value), ""), v);
  }
}
