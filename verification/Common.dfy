/** Small vocabulary shared by the component models. */
module Common {

  datatype Option<+T> = None | Some(value: T)

  /** The value a call returned, or the exception it raised. */
  datatype Outcome<+T, +E> = Ok(value: T) | Raised(error: E)

  /** Python's whitespace: what `str.strip` removes and `\s` matches. */
  predicate IsSpace(c: char) {
    || '\U{9}' <= c <= '\U{d}' || '\U{1c}' <= c <= '\U{20}' || c == '\U{85}' || c == '\U{a0}' || c == '\U{1680}'
    || '\U{2000}' <= c <= '\U{200a}' || c == '\U{2028}' || c == '\U{2029}' || c == '\U{202f}' || c == '\U{205f}'
    || c == '\U{3000}'
  }

  /** Case folding as the IGNORECASE flag applies it to ASCII letters in a pattern: four letters outside
      ASCII fold to `i`, `s` and `k` as well. */
  function Fold(c: char): char {
    if 'A' <= c <= 'Z' then c - 'A' + 'a'
    else if c == '\U{130}' || c == '\U{131}' then 'i'
    else if c == '\U{17f}' then 's'
    else if c == '\U{212a}' then 'k'
    else c
  }

  predicate SameFolded(s: string, lower: string) {
    |s| == |lower| && forall i :: 0 <= i < |s| ==> Fold(s[i]) == lower[i]
  }

  predicate FoldedPrefix(s: string, prefix: string) {
    |prefix| <= |s| && SameFolded(s[..|prefix|], prefix)
  }

  predicate Blank(s: string) {
    forall i :: 0 <= i < |s| ==> IsSpace(s[i])
  }

  function LStrip(s: string): string {
    if s != "" && IsSpace(s[0]) then LStrip(s[1..]) else s
  }

  function RStrip(s: string): string {
    if s != "" && IsSpace(s[|s| - 1]) then RStrip(s[..|s| - 1]) else s
  }

  function Strip(s: string): string {
    RStrip(LStrip(s))
  }

  /** No blank at either end. */
  predicate Trimmed(s: string) {
    s != "" ==> !IsSpace(s[0]) && !IsSpace(s[|s| - 1])
  }

  /** `Strip` is what stands between the blanks at both ends, and nothing else is. */
  lemma StripIff(s: string, inner: string)
    ensures Strip(s) == inner <==>
            Trimmed(inner)
            && exists front: string, back: string :: Blank(front) && Blank(back) && s == front + inner + back
  {
    hide IsSpace, Blank;
    var front, back := StripParts(s);
    forall f: string, b: string | Blank(f) && Blank(b) && s == f + inner + b && Trimmed(inner)
      ensures Strip(s) == inner
    {
      StripIsInner(f, inner, b);
    }
  }

  lemma StripParts(s: string) returns (front: string, back: string)
    ensures Blank(front) && Blank(back) && s == front + Strip(s) + back && Trimmed(Strip(s))
  {
    front := LStripFront(s);
    back := RStripBack(LStrip(s));
    assert s == front + (Strip(s) + back);
  }

  lemma {:induction false} LStripFront(s: string) returns (front: string)
    ensures Blank(front) && s == front + LStrip(s) && (LStrip(s) != "" ==> !IsSpace(LStrip(s)[0]))
  {
    hide IsSpace;
    front := "";
    if s != "" && IsSpace(s[0]) {
      var rest := LStripFront(s[1..]);
      front := [s[0]] + rest;
      assert s == [s[0]] + s[1..];
    }
  }

  lemma {:induction false} RStripBack(s: string) returns (back: string)
    ensures Blank(back) && s == RStrip(s) + back && (RStrip(s) != "" ==> !IsSpace(RStrip(s)[|RStrip(s)| - 1]))
  {
    hide IsSpace;
    back := "";
    if s != "" && IsSpace(s[|s| - 1]) {
      var rest := RStripBack(s[..|s| - 1]);
      back := rest + [s[|s| - 1]];
      assert s == s[..|s| - 1] + [s[|s| - 1]];
    }
  }

  lemma StripIsInner(front: string, inner: string, back: string)
    requires Blank(front) && Blank(back) && Trimmed(inner)
    ensures Strip(front + inner + back) == inner
  {
    hide IsSpace, Blank;
    assert front + inner + back == front + (inner + back);
    LStripsFront(front, inner + back);
    if inner == "" {
      assert inner + back == back;
      BlankIsStripped(back);
    } else {
      assert (inner + back)[0] == inner[0];
      RStripsBack(inner, back);
    }
  }

  lemma {:induction false} LStripsFront(front: string, rest: string)
    requires Blank(front)
    ensures LStrip(front + rest) == LStrip(rest)
  {
    hide IsSpace;
    if front == "" {
      assert front + rest == rest;
    } else {
      LStripsFront(front[1..], rest);
      assert (front + rest)[1..] == front[1..] + rest;
    }
  }

  lemma {:induction false} RStripsBack(inner: string, back: string)
    requires Blank(back) && (inner != "" ==> !IsSpace(inner[|inner| - 1]))
    ensures RStrip(inner + back) == inner
  {
    hide IsSpace;
    if back == "" {
      assert inner + back == inner;
    } else {
      RStripsBack(inner, back[..|back| - 1]);
      assert (inner + back)[..|inner + back| - 1] == inner + back[..|back| - 1];
    }
  }

  lemma {:induction false} BlankIsStripped(s: string)
    requires Blank(s)
    ensures LStrip(s) == ""
  {
    hide IsSpace;
    if s != "" { BlankIsStripped(s[1..]); }
  }

  /** What follows the last '/'. */
  function LastSegment(s: string): string {
    if s == "" || s[|s| - 1] == '/' then "" else LastSegment(s[..|s| - 1]) + [s[|s| - 1]]
  }

  /** The last `k` elements, or all when there are fewer. */
  function LastOf<T>(s: seq<T>, k: nat): seq<T> {
    if |s| <= k then s else s[|s| - k..]
  }

  lemma {:induction false} SubsetSize<T>(a: set<T>, b: set<T>)
    requires a <= b
    ensures |a| <= |b|
    decreases a
  {
    if a != {} {
      var x :| x in a;
      SubsetSize(a - {x}, b - {x});
    }
  }
}
