/** Every printed line is read back as the line it shows. */
module TomlLines {
  import opened Common
  import opened TomlWrite
  import opened TomlRead

  // ----- scalars

  predicate Printable(v: Scalar) {
    v.Str? ==> forall i :: 0 <= i < |v.s| ==> !IsControl(v.s[i])
  }

  function EscapedChar(c: char): string {
    if c == '\\' then "\\\\" else if c == '"' then "\\\"" else [c]
  }

  lemma ReplaceFirst(ch: char, s: string, c: char, by_: string)
    ensures ReplaceChar([ch] + s, c, by_) == (if ch == c then by_ else [ch]) + ReplaceChar(s, c, by_)
  {
    assert ([ch] + s)[1..] == s;
  }

  lemma {:induction false} ReplaceConcat(s: string, t: string, c: char, by_: string)
    ensures ReplaceChar(s + t, c, by_) == ReplaceChar(s, c, by_) + ReplaceChar(t, c, by_)
  {
    hide ReplaceChar;
    if s == "" {
      assert s + t == t;
      assert ReplaceChar("", c, by_) == "" by { ReplaceNothing(c, by_); }
    } else {
      ReplaceConcat(s[1..], t, c, by_);
      assert s + t == [s[0]] + (s[1..] + t) && s == [s[0]] + s[1..];
      ReplaceFirst(s[0], s[1..] + t, c, by_);
      ReplaceFirst(s[0], s[1..], c, by_);
    }
  }

  lemma ReplaceNothing(c: char, by_: string)
    ensures ReplaceChar("", c, by_) == ""
  {
  }

  /** The two replacements in a row escape one character at a time. */
  lemma EscapedCons(s: string)
    requires s != ""
    ensures Escaped(s) == EscapedChar(s[0]) + Escaped(s[1..])
  {
    var head := if s[0] == '\\' then "\\\\" else [s[0]];
    ReplaceConcat(head, ReplaceChar(s[1..], '\\', "\\\\"), '"', "\\\"");
    assert head[1..] == if s[0] == '\\' then "\\" else "";
    assert ReplaceChar(head, '"', "\\\"") == EscapedChar(s[0]) by {
      if s[0] == '\\' { assert "\\"[1..] == ""; }
    }
  }

  lemma {:induction false} StringIsReadBack(s: string, rest: string)
    requires forall i :: 0 <= i < |s| ==> !IsControl(s[i])
    ensures ReadString(Escaped(s) + "\"" + rest) == Some((s, rest))
  {
    var text := Escaped(s) + "\"" + rest;
    if s == "" {
      assert text == "\"" + rest;
    } else {
      EscapedCons(s);
      StringIsReadBack(s[1..], rest);
      var tail := Escaped(s[1..]) + "\"" + rest;
      assert text == EscapedChar(s[0]) + tail;
      assert text[|EscapedChar(s[0])|..] == tail;
      assert s == [s[0]] + s[1..];
    }
  }

  lemma {:induction false} DigitsAreReadBack(n: nat)
    ensures NatOf(Digits(n)) == n
  {
    if n >= 10 {
      DigitsAreReadBack(n / 10);
      assert Digits(n)[..|Digits(n)| - 1] == Digits(n / 10);
    } else {
      assert Digits(n)[..0] == "";
    }
  }

  lemma DigitRunOf(digits: string, rest: string)
    requires (forall i :: 0 <= i < |digits| ==> IsDigit(digits[i])) && (rest != "" ==> !IsDigit(rest[0]))
    ensures DigitRun(digits + rest) == |digits| && (digits + rest)[..|digits|] == digits
            && (digits + rest)[|digits|..] == rest
  {
    var s := digits + rest;
    assert forall i :: 0 <= i < |digits| ==> s[i] == digits[i];
    if rest != "" { assert s[|digits|] == rest[0]; }
  }

  lemma BoolIsReadBack(b: bool, rest: string)
    ensures ReadScalar(FmtScalar(Bool(b)) + rest) == Some((Bool(b), rest))
  {
    var text := FmtScalar(Bool(b)) + rest;
    if b {
      assert "true" <= text && text[4..] == rest;
    } else {
      assert text[0] == 'f' && text[5..] == rest && "false" <= text;
    }
  }

  lemma StrIsReadBack(s: string, rest: string)
    requires Printable(Str(s))
    ensures ReadScalar(FmtScalar(Str(s)) + rest) == Some((Str(s), rest))
  {
    hide Escaped, ReadString;
    var text := FmtScalar(Str(s)) + rest;
    StringIsReadBack(s, rest);
    assert text[0] == '"' && text[1..] == Escaped(s) + "\"" + rest;
  }

  lemma ReadNegative(s: string)
    requires DigitRun(s) > 0
    ensures ReadScalar(['-'] + s) == Some((Int(-(NatOf(s[..DigitRun(s)]) as int)), s[DigitRun(s)..]))
  {
    hide NatOf, ReadString, DigitRun;
    var text := ['-'] + s;
    assert text[0] == '-' && text[1..] == s;
  }

  lemma ReadNatural(s: string)
    requires DigitRun(s) > 0
    ensures ReadScalar(s) == Some((Int(NatOf(s[..DigitRun(s)])), s[DigitRun(s)..]))
  {
    hide NatOf, ReadString;
    assert IsDigit(s[0]);
  }

  lemma IntIsReadBack(n: int, rest: string)
    requires rest != "" ==> !IsDigit(rest[0])
    ensures ReadScalar(FmtScalar(Int(n)) + rest) == Some((Int(n), rest))
  {
    hide Digits, NatOf, ReadScalar, DigitRun;
    var digits := Digits(if n < 0 then -n else n);
    DigitsAreReadBack(if n < 0 then -n else n);
    DigitRunOf(digits, rest);
    if n < 0 {
      ReadNegative(digits + rest);
      assert FmtScalar(Int(n)) + rest == ['-'] + (digits + rest);
    } else {
      ReadNatural(digits + rest);
    }
  }

  lemma ScalarIsReadBack(v: Scalar, rest: string)
    requires Printable(v) && (rest != "" ==> !IsDigit(rest[0]))
    ensures ReadScalar(FmtScalar(v) + rest) == Some((v, rest))
  {
    hide ReadScalar, FmtScalar;
    match v
    case Bool(b) => BoolIsReadBack(b, rest);
    case Int(n) => IntIsReadBack(n, rest);
    case Str(s) => StrIsReadBack(s, rest);
  }

  // ----- values

  predicate PrintableValue(v: Value)
    requires !v.Table?
  {
    match v
    case One(scalar) => Printable(scalar)
    case Many(items) => forall i :: 0 <= i < |items| ==> Printable(items[i])
  }

  lemma {:induction false} ItemsAreReadBack(items: seq<Scalar>)
    requires items != [] && forall i :: 0 <= i < |items| ==> Printable(items[i])
    ensures ReadItems(FmtItems(items) + "]") == Some((items, ""))
    decreases |items|
  {
    hide FmtScalar, Printable, ReadScalar;
    var text := FmtItems(items) + "]";
    if |items| == 1 {
      ScalarIsReadBack(items[0], "]");
      assert items == [items[0]] && text == FmtScalar(items[0]) + "]" && "]"[1..] == "";
    } else {
      var more := FmtItems(items[1..]) + "]";
      assert text == FmtScalar(items[0]) + (", " + more);
      ScalarIsReadBack(items[0], ", " + more);
      assert (", " + more)[2..] == more;
      ItemsAreReadBack(items[1..]);
      assert items == [items[0]] + items[1..];
    }
  }

  lemma ScalarStart(v: Scalar)
    ensures FmtScalar(v) != "" && FmtScalar(v)[0] != '[' && FmtScalar(v)[0] != ']'
    ensures var s := FmtScalar(v); s[|s| - 1] != ' ' && !IsSpace(s[|s| - 1])
  {
    match v
    case Bool(b) => assert "true"[3] == 'e' && "false"[4] == 'e';
    case Int(n) =>
    case Str(s) =>
  }

  lemma ValueIsReadBack(v: Value)
    requires !v.Table? && PrintableValue(v)
    ensures ReadValue(FmtValue(v)) == Some(v)
  {
    hide FmtScalar, ReadScalar, Printable, ReadItems, FmtItems;
    match v
    case One(scalar) =>
      ScalarIsReadBack(scalar, "");
      ScalarStart(scalar);
      assert FmtScalar(scalar) + "" == FmtScalar(scalar);
    case Many(items) =>
      if items == [] {
        EmptyItems();
      } else {
        ItemsAreReadBack(items);
        ItemsStart(items);
        assert FmtValue(v)[1..] == FmtItems(items) + "]";
      }
  }

  lemma EmptyItems()
    ensures FmtValue(Many([])) == "[]"
  {
  }

  lemma ItemsStart(items: seq<Scalar>)
    requires items != []
    ensures FmtItems(items) != ""
  {
    ScalarStart(items[0]);
  }

  // ----- lines

  predicate BarePath(path: seq<string>) {
    path != [] && forall i :: 0 <= i < |path| ==> BareKey(path[i])
  }

  predicate GoodLine(line: Line) {
    match line
    case Header(path) => BarePath(path)
    case Entry(key, value) => BareKey(key) && !value.Table? && PrintableValue(value)
  }

  lemma {:induction false} SplitDotsOfKey(s: string, key: string)
    requires forall i :: 0 <= i < |key| ==> key[i] != '.'
    ensures var front := SplitDots(s); SplitDots(s + key) == front[..|front| - 1] + [front[|front| - 1] + key]
    decreases |key|
  {
    var front := SplitDots(s);
    if key == "" {
      assert s + key == s && front[|front| - 1] + key == front[|front| - 1];
    } else {
      var init, c := key[..|key| - 1], key[|key| - 1];
      SplitDotsOfKey(s, init);
      var all := s + key;
      assert all[..|all| - 1] == s + init && all[|all| - 1] == c;
      assert front[|front| - 1] + init + [c] == front[|front| - 1] + key;
    }
  }

  lemma SplitDotsOfDot(s: string)
    ensures SplitDots(s + ".") == SplitDots(s) + [""]
  {
    var all := s + ".";
    assert all[..|all| - 1] == s;
  }

  lemma {:induction false} PathIsReadBack(path: seq<string>)
    requires BarePath(path)
    ensures SplitDots(Dotted(path)) == path
    decreases |path|
  {
    hide SplitDots;
    var front, key := path[..|path| - 1], path[|path| - 1];
    assert path == front + [key] && "" + key == key;
    assert forall i :: 0 <= i < |key| ==> IsBare(key[i]);
    if |path| == 1 {
      SplitDotsOfNothing();
      SplitDotsOfKey("", key);
    } else {
      PathIsReadBack(front);
      SplitDotsOfDot(Dotted(front));
      SplitDotsOfKey(Dotted(front) + ".", key);
    }
  }

  lemma SplitDotsOfNothing()
    ensures SplitDots("") == [""]
  {
  }

  /** A header without the empty line in front of it. */
  function Bare(line: Line): string {
    match line
    case Header(path) => "[" + Dotted(path) + "]"
    case Entry(_, _) => Render(line)
  }

  lemma HeaderIsReadBack(path: seq<string>)
    requires BarePath(path)
    ensures ReadLine("[" + Dotted(path) + "]") == Some(Header(path))
  {
    hide Dotted, SplitDots, BareKey;
    PathIsReadBack(path);
    var s := "[" + Dotted(path) + "]";
    assert s[1..|s| - 1] == Dotted(path);
  }

  lemma EntryIsReadBack(key: string, value: Value)
    requires BareKey(key) && !value.Table? && PrintableValue(value)
    ensures ReadLine(key + " = " + FmtValue(value)) == Some(Entry(key, value))
  {
    hide FmtValue, ReadValue, PrintableValue;
    var s := key + " = " + FmtValue(value);
    ValueIsReadBack(value);
    assert s[..|key|] == key;
    assert forall i :: 0 <= i < |key| ==> s[i] == key[i];
    assert s[|key|] == ' ' && !IsBare(' ');
    assert s[|key|..] == " = " + FmtValue(value);
    assert s[|key| + 3..] == FmtValue(value);
    assert BareRun(s) == |key|;
  }

  lemma LineIsReadBack(line: Line)
    requires GoodLine(line)
    ensures ReadLine(Bare(line)) == Some(line) && Bare(line) != ""
  {
    hide ReadLine, FmtValue, Dotted;
    match line
    case Header(path) => HeaderIsReadBack(path);
    case Entry(key, value) => EntryIsReadBack(key, value);
  }
}
