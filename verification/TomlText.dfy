/** The reader goes through the printed text line by line. */
module TomlText {
  import opened Common
  import opened TomlWrite
  import opened TomlRead
  import opened TomlLines

  // ----- no line break inside a line

  lemma {:induction false} EscapedHasNoBreak(s: string)
    requires '\n' !in s
    ensures '\n' !in Escaped(s)
  {
    if s != "" {
      EscapedCons(s);
      EscapedHasNoBreak(s[1..]);
    }
  }

  lemma ScalarHasNoBreak(v: Scalar)
    requires Printable(v)
    ensures '\n' !in FmtScalar(v)
  {
    hide Escaped;
    match v
    case Bool(b) =>
    case Int(n) =>
    case Str(s) => EscapedHasNoBreak(s);
  }

  lemma {:induction false} ItemsHaveNoBreak(items: seq<Scalar>)
    requires forall i :: 0 <= i < |items| ==> Printable(items[i])
    ensures '\n' !in FmtItems(items)
  {
    hide FmtScalar, Printable;
    if items != [] {
      ScalarHasNoBreak(items[0]);
      ItemsHaveNoBreak(items[1..]);
    }
  }

  lemma {:induction false} DottedHasNoBreak(path: seq<string>)
    requires forall i :: 0 <= i < |path| ==> BareKey(path[i])
    ensures '\n' !in Dotted(path)
    decreases |path|
  {
    if path != [] {
      DottedHasNoBreak(path[..|path| - 1]);
      assert BareKey(path[|path| - 1]);
    }
  }

  lemma BareHasNoBreak(line: Line)
    requires GoodLine(line)
    ensures '\n' !in Bare(line)
  {
    hide FmtScalar, FmtItems, Dotted, Printable;
    match line
    case Header(path) => DottedHasNoBreak(path);
    case Entry(key, value) =>
      if value.One? { ScalarHasNoBreak(value.scalar); } else { ItemsHaveNoBreak(value.items); }
  }

  lemma BareEnd(line: Line)
    requires GoodLine(line)
    ensures Bare(line) != "" && !IsSpace(Bare(line)[|Bare(line)| - 1])
  {
    hide FmtScalar, FmtItems, Dotted, Printable;
    if line.Entry? && line.value.One? { ScalarStart(line.value.scalar); }
  }

  // ----- splitting

  lemma SplitCons(c: char, s: string)
    ensures var rest := SplitLines(s);
      SplitLines([c] + s) == if c == '\n' then [""] + rest else [[c] + rest[0]] + rest[1..]
  {
    assert ([c] + s)[1..] == s;
  }

  lemma SplitOneMore(c: char, s: string, b: string)
    requires SplitLines(s + "\n" + b) == SplitLines(s) + SplitLines(b)
    ensures SplitLines([c] + s + "\n" + b) == SplitLines([c] + s) + SplitLines(b)
  {
    hide SplitLines;
    assert [c] + s + "\n" + b == [c] + (s + "\n" + b);
    SplitCons(c, s + "\n" + b);
    SplitCons(c, s);
    var first, last := SplitLines(s), SplitLines(b);
    assert (first + last)[1..] == first[1..] + last && (first + last)[0] == first[0];
  }

  lemma {:induction false} SplitJoined(a: string, b: string)
    ensures SplitLines(a + "\n" + b) == SplitLines(a) + SplitLines(b)
  {
    hide SplitLines;
    if a == "" {
      assert a + "\n" + b == ['\n'] + b;
      SplitCons('\n', b);
      OneLine(a);
    } else {
      SplitJoined(a[1..], b);
      SplitOneMore(a[0], a[1..], b);
      assert a == [a[0]] + a[1..];
    }
  }

  lemma {:induction false} OneLine(s: string)
    requires '\n' !in s
    ensures SplitLines(s) == [s]
  {
    if s != "" {
      OneLine(s[1..]);
      assert s == [s[0]] + s[1..];
    }
  }

  // ----- reading

  lemma {:induction false} NoneStays(texts: seq<string>)
    ensures ReadLines(None, texts) == None
  {
    hide ReadLine;
    if texts != [] { NoneStays(texts[1..]); }
  }

  lemma {:induction false} ReadConcat(state: Option<State>, a: seq<string>, b: seq<string>)
    ensures ReadLines(state, a + b) == ReadLines(ReadLines(state, a), b)
    decreases |a|
  {
    hide ReadLine, Step;
    if a == [] {
      assert a + b == b;
    } else {
      assert (a + b)[1..] == a[1..] + b && (a + b)[0] == a[0];
      if a[0] == "" {
        ReadConcat(state, a[1..], b);
      } else if ReadLine(a[0]).Some? {
        ReadConcat(Step(state, ReadLine(a[0]).value), a[1..], b);
      } else {
        NoneStays(b);
      }
    }
  }

  predicate Shows(text: string, line: Line) {
    text == Bare(line) || text == "\n" + Bare(line)
  }

  lemma ReadOne(state: Option<State>, text: string)
    requires text != "" && ReadLine(text).Some?
    ensures ReadLines(state, [text]) == Step(state, ReadLine(text).value)
  {
    hide ReadLine, Step;
    assert [text][1..] == [];
  }

  lemma ShownIsStep(state: Option<State>, text: string, line: Line)
    requires GoodLine(line) && Shows(text, line)
    ensures ReadLines(state, SplitLines(text)) == Step(state, line)
  {
    hide ReadLine, GoodLine, Bare, Step, SplitLines;
    LineIsReadBack(line);
    BareHasNoBreak(line);
    OneLine(Bare(line));
    ReadOne(state, Bare(line));
    if text != Bare(line) {
      assert ["", Bare(line)][1..] == [Bare(line)];
      assert text == "" + "\n" + Bare(line);
      SplitJoined("", Bare(line));
      OneLine("");
    }
  }

  /** Lines joined by line breaks, whether or not an empty line goes in front of each. */
  lemma {:induction false} JoinedIsRun(state: Option<State>, texts: seq<string>, lines: seq<Line>)
    requires |texts| == |lines| > 0
    requires forall i :: 0 <= i < |lines| ==> GoodLine(lines[i]) && Shows(texts[i], lines[i])
    ensures ReadLines(state, SplitLines(JoinLines(texts))) == Run(state, lines)
    ensures var all := JoinLines(texts); all != "" && !IsSpace(all[|all| - 1])
    decreases |texts|
  {
    hide GoodLine, Bare, Step, SplitLines, ReadLines, IsSpace;
    ShownIsStep(state, texts[0], lines[0]);
    if |texts| == 1 {
      BareEnd(lines[0]);
      assert lines[1..] == [];
    } else {
      SplitJoined(texts[0], JoinLines(texts[1..]));
      ReadConcat(state, SplitLines(texts[0]), SplitLines(JoinLines(texts[1..])));
      JoinedIsRun(Step(state, lines[0]), texts[1..], lines[1..]);
    }
  }

  predicate GoodLines(lines: seq<Line>) {
    forall i :: 0 <= i < |lines| ==> GoodLine(lines[i])
  }

  lemma Trimmed(line: Line)
    requires GoodLine(line)
    ensures DropNewlines(Render(line)) == Bare(line)
  {
    hide GoodLine, FmtValue, Dotted;
    BareHasNoBreak(line);
    BareEnd(line);
    if line.Header? { assert Render(line)[1..] == Bare(line); }
    assert Bare(line)[0] in Bare(line);
  }

  lemma RenderShows(line: Line)
    ensures Shows(Render(line), line)
  {
    if line.Header? { assert Render(line) == "\n" + Bare(line); }
  }

  /** The rendered lines, with no line break left in front of the first. */
  function Trim(texts: seq<string>): seq<string> {
    if texts == [] then texts else [DropNewlines(texts[0])] + texts[1..]
  }

  lemma TrimmedShow(lines: seq<Line>, i: nat)
    requires i < |lines| && GoodLines(lines)
    ensures |Trim(RenderAll(lines))| == |lines| && Shows(Trim(RenderAll(lines))[i], lines[i])
  {
    hide GoodLine, Bare, Render, Shows, DropNewlines;
    if i == 0 {
      Trimmed(lines[0]);
      BareShows(lines[0]);
    } else {
      RenderShows(lines[i]);
    }
  }

  lemma BareShows(line: Line)
    ensures Shows(Bare(line), line)
  {
  }

  lemma EmptyIsRun(state: Option<State>)
    ensures ReadLines(state, SplitLines("\n")) == state
  {
    hide SplitLines;
    assert "\n" == "" + "\n" + "";
    SplitJoined("", "");
    OneLine("");
    assert ["", ""][1..] == [""] && [""][1..] == [];
  }

  lemma LineBreakAtEnd(state: Option<State>, all: string)
    ensures ReadLines(state, SplitLines(all + "\n")) == ReadLines(state, SplitLines(all))
  {
    hide SplitLines;
    assert all + "\n" == all + "\n" + "";
    SplitJoined(all, "");
    OneLine("");
    ReadConcat(state, SplitLines(all), [""]);
    assert [""][1..] == [];
  }

  /** Reading the printed text is going through the lines that were to be shown. */
  lemma PrintedIsRun(data: Entries)
    requires GoodLines(DocumentLines(data))
    ensures ReadLines(Some(State(map[], [])), SplitLines(Printed(data)))
         == Run(Some(State(map[], [])), DocumentLines(data))
  {
    hide GoodLine, DocumentLines, RenderAll, ReadLines, IsSpace, SplitLines, Shows, JoinLines;
    var start, lines := Some(State(map[], [])), DocumentLines(data);
    var texts := Trim(RenderAll(lines));
    if lines == [] {
      assert JoinLines([]) == "" by { JoinNothing(); }
      assert Printed(data) == "\n";
      EmptyIsRun(start);
    } else {
      forall i | 0 <= i < |lines| ensures GoodLine(lines[i]) && Shows(texts[i], lines[i]) { TrimmedShow(lines, i); }
      TrimmedShow(lines, 0);
      JoinedIsRun(start, texts, lines);
      assert Printed(data) == JoinLines(texts) + "\n";
      LineBreakAtEnd(start, JoinLines(texts));
    }
  }

  lemma JoinNothing()
    ensures JoinLines([]) == ""
  {
  }
}
