/** The node config's TOML printer (docker/materialize_node_config.py). A dict is its list of entries in
    insertion order. */
module TomlWrite {
  import opened Common

  datatype Scalar = Bool(b: bool) | Int(n: int) | Str(s: string)

  datatype Value = One(scalar: Scalar) | Many(items: seq<Scalar>) | Table(entries: Entries)

  datatype Entries = Nil | Cons(key: string, value: Value, rest: Entries)

  // ----- values

  function ReplaceChar(s: string, c: char, by_: string): string {
    if s == "" then "" else (if s[0] == c then by_ else [s[0]]) + ReplaceChar(s[1..], c, by_)
  }

  function Escaped(s: string): string {
    ReplaceChar(ReplaceChar(s, '\\', "\\\\"), '"', "\\\"")
  }

  function Digits(n: nat): (s: string)
    ensures s != "" && forall i :: 0 <= i < |s| ==> '0' <= s[i] <= '9'
  {
    if n < 10 then ['0' + n as char] else Digits(n / 10) + ['0' + (n % 10) as char]
  }

  function FmtScalar(v: Scalar): string {
    match v
    case Bool(b) => if b then "true" else "false"
    case Int(n) => if n < 0 then "-" + Digits(-n) else Digits(n)
    case Str(s) => "\"" + Escaped(s) + "\""
  }

  function FmtItems(items: seq<Scalar>): string {
    if items == [] then ""
    else if |items| == 1 then FmtScalar(items[0])
    else FmtScalar(items[0]) + ", " + FmtItems(items[1..])
  }

  function FmtValue(v: Value): string
    requires !v.Table?
  {
    match v
    case One(scalar) => FmtScalar(scalar)
    case Many(items) => "[" + FmtItems(items) + "]"
  }

  // ----- lines

  /** A line of the output; a header is preceded by an empty line. */
  datatype Line = Header(path: seq<string>) | Entry(key: string, value: Value)

  function Scalars(e: Entries): Entries {
    match e
    case Nil => Nil
    case Cons(key, value, rest) => if value.Table? then Scalars(rest) else Cons(key, value, Scalars(rest))
  }

  function Children(e: Entries): Entries {
    match e
    case Nil => Nil
    case Cons(key, value, rest) => if value.Table? then Cons(key, value, Children(rest)) else Children(rest)
  }

  function EntryLines(e: Entries): seq<Line> {
    match e
    case Nil => []
    case Cons(key, value, rest) => if value.Table? then EntryLines(rest) else [Entry(key, value)] + EntryLines(rest)
  }

  /** The sub-tables among the entries, each with its own header, entries and sub-tables. */
  function ChildLines(e: Entries, path: seq<string>): seq<Line>
    decreases e, 0
  {
    match e
    case Nil => []
    case Cons(key, value, rest) =>
      (if value.Table? then TableLines(value.entries, path + [key]) else []) + ChildLines(rest, path)
  }

  /** A table that holds only sub-tables prints no header of its own. */
  function TableLines(e: Entries, path: seq<string>): seq<Line>
    decreases e, 1
  {
    (if Scalars(e).Cons? || Children(e).Nil? then [Header(path)] else []) + EntryLines(e) + ChildLines(e, path)
  }

  function DocumentLines(data: Entries): seq<Line> {
    match data
    case Nil => []
    case Cons(key, value, rest) =>
      (if value.Table? then TableLines(value.entries, [key]) else [Entry(key, value)]) + DocumentLines(rest)
  }

  function Dotted(path: seq<string>): string {
    if path == [] then ""
    else if |path| == 1 then path[0]
    else Dotted(path[..|path| - 1]) + "." + path[|path| - 1]
  }

  function Render(line: Line): string {
    match line
    case Header(path) => "\n[" + Dotted(path) + "]"
    case Entry(key, value) => key + " = " + if value.Table? then "" else FmtValue(value)
  }

  function RenderAll(lines: seq<Line>): (r: seq<string>)
    ensures |r| == |lines| && forall i :: 0 <= i < |lines| ==> r[i] == Render(lines[i])
  {
    if lines == [] then [] else RenderAll(lines[..|lines| - 1]) + [Render(lines[|lines| - 1])]
  }

  function JoinLines(lines: seq<string>): string {
    if lines == [] then ""
    else if |lines| == 1 then lines[0]
    else lines[0] + "\n" + JoinLines(lines[1..])
  }

  function DropNewlines(s: string): string {
    if s != "" && s[0] == '\n' then DropNewlines(s[1..]) else s
  }

  /** The text printed for a config. */
  function Printed(data: Entries): string {
    var lines := RenderAll(DocumentLines(data));
    var trimmed := if lines == [] then lines else [DropNewlines(lines[0])] + lines[1..];
    RStrip(JoinLines(trimmed)) + "\n"
  }

  lemma RenderAppend(lines: seq<Line>, more: seq<Line>)
    ensures RenderAll(lines + more) == RenderAll(lines) + RenderAll(more)
  {
  }

  class Writer {
    var lines: seq<string>

    constructor ()
      ensures lines == []
    {
      lines := [];
    }

    method WriteEntries(table: Entries)
      modifies this
      ensures lines == old(lines) + RenderAll(EntryLines(table))
    {
      hide Render, RenderAll, FmtValue;
      var todo := table;
      while todo.Cons?
        invariant lines + RenderAll(EntryLines(todo)) == old(lines) + RenderAll(EntryLines(table))
        decreases todo
      {
        if !todo.value.Table? {
          RenderOne(Entry(todo.key, todo.value));
          RenderAppend([Entry(todo.key, todo.value)], EntryLines(todo.rest));
          lines := lines + [todo.key + " = " + FmtValue(todo.value)];
        }
        todo := todo.rest;
      }
      RenderNothing();
      assert lines + [] == lines;
    }

    method WriteTable(table: Entries, path: seq<string>)
      modifies this
      ensures lines == old(lines) + RenderAll(TableLines(table, path))
      decreases table
    {
      hide Render, RenderAll, FmtValue, TableLines, ChildLines, EntryLines, Dotted, Scalars, Children;
      ghost var begin := lines;
      TableParts(table, path);
      RenderOne(Header(path));
      if Scalars(table).Cons? || Children(table).Nil? {
        lines := lines + ["\n[" + Dotted(path) + "]"];
      }
      WriteEntries(table);
      ghost var start := lines;
      var todo := table;
      while todo.Cons?
        invariant todo == table || todo < table
        invariant lines + RenderAll(ChildLines(todo, path)) == start + RenderAll(ChildLines(table, path))
        decreases todo
      {
        ChildParts(todo, path);
        if todo.value.Table? {
          WriteTable(todo.value.entries, path + [todo.key]);
        }
        todo := todo.rest;
      }
      assert RenderAll(ChildLines(todo, path)) == [] by { NoChildLines(path); }
      assert lines + [] == lines;
      if Scalars(table).Cons? || Children(table).Nil? {
        assert begin + [Render(Header(path))] + RenderAll(EntryLines(table)) + RenderAll(ChildLines(table, path))
            == begin + RenderAll(TableLines(table, path));
      } else {
        assert begin + RenderAll(EntryLines(table)) + RenderAll(ChildLines(table, path))
            == begin + RenderAll(TableLines(table, path));
      }
    }
  }

  lemma TableParts(table: Entries, path: seq<string>)
    ensures RenderAll(TableLines(table, path)) ==
            (if Scalars(table).Cons? || Children(table).Nil? then [Render(Header(path))] else [])
            + RenderAll(EntryLines(table)) + RenderAll(ChildLines(table, path))
  {
    hide Render, RenderAll, EntryLines, ChildLines;
    var head := if Scalars(table).Cons? || Children(table).Nil? then [Header(path)] else [];
    RenderNothing();
    RenderOne(Header(path));
    RenderAppend(head, EntryLines(table));
    RenderAppend(head + EntryLines(table), ChildLines(table, path));
  }

  lemma ChildParts(todo: Entries, path: seq<string>)
    requires todo.Cons?
    ensures RenderAll(ChildLines(todo, path)) ==
            (if todo.value.Table? then RenderAll(TableLines(todo.value.entries, path + [todo.key])) else [])
            + RenderAll(ChildLines(todo.rest, path))
  {
    hide Render, RenderAll, TableLines;
    RenderNothing();
    RenderAppend(if todo.value.Table? then TableLines(todo.value.entries, path + [todo.key]) else [],
                 ChildLines(todo.rest, path));
  }

  lemma NoChildLines(path: seq<string>)
    ensures RenderAll(ChildLines(Nil, path)) == []
  {
  }

  lemma RenderNothing()
    ensures RenderAll([]) == []
  {
  }

  lemma RenderOne(line: Line)
    ensures RenderAll([line]) == [Render(line)]
    ensures line.Header? ==> Render(line) == "\n[" + Dotted(line.path) + "]"
    ensures line.Entry? && !line.value.Table? ==> Render(line) == line.key + " = " + FmtValue(line.value)
  {
  }

  lemma DocumentParts(todo: Entries)
    requires todo.Cons?
    ensures RenderAll(DocumentLines(todo)) ==
            (if todo.value.Table? then RenderAll(TableLines(todo.value.entries, [todo.key]))
             else [Render(Entry(todo.key, todo.value))])
            + RenderAll(DocumentLines(todo.rest))
  {
    hide Render, RenderAll, TableLines;
    RenderOne(Entry(todo.key, todo.value));
    RenderAppend(if todo.value.Table? then TableLines(todo.value.entries, [todo.key])
                 else [Entry(todo.key, todo.value)], DocumentLines(todo.rest));
  }

  lemma EmptyDocument()
    ensures RenderAll(DocumentLines(Nil)) == []
  {
  }

  method WriteToml(data: Entries) returns (text: string)
    ensures text == Printed(data)
  {
    hide Render, RenderAll, FmtValue, RStrip, JoinLines, DropNewlines, DocumentLines, TableLines;
    var w := new Writer();
    var todo := data;
    while todo.Cons?
      invariant w.lines + RenderAll(DocumentLines(todo)) == RenderAll(DocumentLines(data))
      decreases todo
    {
      DocumentParts(todo);
      if todo.value.Table? {
        w.WriteTable(todo.value.entries, [todo.key]);
      } else {
        RenderOne(Entry(todo.key, todo.value));
        w.lines := w.lines + [todo.key + " = " + FmtValue(todo.value)];
      }
      todo := todo.rest;
    }
    EmptyDocument();
    assert w.lines + [] == w.lines;
    var lines := w.lines;
    if lines != [] {
      lines := [DropNewlines(lines[0])] + lines[1..];
    }
    text := RStrip(JoinLines(lines)) + "\n";
  }
}
