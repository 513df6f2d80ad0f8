/** A reader for the part of TOML v1.0.0 that the printer emits: table headers and bare keys (section
    "Table"), basic strings with escaped quotes and backslashes (section "String"), one-line arrays
    (section "Array"), decimal integers and booleans. It knows nothing of the printer. */
module TomlRead {
  import opened Common
  import opened TomlWrite

  /** What a document denotes: nested tables without order. */
  datatype Node = Leaf(scalar: Scalar) | Items(items: seq<Scalar>) | Branch(kids: map<string, Node>)

  // ----- values

  predicate IsDigit(c: char) {
    '0' <= c <= '9'
  }

  function DigitRun(s: string): (n: nat)
    ensures n <= |s| && (forall i :: 0 <= i < n ==> IsDigit(s[i])) && (n < |s| ==> !IsDigit(s[n]))
  {
    if s == "" || !IsDigit(s[0]) then 0 else 1 + DigitRun(s[1..])
  }

  function NatOf(digits: string): nat
    requires forall i :: 0 <= i < |digits| ==> IsDigit(digits[i])
  {
    if digits == "" then 0
    else
      assert IsDigit(digits[|digits| - 1]);
      NatOf(digits[..|digits| - 1]) * 10 + (digits[|digits| - 1] as int - '0' as int)
  }

  predicate IsControl(c: char) {
    c < ' ' || c == '\U{7f}'
  }

  /** The rest of a basic string, behind its opening quote. */
  function ReadString(s: string): (r: Option<(string, string)>)
    ensures r.Some? ==> |r.value.1| <= |s|
  {
    if s == "" || IsControl(s[0]) then None
    else if s[0] == '"' then Some(("", s[1..]))
    else if s[0] == '\\' then
      if |s| >= 2 && (s[1] == '\\' || s[1] == '"') then
        var more := ReadString(s[2..]);
        if more.None? then None else Some(([s[1]] + more.value.0, more.value.1))
      else None
    else
      var more := ReadString(s[1..]);
      if more.None? then None else Some(([s[0]] + more.value.0, more.value.1))
  }

  function ReadScalar(s: string): (r: Option<(Scalar, string)>)
    ensures r.Some? ==> |r.value.1| <= |s|
  {
    if s == "" then None
    else if "true" <= s then Some((Bool(true), s[4..]))
    else if "false" <= s then Some((Bool(false), s[5..]))
    else if s[0] == '"' then
      var r := ReadString(s[1..]);
      if r.None? then None else Some((Str(r.value.0), r.value.1))
    else if s[0] == '-' then
      var n := DigitRun(s[1..]);
      if n == 0 then None else Some((Int(-(NatOf(s[1..][..n]) as int)), s[1..][n..]))
    else
      var n := DigitRun(s);
      if n == 0 then None else Some((Int(NatOf(s[..n])), s[n..]))
  }

  /** The items of a non-empty array, behind its opening bracket. */
  function ReadItems(s: string): Option<(seq<Scalar>, string)>
    decreases |s|
  {
    var first := ReadScalar(s);
    if first.None? then None
    else
      var rest := first.value.1;
      if "]" <= rest then Some(([first.value.0], rest[1..]))
      else if ", " <= rest then
        var more := ReadItems(rest[2..]);
        if more.None? then None else Some(([first.value.0] + more.value.0, more.value.1))
      else None
  }

  /** A value that takes up the whole of `s`. */
  function ReadValue(s: string): Option<Value> {
    if "[]" == s then Some(Many([]))
    else if "[" <= s then
      var r := ReadItems(s[1..]);
      if r.None? || r.value.1 != "" then None else Some(Many(r.value.0))
    else
      var r := ReadScalar(s);
      if r.None? || r.value.1 != "" then None else Some(One(r.value.0))
  }

  // ----- lines

  predicate IsBare(c: char) {
    'a' <= c <= 'z' || 'A' <= c <= 'Z' || IsDigit(c) || c == '_' || c == '-'
  }

  predicate BareKey(key: string) {
    key != "" && forall i :: 0 <= i < |key| ==> IsBare(key[i])
  }

  function BareRun(s: string): (n: nat)
    ensures n <= |s| && (forall i :: 0 <= i < n ==> IsBare(s[i])) && (n < |s| ==> !IsBare(s[n]))
  {
    if s == "" || !IsBare(s[0]) then 0 else 1 + BareRun(s[1..])
  }

  function SplitDots(s: string): (parts: seq<string>)
    ensures |parts| >= 1
  {
    if s == "" then [""]
    else
      var front := SplitDots(s[..|s| - 1]);
      if s[|s| - 1] == '.' then front + [""] else front[..|front| - 1] + [front[|front| - 1] + [s[|s| - 1]]]
  }

  function ReadLine(s: string): Option<Line> {
    if s != "" && s[0] == '[' then
      if |s| < 2 || s[|s| - 1] != ']' then None
      else
        var path := SplitDots(s[1..|s| - 1]);
        if forall i :: 0 <= i < |path| ==> BareKey(path[i]) then Some(Header(path)) else None
    else
      var n := BareRun(s);
      if n == 0 || !(" = " <= s[n..]) then None
      else
        var v := ReadValue(s[n + 3..]);
        if v.None? then None else Some(Entry(s[..n], v.value))
  }

  // ----- documents

  datatype State = State(root: map<string, Node>, current: seq<string>)

  /** Put a new key into the table at `path`, creating the tables on the way. */
  function Put(root: map<string, Node>, path: seq<string>, key: string, node: Node): Option<map<string, Node>>
    decreases |path|
  {
    if path == [] then if key in root then None else Some(root[key := node])
    else
      var sub := if path[0] in root then root[path[0]] else Branch(map[]);
      if !sub.Branch? then None
      else
        var kids := Put(sub.kids, path[1..], key, node);
        if kids.None? then None else Some(root[path[0] := Branch(kids.value)])
  }

  /** Make sure that there is a table at `path`. */
  function Open(root: map<string, Node>, path: seq<string>): Option<map<string, Node>>
    decreases |path|
  {
    if path == [] then Some(root)
    else
      var sub := if path[0] in root then root[path[0]] else Branch(map[]);
      if !sub.Branch? then None
      else
        var kids := Open(sub.kids, path[1..]);
        if kids.None? then None else Some(root[path[0] := Branch(kids.value)])
  }

  function NodeOfValue(v: Value): Node {
    match v
    case One(scalar) => Leaf(scalar)
    case Many(items) => Items(items)
    case Table(_) => Branch(map[])
  }

  function Step(state: Option<State>, line: Line): Option<State> {
    if state.None? then None
    else
      match line
      case Header(path) =>
        var root := Open(state.value.root, path);
        if root.None? then None else Some(State(root.value, path))
      case Entry(key, value) =>
        var root := Put(state.value.root, state.value.current, key, NodeOfValue(value));
        if root.None? then None else Some(State(root.value, state.value.current))
  }

  function Run(state: Option<State>, lines: seq<Line>): Option<State>
    decreases |lines|
  {
    if lines == [] then state else Run(Step(state, lines[0]), lines[1..])
  }

  /** Empty lines separate; every other line must be one the reader knows. */
  function ReadLines(state: Option<State>, texts: seq<string>): Option<State>
    decreases |texts|
  {
    if texts == [] then state
    else if texts[0] == "" then ReadLines(state, texts[1..])
    else
      var line := ReadLine(texts[0]);
      if line.None? then None else ReadLines(Step(state, line.value), texts[1..])
  }

  function SplitLines(s: string): (parts: seq<string>)
    ensures |parts| >= 1
  {
    if s == "" then [""]
    else
      var rest := SplitLines(s[1..]);
      if s[0] == '\n' then [""] + rest else [[s[0]] + rest[0]] + rest[1..]
  }

  function ReadToml(text: string): Option<map<string, Node>> {
    var final := ReadLines(Some(State(map[], [])), SplitLines(text));
    if final.None? then None else Some(final.value.root)
  }
}
