/** The round trip: when the reader gets back the tree that was printed. */
module TomlTrip {
  import opened Common
  import opened TomlWrite
  import opened TomlRead
  import opened TomlLines
  import opened TomlText

  // ----- the tree that a config denotes

  function Tree(e: Entries): map<string, Node> {
    match e
    case Nil => map[]
    case Cons(key, value, rest) => Tree(rest)[key := NodeOf(value)]
  }

  function NodeOf(v: Value): Node {
    match v
    case One(scalar) => Leaf(scalar)
    case Many(items) => Items(items)
    case Table(entries) => Branch(Tree(entries))
  }

  /** A dict's keys are distinct; they are bare, and its strings hold no control characters. */
  predicate WellFormed(e: Entries) {
    match e
    case Nil => true
    case Cons(key, value, rest) => BareKey(key) && key !in Tree(rest) && WellFormedValue(value) && WellFormed(rest)
  }

  predicate WellFormedValue(v: Value) {
    match v
    case One(_) => PrintableValue(v)
    case Many(_) => PrintableValue(v)
    case Table(entries) => WellFormed(entries)
  }

  // ----- the table at a path, and replacing it

  /** What is in the table at `path`; a missing table is empty. */
  function At(root: map<string, Node>, path: seq<string>): Option<map<string, Node>>
    decreases |path|
  {
    if path == [] then Some(root)
    else if path[0] !in root then Some(map[])
    else if !root[path[0]].Branch? then None
    else At(root[path[0]].kids, path[1..])
  }

  function Graft(root: map<string, Node>, path: seq<string>, kids: map<string, Node>): map<string, Node>
    requires At(root, path).Some?
    decreases |path|
  {
    if path == [] then kids
    else
      var sub := if path[0] in root then root[path[0]].kids else map[];
      AtEmpty(path[1..]);
      root[path[0] := Branch(Graft(sub, path[1..], kids))]
  }

  lemma {:induction false} AtEmpty(path: seq<string>)
    ensures At(map[], path) == Some(map[])
  {
  }

  lemma {:induction false} GraftAt(root: map<string, Node>, path: seq<string>, kids: map<string, Node>)
    requires At(root, path).Some?
    ensures At(Graft(root, path, kids), path) == Some(kids)
    decreases |path|
  {
    if path != [] {
      AtEmpty(path[1..]);
      GraftAt(if path[0] in root then root[path[0]].kids else map[], path[1..], kids);
    }
  }

  lemma {:induction false} GraftTwice(root: map<string, Node>, path: seq<string>, a: map<string, Node>,
                                      b: map<string, Node>)
    requires At(root, path).Some? && At(Graft(root, path, a), path).Some?
    ensures Graft(Graft(root, path, a), path, b) == Graft(root, path, b)
    decreases |path|
  {
    if path != [] {
      AtEmpty(path[1..]);
      GraftTwice(if path[0] in root then root[path[0]].kids else map[], path[1..], a, b);
    }
  }

  /** A new sub-table is a new key of its parent. */
  lemma {:induction false} GraftBelow(root: map<string, Node>, path: seq<string>, key: string, kids: map<string, Node>)
    requires At(root, path).Some? && key !in At(root, path).value
    ensures At(root, path + [key]) == Some(map[])
    ensures Graft(root, path + [key], kids) == Graft(root, path, At(root, path).value[key := Branch(kids)])
    decreases |path|
  {
    var all := path + [key];
    if path == [] {
      assert all[1..] == [];
    } else {
      assert all[1..] == path[1..] + [key] && all[0] == path[0];
      AtEmpty(path[1..]);
      AtEmpty(all[1..]);
      GraftBelow(if path[0] in root then root[path[0]].kids else map[], path[1..], key, kids);
    }
  }

  lemma {:induction false} PutIsGraft(root: map<string, Node>, path: seq<string>, key: string, node: Node)
    requires At(root, path).Some? && key !in At(root, path).value
    ensures Put(root, path, key, node) == Some(Graft(root, path, At(root, path).value[key := node]))
    decreases |path|
  {
    if path != [] {
      AtEmpty(path[1..]);
      PutIsGraft(if path[0] in root then root[path[0]].kids else map[], path[1..], key, node);
    }
  }

  lemma {:induction false} OpenIsGraft(root: map<string, Node>, path: seq<string>)
    requires At(root, path).Some?
    ensures Open(root, path) == Some(Graft(root, path, At(root, path).value))
    decreases |path|
  {
    if path != [] {
      AtEmpty(path[1..]);
      OpenIsGraft(if path[0] in root then root[path[0]].kids else map[], path[1..]);
    }
  }

  // ----- going through the lines of a table

  lemma {:induction false} RunConcat(state: Option<State>, a: seq<Line>, b: seq<Line>)
    ensures Run(state, a + b) == Run(Run(state, a), b)
    decreases |a|
  {
    hide Step;
    if a == [] {
      assert a + b == b;
    } else {
      assert (a + b)[1..] == a[1..] + b;
      RunConcat(Step(state, a[0]), a[1..], b);
    }
  }

  lemma RunOne(state: Option<State>, line: Line)
    ensures Run(state, [line]) == Step(state, line)
  {
    assert [line][1..] == [];
  }

  lemma {:induction false} Parts(e: Entries)
    requires WellFormed(e)
    ensures Tree(e) == Tree(Scalars(e)) + Tree(Children(e))
    ensures Tree(Scalars(e)).Keys !! Tree(Children(e)).Keys
    ensures WellFormed(Scalars(e)) && WellFormed(Children(e))
  {
    hide BareKey, PrintableValue;
    if e.Cons? { Parts(e.rest); }
  }

  lemma {:induction false} ChildrenAreKeys(e: Entries)
    ensures Tree(Children(e)).Keys <= Tree(e).Keys
  {
    if e.Cons? { ChildrenAreKeys(e.rest); }
  }

  /** The table at `path` is there, as after its header. */
  predicate Stands(root: map<string, Node>, path: seq<string>) {
    At(root, path).Some? && Graft(root, path, At(root, path).value) == root
  }

  lemma GraftStands(root: map<string, Node>, path: seq<string>, kids: map<string, Node>)
    requires At(root, path).Some?
    ensures Stands(Graft(root, path, kids), path) && At(Graft(root, path, kids), path) == Some(kids)
  {
    GraftAt(root, path, kids);
    GraftTwice(root, path, kids, kids);
  }

  lemma {:induction false} EntriesRun(root: map<string, Node>, path: seq<string>, e: Entries)
    requires Stands(root, path) && WellFormed(e) && Tree(Scalars(e)).Keys !! At(root, path).value.Keys
    ensures Run(Some(State(root, path)), EntryLines(e))
         == Some(State(Graft(root, path, At(root, path).value + Tree(Scalars(e))), path))
    decreases e
  {
    hide At, Graft, Put, BareKey, PrintableValue;
    var kids := At(root, path).value;
    if e.Nil? {
      assert kids + map[] == kids;
    } else if e.value.Table? {
      EntriesRun(root, path, e.rest);
    } else {
      Parts(e.rest);
      PutIsGraft(root, path, e.key, NodeOf(e.value));
      GraftStands(root, path, kids[e.key := NodeOf(e.value)]);
      var next := Graft(root, path, kids[e.key := NodeOf(e.value)]);
      EntriesRun(next, path, e.rest);
      RunOne(Some(State(root, path)), Entry(e.key, e.value));
      RunConcat(Some(State(root, path)), [Entry(e.key, e.value)], EntryLines(e.rest));
      GraftTwice(root, path, kids[e.key := NodeOf(e.value)], kids[e.key := NodeOf(e.value)] + Tree(Scalars(e.rest)));
      assert kids[e.key := NodeOf(e.value)] + Tree(Scalars(e.rest)) == kids + Tree(Scalars(e));
    }
  }

  /** The state after a run that has put the table `kids` at `path` and stopped somewhere below. */
  predicate Landed(state: Option<State>, root: map<string, Node>, path: seq<string>, kids: map<string, Node>)
    requires At(root, path).Some?
  {
    state.Some? && state.value.root == Graft(root, path, kids) && path <= state.value.current
  }

  lemma {:induction false} ChildrenRun(state: State, path: seq<string>, e: Entries)
    requires At(state.root, path).Some? && WellFormed(e)
    requires Tree(Children(e)).Keys !! At(state.root, path).value.Keys
    ensures Children(e).Nil? ==> ChildLines(e, path) == []
    ensures Children(e).Cons? ==> Landed(Run(Some(state), ChildLines(e, path)), state.root, path,
                                         At(state.root, path).value + Tree(Children(e)))
    decreases e, 0
  {
    hide At, Graft, BareKey, PrintableValue, TableLines, Run, Scalars;
    if e.Nil? {
    } else if !e.value.Table? {
      ChildrenRun(state, path, e.rest);
      assert [] + ChildLines(e.rest, path) == ChildLines(e.rest, path);
    } else {
      ChildrenAreKeys(e.rest);
      var kids := At(state.root, path).value;
      var grown := kids[e.key := NodeOf(e.value)];
      TableRun(state, path, e.key, e.value.entries);
      var here := TableLines(e.value.entries, path + [e.key]);
      var next := Run(Some(state), here).value;
      GraftStands(state.root, path, grown);
      ChildrenRun(next, path, e.rest);
      RunConcat(Some(state), here, ChildLines(e.rest, path));
      assert grown + Tree(Children(e.rest)) == kids + Tree(Children(e));
      if Children(e.rest).Nil? {
        assert here + [] == here && grown + map[] == grown;
      } else {
        GraftTwice(state.root, path, grown, grown + Tree(Children(e.rest)));
      }
    }
  }

  /** Going through a table's lines adds it to its parent, whether or not it has a header of its own. */
  lemma {:induction false} TableRun(state: State, path: seq<string>, key: string, e: Entries)
    requires At(state.root, path).Some? && key !in At(state.root, path).value && WellFormed(e)
    ensures Landed(Run(Some(state), TableLines(e, path + [key])), state.root, path,
                   At(state.root, path).value[key := Branch(Tree(e))])
    ensures path + [key] <= Run(Some(state), TableLines(e, path + [key])).value.current
    decreases e, 1
  {
    hide At, Graft, WellFormed, EntryLines, ChildLines, Step, Open;
    var all := path + [key];
    GraftBelow(state.root, path, key, Tree(e));
    Parts(e);
    if Scalars(e).Cons? || Children(e).Nil? {
      HeaderRun(state, all, e);
      var next := Run(Some(state), [Header(all)] + EntryLines(e)).value;
      GraftStands(state.root, all, Tree(Scalars(e)));
      ChildrenRun(next, all, e);
      RunConcat(Some(state), [Header(all)] + EntryLines(e), ChildLines(e, all));
      if Children(e).Nil? {
        assert Tree(Scalars(e)) + map[] == Tree(Scalars(e));
      } else {
        GraftTwice(state.root, all, Tree(Scalars(e)), Tree(e));
      }
    } else {
      NoEntryLines(e);
      ChildrenRun(state, all, e);
      assert [] + [] + ChildLines(e, all) == ChildLines(e, all);
      assert map[] + Tree(Children(e)) == Tree(e);
    }
  }

  lemma HeaderRun(state: State, path: seq<string>, e: Entries)
    requires At(state.root, path) == Some(map[]) && WellFormed(e)
    ensures Run(Some(state), [Header(path)] + EntryLines(e))
            == Some(State(Graft(state.root, path, Tree(Scalars(e))), path))
  {
    hide At, Graft, WellFormed, Open;
    OpenIsGraft(state.root, path);
    GraftStands(state.root, path, map[]);
    RunOne(Some(state), Header(path));
    RunConcat(Some(state), [Header(path)], EntryLines(e));
    EntriesRun(Graft(state.root, path, map[]), path, e);
    GraftTwice(state.root, path, map[], Tree(Scalars(e)));
    assert map[] + Tree(Scalars(e)) == Tree(Scalars(e));
  }

  lemma {:induction false} NoEntryLines(e: Entries)
    requires Scalars(e).Nil?
    ensures EntryLines(e) == []
  {
    if e.Cons? { NoEntryLines(e.rest); }
  }

  // ----- the whole document

  lemma {:induction false} EntryLinesAreGood(e: Entries)
    requires WellFormed(e)
    ensures GoodLines(EntryLines(e))
  {
    hide BareKey, PrintableValue;
    if e.Cons? { EntryLinesAreGood(e.rest); }
  }

  lemma {:induction false} ChildLinesAreGood(e: Entries, path: seq<string>)
    requires WellFormed(e) && (path == [] || BarePath(path))
    ensures GoodLines(ChildLines(e, path))
    decreases e, 0
  {
    hide BareKey, PrintableValue, TableLines;
    if e.Cons? {
      if e.value.Table? { TableLinesAreGood(e.value.entries, path + [e.key]); }
      ChildLinesAreGood(e.rest, path);
    }
  }

  lemma {:induction false} TableLinesAreGood(e: Entries, path: seq<string>)
    requires WellFormed(e) && BarePath(path)
    ensures GoodLines(TableLines(e, path))
    decreases e, 1
  {
    hide BareKey, PrintableValue, WellFormed, EntryLines, ChildLines;
    EntryLinesAreGood(e);
    ChildLinesAreGood(e, path);
  }

  lemma {:induction false} DocumentIsGood(data: Entries)
    requires WellFormed(data)
    ensures GoodLines(DocumentLines(data))
  {
    hide BareKey, PrintableValue, TableLines;
    if data.Cons? {
      if data.value.Table? { TableLinesAreGood(data.value.entries, [data.key]); }
      DocumentIsGood(data.rest);
    }
  }

  /** No top-level scalar comes after a table. */
  predicate Ordered(data: Entries) {
    match data
    case Nil => true
    case Cons(_, value, rest) => (value.Table? ==> Scalars(rest).Nil?) && Ordered(rest)
  }

  function TopLines(key: string, value: Value): seq<Line> {
    if value.Table? then TableLines(value.entries, [key]) else [Entry(key, value)]
  }

  /** A top-level table always lands at the top level; a scalar does so in front of all tables. */
  lemma TopRun(state: State, key: string, value: Value)
    requires WellFormedValue(value) && key !in state.root && (!value.Table? ==> state.current == [])
    ensures var next := Run(Some(state), TopLines(key, value));
      && next.Some? && next.value.root == state.root[key := NodeOf(value)]
      && if value.Table? then [key] <= next.value.current else next.value.current == []
  {
    hide WellFormedValue, TableLines, Run;
    if value.Table? {
      assert WellFormed(value.entries) by { TableIsWellFormed(value); }
      TableRun(state, [], key, value.entries);
      assert [] + [key] == [key];
    } else {
      RunOne(Some(state), Entry(key, value));
    }
  }

  lemma TableIsWellFormed(value: Value)
    requires value.Table?
    ensures WellFormedValue(value) <==> WellFormed(value.entries)
  {
  }

  lemma {:induction false} OrderedRun(state: State, data: Entries)
    requires WellFormed(data) && Ordered(data) && Tree(data).Keys !! state.root.Keys
    requires Scalars(data).Cons? ==> state.current == []
    ensures var final := Run(Some(state), DocumentLines(data));
            final.Some? && final.value.root == state.root + Tree(data)
    decreases data
  {
    hide BareKey, WellFormedValue, TopLines, NodeOf, Step;
    if data.Cons? {
      DocumentCons(data);
      TopRun(state, data.key, data.value);
      var here := TopLines(data.key, data.value);
      RunConcat(Some(state), here, DocumentLines(data.rest));
      hide Run, DocumentLines;
      OrderedRun(Run(Some(state), here).value, data.rest);
      assert state.root[data.key := NodeOf(data.value)] + Tree(data.rest) == state.root + Tree(data);
    }
  }

  lemma DocumentCons(data: Entries)
    requires data.Cons?
    ensures DocumentLines(data) == TopLines(data.key, data.value) + DocumentLines(data.rest)
  {
  }

  // ----- a top-level scalar behind a table

  predicate Avoids(line: Line, key: string) {
    line.Header? ==> line.path != [] && line.path[0] != key
  }

  predicate AllAvoid(lines: seq<Line>, key: string) {
    forall i :: 0 <= i < |lines| ==> Avoids(lines[i], key)
  }

  lemma {:induction false} NoneRuns(lines: seq<Line>)
    ensures Run(None, lines) == None
  {
    if lines != [] { NoneRuns(lines[1..]); }
  }

  /** Inside a table, no line gives the top level a key that no header starts with. */
  lemma {:induction false} StaysAbsent(state: State, lines: seq<Line>, key: string)
    requires key !in state.root && state.current != [] && state.current[0] != key && AllAvoid(lines, key)
    ensures var final := Run(Some(state), lines); final.Some? ==> key !in final.value.root
    decreases |lines|
  {
    if lines != [] {
      var next := Step(Some(state), lines[0]);
      if next.Some? {
        assert Avoids(lines[0], key);
        StaysAbsent(next.value, lines[1..], key);
      } else {
        NoneRuns(lines[1..]);
      }
    }
  }

  lemma {:induction false} EntriesAvoid(e: Entries, key: string)
    ensures AllAvoid(EntryLines(e), key)
  {
    if e.Cons? { EntriesAvoid(e.rest, key); }
  }

  lemma {:induction false} ChildrenAvoid(e: Entries, path: seq<string>, key: string)
    requires path != [] && path[0] != key
    ensures AllAvoid(ChildLines(e, path), key)
    decreases e, 0
  {
    hide TableLines;
    if e.Cons? {
      if e.value.Table? { TableAvoids(e.value.entries, path + [e.key], key); }
      ChildrenAvoid(e.rest, path, key);
    }
  }

  lemma {:induction false} TableAvoids(e: Entries, path: seq<string>, key: string)
    requires path != [] && path[0] != key
    ensures AllAvoid(TableLines(e, path), key)
    decreases e, 1
  {
    hide EntryLines, ChildLines;
    EntriesAvoid(e, key);
    ChildrenAvoid(e, path, key);
  }

  lemma {:induction false} DocumentAvoids(data: Entries, key: string)
    requires key !in Tree(Children(data))
    ensures AllAvoid(DocumentLines(data), key)
  {
    hide TableLines;
    if data.Cons? {
      if data.value.Table? { TableAvoids(data.value.entries, [data.key], key); }
      DocumentAvoids(data.rest, key);
    }
  }

  /** The key of a top-level scalar that lands inside the table before it. */
  lemma {:induction false} DisorderedRun(state: State, data: Entries) returns (lost: string)
    requires WellFormed(data) && !Ordered(data) && Tree(data).Keys !! state.root.Keys && state.current == []
    ensures lost in Tree(data)
    ensures var final := Run(Some(state), DocumentLines(data)); final.Some? ==> lost !in final.value.root
    decreases data
  {
    hide BareKey, WellFormedValue, TopLines, NodeOf, Step, Run;
    var here := TopLines(data.key, data.value);
    DocumentCons(data);
    RunConcat(Some(state), here, DocumentLines(data.rest));
    TopRun(state, data.key, data.value);
    var next := Run(Some(state), here).value;
    if data.value.Table? && Scalars(data.rest).Cons? {
      lost := Scalars(data.rest).key;
      Parts(data.rest);
      DocumentAvoids(data.rest, lost);
      StaysAbsent(next, DocumentLines(data.rest), lost);
    } else {
      assert !data.value.Table? by { NoScalarsIsOrdered(data.rest); }
      lost := DisorderedRun(next, data.rest);
    }
  }

  lemma {:induction false} NoScalarsIsOrdered(data: Entries)
    ensures Scalars(data).Nil? ==> Ordered(data)
  {
    if data.Cons? { NoScalarsIsOrdered(data.rest); }
  }

  /** Reading what was printed gives back the same tree exactly when no top-level scalar comes after a table. */
  lemma RoundTripIff(data: Entries)
    requires WellFormed(data)
    ensures ReadToml(Printed(data)) == Some(Tree(data)) <==> Ordered(data)
  {
    hide Printed, ReadLines, Run, DocumentLines, WellFormed;
    DocumentIsGood(data);
    PrintedIsRun(data);
    var start: State := State(map[], []);
    if Ordered(data) {
      OrderedRun(start, data);
      assert map[] + Tree(data) == Tree(data);
    } else {
      var lost := DisorderedRun(start, data);
    }
  }

  /** Distinct configs print differently, unless they differ only in the order of keys. */
  lemma PrintedDeterminesTree(a: Entries, b: Entries)
    requires WellFormed(a) && WellFormed(b) && Ordered(a) && Ordered(b) && Printed(a) == Printed(b)
    ensures Tree(a) == Tree(b)
  {
    hide Printed, ReadToml;
    RoundTripIff(a);
    RoundTripIff(b);
  }
}
