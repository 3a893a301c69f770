// The file-system tree as a value, and what `save` and `reload` do to it.
module FsTree {

  /** First-child / next-sibling form: a forest is a first node with its children and its later siblings. */
  datatype Forest = Nil | Node(name: string, typ: char, child: Forest, sibling: Forest)

  /** One line of the save file. */
  datatype Line = Line(name: string, parent: string, typ: char)

  const ROOT_NAME := "/"

  function Names(f: Forest): set<string> {
    match f
    case Nil => {}
    case Node(name, _, child, sibling) => {name} + Names(child) + Names(sibling)
  }

  predicate DistinctNames(f: Forest) {
    match f
    case Nil => true
    case Node(name, _, child, sibling) =>
      && name !in Names(child) && name !in Names(sibling) && Names(child) !! Names(sibling)
      && DistinctNames(child) && DistinctNames(sibling)
  }

  predicate IsRoot(t: Forest) {
    t.Node? && t.name == ROOT_NAME && t.typ == 'D' && t.sibling == Nil
  }

  /** The tree right after `initialize`. */
  function EmptyRoot(): Forest {
    Node(ROOT_NAME, 'D', Nil, Nil)
  }

  function Leaf(name: string, typ: char): Forest {
    Node(name, typ, Nil, Nil)
  }

  /** g behind the last sibling of f. */
  function Append(f: Forest, g: Forest): Forest {
    match f
    case Nil => g
    case Node(_, _, _, sibling) => f.(sibling := Append(sibling, g))
  }

  /** g behind the last child of the first node named `parent`, in preorder. */
  function Graft(f: Forest, parent: string, g: Forest): Forest {
    match f
    case Nil => Nil
    case Node(name, _, child, sibling) =>
      if name == parent then f.(child := Append(child, g))
      else if parent in Names(child) then f.(child := Graft(child, parent, g))
      else f.(sibling := Graft(sibling, parent, g))
  }

  /** The lines that `save` writes for a forest whose nodes have the parent `parent`. */
  function Lines(f: Forest, parent: string): seq<Line> {
    match f
    case Nil => []
    case Node(name, typ, child, sibling) =>
      (if name != ROOT_NAME then [Line(name, parent, typ)] else []) + Lines(child, name) + Lines(sibling, parent)
  }

  function SavedLines(t: Forest): seq<Line> {
    Lines(t, ROOT_NAME)
  }

  /** What `reload` does with one line. */
  function AddLine(t: Forest, line: Line): (r: Forest)
    requires t.Node?
    ensures r.Node?
  {
    if line.parent == ROOT_NAME then
      if line.name in Names(t) then t else t.(child := Append(t.child, Leaf(line.name, line.typ)))
    else if line.parent !in Names(t) || line.name in Names(t) then t
    else Graft(t, line.parent, Leaf(line.name, line.typ))
  }

  function Reload(t: Forest, lines: seq<Line>): (r: Forest)
    requires t.Node?
    ensures r.Node?
    decreases |lines|
  {
    if lines == [] then t else Reload(AddLine(t, lines[0]), lines[1..])
  }

  // ----- Grafting

  lemma {:induction false} NamesOfAppend(f: Forest, g: Forest)
    ensures Names(Append(f, g)) == Names(f) + Names(g)
  {
    if f == Nil {
    } else {
      NamesOfAppend(f.sibling, g);
    }
  }

  lemma {:induction false} NamesOfGraft(f: Forest, parent: string, g: Forest)
    requires parent in Names(f)
    ensures Names(Graft(f, parent, g)) == Names(f) + Names(g)
  {
    if f.name == parent {
      NamesOfAppend(f.child, g);
    } else if parent in Names(f.child) {
      NamesOfGraft(f.child, parent, g);
    } else {
      NamesOfGraft(f.sibling, parent, g);
    }
  }

  lemma {:induction false} DistinctAppend(f: Forest, g: Forest)
    requires DistinctNames(f) && DistinctNames(g) && Names(f) !! Names(g)
    ensures DistinctNames(Append(f, g))
  {
    if f == Nil {
    } else {
      DistinctAppend(f.sibling, g);
      NamesOfAppend(f.sibling, g);
    }
  }

  lemma {:induction false} DistinctGraft(f: Forest, parent: string, g: Forest)
    requires DistinctNames(f) && DistinctNames(g) && Names(f) !! Names(g) && parent in Names(f)
    ensures DistinctNames(Graft(f, parent, g))
  {
    if f.name == parent {
      DistinctAppend(f.child, g);
      NamesOfAppend(f.child, g);
    } else if parent in Names(f.child) {
      DistinctGraft(f.child, parent, g);
      NamesOfGraft(f.child, parent, g);
    } else {
      DistinctGraft(f.sibling, parent, g);
      NamesOfGraft(f.sibling, parent, g);
    }
  }

  lemma {:induction false} AppendAssociates(f: Forest, g: Forest, h: Forest)
    ensures Append(Append(f, g), h) == Append(f, Append(g, h))
  {
    if f == Nil {
    } else {
      AppendAssociates(f.sibling, g, h);
    }
  }

  lemma {:induction false} AppendNil(f: Forest)
    ensures Append(f, Nil) == f
  {
    if f == Nil {
    } else {
      AppendNil(f.sibling);
    }
  }

  /** Two grafts at the same parent are one graft of both. */
  lemma {:induction false} GraftTwice(f: Forest, parent: string, g: Forest, h: Forest)
    requires parent in Names(f)
    ensures Graft(Graft(f, parent, g), parent, h) == Graft(f, parent, Append(g, h))
  {
    if f.name == parent {
      AppendAssociates(f.child, g, h);
    } else if parent in Names(f.child) {
      GraftTwice(f.child, parent, g, h);
      NamesOfGraft(f.child, parent, g);
    } else {
      GraftTwice(f.sibling, parent, g, h);
    }
  }

  lemma {:induction false} GraftIntoAppended(f: Forest, x: string, typ: char, g: Forest)
    requires x !in Names(f)
    ensures Graft(Append(f, Leaf(x, typ)), x, g) == Append(f, Node(x, typ, g, Nil))
  {
    if f == Nil {
    } else {
      GraftIntoAppended(f.sibling, x, typ, g);
    }
  }

  /** Grafting a leaf and then its children is grafting the finished node. */
  lemma {:induction false} GraftIntoGrafted(f: Forest, parent: string, x: string, typ: char, g: Forest)
    requires parent in Names(f) && x !in Names(f)
    ensures Graft(Graft(f, parent, Leaf(x, typ)), x, g) == Graft(f, parent, Node(x, typ, g, Nil))
  {
    if f.name == parent {
      NamesOfAppend(f.child, Leaf(x, typ));
      GraftIntoAppended(f.child, x, typ, g);
    } else if parent in Names(f.child) {
      NamesOfGraft(f.child, parent, Leaf(x, typ));
      GraftIntoGrafted(f.child, parent, x, typ, g);
    } else {
      GraftIntoGrafted(f.sibling, parent, x, typ, g);
    }
  }

  // ----- Reloading

  /** For a tree whose root is named "/", both branches of `reload` are the same graft. */
  lemma {:induction false} AddLineIsGraft(t: Forest, line: Line)
    requires IsRoot(t) && line.parent in Names(t) && line.name !in Names(t)
    ensures AddLine(t, line) == Graft(t, line.parent, Leaf(line.name, line.typ))
  {
  }

  lemma {:induction false} ReloadConcat(t: Forest, xs: seq<Line>, ys: seq<Line>)
    requires t.Node?
    ensures Reload(t, xs + ys) == Reload(Reload(t, xs), ys)
    decreases |xs|
  {
    if xs == [] {
      assert xs + ys == ys;
    } else {
      assert (xs + ys)[1..] == xs[1..] + ys && (xs + ys)[0] == xs[0];
      ReloadConcat(AddLine(t, xs[0]), xs[1..], ys);
    }
  }

  lemma {:induction false} GraftKeepsRoot(t: Forest, parent: string, g: Forest)
    requires IsRoot(t) && parent in Names(t)
    ensures IsRoot(Graft(t, parent, g))
  {
  }

  lemma {:induction false} ReloadKeepsRoot(t: Forest, lines: seq<Line>)
    requires IsRoot(t)
    ensures IsRoot(Reload(t, lines))
    decreases |lines|
  {
    if lines == [] {
    } else {
      if lines[0].parent in Names(t) {
        GraftKeepsRoot(t, lines[0].parent, Leaf(lines[0].name, lines[0].typ));
      }
      ReloadKeepsRoot(AddLine(t, lines[0]), lines[1..]);
    }
  }

  lemma {:induction false} ReloadLines(t: Forest, f: Forest, parent: string)
    requires t.Node? && f.Node?
    ensures var t1 := if f.name != ROOT_NAME then AddLine(t, Line(f.name, parent, f.typ)) else t;
            Reload(t, Lines(f, parent)) == Reload(Reload(t1, Lines(f.child, f.name)), Lines(f.sibling, parent))
  {
    var first := if f.name != ROOT_NAME then [Line(f.name, parent, f.typ)] else [];
    ReloadConcat(t, first + Lines(f.child, f.name), Lines(f.sibling, parent));
    ReloadConcat(t, first, Lines(f.child, f.name));
    if first != [] {
      assert first[1..] == [];
    }
  }

  /** Reloading the saved lines of a forest of new, distinct names grafts that forest. */
  lemma {:induction false} ReloadRebuilds(t: Forest, f: Forest, parent: string)
    requires IsRoot(t) && parent in Names(t)
    requires DistinctNames(f) && Names(f) !! Names(t)
    ensures Reload(t, Lines(f, parent)) == Graft(t, parent, f)
    decreases f
  {
    if f.Nil? {
      GraftNothing(t, parent);
    } else {
      var line := Line(f.name, parent, f.typ);
      var t1 := AddLine(t, line);
      ReloadLines(t, f, parent);
      AddLineIsGraft(t, line);
      NamesOfGraft(t, parent, Leaf(f.name, f.typ));
      GraftKeepsRoot(t, parent, Leaf(f.name, f.typ));
      ReloadRebuilds(t1, f.child, f.name);
      GraftIntoGrafted(t, parent, f.name, f.typ, f.child);
      var node := Node(f.name, f.typ, f.child, Nil);
      NamesOfGraft(t, parent, node);
      GraftKeepsRoot(t, parent, node);
      ReloadRebuilds(Graft(t, parent, node), f.sibling, parent);
      GraftTwice(t, parent, node, f.sibling);
    }
  }

  lemma {:induction false} GraftNothing(f: Forest, parent: string)
    ensures Graft(f, parent, Nil) == f
  {
    if f == Nil {
    } else {
      AppendNil(f.child);
      GraftNothing(f.child, parent);
      GraftNothing(f.sibling, parent);
    }
  }

  /** Reloading never introduces a second node of the same name. */
  lemma {:induction false} ReloadKeepsDistinct(t: Forest, lines: seq<Line>)
    requires IsRoot(t) && DistinctNames(t)
    ensures DistinctNames(Reload(t, lines))
    decreases |lines|
  {
    if lines == [] {
    } else {
      var line := lines[0];
      if line.parent in Names(t) && line.name !in Names(t) {
        AddLineIsGraft(t, line);
        DistinctGraft(t, line.parent, Leaf(line.name, line.typ));
      }
      ReloadKeepsDistinct(AddLine(t, line), lines[1..]);
    }
  }

  /**
   * Save and reload: reloading a tree's saved lines into a freshly initialised root gives back the
   * same tree, with the same shape, types and order, exactly when no two nodes share a name.
   */
  lemma {:induction false} RoundTrip(t: Forest)
    requires IsRoot(t)
    ensures Reload(EmptyRoot(), SavedLines(t)) == t <==> DistinctNames(t)
  {
    ReloadKeepsDistinct(EmptyRoot(), SavedLines(t));
    if DistinctNames(t) {
      assert Lines(Nil, ROOT_NAME) == [];
      assert SavedLines(t) == Lines(t.child, ROOT_NAME);
      ReloadRebuilds(EmptyRoot(), t.child, ROOT_NAME);
    }
  }

  /** `mkdir a`, `cd a`, `mkdir a` makes a tree that save and reload do not preserve. */
  lemma NestedDuplicateIsLost()
    ensures var t := Node(ROOT_NAME, 'D', Node("a", 'D', Leaf("a", 'D'), Nil), Nil);
            Reload(EmptyRoot(), SavedLines(t)) == Node(ROOT_NAME, 'D', Leaf("a", 'D'), Nil)
  {
    var t := Node(ROOT_NAME, 'D', Node("a", 'D', Leaf("a", 'D'), Nil), Nil);
    var a, inner := Line("a", ROOT_NAME, 'D'), Line("a", "a", 'D');
    assert Lines(Leaf("a", 'D'), "a") == [inner];
    assert SavedLines(t) == [a, inner];
    assert AddLine(EmptyRoot(), a) == Node(ROOT_NAME, 'D', Leaf("a", 'D'), Nil);
    assert [a, inner][1..] == [inner] && [inner][1..] == [];
    var t1 := Node(ROOT_NAME, 'D', Leaf("a", 'D'), Nil);
    assert AddLine(t1, inner) == t1;
    assert Reload(t1, []) == t1 && Reload(t1, [inner]) == Reload(AddLine(t1, inner), []);
  }

  lemma {:induction false} NamesOfAddLine(t: Forest, line: Line)
    requires IsRoot(t) && line.parent in Names(t)
    ensures IsRoot(AddLine(t, line)) && Names(AddLine(t, line)) == Names(t) + {line.name}
  {
    if line.name !in Names(t) {
      AddLineIsGraft(t, line);
      NamesOfGraft(t, line.parent, Leaf(line.name, line.typ));
      GraftKeepsRoot(t, line.parent, Leaf(line.name, line.typ));
    }
  }

  /** Reloading saved lines reproduces exactly the saved names, duplicates or not. */
  lemma {:induction false} ReloadedNames(t: Forest, f: Forest, parent: string)
    requires IsRoot(t) && parent in Names(t)
    ensures IsRoot(Reload(t, Lines(f, parent)))
    ensures Names(Reload(t, Lines(f, parent))) == Names(t) + Names(f)
    decreases f
  {
    hide Reload, AddLine;
    ReloadKeepsRoot(t, Lines(f, parent));
    if f.Node? {
      ReloadLines(t, f, parent);
      var line := Line(f.name, parent, f.typ);
      NamesOfAddLine(t, line);
      RootIsNamed(t);
      var t1 := if f.name != ROOT_NAME then AddLine(t, line) else t;
      ReloadedNames(t1, f.child, f.name);
      ReloadedNames(Reload(t1, Lines(f.child, f.name)), f.sibling, parent);
    } else {
      ReloadNothing(t);
    }
  }

  lemma {:induction false} RootIsNamed(t: Forest)
    requires IsRoot(t)
    ensures ROOT_NAME in Names(t)
  {
  }

  lemma {:induction false} ReloadNothing(t: Forest)
    requires t.Node?
    ensures Reload(t, []) == t
  {
  }

  lemma {:induction false} FreshReloadNames(t: Forest)
    requires IsRoot(t)
    ensures Names(Reload(EmptyRoot(), SavedLines(t))) == Names(t)
  {
    ReloadedNames(EmptyRoot(), t, ROOT_NAME);
  }

  lemma {:induction false} KnownLinesChangeNothing(t: Forest, lines: seq<Line>)
    requires t.Node? && forall k :: 0 <= k < |lines| ==> lines[k].name in Names(t)
    ensures Reload(t, lines) == t
    decreases |lines|
  {
    if lines == [] {
    } else {
      KnownLinesChangeNothing(t, lines[1..]);
    }
  }

  lemma {:induction false} LinesNameNodes(f: Forest, parent: string)
    ensures forall k :: 0 <= k < |Lines(f, parent)| ==> Lines(f, parent)[k].name in Names(f)
  {
    if f == Nil {
    } else {
      LinesNameNodes(f.child, f.name);
      LinesNameNodes(f.sibling, parent);
    }
  }

  /** Reloading a tree's own saved lines into itself changes nothing, duplicates or not. */
  lemma {:induction false} SelfReload(t: Forest)
    requires IsRoot(t)
    ensures Reload(t, SavedLines(t)) == t
  {
    LinesNameNodes(t, ROOT_NAME);
    KnownLinesChangeNothing(t, SavedLines(t));
  }

  // ----- What the file says, and nothing else

  /** Trees side by side are saved one after the other, each with all that is below it. */
  lemma {:induction false} LinesOfAppend(f: Forest, g: Forest, parent: string)
    ensures Lines(Append(f, g), parent) == Lines(f, parent) + Lines(g, parent)
  {
    if f == Nil {
      assert Lines(Nil, parent) + Lines(g, parent) == Lines(g, parent);
    } else {
      LinesOfAppend(f.sibling, g, parent);
    }
  }

  ghost predicate Inserted(before: seq<Line>, after: seq<Line>, line: Line) {
    exists k :: 0 <= k <= |before| && after == before[..k] + [line] + before[k..]
  }

  lemma InsertedBetween(left: seq<Line>, before: seq<Line>, after: seq<Line>, right: seq<Line>, line: Line)
    requires Inserted(before, after, line)
    ensures Inserted(left + before + right, left + after + right, line)
  {
    var k :| 0 <= k <= |before| && after == before[..k] + [line] + before[k..];
    var all := left + before + right;
    assert all[..|left| + k] == left + before[..k];
    assert all[|left| + k..] == before[k..] + right;
    assert left + after + right == all[..|left| + k] + [line] + all[|left| + k..];
  }

  lemma {:induction false} LinesOfGraft(f: Forest, line: Line, parent: string)
    requires line.parent in Names(f) && line.name != ROOT_NAME
    ensures Inserted(Lines(f, parent), Lines(Graft(f, line.parent, Leaf(line.name, line.typ)), parent), line)
  {
    hide Inserted;
    var leaf := Leaf(line.name, line.typ);
    var own := if f.name != ROOT_NAME then [Line(f.name, parent, f.typ)] else [];
    var below, beside := Lines(f.child, f.name), Lines(f.sibling, parent);
    if f.name == line.parent {
      LinesOfAppend(f.child, leaf, f.name);
      LinesOfLeaf(line);
      InsertedAtEnd(below, line);
      InsertedBetween(own, below, below + [line], beside, line);
    } else if line.parent in Names(f.child) {
      LinesOfGraft(f.child, line, f.name);
      InsertedBetween(own, below, Lines(Graft(f.child, line.parent, leaf), f.name), beside, line);
    } else {
      LinesOfGraft(f.sibling, line, parent);
      var beside' := Lines(Graft(f.sibling, line.parent, leaf), parent);
      InsertedBetween(own + below, beside, beside', [], line);
      assert own + below + beside + [] == own + below + beside && own + below + beside' + [] == own + below + beside';
    }
  }

  lemma InsertedAtEnd(before: seq<Line>, line: Line)
    ensures Inserted(before, before + [line], line)
  {
    var k := |before|;
    assert before + [line] == before[..k] + [line] + before[k..];
  }

  lemma LinesOfLeaf(line: Line)
    requires line.name != ROOT_NAME
    ensures Lines(Leaf(line.name, line.typ), line.parent) == [line]
  {
    assert Lines(Nil, line.name) == [] && Lines(Nil, line.parent) == [];
  }

  /** Whether `reload` makes a node for a record, given the names that are in the tree. */
  predicate Accepts(names: set<string>, line: Line) {
    line.parent in names && line.name !in names
  }

  /**
   * One record: a known name or an unknown parent changes nothing, else exactly this record appears among
   * the saved lines and exactly its name among the names.
   */
  lemma {:induction false} AddLineInserts(t: Forest, line: Line)
    requires IsRoot(t)
    ensures line.parent !in Names(t) || line.name in Names(t) ==> AddLine(t, line) == t
    ensures line.parent in Names(t) && line.name !in Names(t) ==>
              && Inserted(SavedLines(t), SavedLines(AddLine(t, line)), line)
              && Names(AddLine(t, line)) == Names(t) + {line.name}
    ensures IsRoot(AddLine(t, line))
  {
    RootIsNamed(t);
    if line.parent in Names(t) && line.name !in Names(t) {
      AddLineIsGraft(t, line);
      LinesOfGraft(t, line, ROOT_NAME);
      NamesOfAddLine(t, line);
    }
  }

  /** The records that `reload` makes nodes for, found from the names alone. */
  function Accepted(names: set<string>, lines: seq<Line>): seq<Line>
    decreases |lines|
  {
    if lines == [] then []
    else if Accepts(names, lines[0]) then [lines[0]] + Accepted(names + {lines[0].name}, lines[1..])
    else Accepted(names, lines[1..])
  }

  function NamesIn(lines: seq<Line>): set<string> {
    set k | 0 <= k < |lines| :: lines[k].name
  }

  lemma NamesInCons(line: Line, lines: seq<Line>)
    ensures NamesIn([line] + lines) == {line.name} + NamesIn(lines)
  {
    var all := [line] + lines;
    assert all[0] == line && forall k :: 0 <= k < |lines| ==> all[k + 1] == lines[k];
    assert forall k :: 0 < k < |all| ==> all[k] == lines[k - 1];
  }

  lemma InsertedCount(before: seq<Line>, after: seq<Line>, line: Line)
    requires Inserted(before, after, line)
    ensures multiset(after) == multiset(before) + multiset{line}
  {
    var k :| 0 <= k <= |before| && after == before[..k] + [line] + before[k..];
    assert before == before[..k] + before[k..];
  }

  /**
   * `reload` of any records: the tree afterwards saves exactly what it saved before and the accepted
   * records, and has exactly their names in addition.
   */
  lemma {:induction false} ReloadAccepts(t: Forest, lines: seq<Line>)
    requires IsRoot(t)
    ensures multiset(SavedLines(Reload(t, lines))) == multiset(SavedLines(t)) + multiset(Accepted(Names(t), lines))
    ensures Names(Reload(t, lines)) == Names(t) + NamesIn(Accepted(Names(t), lines))
    decreases |lines|
  {
    hide SavedLines, AddLine, NamesIn, Inserted;
    if lines == [] {
      NothingIn();
    } else {
      AddLineInserts(t, lines[0]);
      ReloadAccepts(AddLine(t, lines[0]), lines[1..]);
      if Accepts(Names(t), lines[0]) {
        InsertedCount(SavedLines(t), SavedLines(AddLine(t, lines[0])), lines[0]);
        NamesInCons(lines[0], Accepted(Names(t) + {lines[0].name}, lines[1..]));
        FirstCounts(lines[0], Accepted(Names(t) + {lines[0].name}, lines[1..]));
      }
    }
  }

  lemma FirstCounts(line: Line, lines: seq<Line>)
    ensures multiset([line] + lines) == multiset{line} + multiset(lines)
  {
  }

  lemma NothingIn()
    ensures NamesIn([]) == {}
  {
  }

  lemma {:induction false} AcceptedAreRecords(names: set<string>, lines: seq<Line>)
    ensures forall k :: 0 <= k < |Accepted(names, lines)| ==> Accepted(names, lines)[k] in lines
    decreases |lines|
  {
    if lines == [] {
    } else {
      AcceptedAreRecords(names, lines[1..]);
      AcceptedAreRecords(names + {lines[0].name}, lines[1..]);
    }
  }

  /** Nothing appears in the tree that was not there and is not in the file. */
  lemma {:induction false} ReloadAddsNothing(t: Forest, lines: seq<Line>, line: Line)
    requires IsRoot(t) && line in SavedLines(Reload(t, lines))
    ensures line in SavedLines(t) || line in lines
  {
    ReloadAccepts(t, lines);
    AcceptedAreRecords(Names(t), lines);
    assert line in multiset(SavedLines(Reload(t, lines)));
    if line !in SavedLines(t) {
      assert line in multiset(Accepted(Names(t), lines));
      assert line in Accepted(Names(t), lines);
    }
  }
}
