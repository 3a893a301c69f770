// Laws that span several commands: which sessions keep names unique, and when rmdir undoes mkdir.
module FsLaws {
  import opened Wrappers
  import opened FsTree
  import opened SaveFile
  import opened FsShape
  import opened FsUpdates
  import opened FsLinks
  import opened FileSystem

  // ----- A change at one node, seen from the root

  lemma {:induction false} RootIsTop(sh: Shape, a: TreeNode)
    requires Ok(sh) && sh.root in sh.nodes && a != sh.root
    ensures !Under(sh, a, sh.root)
  {
  }

  /** A proper descendant is below one of the children. */
  lemma {:induction false} BelowKid(sh: Shape, a: TreeNode, n: TreeNode) returns (k: nat)
    requires Ok(sh) && n in sh.nodes && a in sh.nodes && a != n && Under(sh, a, n)
    ensures k < |sh.nodes[a].kids| && sh.nodes[a].kids[k] in sh.nodes && Under(sh, sh.nodes[a].kids[k], n)
    decreases sh.nodes[n].stamp
  {
    hide Ok, Under;
    if n == sh.root {
      RootIsTop(sh, a);
    }
    ParentIsOlder(sh, n);
    var p := sh.nodes[n].parent;
    if p == a {
      k :| 0 <= k < |sh.nodes[a].kids| && sh.nodes[a].kids[k] == n;
      UnderSelf(sh, n);
    } else {
      UnderParent(sh, a, n);
      k := BelowKid(sh, a, p);
      KidAt(sh, a, k);
      if sh.nodes[a].kids[k] != n {
        UnderParent(sh, sh.nodes[a].kids[k], n);
      } else {
        UnderSelf(sh, n);
      }
    }
  }

  function Size(f: Forest): nat {
    match f
    case Nil => 0
    case Node(_, _, child, sibling) => 1 + Size(child) + Size(sibling)
  }

  datatype Change = Gain(name: string) | Loss

  /**
   * What a command that adds or removes a node does to the names: one that gains a name keeps names
   * distinct exactly when the name is new, one that loses nodes cannot make names equal.
   */
  ghost predicate Changed(c: Change, before: Forest, after: Forest) {
    match c
    case Gain(name) =>
      && Names(after) == Names(before) + {name}
      && (DistinctNames(after) <==> DistinctNames(before) && name !in Names(before))
    case Loss =>
      && Size(after) < Size(before)
      && Names(after) <= Names(before)
      && (DistinctNames(before) ==> DistinctNames(after))
  }

  lemma ChangedBelow(c: Change, name: string, typ: char, typ': char,
                     child: Forest, child': Forest, sibling: Forest)
    requires Changed(c, child, child')
    ensures Changed(c, Node(name, typ, child, sibling), Node(name, typ', child', sibling))
  {
  }

  lemma ChangedBeside(c: Change, name: string, typ: char,
                      child: Forest, sibling: Forest, sibling': Forest)
    requires Changed(c, sibling, sibling')
    ensures Changed(c, Node(name, typ, child, sibling), Node(name, typ, child, sibling'))
  {
  }

  /** A change at p has the same effect on every forest that contains p. */
  lemma {:induction false} ChangedFrom(sh: Shape, sh': Shape, q: TreeNode, i: nat, j: nat, p: TreeNode, c: Change)
    requires Ok(sh) && Ok(sh') && OnlyAt(sh, sh', p) && p in sh.nodes && p in sh'.nodes
    requires Changed(c, ForestFrom(sh, p, 0), ForestFrom(sh', p, 0))
    requires q in sh.nodes && q in sh'.nodes && i <= j < |sh.nodes[q].kids| && Under(sh, sh.nodes[q].kids[j], p)
    ensures q != p && sh'.nodes[q] == sh.nodes[q]
    ensures Changed(c, ForestFrom(sh, q, i), ForestFrom(sh', q, i))
    decreases sh.bound - sh.nodes[q].stamp, |sh.nodes[q].kids| - i
  {
    hide Ok, OnlyAt, Under, Changed;
    BranchOf(sh, q, j, p);
    SameEntry(sh, sh', p, q);
    KidAt(sh, q, i);
    KidAt(sh', q, i);
    var d := sh.nodes[q].kids[i];
    SameEntry(sh, sh', p, d);
    if i < j {
      UnderSelf(sh, p);
      NotBelow(sh, d, p);
      Unaffected(sh, sh', p, d, 0);
      ChangedFrom(sh, sh', q, i + 1, j, p, c);
      ChangedBeside(c, sh.nodes[d].name, sh.nodes[d].typ, ForestFrom(sh, d, 0),
                    ForestFrom(sh, q, i + 1), ForestFrom(sh', q, i + 1));
    } else {
      Unaffected(sh, sh', p, q, i + 1);
      if d != p {
        var k := BelowKid(sh, d, p);
        ChangedFrom(sh, sh', d, 0, k, p, c);
      }
      ChangedBelow(c, sh.nodes[d].name, sh.nodes[d].typ, sh'.nodes[d].typ,
                   ForestFrom(sh, d, 0), ForestFrom(sh', d, 0), ForestFrom(sh, q, i + 1));
    }
  }

  lemma {:induction false} ChangedTree(sh: Shape, sh': Shape, p: TreeNode, c: Change)
    requires Ok(sh) && Ok(sh') && OnlyAt(sh, sh', p) && p in sh.nodes && p in sh'.nodes
    requires sh.root in sh.nodes && sh.root in sh'.nodes
    requires Changed(c, ForestFrom(sh, p, 0), ForestFrom(sh', p, 0))
    ensures Changed(c, TreeAt(sh, sh.root), TreeAt(sh', sh.root))
  {
    hide Ok, OnlyAt, Under, Changed;
    SameEntry(sh, sh', p, sh.root);
    if p != sh.root {
      AllUnderRoot(sh, p);
      var k := BelowKid(sh, sh.root, p);
      ChangedFrom(sh, sh', sh.root, 0, k, p, c);
    }
    ChangedBelow(c, sh.nodes[sh.root].name, sh.nodes[sh.root].typ, sh'.nodes[sh.root].typ,
                 ForestFrom(sh, sh.root, 0), ForestFrom(sh', sh.root, 0), Nil);
  }

  // ----- mkdir and creat gain a name, rmdir and rm lose nodes

  lemma LeafInFront(f: Forest, name: string, typ: char)
    ensures Changed(Gain(name), f, Node(name, typ, Nil, f))
  {
  }

  lemma GainsName(sh: Shape, p: TreeNode, x: TreeNode, name: string, typ: char)
    requires Ok(sh) && sh.root in sh.nodes && p in sh.nodes && x !in sh.nodes
    ensures var sh' := Added(sh, p, 0, x, name, typ);
            && Ok(sh') && sh.root in sh'.nodes
            && Changed(Gain(name), TreeAt(sh, sh.root), TreeAt(sh', sh.root))
  {
    hide Ok, OnlyAt, Changed;
    var sh' := Added(sh, p, 0, x, name, typ);
    AddedOnlyAt(sh, p, 0, x, name, typ);
    ForestOfAddedFirst(sh, p, x, name, typ);
    LeafInFront(ForestFrom(sh, p, 0), name, typ);
    ChangedTree(sh, sh', p, Gain(name));
  }

  lemma {:induction false} WithoutIsLoss(sh: Shape, p: TreeNode, i: nat, k: nat)
    requires Ok(sh) && p in sh.nodes && k <= i < |sh.nodes[p].kids|
    ensures Changed(Loss, ForestFrom(sh, p, k), Without(ForestFrom(sh, p, k), i - k))
    decreases i - k
  {
    hide Ok;
    KidAt(sh, p, k);
    if k == i {
    } else {
      var c := sh.nodes[p].kids[k];
      var rest := ForestFrom(sh, p, k + 1);
      WithoutIsLoss(sh, p, i, k + 1);
      ChangedBeside(Loss, sh.nodes[c].name, sh.nodes[c].typ, ForestFrom(sh, c, 0), rest, Without(rest, i - k - 1));
    }
  }

  lemma LosesNodes(sh: Shape, p: TreeNode, i: nat)
    requires Ok(sh) && sh.root in sh.nodes && p in sh.nodes && i < |sh.nodes[p].kids|
    ensures var sh' := Removed(sh, p, i);
            && Ok(sh') && sh'.root == sh.root && sh.root in sh'.nodes
            && Changed(Loss, TreeAt(sh, sh.root), TreeAt(sh', sh.root))
  {
    hide Ok, OnlyAt, Under, Changed;
    var sh' := Removed(sh, p, i);
    RemovedOk(sh, p, i);
    RemovedOnlyAt(sh, p, i);
    RemovedKeeps(sh, p, i);
    ForestOfRemoved(sh, p, i, 0);
    WithoutIsLoss(sh, p, i, 0);
    ChangedTree(sh, sh', p, Loss);
  }

  // ----- Which sessions keep names unique

  /** A new node gets a name that occurs in the tree, but not where `mkdir` and `creat` look for it. */
  ghost predicate MakesNamesake(c: Command, s: Snapshot)
    requires SnapshotOk(s)
  {
    (c.MkdirCmd? || c.CreatCmd?) && !Duplicate(s.sh, s.cwd, c.name) && c.name in Names(TreeOf(s))
  }

  lemma MadeNames(s: Snapshot, t: Snapshot, name: string, typ: char)
    requires SnapshotOk(s) && SnapshotOk(t) && MakesNode(s, t, name, typ)
    ensures if Duplicate(s.sh, s.cwd, name) then TreeOf(t) == TreeOf(s)
            else Changed(Gain(name), TreeOf(s), TreeOf(t))
  {
    hide Ok, Changed, Duplicate;
    if !Duplicate(s.sh, s.cwd, name) {
      var x :| x in t.sh.nodes && x !in s.sh.nodes && t.sh == Added(s.sh, s.cwd, 0, x, name, typ);
      GainsName(s.sh, s.cwd, x, name, typ);
    }
  }

  /** Exactly when a command keeps the names of a tree unique. */
  lemma NextNames(c: Command, s: Snapshot, t: Snapshot)
    requires SnapshotOk(s) && SnapshotOk(t) && Next(c, s, t)
    ensures DistinctNames(TreeOf(s)) ==> (DistinctNames(TreeOf(t)) <==> !MakesNamesake(c, s))
    ensures c.MkdirCmd? || c.CreatCmd? ==> DistinctNames(TreeOf(t)) ==> DistinctNames(TreeOf(s))
  {
    hide Ok, Duplicate, KidIndex, Removed, TreeAt, Names, DistinctNames;
    match c {
      case MkdirCmd(name) => MadeNames(s, t, name, 'D');
      case CreatCmd(name) => MadeNames(s, t, name, 'F');
      case RmdirCmd(name) =>
        if CanRmdir(s.sh, s.cwd, name) {
          LosesNodes(s.sh, s.cwd, KidIndex(s.sh, s.cwd, 0, name, true));
        }
      case RmCmd(name) =>
        if CanRm(s.sh, s.cwd, name) {
          LosesNodes(s.sh, s.cwd, KidIndex(s.sh, s.cwd, 0, name, false));
        }
      case CdCmd(_) =>
      case ReloadCmd =>
        TreeIsRooted(s);
        ReloadRecords(TreeOf(s), ParseText(s.file.value));
        if DistinctNames(TreeOf(s)) {
          ReloadKeepsDistinct(TreeOf(s), Records(ParseText(s.file.value)));
        }
      case SaveCmd =>
      case QuitCmd =>
    }
  }

  lemma TreeIsRooted(s: Snapshot)
    requires SnapshotOk(s)
    ensures IsRoot(TreeOf(s))
  {
  }

  /** Up to its n-th command a session keeps names unique iff no command so far makes a namesake. */
  lemma {:induction false} SessionNames(run: seq<Snapshot>, commands: seq<Command>, n: nat)
    requires IsRun(run, commands) && n <= |commands| && DistinctNames(TreeOf(run[0]))
    ensures (forall i :: 0 <= i <= n ==> DistinctNames(TreeOf(run[i])))
            <==> (forall i :: 0 <= i < n ==> !MakesNamesake(commands[i], run[i]))
  {
    hide SnapshotOk, Next, MakesNamesake, DistinctNames, TreeOf;
    if n == 0 {
    } else {
      SessionNames(run, commands, n - 1);
      assert Next(commands[n - 1], run[n - 1], run[n - 1 + 1]);
      if DistinctNames(TreeOf(run[n - 1])) {
        NextNames(commands[n - 1], run[n - 1], run[n]);
      }
    }
  }

  /**
   * The save file of a session that starts in a tree with unique names can be trusted after every
   * command, in that reloading it into a fresh root restores the tree, iff no command makes a namesake.
   */
  lemma SessionRoundTrip(run: seq<Snapshot>, commands: seq<Command>)
    requires IsRun(run, commands) && DistinctNames(TreeOf(run[0]))
    ensures (forall i :: 0 <= i <= |commands| ==> Reload(EmptyRoot(), SavedLines(TreeOf(run[i]))) == TreeOf(run[i]))
            <==> (forall i :: 0 <= i < |commands| ==> !MakesNamesake(commands[i], run[i]))
  {
    hide SnapshotOk, Next, MakesNamesake, DistinctNames, TreeOf, Reload, SavedLines;
    SessionNames(run, commands, |commands|);
    forall i | 0 <= i <= |commands|
      ensures Reload(EmptyRoot(), SavedLines(TreeOf(run[i]))) == TreeOf(run[i]) <==> DistinctNames(TreeOf(run[i]))
    {
      TreeIsRooted(run[i]);
      RoundTrip(TreeOf(run[i]));
    }
  }

  // ----- The save file over a session

  /** The number of the last command before the n-th that writes the save file. */
  function LastSave(commands: seq<Command>, n: nat): Option<nat>
    requires n <= |commands|
  {
    if n == 0 then None
    else if commands[n - 1].SaveCmd? || commands[n - 1].QuitCmd? then Some(n - 1)
    else LastSave(commands, n - 1)
  }

  /** The save file is the text of the tree as it was when it was last saved, whatever happened since. */
  lemma {:induction false} FileIsLastSave(run: seq<Snapshot>, commands: seq<Command>, n: nat)
    requires IsRun(run, commands) && n <= |commands|
    ensures LastSave(commands, n).Some? ==> LastSave(commands, n).value < n
    ensures run[n].file ==
            if LastSave(commands, n) == None then run[0].file
            else Some(Text(SavedLines(TreeOf(run[LastSave(commands, n).value]))))
  {
    hide SnapshotOk, TreeOf, MakesNode, CanRmdir, CanRm, CdTarget, Duplicate, ReloadParsed, ParseText, Text, SavedLines;
    if n == 0 {
    } else {
      FileIsLastSave(run, commands, n - 1);
      assert Next(commands[n - 1], run[n - 1], run[n - 1 + 1]);
    }
  }

  /**
   * A session that ends with `quit`, and a `reload` in a session that starts afresh with the file it left:
   * for names that fit the format the tree is there again exactly if its names are unique.
   */
  lemma QuitAndRestart(run: seq<Snapshot>, commands: seq<Command>, restart: seq<Snapshot>)
    requires IsRun(run, commands) && commands != [] && commands[|commands| - 1] == QuitCmd
    requires IsRun(restart, [ReloadCmd]) && restart[0].file == run[|commands|].file
    requires TreeOf(restart[0]) == EmptyRoot() && CleanForest(TreeOf(run[|commands|]))
    ensures TreeOf(restart[1]) == TreeOf(run[|commands|]) <==> DistinctNames(TreeOf(run[|commands|]))
  {
    hide SnapshotOk, MakesNode, CanRmdir, CanRm, CdTarget, Duplicate, ReloadParsed, ParseText, Text, Reload,
      CleanForest, DistinctNames, TreeAt;
    var n := |commands|;
    var t := TreeOf(run[n]);
    assert Next(commands[n - 1], run[n - 1], run[n - 1 + 1]);
    assert Next([ReloadCmd][0], restart[0], restart[0 + 1]);
    TreeIsRooted(run[n]);
    RootIsClean(t);
    LinesAreClean(t, ROOT_NAME);
    CleanTextRuns(EmptyRoot(), SavedLines(t));
    RoundTrip(t);
  }

  lemma {:induction false} RootIsClean(t: Forest)
    requires CleanForest(t)
    ensures CleanName(ROOT_NAME)
  {
  }

  /**
   * `mkdir` keeps names unique exactly if it is refused or the new name is nowhere in the tree; it
   * looks for the name only at the first child of cwd and below it.
   */
  method MkdirNames(fs: FileSystem, name: string) returns (r: Outcome)
    requires fs.Valid()
    modifies fs, fs.sh.nodes.Keys
    ensures fs.Valid()
    ensures DistinctNames(fs.Tree())
            <==> old(DistinctNames(fs.Tree()) && (fs.IsDuplicate(name) || name !in Names(fs.Tree())))
  {
    hide Ok, Linked, Duplicate, TreeAt, Added;
    ghost var before, cwd := fs.sh, fs.cwd;
    fs.RootFacts();
    r := fs.Mkdir(name);
    if r == Done {
      GainsName(before, cwd, fs.cwd.child, name, 'D');
    }
  }

  /** The same for `creat`. */
  method CreatNames(fs: FileSystem, name: string) returns (r: Outcome)
    requires fs.Valid()
    modifies fs, fs.sh.nodes.Keys
    ensures fs.Valid()
    ensures DistinctNames(fs.Tree())
            <==> old(DistinctNames(fs.Tree()) && (fs.IsDuplicate(name) || name !in Names(fs.Tree())))
  {
    hide Ok, Linked, Duplicate, TreeAt, Added;
    ghost var before, cwd := fs.sh, fs.cwd;
    fs.RootFacts();
    r := fs.Creat(name);
    if r == Done {
      GainsName(before, cwd, fs.cwd.child, name, 'F');
    }
  }

  lemma {:induction false} FirstMatches(sh: Shape, p: TreeNode, name: string, dirsOnly: bool)
    requires Ok(sh) && p in sh.nodes && sh.nodes[p].kids != [] && sh.nodes[p].kids[0] in sh.nodes
    requires Matches(sh.nodes[sh.nodes[p].kids[0]], name, dirsOnly)
    ensures KidIndex(sh, p, 0, name, dirsOnly) == 0
  {
    hide Ok;
  }

  lemma AddedEntries(sh: Shape, p: TreeNode, x: TreeNode, name: string, typ: char)
    requires p in sh.nodes && x !in sh.nodes
    ensures var made := Added(sh, p, 0, x, name, typ);
            && made.nodes.Keys == sh.nodes.Keys + {x} && made.root == sh.root
            && made.nodes[p].kids == [x] + sh.nodes[p].kids
            && made.nodes[x] == Entry(name, typ, p, [], sh.bound)
  {
  }

  /** The tree after adding x below a childless root, and y below x. */
  lemma TwoDeep(sh: Shape, x: TreeNode, y: TreeNode, name: string)
    requires Ok(sh) && sh.root in sh.nodes && sh.nodes[sh.root].kids == []
    requires x !in sh.nodes && y !in sh.nodes && x != y
    ensures var sh1 := Added(sh, sh.root, 0, x, name, 'D');
            && x in sh1.nodes && sh1.nodes[x].kids == []
            && var sh2 := Added(sh1, x, 0, y, name, 'D');
            && Ok(sh1) && Ok(sh2) && sh.root in sh2.nodes
            && TreeAt(sh2, sh.root) ==
               Node(sh.nodes[sh.root].name, sh.nodes[sh.root].typ, Node(name, 'D', Leaf(name, 'D'), Nil), Nil)
  {
    hide Ok;
    AddedOk(sh, sh.root, 0, x, name, 'D');
    var sh1 := Added(sh, sh.root, 0, x, name, 'D');
    AddedOk(sh1, x, 0, y, name, 'D');
    ForestOfAddedFirst(sh1, x, y, name, 'D');
    var sh2 := Added(sh1, x, 0, y, name, 'D');
    assert sh2.nodes[sh.root].kids == [x];
    assert ForestFrom(sh2, sh.root, 1) == Nil;
  }

  lemma NoKids(sh: Shape, n: TreeNode)
    requires Ok(sh) && n in sh.nodes && TreeAt(sh, n).child == Nil
    ensures sh.nodes[n].kids == []
  {
  }

  /** A directory `a` inside a directory `a`, made by three commands in the initial tree. */
  method NestedDuplicate() returns (fs: FileSystem)
    ensures fs.Valid() && fresh(fs)
    ensures fs.Tree() == Node(ROOT_NAME, 'D', Node("a", 'D', Leaf("a", 'D'), Nil), Nil)
    ensures !DistinctNames(fs.Tree())
    ensures Reload(EmptyRoot(), SavedLines(fs.Tree())) != fs.Tree()
  {
    hide Ok, Linked, Added, ForestFrom, KidIndex, Reload, SavedLines;
    fs := new FileSystem.Initialize(None);
    fs.RootFacts();
    NoKids(fs.sh, fs.root);
    ghost var sh0 := fs.sh;
    var r := fs.Mkdir("a");
    var x := fs.cwd.child;
    AddedEntries(sh0, fs.root, x, "a", 'D');
    FirstMatches(fs.sh, fs.root, "a", false);
    var _ := fs.Cd(Some("a"));
    ghost var sh1 := fs.sh;
    r := fs.Mkdir("a");
    AddedEntries(sh1, x, fs.cwd.child, "a", 'D');
    TwoDeep(sh0, x, fs.cwd.child, "a");
    NestedDuplicateIsLost();
  }

  /** `creat a`, `creat b`, `creat a`: the search below the first child b does not see its sibling a. */
  method SiblingDuplicate() returns (fs: FileSystem)
    ensures fs.Valid() && fresh(fs)
    ensures fs.Tree() == Node(ROOT_NAME, 'D', Node("a", 'F', Nil, Node("b", 'F', Nil, Leaf("a", 'F'))), Nil)
  {
    hide Ok, Linked, Added, ForestFrom, KidIndex, Duplicate;
    fs := new FileSystem.Initialize(None);
    fs.RootFacts();
    DuplicateIff(fs.sh, fs.root, "a");
    ghost var sh := fs.sh;
    var r := fs.Creat("a");
    AddedEntries(sh, fs.root, fs.cwd.child, "a", 'F');
    DuplicateIff(fs.sh, fs.root, "b");
    sh := fs.sh;
    r := fs.Creat("b");
    AddedEntries(sh, fs.root, fs.cwd.child, "b", 'F');
    DuplicateIff(fs.sh, fs.root, "a");
    r := fs.Creat("a");
  }

  const COMMA_LINE: Line := Line("x,y", ROOT_NAME, 'D')

  lemma FormatComma()
    ensures Text([COMMA_LINE]) == "x,y,/,D\n"
  {
    assert Format(COMMA_LINE) == "x,y,/,D\n";
    assert [COMMA_LINE][1..] == [] && Text([]) == "";
  }

  lemma FgetsTakesBody(body: string)
    requires |body| < 255 && '\n' !in body
    ensures FgetsLength(body + ['\n']) == |body| + 1
  {
    UpToFirst(body, '\n', []);
    assert body + ['\n'] + [] == body + ['\n'];
  }

  lemma {:induction false} ParseOneBuffer(body: string)
    requires |body| < 255 && '\n' !in body
    ensures ParseText(body + ['\n']) == [ParseLine(body + ['\n'])]
  {
    hide FgetsLength, ParseLine;
    var text := body + ['\n'];
    FgetsTakesBody(body);
    assert text[..|body| + 1] == text && text[|body| + 1..] == [];
  }

  lemma ParseComma()
    ensures ParseText("x,y,/,D\n") == [Record(Line("x", "y", '/'))]
  {
    hide ParseLine, ParseText;
    ParseOneBuffer("x,y,/,D");
    assert "x,y,/,D" + ['\n'] == "x,y,/,D\n";
    ParseRecord([], "x", [], "y", [], "/,D\n");
    assert [] + "x" + [','] + ([] + "y" + [','] + ([] + "/,D\n")) == "x,y,/,D\n";
  }

  lemma SkipsOrphan()
    ensures ReloadParsed(EmptyRoot(), [Record(Line("x", "y", '/'))]) == Some(EmptyRoot())
  {
    var p := [Record(Line("x", "y", '/'))];
    assert p[1..] == [] && ReloadParsed(EmptyRoot(), []) == Some(EmptyRoot());
    assert AddLine(EmptyRoot(), Line("x", "y", '/')) == EmptyRoot();
  }

  method SaveComma() returns (text: string)
    ensures text == "x,y,/,D\n"
  {
    hide Ok, Linked, Added, ForestFrom, KidIndex, Duplicate, Text, Lines, MakesNode;
    var fs := new FileSystem.Initialize(None);
    fs.RootFacts();
    DuplicateIff(fs.sh, fs.root, "x,y");
    ghost var sh := fs.sh;
    var r := fs.Mkdir("x,y");
    AddedEntries(sh, fs.root, fs.cwd.child, "x,y", 'D');
    assert fs.Tree() == Node(ROOT_NAME, 'D', Leaf("x,y", 'D'), Nil);
    LinesOfLeaf(COMMA_LINE);
    TopLines(Leaf("x,y", 'D'));
    FormatComma();
    var ok := fs.Execute(QuitCmd);
    text := fs.file.value;
  }

  /**
   * `mkdir x,y`, `quit`, and a `reload` in a new session: the saved line reads as a node x with the parent
   * y, which does not exist, so that nothing comes back.
   */
  method CommaIsLost() returns (fs: FileSystem, ok: bool)
    ensures fs.Valid() && fresh(fs) && ok
    ensures fs.file == Some("x,y,/,D\n") && fs.Tree() == EmptyRoot()
  {
    hide Ok, Linked, TreeAt, ParseText, ReloadParsed, MakesNode;
    var text := SaveComma();
    fs := new FileSystem.Initialize(Some(text));
    ParseComma();
    SkipsOrphan();
    ok := fs.Execute(ReloadCmd);
  }

  // ----- rmdir undoes mkdir

  lemma {:induction false} OnlyItself(sh: Shape, p: TreeNode, at: nat, x: TreeNode, name: string, typ: char, n: TreeNode)
    requires Ok(sh) && p in sh.nodes && at <= |sh.nodes[p].kids| && x !in sh.nodes && n in sh.nodes
    ensures Ok(Added(sh, p, at, x, name, typ))
    ensures !Under(Added(sh, p, at, x, name, typ), x, n)
    decreases sh.nodes[n].stamp
  {
    hide Ok, Under;
    var sh' := Added(sh, p, at, x, name, typ);
    AddedOk(sh, p, at, x, name, typ);
    if n == sh.root {
      RootIsTop(sh', x);
    } else {
      ParentIsOlder(sh, n);
      OnlyItself(sh, p, at, x, name, typ, sh.nodes[n].parent);
      UnderParent(sh', x, n);
    }
  }

  lemma {:induction false} SameForest(sh: Shape, sh': Shape, p: TreeNode, i: nat)
    requires Ok(sh) && Ok(sh') && sh'.nodes == sh.nodes
    requires p in sh.nodes && i <= |sh.nodes[p].kids|
    ensures ForestFrom(sh', p, i) == ForestFrom(sh, p, i)
    decreases sh.bound - sh.nodes[p].stamp, |sh.nodes[p].kids| - i
  {
    hide Ok;
    if i == |sh.nodes[p].kids| {
    } else {
      KidAt(sh, p, i);
      SameForest(sh, sh', sh.nodes[p].kids[i], 0);
      SameForest(sh, sh', p, i + 1);
    }
  }

  lemma UndoneNodes(sh: Shape, p: TreeNode, x: TreeNode, name: string, typ: char)
    requires Ok(sh) && p in sh.nodes && x !in sh.nodes
    ensures var made := Added(sh, p, 0, x, name, typ);
            && Ok(made) && p in made.nodes && made.nodes[p].kids == [x] + sh.nodes[p].kids
            && Removed(made, p, 0).nodes == sh.nodes && Removed(made, p, 0).root == sh.root
  {
    hide Ok, Under;
    var made := Added(sh, p, 0, x, name, typ);
    AddedOk(sh, p, 0, x, name, typ);
    AddedEntries(sh, p, x, name, typ);
    UnderSelf(made, x);
    var undone := Removed(made, p, 0);
    forall n | n in made.nodes ensures n in undone.nodes <==> n in sh.nodes {
      if n != x {
        OnlyItself(sh, p, 0, x, name, typ, n);
      }
    }
    assert undone.nodes.Keys == sh.nodes.Keys;
    assert made.nodes[p].kids[..0] + made.nodes[p].kids[1..] == sh.nodes[p].kids;
  }

  /** `rmdir` finds the new empty directory first, and without it the nodes are the old ones. */
  lemma {:induction false} RemovedAdded(sh: Shape, p: TreeNode, x: TreeNode, name: string)
    requires Ok(sh) && p in sh.nodes && x !in sh.nodes
    ensures var made := Added(sh, p, 0, x, name, 'D');
            && Ok(made) && p in made.nodes && made.nodes[p].kids == [x] + sh.nodes[p].kids
            && x in made.nodes && made.nodes[x].kids == []
            && KidIndex(made, p, 0, name, true) == 0
            && Removed(made, p, 0).nodes == sh.nodes && Removed(made, p, 0).root == sh.root
  {
    hide Ok, Added, Removed, KidIndex;
    UndoneNodes(sh, p, x, name, 'D');
    AddedEntries(sh, p, x, name, 'D');
    FirstMatches(Added(sh, p, 0, x, name, 'D'), p, name, true);
  }

  /** Equal nodes make equal trees, whatever is still to be created. */
  lemma SameNodesSameTree(sh: Shape, sh': Shape, n: TreeNode)
    requires Ok(sh) && Ok(sh') && n in sh.nodes && sh'.nodes == sh.nodes
    ensures TreeAt(sh', n) == TreeAt(sh, n)
  {
    hide Ok;
    SameForest(sh, sh', n, 0);
  }

  /**
   * `mkdir name` and then `rmdir name` leave nodes and tree as they were, exactly unless `mkdir` is
   * refused and cwd had an empty directory of that name to remove.
   */
  method MkdirThenRmdir(fs: FileSystem, name: string)
    requires fs.Valid()
    modifies fs, fs.sh.nodes.Keys
    ensures fs.Valid() && fs.root == old(fs.root) && fs.cwd == old(fs.cwd)
    ensures fs.sh.nodes == old(fs.sh.nodes) <==> old(fs.IsDuplicate(name) ==> !CanRmdir(fs.sh, fs.cwd, name))
    ensures fs.Tree() == old(fs.Tree()) <==> old(fs.IsDuplicate(name) ==> !CanRmdir(fs.sh, fs.cwd, name))
  {
    hide Ok, Linked, Duplicate, TreeAt, Added, Removed, KidIndex;
    ghost var before, cwd := fs.sh, fs.cwd;
    fs.RootFacts();
    var made := fs.Mkdir(name);
    if made == Done {
      AddedEntries(before, cwd, fs.cwd.child, name, 'D');
      RemovedAdded(before, cwd, fs.cwd.child, name);
    } else if CanRmdir(before, cwd, name) {
      LosesNodes(before, cwd, KidIndex(before, cwd, 0, name, true));
      RemovedOk(before, cwd, KidIndex(before, cwd, 0, name, true));
    }
    var _ := fs.Rmdir(name);
    if fs.sh.nodes == before.nodes {
      SameNodesSameTree(before, fs.sh, fs.root);
    }
  }

  lemma NoDuplicate(sh: Shape, cwd: TreeNode, name: string)
    requires Ok(sh) && cwd in sh.nodes && sh.nodes[cwd].kids == []
    ensures !Duplicate(sh, cwd, name)
  {
  }

  lemma FirstIsDuplicate(sh: Shape, cwd: TreeNode, name: string)
    requires Ok(sh) && cwd in sh.nodes && sh.nodes[cwd].kids != [] && sh.nodes[cwd].kids[0] in sh.nodes
    requires sh.nodes[sh.nodes[cwd].kids[0]].name == name
    ensures Duplicate(sh, cwd, name)
  {
    hide Ok;
  }

  /**
   * `mkdir a` and then again `mkdir a`, `rmdir a`: the tree after the first command is not restored,
   * because the second makes nothing and the third removes the directory of the first.
   */
  method OlderDirectoryIsRemoved() returns (fs: FileSystem)
    ensures fs.Valid() && fresh(fs)
    ensures fs.Tree() == EmptyRoot() != Node(ROOT_NAME, 'D', Leaf("a", 'D'), Nil)
  {
    hide Ok, Linked, Added, Removed, KidIndex, Duplicate, ForestFrom;
    fs := new FileSystem.Initialize(None);
    fs.RootFacts();
    NoKids(fs.sh, fs.root);
    NoDuplicate(fs.sh, fs.root, "a");
    ghost var sh0 := fs.sh;
    var r := fs.Mkdir("a");
    AddedEntries(sh0, fs.root, fs.cwd.child, "a", 'D');
    FirstMatches(fs.sh, fs.root, "a", true);
    FirstIsDuplicate(fs.sh, fs.root, "a");
    assert fs.Tree() == Node(ROOT_NAME, 'D', Leaf("a", 'D'), Nil);
    r := fs.Mkdir("a");
    assert r == AlreadyExists;
    r := fs.Rmdir("a");
  }
}
