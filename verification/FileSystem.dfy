// The file-system commands on the linked tree in the heap.
module FileSystem {
  import opened Wrappers
  import opened FsTree
  import opened SaveFile
  import opened FsShape
  import opened FsUpdates
  import opened FsLinks

  /** What a command reports. */
  datatype Outcome = Done | AlreadyExists | NotFound | NotEmpty | NotAFile | NotADirectory

  /** The commands that change or save the tree. */
  datatype Command =
    | MkdirCmd(name: string)
    | CreatCmd(name: string)
    | RmdirCmd(name: string)
    | RmCmd(name: string)
    | CdCmd(target: Option<string>)
    | ReloadCmd
    | SaveCmd
    | QuitCmd

  predicate Matches(e: Entry, name: string, dirsOnly: bool) {
    e.name == name && (dirsOnly ==> e.typ == 'D')
  }

  /** The first child of p, from position i on, with this name; directories only if asked for. */
  ghost function KidIndex(sh: Shape, p: TreeNode, i: nat, name: string, dirsOnly: bool): (k: nat)
    requires Ok(sh) && p in sh.nodes && i <= |sh.nodes[p].kids|
    ensures i <= k <= |sh.nodes[p].kids|
    decreases |sh.nodes[p].kids| - i
  {
    if i == |sh.nodes[p].kids| then i
    else
      KidAt(sh, p, i);
      if Matches(sh.nodes[sh.nodes[p].kids[i]], name, dirsOnly) then i
      else KidIndex(sh, p, i + 1, name, dirsOnly)
  }

  /** `KidIndex` is the first match, or the number of children if there is none. */
  lemma {:induction false} KidIndexIsFirst(sh: Shape, p: TreeNode, i: nat, name: string, dirsOnly: bool, j: nat)
    requires Ok(sh) && p in sh.nodes && i <= j < |sh.nodes[p].kids|
    ensures sh.nodes[p].kids[j] in sh.nodes
    ensures var k, e := KidIndex(sh, p, i, name, dirsOnly), sh.nodes[sh.nodes[p].kids[j]];
            && (j < k ==> e.name != name || (dirsOnly && e.typ != 'D'))
            && (j == k ==> e.name == name && (dirsOnly ==> e.typ == 'D'))
    decreases |sh.nodes[p].kids| - i
  {
    hide Ok;
    KidAt(sh, p, i);
    KidAt(sh, p, j);
    if i == j {
    } else {
      KidIndexIsFirst(sh, p, i + 1, name, dirsOnly, j);
    }
  }

  /** `mkdir` and `creat` look for the name only at the first child of cwd and below it. */
  ghost predicate Duplicate(sh: Shape, cwd: TreeNode, name: string)
    requires Ok(sh) && cwd in sh.nodes
  {
    sh.nodes[cwd].kids != [] && (KidAt(sh, cwd, 0); Find(sh, sh.nodes[cwd].kids[0], name).Some?)
  }

  /** In terms of the tree: the name of the first child, or a name below it, but not that of its siblings. */
  lemma {:induction false} DuplicateIff(sh: Shape, cwd: TreeNode, name: string)
    requires Ok(sh) && cwd in sh.nodes
    ensures var here := ForestFrom(sh, cwd, 0);
            Duplicate(sh, cwd, name) <==> here.Node? && (name == here.name || name in Names(here.child))
  {
    hide Ok;
    if sh.nodes[cwd].kids != [] {
      KidAt(sh, cwd, 0);
      FoundAt(sh, sh.nodes[cwd].kids[0], name);
    }
  }

  // ----- Sessions as a transition system

  /** The tree, the current directory and the save file, if there is one, between two commands. */
  datatype Snapshot = Snapshot(sh: Shape, cwd: TreeNode, file: Option<string>)

  ghost predicate SnapshotOk(s: Snapshot) {
    && Ok(s.sh) && s.cwd in s.sh.nodes
    && s.sh.root in s.sh.nodes && s.sh.nodes[s.sh.root].name == ROOT_NAME && s.sh.nodes[s.sh.root].typ == 'D'
  }

  ghost function TreeOf(s: Snapshot): Forest
    requires SnapshotOk(s)
  {
    TreeAt(s.sh, s.sh.root)
  }

  ghost predicate MakesNode(s: Snapshot, t: Snapshot, name: string, typ: char)
    requires SnapshotOk(s)
  {
    if Duplicate(s.sh, s.cwd, name) then t.sh == s.sh
    else exists x :: x in t.sh.nodes && x !in s.sh.nodes && t.sh == Added(s.sh, s.cwd, 0, x, name, typ)
  }

  /** The first directory of that name among the children of cwd is empty. */
  ghost predicate CanRmdir(sh: Shape, cwd: TreeNode, name: string)
    requires Ok(sh) && cwd in sh.nodes
  {
    var k := KidIndex(sh, cwd, 0, name, true);
    k < |sh.nodes[cwd].kids| && (KidAt(sh, cwd, k); sh.nodes[sh.nodes[cwd].kids[k]].kids == [])
  }

  /** The first child of cwd with that name is a file. */
  ghost predicate CanRm(sh: Shape, cwd: TreeNode, name: string)
    requires Ok(sh) && cwd in sh.nodes
  {
    var k := KidIndex(sh, cwd, 0, name, false);
    k < |sh.nodes[cwd].kids| && (KidAt(sh, cwd, k); sh.nodes[sh.nodes[cwd].kids[k]].typ == 'F')
  }

  /** Where `cd` goes; a name is looked up only if the first child of cwd is not a file. */
  ghost function CdTarget(sh: Shape, cwd: TreeNode, target: Option<string>): TreeNode
    requires Ok(sh) && cwd in sh.nodes
  {
    var kids := sh.nodes[cwd].kids;
    if target == None then sh.root
    else if target == Some("..") then sh.nodes[cwd].parent
    else if kids == [] then cwd
    else
      KidAt(sh, cwd, 0);
      var k := KidIndex(sh, cwd, 0, target.value, false);
      if sh.nodes[kids[0]].typ == 'F' || k == |kids| then cwd else kids[k]
  }

  /** What a command does to the tree, the current directory and the save file. */
  ghost predicate Next(c: Command, s: Snapshot, t: Snapshot)
    requires SnapshotOk(s) && SnapshotOk(t)
  {
    && (if c.CdCmd? then t.cwd == CdTarget(s.sh, s.cwd, c.target) else t.cwd == s.cwd)
    && t.file == (if c.SaveCmd? || c.QuitCmd? then Some(Text(SavedLines(TreeOf(s)))) else s.file)
    && match c
       case MkdirCmd(name) => MakesNode(s, t, name, 'D')
       case CreatCmd(name) => MakesNode(s, t, name, 'F')
       case RmdirCmd(name) =>
         t.sh == if CanRmdir(s.sh, s.cwd, name)
                 then Removed(s.sh, s.cwd, KidIndex(s.sh, s.cwd, 0, name, true)) else s.sh
       case RmCmd(name) =>
         t.sh == if CanRm(s.sh, s.cwd, name)
                 then Removed(s.sh, s.cwd, KidIndex(s.sh, s.cwd, 0, name, false)) else s.sh
       case CdCmd(_) => t.sh == s.sh
       case ReloadCmd => s.file.Some? && ReloadParsed(TreeOf(s), ParseText(s.file.value)) == Some(TreeOf(t))
       case SaveCmd => t.sh == s.sh
       case QuitCmd => t.sh == s.sh
  }

  /**
   * False if the command dereferences a null pointer: `cd` to a name where cwd has no children, `reload`
   * without a file or with a record that lacks the type it needs.
   */
  ghost predicate Runs(c: Command, s: Snapshot)
    requires SnapshotOk(s)
  {
    && (c.CdCmd? && c.target.Some? && c.target.value != ".." ==> s.sh.nodes[s.cwd].kids != [])
    && (c.ReloadCmd? ==> s.file.Some? && ReloadParsed(TreeOf(s), ParseText(s.file.value)).Some?)
  }

  /** The snapshots before, between and after the commands of a session. */
  ghost predicate IsRun(run: seq<Snapshot>, commands: seq<Command>) {
    && |run| == |commands| + 1
    && (forall i :: 0 <= i < |run| ==> SnapshotOk(run[i]))
    && (forall i :: 0 <= i < |commands| ==> Next(commands[i], run[i], run[i + 1]))
    && (forall i :: 0 <= i < |commands| - 1 ==> !commands[i].QuitCmd?)
  }

  ghost function CellsOf(nodes: set<TreeNode>): Heap
    reads nodes
  {
    map n | n in nodes :: n.Fields()
  }

  /** `node->child = child`, seen on the fields of a set of nodes. */
  method SetChild(node: TreeNode, child: TreeNode?, ghost nodes: set<TreeNode>)
    requires node in nodes
    modifies node
    ensures CellsOf(nodes) == old(CellsOf(nodes))[node := old(node.Fields()).(child := child)]
  {
    node.child := child;
  }

  /** `node->sibling = sibling`, seen on the fields of a set of nodes. */
  method SetSibling(node: TreeNode, sibling: TreeNode?, ghost nodes: set<TreeNode>)
    requires node in nodes
    modifies node
    ensures CellsOf(nodes) == old(CellsOf(nodes))[node := old(node.Fields()).(sibling := sibling)]
  {
    node.sibling := sibling;
  }

  class FileSystem {
    var root: TreeNode
    var cwd: TreeNode
    /** The text of "fssim_devito.txt", if the file exists. */
    var file: Option<string>
    ghost var sh: Shape

    /** The current fields of all nodes of the tree. */
    ghost function Cells(): Heap
      reads this, sh.nodes.Keys
    {
      CellsOf(sh.nodes.Keys)
    }

    ghost predicate Valid()
      reads this, sh.nodes.Keys
    {
      && Ok(sh)
      && sh.root == root && cwd in sh.nodes
      && sh.nodes[root].name == ROOT_NAME && sh.nodes[root].typ == 'D'
      && Linked(sh, Cells())
    }

    /** The whole tree as a value. */
    ghost function Tree(): Forest
      reads this, sh.nodes.Keys
      requires Valid()
    {
      TreeAt(sh, root)
    }

    constructor Initialize(file: Option<string>)
      ensures Valid() && fresh(sh.nodes.Keys) && this.file == file
      ensures cwd == root && Tree() == EmptyRoot()
    {
      hide Ok, Linked, TreeAt;
      this.file := file;
      var r := new TreeNode.Root();
      root := r;
      cwd := r;
      sh := Shape(map[r := Entry(ROOT_NAME, 'D', r, [], 0)], r, 1);
      new;
      LoneRoot(r, sh, Cells());
    }

    /** The children of cwd with everything below them. */
    ghost function Here(): Forest
      reads this, sh.nodes.Keys
      requires Valid()
    {
      ForestFrom(sh, cwd, 0)
    }

    lemma NodeFacts(n: TreeNode)
      requires Valid() && n in sh.nodes
      ensures Ok(sh)
      ensures var e := sh.nodes[n];
              && n.name == e.name && n.typ == e.typ && n.parent == e.parent && e.parent in sh.nodes
              && n.child == KidOrNull(e.kids, 0)
    {
      hide Ok, Linked;
      OkAt(sh, n);
      LinkedAt(sh, Cells(), n);
    }

    lemma KidFacts(n: TreeNode, i: nat)
      requires Valid() && n in sh.nodes && i < |sh.nodes[n].kids|
      ensures Ok(sh)
      ensures var kids := sh.nodes[n].kids;
              kids[i] in sh.nodes && kids[i].sibling == KidOrNull(kids, i + 1)
              && sh.nodes[kids[i]].stamp > sh.nodes[n].stamp
    {
      hide Ok, Linked;
      KidAt(sh, n, i);
      LinkedAt(sh, Cells(), n);
      assert SiblingOk(Cells(), sh.nodes[n].kids, i);
    }

    method SearchTree(node: TreeNode?, name: string) returns (r: TreeNode?)
      requires Valid() && (node != null ==> node in sh.nodes)
      ensures node == null ==> r == null
      ensures node != null ==> (if r == null then Find(sh, node, name) == None else Find(sh, node, name) == Some(r))
      ensures r != null ==> r in sh.nodes
      decreases if node == null then 0
                else 1 + if sh.nodes[node].stamp < sh.bound then sh.bound - sh.nodes[node].stamp else 0
    {
      hide Valid, Ok, FindFrom;
      if node == null {
        return null;
      }
      NodeFacts(node);
      if node.name == name {
        return node;
      }
      ghost var kids := sh.nodes[node].kids;
      var child := node.child;
      ghost var i: nat := 0;
      while child != null
        invariant i <= |kids| && child == KidOrNull(kids, i)
        invariant FindFrom(sh, node, 0, name) == FindFrom(sh, node, i, name)
        decreases |kids| - i
      {
        KidAt(sh, node, i);
        var found := SearchTree(child, name);
        FindStep(sh, node, i, name);
        if found != null {
          return found;
        }
        KidFacts(node, i);
        child := child.sibling;
        i := i + 1;
      }
      FindEnd(sh, node, name);
      r := null;
    }

    /** Makes a node for `mkdir` or `creat` and links it in front of the first child of cwd. */
    method StoreFirst(name: string, typ: char) returns (x: TreeNode)
      requires Valid()
      modifies sh.nodes.Keys
      ensures cwd in sh.nodes && fresh(x) && x !in sh.nodes && cwd.child == x
      ensures StoredFirst(sh, old(Cells()), CellsOf(sh.nodes.Keys + {x}), cwd, x, name, typ)
    {
      hide Ok, Linked;
      x := new TreeNode(name, typ, cwd, cwd.child);
      cwd.child := x;
    }

    /** The new first child of cwd, as `mkdir` and `creat` make it. */
    method AddFirst(name: string, typ: char)
      requires Valid()
      modifies this, sh.nodes.Keys
      ensures Valid() && root == old(root) && cwd == old(cwd) && file == old(file)
      ensures cwd.child != null && fresh(cwd.child)
      ensures sh == Added(old(sh), cwd, 0, cwd.child, name, typ)
      ensures Here() == Node(name, typ, Nil, old(Here()))
    {
      hide Ok, Linked, Added, ForestFrom, StoredFirst;
      RootFacts();
      ghost var h := Cells();
      var x := StoreFirst(name, typ);
      ghost var h' := CellsOf(sh.nodes.Keys + {x});
      AddedOk(sh, cwd, 0, x, name, typ);
      AddedKeeps(sh, cwd, 0, x, name, typ);
      LinkedFirst(sh, h, h', cwd, x, name, typ);
      ForestOfAddedFirst(sh, cwd, x, name, typ);
      sh := Added(sh, cwd, 0, x, name, typ);
      assert Cells() == h';
    }

    /** Makes a node for `reload` and links it behind the last child of p. */
    method StoreLast(p: TreeNode, name: string, typ: char) returns (x: TreeNode)
      requires Valid() && p in sh.nodes
      modifies sh.nodes.Keys
      ensures fresh(x) && x !in sh.nodes
      ensures StoredLast(sh, old(Cells()), CellsOf(sh.nodes.Keys + {x}), p, x, name, typ)
    {
      hide Ok, Linked;
      NodeFacts(p);
      ghost var h := Cells();
      x := new TreeNode(name, typ, p, null);
      ghost var nodes := sh.nodes.Keys + {x};
      assert CellsOf(nodes) == h[x := Cell(name, typ, null, null, p)];
      if p.child == null {
        SetChild(p, x, nodes);
      } else {
        var temp := LastSibling(p);
        KidFacts(p, |sh.nodes[p].kids| - 1);
        SetSibling(temp, x, nodes);
      }
    }

    /** The new last child of p, as `reload` makes it. */
    method AddLast(p: TreeNode, name: string, typ: char)
      requires Valid() && p in sh.nodes
      modifies this, sh.nodes.Keys
      ensures Valid() && root == old(root) && cwd == old(cwd) && file == old(file)
      ensures exists x :: fresh(x) && sh == Added(old(sh), p, |old(sh).nodes[p].kids|, x, name, typ)
    {
      hide Ok, Linked, StoredLast;
      ghost var h := Cells();
      ghost var n := |sh.nodes[p].kids|;
      var x := StoreLast(p, name, typ);
      ghost var h' := CellsOf(sh.nodes.Keys + {x});
      AddedOk(sh, p, n, x, name, typ);
      LinkedLast(sh, h, h', p, x, name, typ);
      sh := Added(sh, p, n, x, name, typ);
      assert Cells() == h';
    }

    /** The last child of p, found along the sibling links. */
    method LastSibling(p: TreeNode) returns (temp: TreeNode)
      requires Valid() && p in sh.nodes && sh.nodes[p].kids != []
      ensures temp == sh.nodes[p].kids[|sh.nodes[p].kids| - 1]
    {
      hide Valid, Ok;
      NodeFacts(p);
      ghost var kids := sh.nodes[p].kids;
      temp := p.child;
      ghost var i: nat := 0;
      KidFacts(p, 0);
      while temp.sibling != null
        invariant i < |kids| && temp == kids[i] && temp.sibling == KidOrNull(kids, i + 1)
        decreases |kids| - i
      {
        temp := temp.sibling;
        i := i + 1;
        KidFacts(p, i);
      }
    }

    /** Bypasses the i-th child of cwd. */
    method Bypass(pTemp: TreeNode, pPrev: TreeNode?, ghost i: nat)
      requires cwd in sh.nodes && i < |sh.nodes[cwd].kids| && Valid()
      requires pTemp == sh.nodes[cwd].kids[i] && pPrev == (if i == 0 then null else sh.nodes[cwd].kids[i - 1])
      modifies sh.nodes.Keys
      ensures unchanged(this)
      ensures Bypassed(old(sh), old(Cells()), CellsOf(old(sh).nodes.Keys), old(cwd), i)
    {
      hide Ok, Linked;
      NodeFacts(cwd);
      KidFacts(cwd, i);
      if pPrev == null {
        SetChild(cwd, pTemp.sibling, sh.nodes.Keys);
      } else {
        KidFacts(cwd, i - 1);
        SetSibling(pPrev, pTemp.sibling, sh.nodes.Keys);
      }
    }

    /** Takes the i-th child of cwd, and all below it, out of the tree. */
    method Unlink(pTemp: TreeNode, pPrev: TreeNode?, ghost i: nat)
      requires cwd in sh.nodes && i < |sh.nodes[cwd].kids| && Valid()
      requires pTemp == sh.nodes[cwd].kids[i] && pPrev == (if i == 0 then null else sh.nodes[cwd].kids[i - 1])
      modifies this, sh.nodes.Keys
      ensures Valid() && root == old(root) && cwd == old(cwd) && file == old(file)
      ensures Ok(old(sh)) && cwd in old(sh).nodes && sh == Removed(old(sh), cwd, i)
      ensures Here() == Without(old(Here()), i)
    {
      hide Ok, Linked, Under, Bypassed, Removed;
      ghost var h, sh' := Cells(), Removed(sh, cwd, i);
      Bypass(pTemp, pPrev, i);
      assert Ok(sh') && cwd in sh'.nodes by {
        RemovedOk(sh, cwd, i);
      }
      RemovedKeeps(sh, cwd, i);
      ForestOfRemoved(sh, cwd, i, 0);
      assert Linked(sh', CellsOf(sh'.nodes.Keys)) by {
        LinkedWithout(sh, h, Cells(), cwd, i);
        LinkedRestricted(sh', Cells(), CellsOf(sh'.nodes.Keys));
      }
      sh := sh';
    }

    ghost predicate IsDuplicate(name: string)
      reads this, sh.nodes.Keys
      requires Valid()
    {
      Duplicate(sh, cwd, name)
    }

    method FindDuplicate(name: string) returns (r: bool)
      requires Valid()
      ensures r <==> IsDuplicate(name)
    {
      hide Ok, Linked, Find;
      NodeFacts(cwd);
      if cwd.child != null {
        KidFacts(cwd, 0);
      }
      var dupe := SearchTree(cwd.child, name);
      r := dupe != null;
    }

    method Mkdir(name: string) returns (r: Outcome)
      requires Valid()
      modifies this, sh.nodes.Keys
      ensures Valid() && root == old(root) && cwd == old(cwd) && file == old(file)
      ensures old(IsDuplicate(name)) ==> r == AlreadyExists && sh == old(sh) && Tree() == old(Tree())
      ensures !old(IsDuplicate(name)) ==>
                && r == Done
                && cwd.child != null && fresh(cwd.child)
                && sh == Added(old(sh), cwd, 0, cwd.child, name, 'D')
                && Here() == Node(name, 'D', Nil, old(Here()))
    {
      hide Valid, IsDuplicate, Added, Here;
      var dupe := FindDuplicate(name);
      if dupe {
        return AlreadyExists;
      }
      AddFirst(name, 'D');
      r := Done;
    }

    method Creat(name: string) returns (r: Outcome)
      requires Valid()
      modifies this, sh.nodes.Keys
      ensures Valid() && root == old(root) && cwd == old(cwd) && file == old(file)
      ensures old(IsDuplicate(name)) ==> r == AlreadyExists && sh == old(sh) && Tree() == old(Tree())
      ensures !old(IsDuplicate(name)) ==>
                && r == Done
                && cwd.child != null && fresh(cwd.child)
                && sh == Added(old(sh), cwd, 0, cwd.child, name, 'F')
                && Here() == Node(name, 'F', Nil, old(Here()))
    {
      hide Valid, IsDuplicate, Added, Here;
      var dupe := FindDuplicate(name);
      if dupe {
        return AlreadyExists;
      }
      AddFirst(name, 'F');
      r := Done;
    }

    /** The child of cwd that `rmdir` and `rm` stop at, if any. */
    method FindKid(name: string, dirsOnly: bool) returns (pTemp: TreeNode?, pPrev: TreeNode?, ghost k: nat)
      requires Valid()
      ensures Ok(sh) && k == KidIndex(sh, cwd, 0, name, dirsOnly)
      ensures pTemp == KidOrNull(sh.nodes[cwd].kids, k)
      ensures pTemp != null ==> pPrev == if k == 0 then null else sh.nodes[cwd].kids[k - 1]
    {
      hide Ok, Linked;
      NodeFacts(cwd);
      ghost var kids := sh.nodes[cwd].kids;
      pTemp, pPrev, k := cwd.child, null, 0;
      while pTemp != null
        invariant k <= |kids| && pTemp == KidOrNull(kids, k)
        invariant pPrev == if k == 0 then null else kids[k - 1]
        invariant KidIndex(sh, cwd, 0, name, dirsOnly) == KidIndex(sh, cwd, k, name, dirsOnly)
        decreases |kids| - k
      {
        KidFacts(cwd, k);
        NodeFacts(pTemp);
        if pTemp.name == name {
          if !dirsOnly || pTemp.typ == 'D' {
            return;
          }
        }
        pPrev := pTemp;
        pTemp := pTemp.sibling;
        k := k + 1;
      }
    }

    /** Removes the first directory of that name among the children of cwd, if it is empty. */
    method Rmdir(name: string) returns (r: Outcome)
      requires Valid()
      modifies this, sh.nodes.Keys
      ensures Valid() && root == old(root) && cwd == old(cwd) && file == old(file)
      ensures Ok(old(sh)) && cwd in old(sh).nodes
      ensures var k := KidIndex(old(sh), cwd, 0, name, true);
              var kids := old(sh).nodes[cwd].kids;
              if k == |kids| then r == NotFound && sh == old(sh)
              else
                && kids[k] in old(sh).nodes
                && if old(sh).nodes[kids[k]].kids != [] then r == NotEmpty && sh == old(sh)
                   else r == Done && sh == Removed(old(sh), cwd, k) && Here() == Without(old(Here()), k)
    {
      hide Ok, Linked, KidIndex, Here, Without, Removed;
      var pTemp, pPrev, k := FindKid(name, true);
      if pTemp == null {
        return NotFound;
      }
      KidFacts(cwd, k);
      NodeFacts(pTemp);
      if pTemp.child != null {
        return NotEmpty;
      }
      Unlink(pTemp, pPrev, k);
      r := Done;
    }

    /** Removes the first child of cwd with that name, if it is a file. */
    method Rm(name: string) returns (r: Outcome)
      requires Valid()
      modifies this, sh.nodes.Keys
      ensures Valid() && root == old(root) && cwd == old(cwd) && file == old(file)
      ensures Ok(old(sh)) && cwd in old(sh).nodes
      ensures var k := KidIndex(old(sh), cwd, 0, name, false);
              var kids := old(sh).nodes[cwd].kids;
              if k == |kids| then r == NotFound && sh == old(sh)
              else
                && kids[k] in old(sh).nodes
                && if old(sh).nodes[kids[k]].typ != 'F' then r == NotAFile && sh == old(sh)
                   else r == Done && sh == Removed(old(sh), cwd, k) && Here() == Without(old(Here()), k)
    {
      hide Ok, Linked, KidIndex, Here, Without, Removed;
      var pTemp, pPrev, k := FindKid(name, false);
      if pTemp == null {
        return NotFound;
      }
      KidFacts(cwd, k);
      NodeFacts(pTemp);
      if pTemp.typ != 'F' {
        return NotAFile;
      }
      Unlink(pTemp, pPrev, k);
      r := Done;
    }

    /**
     * Without a name: to the root. "..": to the parent. A name needs a first child of cwd; the type of
     * that first child alone decides whether the name is looked up at all.
     */
    method Cd(name: Option<string>) returns (r: Outcome)
      requires Valid()
      requires name.Some? && name.value != ".." ==> cwd.child != null
      modifies this
      ensures Valid() && root == old(root) && sh == old(sh) && file == old(file) && Tree() == old(Tree())
      ensures name == None ==> r == Done && cwd == root
      ensures name == Some("..") ==> r == Done && old(cwd) in sh.nodes && cwd == sh.nodes[old(cwd)].parent
      ensures name.Some? && name.value != ".." ==>
                && Ok(sh) && old(cwd) in sh.nodes
                && var kids := sh.nodes[old(cwd)].kids;
                && kids != [] && kids[0] in sh.nodes
                && if sh.nodes[kids[0]].typ == 'F' then r == NotADirectory && cwd == old(cwd)
                   else
                     var k := KidIndex(sh, old(cwd), 0, name.value, false);
                     if k == |kids| then r == NotFound && cwd == old(cwd) else r == Done && cwd == kids[k]
    {
      hide Ok, Linked, KidIndex;
      NodeFacts(cwd);
      RootFacts();
      if name == None {
        cwd := root;
        return Done;
      }
      if name.value == ".." {
        cwd := cwd.parent;
        return Done;
      }
      KidFacts(cwd, 0);
      NodeFacts(cwd.child);
      if cwd.child.typ == 'F' {
        return NotADirectory;
      }
      var pCur, _, k := FindKid(name.value, false);
      if pCur == null {
        return NotFound;
      }
      KidFacts(cwd, k);
      cwd := pCur;
      r := Done;
    }

    lemma RootFacts()
      requires Valid()
      ensures root in sh.nodes
    {
      OkAt(sh, sh.root);
    }

    /** One record of the save file. */
    method ReloadLine(line: Line)
      requires Valid()
      modifies this, sh.nodes.Keys
      ensures Valid() && root == old(root) && cwd == old(cwd) && file == old(file)
      ensures Tree() == AddLine(old(Tree()), line)
      ensures old(sh).nodes.Keys <= sh.nodes.Keys && forall n :: n in sh.nodes ==> n in old(sh).nodes || fresh(n)
    {
      hide Ok, Linked, Find;
      ghost var before := sh;
      RootFacts();
      FindRoot(sh, root);
      var parent: TreeNode? := root;
      if line.parent != ROOT_NAME {
        parent := SearchTree(root, line.parent);
        FoundAt(sh, root, line.parent);
        if parent == null {
          return;
        }
      }
      var child := SearchTree(root, line.name);
      FoundAt(sh, root, line.name);
      if child == null {
        AddLast(parent, line.name, line.typ);
        ghost var x :| fresh(x) && sh == Added(before, parent, |before.nodes[parent].kids|, x, line.name, line.typ);
        AddedIsGraft(before, line.parent, parent, x, line.name, line.typ);
      }
    }

    /** One buffer of the save file; false if the missing type is needed. */
    method ReloadBuffer(buffer: string) returns (ok: bool)
      requires Valid()
      modifies this, sh.nodes.Keys
      ensures Valid() && root == old(root) && cwd == old(cwd) && file == old(file)
      ensures ok <==> !NeedsType(old(Tree()), ParseLine(buffer))
      ensures ok ==> Tree() == match ParseLine(buffer)
                               case Record(line) => AddLine(old(Tree()), line)
                               case Skipped => old(Tree())
                               case NoType(_, _) => old(Tree())
      ensures old(sh).nodes.Keys <= sh.nodes.Keys && forall n :: n in sh.nodes ==> n in old(sh).nodes || fresh(n)
    {
      hide Ok, Linked, Find, AddLine;
      ok := true;
      match ParseLine(buffer) {
        case Skipped =>
        case Record(line) =>
          ReloadLine(line);
        case NoType(name, parentName) =>
          RootFacts();
          var parent: TreeNode? := root;
          if parentName != ROOT_NAME {
            parent := SearchTree(root, parentName);
            FoundAt(sh, root, parentName);
          }
          var child := SearchTree(root, name);
          FoundAt(sh, root, name);
          ok := parent == null || child != null;
      }
    }

    /** `reload` of a file with this text; false if it follows a null pointer. */
    method ReloadFile(text: string) returns (ok: bool)
      requires Valid()
      modifies this, sh.nodes.Keys
      ensures Valid() && root == old(root) && cwd == old(cwd) && file == old(file)
      ensures old(Tree()).Node? && (ok <==> ReloadParsed(old(Tree()), ParseText(text)).Some?)
      ensures ok ==> ReloadParsed(old(Tree()), ParseText(text)) == Some(Tree())
      ensures old(sh).nodes.Keys <= sh.nodes.Keys && forall n :: n in sh.nodes ==> n in old(sh).nodes || fresh(n)
    {
      hide Valid, Tree, AddLine, Ok, ParseLine, NeedsType, FgetsLength;
      ghost var t := Tree();
      TreeIsNode();
      var rest := text;
      while rest != []
        invariant Valid() && root == old(root) && cwd == old(cwd) && file == old(file)
        invariant t.Node? && Tree().Node?
        invariant ReloadParsed(t, ParseText(text)) == ReloadParsed(Tree(), ParseText(rest))
        invariant old(sh).nodes.Keys <= sh.nodes.Keys && forall n :: n in sh.nodes ==> n in old(sh).nodes || fresh(n)
        decreases |rest|
      {
        var n := FgetsLength(rest);
        ghost var now := Tree();
        TextStep(now, rest);
        ok := ReloadBuffer(rest[..n]);
        if !ok {
          return;
        }
        TreeIsNode();
        rest := rest[n..];
      }
      ok := true;
      TextEnd(Tree());
    }

    lemma TreeIsNode()
      requires Valid()
      ensures Tree().Node?
    {
    }

    /** `save` of the subtree at `node`, as the records it writes. */
    method Save(node: TreeNode) returns (lines: seq<Line>)
      requires Valid() && node in sh.nodes
      ensures Ok(sh) && sh.nodes[node].parent in sh.nodes
      ensures lines == Lines(TreeAt(sh, node), sh.nodes[sh.nodes[node].parent].name)
      decreases if sh.nodes[node].stamp < sh.bound then sh.bound - sh.nodes[node].stamp else 0
    {
      hide Valid, Ok, Lines;
      NodeFacts(node);
      NodeFacts(node.parent);
      lines := [];
      if node.name != ROOT_NAME {
        lines := [Line(node.name, node.parent.name, node.typ)];
      }
      ghost var kids := sh.nodes[node].kids;
      ghost var all := lines + Lines(ForestFrom(sh, node, 0), node.name);
      var child := node.child;
      ghost var i: nat := 0;
      while child != null
        invariant i <= |kids| && child == KidOrNull(kids, i)
        invariant lines + Lines(ForestFrom(sh, node, i), node.name) == all
        decreases |kids| - i
      {
        KidAt(sh, node, i);
        var below := Save(child);
        LinesOfNext(sh, node, i);
        assert lines + (below + Lines(ForestFrom(sh, node, i + 1), node.name))
            == (lines + below) + Lines(ForestFrom(sh, node, i + 1), node.name);
        lines := lines + below;
        KidFacts(node, i);
        child := child.sibling;
        i := i + 1;
      }
      LinesOfAll(sh, node, node.parent.name);
    }

    /** `save` of the whole tree. */
    method SaveAll() returns (lines: seq<Line>)
      requires Valid()
      ensures lines == SavedLines(Tree())
    {
      hide Ok, Linked;
      RootFacts();
      OkAt(sh, root);
      lines := Save(root);
    }

    ghost function Now(): (s: Snapshot)
      reads this, sh.nodes.Keys
      requires Valid()
      ensures SnapshotOk(s)
    {
      Snapshot(sh, cwd, file)
    }

    /** `save`, and what `quit` does before it ends the session. */
    method WriteFile()
      requires Valid()
      modifies this
      ensures Valid() && root == old(root) && cwd == old(cwd) && sh == old(sh)
      ensures file == Some(Text(SavedLines(old(Tree())))) && Tree() == old(Tree())
    {
      hide Ok, Linked, Text, SavedLines, TreeAt;
      var lines := SaveAll();
      file := Some(Text(lines));
    }

    method ExecuteReload() returns (ok: bool)
      requires Valid()
      modifies this, sh.nodes.Keys
      ensures Valid() && root == old(root)
      ensures ok <==> Runs(ReloadCmd, old(Now()))
      ensures ok ==> Next(ReloadCmd, old(Now()), Now())
      ensures forall n :: n in sh.nodes ==> n in old(sh).nodes || fresh(n)
    {
      hide Ok, Linked, TreeAt, ReloadParsed, ParseText;
      if file == None {
        return false;
      }
      ok := ReloadFile(file.value);
    }

    method Execute(c: Command) returns (ok: bool)
      requires Valid()
      modifies this, sh.nodes.Keys
      ensures Valid() && root == old(root)
      ensures ok <==> Runs(c, old(Now()))
      ensures if ok then Next(c, old(Now()), Now()) else c.ReloadCmd? || Now() == old(Now())
      ensures forall n :: n in sh.nodes ==> n in old(sh).nodes || fresh(n)
    {
      hide Ok, Linked, Under, KidIndex, Duplicate, ReloadParsed, ParseText, Text, SavedLines, ForestFrom;
      ghost var s := Now();
      NodeFacts(cwd);
      ok := true;
      match c {
        case MkdirCmd(name) =>
          var r := Mkdir(name);
          assert r == Done ==> cwd.child in sh.nodes && cwd.child !in s.sh.nodes;
        case CreatCmd(name) =>
          var r := Creat(name);
          assert r == Done ==> cwd.child in sh.nodes && cwd.child !in s.sh.nodes;
        case RmdirCmd(name) => var _ := Rmdir(name);
        case RmCmd(name) => var _ := Rm(name);
        case CdCmd(target) =>
          if target.Some? && target.value != ".." && cwd.child == null {
            return false;
          }
          var _ := Cd(target);
        case ReloadCmd => ok := ExecuteReload();
        case SaveCmd => WriteFile();
        case QuitCmd => WriteFile();
      }
    }

    /** Any session: it follows the transition system, and the invariant holds after every command. */
    method ExecuteAll(commands: seq<Command>) returns (done: nat, ghost run: seq<Snapshot>)
      requires Valid()
      modifies this, sh.nodes.Keys
      ensures Valid() && root == old(root)
      ensures done <= |commands|
      ensures IsRun(run, commands[..done]) && run[0] == old(Now())
      ensures done < |commands| ==>
                (done > 0 && commands[done - 1].QuitCmd?) || !Runs(commands[done], run[done])
      ensures (done < |commands| && commands[done].ReloadCmd?) || run[done] == Now()
      ensures forall n :: n in sh.nodes ==> n in old(sh).nodes || fresh(n)
    {
      hide Valid, Runs, Next, SnapshotOk;
      done := 0;
      run := [Now()];
      var loop := true;
      while loop && done < |commands|
        invariant done <= |commands|
        invariant Valid() && root == old(root)
        invariant IsRun(run, commands[..done]) && run[0] == old(Now()) && run[done] == Now()
        invariant loop ==> forall i :: 0 <= i < done ==> !commands[i].QuitCmd?
        invariant !loop ==> done > 0 && commands[done - 1].QuitCmd?
        invariant forall n :: n in sh.nodes ==> n in old(sh).nodes || fresh(n)
        decreases |commands| - done
      {
        var ok := Execute(commands[done]);
        if !ok {
          return;
        }
        run := run + [Now()];
        loop := !commands[done].QuitCmd?;
        done := done + 1;
      }
    }

    /** What `Valid` means for the pointers: a finite tree, each node in exactly one list of children. */
    lemma {:induction false} TreeInvariant(n: TreeNode, p: TreeNode)
      requires Valid() && n in sh.nodes && p in sh.nodes
      ensures Ok(sh) && root in sh.nodes && cwd in sh.nodes
      ensures Under(sh, root, n) && Under(sh, root, cwd)
      ensures root.parent == root
      ensures n in sh.nodes[p].kids <==> n != root && n.parent == p
      ensures n != root ==> n.parent in sh.nodes && sh.nodes[n.parent].stamp < sh.nodes[n].stamp
    {
      hide Linked, Ok, Under;
      RootFacts();
      NodeFacts(n);
      NodeFacts(root);
      AllUnderRoot(sh, n);
      AllUnderRoot(sh, cwd);
      OkAt(sh, root);
      if n in sh.nodes[p].kids {
        var i: nat :| i < |sh.nodes[p].kids| && sh.nodes[p].kids[i] == n;
        KidAt(sh, p, i);
      }
      if n != root {
        ParentIsOlder(sh, n);
      }
    }
  }

  lemma {:induction false} TextStep(t: Forest, rest: string)
    requires t.Node? && rest != []
    ensures var n := FgetsLength(rest);
            var p := ParseLine(rest[..n]);
            ReloadParsed(t, ParseText(rest)) ==
            if NeedsType(t, p) then None
            else ReloadParsed(if p.Record? then AddLine(t, p.line) else t, ParseText(rest[n..]))
  {
    hide AddLine, ParseLine, FgetsLength;
    var n := FgetsLength(rest);
    assert ([ParseLine(rest[..n])] + ParseText(rest[n..]))[1..] == ParseText(rest[n..]);
  }

  lemma {:induction false} TextEnd(t: Forest)
    requires t.Node?
    ensures ReloadParsed(t, ParseText([])) == Some(t)
  {
  }

  lemma FindRoot(sh: Shape, root: TreeNode)
    requires Ok(sh) && root == sh.root && root in sh.nodes && sh.nodes[root].name == ROOT_NAME
    ensures Find(sh, root, ROOT_NAME) == Some(root)
  {
  }

  lemma LinesOfNext(sh: Shape, p: TreeNode, i: nat)
    requires Ok(sh) && p in sh.nodes && i < |sh.nodes[p].kids|
    ensures var c := sh.nodes[p].kids[i];
            && c in sh.nodes && sh.nodes[c].parent == p
            && Lines(ForestFrom(sh, p, i), sh.nodes[p].name)
               == Lines(TreeAt(sh, c), sh.nodes[p].name) + Lines(ForestFrom(sh, p, i + 1), sh.nodes[p].name)
  {
    hide Ok;
    KidAt(sh, p, i);
    var c, rest := sh.nodes[p].kids[i], Lines(ForestFrom(sh, p, i + 1), sh.nodes[p].name);
    var own := Lines(TreeAt(sh, c), sh.nodes[p].name);
    assert Lines(Nil, sh.nodes[p].name) == [];
    assert Lines(ForestFrom(sh, p, i), sh.nodes[p].name) == own + rest;
  }

  lemma {:induction false} LinesOfAll(sh: Shape, p: TreeNode, parent: string)
    requires Ok(sh) && p in sh.nodes && sh.nodes[p].parent in sh.nodes
    ensures Lines(ForestFrom(sh, p, |sh.nodes[p].kids|), sh.nodes[p].name) == []
    ensures Lines(TreeAt(sh, p), parent) ==
            (if sh.nodes[p].name != ROOT_NAME then [Line(sh.nodes[p].name, parent, sh.nodes[p].typ)] else [])
            + Lines(ForestFrom(sh, p, 0), sh.nodes[p].name)
  {
    hide Ok;
    assert Lines(Nil, parent) == [];
  }

  lemma RemovedKeeps(sh: Shape, p: TreeNode, i: nat)
    requires Ok(sh) && p in sh.nodes && i < |sh.nodes[p].kids|
    ensures var sh' := Removed(sh, p, i);
            && sh'.root == sh.root
            && sh'.nodes.Keys <= sh.nodes.Keys
            && sh.root in sh.nodes && sh.root in sh'.nodes
            && sh'.nodes[sh.root].name == sh.nodes[sh.root].name
            && sh'.nodes[sh.root].typ == sh.nodes[sh.root].typ
  {
    hide Ok, Under;
    KidNotAncestor(sh, p, i);
  }

  lemma LinkedRestricted(sh: Shape, h: Heap, h': Heap)
    requires Ok(sh) && Linked(sh, h)
    requires forall n :: n in sh.nodes ==> n in h && n in h' && h'[n] == h[n]
    ensures Linked(sh, h')
  {
    hide Ok, Linked;
    forall n | n in sh.nodes ensures CellOk(sh, h', n) {
      LinkedAt(sh, h, n);
      var kids := sh.nodes[n].kids;
      forall i: nat | i < |kids| ensures SiblingOk(h', kids, i) {
        KidAt(sh, n, i);
        assert SiblingOk(h, kids, i);
      }
    }
    LinkedIntro(sh, h');
  }

  lemma LoneRoot(r: TreeNode, sh: Shape, h: Heap)
    requires sh == Shape(map[r := Entry(ROOT_NAME, 'D', r, [], 0)], r, 1)
    requires h == map[r := Cell(ROOT_NAME, 'D', null, null, r)]
    ensures Ok(sh) && TreeAt(sh, r) == EmptyRoot() && Linked(sh, h)
  {
    assert KidsOk(sh, r) && ParentOk(sh, r);
  }

  lemma FindStep(sh: Shape, p: TreeNode, i: nat, name: string)
    requires Ok(sh) && p in sh.nodes && i < |sh.nodes[p].kids|
    ensures var c := sh.nodes[p].kids[i];
            && c in sh.nodes
            && FindFrom(sh, p, i, name) ==
               if Find(sh, c, name).Some? then Find(sh, c, name) else FindFrom(sh, p, i + 1, name)
  {
    KidAt(sh, p, i);
  }

  lemma {:induction false} FindEnd(sh: Shape, p: TreeNode, name: string)
    requires Ok(sh) && p in sh.nodes
    ensures FindFrom(sh, p, |sh.nodes[p].kids|, name) == None
  {
  }
}
