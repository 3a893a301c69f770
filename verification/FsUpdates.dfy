// The three changes that commands make to the shape, and what they do to the tree.
module FsUpdates {
  import opened Wrappers
  import opened FsTree
  import opened FsShape

  /** The shape with a new leaf x among the children of p, at position `at`. */
  ghost function Added(sh: Shape, p: TreeNode, at: nat, x: TreeNode, name: string, typ: char): Shape
    requires p in sh.nodes && at <= |sh.nodes[p].kids|
  {
    var e := sh.nodes[p];
    Shape(sh.nodes[p := e.(kids := e.kids[..at] + [x] + e.kids[at..])][x := Entry(name, typ, p, [], sh.bound)],
          sh.root, sh.bound + 1)
  }

  /** The shape without the i-th child of p and everything below it. */
  ghost function Removed(sh: Shape, p: TreeNode, i: nat): Shape
    requires Ok(sh) && p in sh.nodes && i < |sh.nodes[p].kids|
  {
    var e := sh.nodes[p];
    var gone := e.kids[i];
    Shape(map n | n in sh.nodes && !Under(sh, gone, n) ::
            if n == p then e.(kids := e.kids[..i] + e.kids[i + 1..]) else sh.nodes[n],
          sh.root, sh.bound)
  }

  lemma AddedKeeps(sh: Shape, p: TreeNode, at: nat, x: TreeNode, name: string, typ: char)
    requires p in sh.nodes && at <= |sh.nodes[p].kids| && x !in sh.nodes
    ensures var sh' := Added(sh, p, at, x, name, typ);
            && sh'.root == sh.root && sh'.nodes.Keys == sh.nodes.Keys + {x}
            && forall n :: n in sh.nodes ==> sh'.nodes[n].name == sh.nodes[n].name && sh'.nodes[n].typ == sh.nodes[n].typ
  {
  }

  /** Where the k-th child after the addition comes from. */
  function Before(at: nat, k: nat): nat
    requires k != at
  {
    if k < at then k else k - 1
  }

  lemma KidOfAdded(sh: Shape, p: TreeNode, at: nat, x: TreeNode, name: string, typ: char, k: nat)
    requires Ok(sh) && p in sh.nodes && at <= |sh.nodes[p].kids| && x !in sh.nodes && k <= |sh.nodes[p].kids|
    ensures var sh' := Added(sh, p, at, x, name, typ);
            var c := sh'.nodes[p].kids[k];
            && c == (if k == at then x else sh.nodes[p].kids[Before(at, k)])
            && c in sh'.nodes && c != sh.root && sh'.nodes[c].parent == p && sh'.nodes[c].stamp > sh'.nodes[p].stamp
  {
    hide Ok;
    OkAt(sh, p);
    if k != at {
      KidAt(sh, p, Before(at, k));
    }
  }

  lemma KidsOfAdded(sh: Shape, p: TreeNode, at: nat, x: TreeNode, name: string, typ: char)
    requires Ok(sh) && p in sh.nodes && at <= |sh.nodes[p].kids| && x !in sh.nodes
    ensures KidsOk(Added(sh, p, at, x, name, typ), p)
  {
    hide Ok;
    var sh' := Added(sh, p, at, x, name, typ);
    var n := |sh.nodes[p].kids|;
    assert |sh'.nodes[p].kids| == n + 1;
    forall k | 0 <= k <= n
      ensures var c := sh'.nodes[p].kids[k];
              c in sh'.nodes && c != sh'.root && sh'.nodes[c].parent == p && sh'.nodes[c].stamp > sh'.nodes[p].stamp
    {
      KidOfAdded(sh, p, at, x, name, typ, k);
    }
    forall j, k | 0 <= j < k <= n ensures sh'.nodes[p].kids[j] != sh'.nodes[p].kids[k] {
      KidOfAdded(sh, p, at, x, name, typ, j);
      KidOfAdded(sh, p, at, x, name, typ, k);
      if j != at && k != at {
        DifferentKids(sh, p, Before(at, j), Before(at, k));
      } else {
        KidAt(sh, p, if j == at then Before(at, k) else Before(at, j));
      }
    }
  }

  lemma NodeOfAdded(sh: Shape, p: TreeNode, at: nat, x: TreeNode, name: string, typ: char, n: TreeNode)
    requires Ok(sh) && p in sh.nodes && at <= |sh.nodes[p].kids| && x !in sh.nodes
    requires n in sh.nodes
    ensures var sh' := Added(sh, p, at, x, name, typ);
            KidsOk(sh', n) && ParentOk(sh', n)
  {
    hide Ok;
    var sh' := Added(sh, p, at, x, name, typ);
    OkAt(sh, n);
    OkAt(sh, p);
    if n == p {
      KidsOfAdded(sh, p, at, x, name, typ);
    } else {
      assert sh'.nodes[n] == sh.nodes[n];
    }
    if n != sh.root && sh.nodes[n].parent == p {
      var kids := sh.nodes[p].kids;
      var j :| 0 <= j < |kids| && kids[j] == n;
      assert sh'.nodes[p].kids[if j < at then j else j + 1] == n;
    }
  }

  lemma AddedOk(sh: Shape, p: TreeNode, at: nat, x: TreeNode, name: string, typ: char)
    requires Ok(sh) && p in sh.nodes && at <= |sh.nodes[p].kids| && x !in sh.nodes
    ensures Ok(Added(sh, p, at, x, name, typ))
  {
    hide KidsOk, ParentOk;
    var sh' := Added(sh, p, at, x, name, typ);
    NewNodeOk(sh, p, at, x, name, typ);
    forall n | n in sh'.nodes ensures KidsOk(sh', n) && ParentOk(sh', n) {
      if n != x {
        NodeOfAdded(sh, p, at, x, name, typ, n);
      }
    }
  }

  lemma NewNodeOk(sh: Shape, p: TreeNode, at: nat, x: TreeNode, name: string, typ: char)
    requires Ok(sh) && p in sh.nodes && at <= |sh.nodes[p].kids| && x !in sh.nodes
    ensures var sh' := Added(sh, p, at, x, name, typ);
            KidsOk(sh', x) && ParentOk(sh', x)
  {
    hide Ok;
    OkAt(sh, p);
    assert Added(sh, p, at, x, name, typ).nodes[p].kids[at] == x;
  }

  lemma {:induction false} KidNotAncestor(sh: Shape, p: TreeNode, i: nat)
    requires Ok(sh) && p in sh.nodes && i < |sh.nodes[p].kids|
    ensures sh.root in sh.nodes
    ensures !Under(sh, sh.nodes[p].kids[i], p) && !Under(sh, sh.nodes[p].kids[i], sh.root)
  {
    KidAt(sh, p, i);
    if Under(sh, sh.nodes[p].kids[i], p) {
      UnderIsOlder(sh, sh.nodes[p].kids[i], p);
    }
  }

  lemma {:induction false} UnderSelf(sh: Shape, n: TreeNode)
    requires Ok(sh) && n in sh.nodes
    ensures Under(sh, n, n)
  {
  }

  lemma {:induction false} UnderParent(sh: Shape, a: TreeNode, n: TreeNode)
    requires Ok(sh) && n in sh.nodes && a != n && n != sh.root
    ensures sh.nodes[n].parent in sh.nodes
    ensures Under(sh, a, n) <==> Under(sh, a, sh.nodes[n].parent)
  {
    ParentIsOlder(sh, n);
  }

  lemma KidOfRemoved(sh: Shape, p: TreeNode, i: nat, k: nat)
    requires Ok(sh) && p in sh.nodes && i < |sh.nodes[p].kids| && k < |sh.nodes[p].kids| - 1
    ensures var sh' := Removed(sh, p, i);
            var j := if k < i then k else k + 1;
            var c := sh.nodes[p].kids[j];
            && p in sh'.nodes && |sh'.nodes[p].kids| == |sh.nodes[p].kids| - 1
            && sh'.nodes[p].stamp == sh.nodes[p].stamp
            && sh'.nodes[p].kids[k] == c
            && c in sh'.nodes && c != sh.root && sh'.nodes[c] == sh.nodes[c]
            && sh'.nodes[c].parent == p && sh'.nodes[c].stamp > sh'.nodes[p].stamp
  {
    hide Ok, Under;
    var j := if k < i then k else k + 1;
    KidNotAncestor(sh, p, i);
    KidAt(sh, p, i);
    KidAt(sh, p, j);
    var gone, c := sh.nodes[p].kids[i], sh.nodes[p].kids[j];
    DifferentKids(sh, p, i, j);
    UnderParent(sh, gone, c);
  }

  lemma KidsOfRemoved(sh: Shape, p: TreeNode, i: nat)
    requires Ok(sh) && p in sh.nodes && i < |sh.nodes[p].kids|
    ensures p in Removed(sh, p, i).nodes && KidsOk(Removed(sh, p, i), p)
  {
    hide Ok, Under;
    var sh' := Removed(sh, p, i);
    KidNotAncestor(sh, p, i);
    var n := |sh.nodes[p].kids| - 1;
    assert |sh'.nodes[p].kids| == n;
    forall k | 0 <= k < n
      ensures var c := sh'.nodes[p].kids[k];
              c in sh'.nodes && c != sh'.root && sh'.nodes[c].parent == p && sh'.nodes[c].stamp > sh'.nodes[p].stamp
    {
      KidOfRemoved(sh, p, i, k);
    }
    forall j, k | 0 <= j < k < n ensures sh'.nodes[p].kids[j] != sh'.nodes[p].kids[k] {
      KidOfRemoved(sh, p, i, j);
      KidOfRemoved(sh, p, i, k);
      DifferentKids(sh, p, if j < i then j else j + 1, if k < i then k else k + 1);
    }
  }

  lemma {:induction false} KidsStay(sh: Shape, p: TreeNode, i: nat, n: TreeNode)
    requires Ok(sh) && p in sh.nodes && i < |sh.nodes[p].kids|
    requires n in sh.nodes && n != p && !Under(sh, sh.nodes[p].kids[i], n)
    ensures KidsOk(Removed(sh, p, i), n)
  {
    hide Ok, Under;
    var gone := sh.nodes[p].kids[i];
    var sh' := Removed(sh, p, i);
    OkAt(sh, n);
    KidAt(sh, p, i);
    forall k | 0 <= k < |sh.nodes[n].kids| ensures !Under(sh, gone, sh.nodes[n].kids[k]) {
      KidAt(sh, n, k);
      UnderParent(sh, gone, sh.nodes[n].kids[k]);
    }
    assert sh'.nodes[n] == sh.nodes[n];
  }

  lemma {:induction false} ParentStays(sh: Shape, p: TreeNode, i: nat, n: TreeNode)
    requires Ok(sh) && p in sh.nodes && i < |sh.nodes[p].kids|
    requires n in sh.nodes && !Under(sh, sh.nodes[p].kids[i], n)
    ensures n in Removed(sh, p, i).nodes && ParentOk(Removed(sh, p, i), n)
  {
    hide Ok, Under;
    var gone := sh.nodes[p].kids[i];
    var sh' := Removed(sh, p, i);
    OkAt(sh, n);
    KidNotAncestor(sh, p, i);
    if n != sh.root {
      ParentIsOlder(sh, n);
      UnderSelf(sh, n);
      UnderParent(sh, gone, n);
      if sh.nodes[n].parent == p {
        var k :| 0 <= k < |sh.nodes[p].kids| && sh.nodes[p].kids[k] == n;
        var k' := if k < i then k else k - 1;
        assert k != i;
        KidOfRemoved(sh, p, i, k');
        assert sh'.nodes[p].kids[k'] == n;
      }
    }
  }

  lemma RemovedOk(sh: Shape, p: TreeNode, i: nat)
    requires Ok(sh) && p in sh.nodes && i < |sh.nodes[p].kids|
    ensures Ok(Removed(sh, p, i))
    ensures p in Removed(sh, p, i).nodes
    ensures sh.nodes[p].kids[i] !in Removed(sh, p, i).nodes
  {
    hide KidsOk, ParentOk, Under;
    var sh' := Removed(sh, p, i);
    KidNotAncestor(sh, p, i);
    KidAt(sh, p, i);
    UnderSelf(sh, sh.nodes[p].kids[i]);
    forall n | n in sh'.nodes ensures KidsOk(sh', n) && ParentOk(sh', n) {
      ParentStays(sh, p, i, n);
      if n == p {
        KidsOfRemoved(sh, p, i);
      } else {
        KidsStay(sh, p, i, n);
      }
    }
  }

  // ----- Effects on the tree

  /** sh' differs from sh at most in the children of x and in nodes that only one of them has. */
  ghost predicate OnlyAt(sh: Shape, sh': Shape, x: TreeNode) {
    && x in sh.nodes && x in sh'.nodes
    && sh'.nodes[x].name == sh.nodes[x].name
    && forall n :: n in sh.nodes && n in sh'.nodes && n != x ==> sh'.nodes[n] == sh.nodes[n]
  }

  lemma SameEntry(sh: Shape, sh': Shape, x: TreeNode, n: TreeNode)
    requires OnlyAt(sh, sh', x) && n in sh.nodes && n in sh'.nodes
    ensures sh'.nodes[n].name == sh.nodes[n].name
    ensures n != x ==> sh'.nodes[n] == sh.nodes[n]
  {
  }

  /** Subtrees that do not contain x are unaffected by a change at x. */
  lemma {:induction false} Unaffected(sh: Shape, sh': Shape, x: TreeNode, p: TreeNode, i: nat)
    requires Ok(sh) && Ok(sh') && OnlyAt(sh, sh', x) && x in sh.nodes
    requires p in sh.nodes && p in sh'.nodes && p != x && i <= |sh.nodes[p].kids|
    requires forall j :: i <= j < |sh.nodes[p].kids| ==> !Under(sh, sh.nodes[p].kids[j], x)
    ensures sh'.nodes[p] == sh.nodes[p]
    ensures ForestFrom(sh', p, i) == ForestFrom(sh, p, i)
    decreases sh.bound - sh.nodes[p].stamp, |sh.nodes[p].kids| - i
  {
    hide Ok, OnlyAt, Under;
    SameEntry(sh, sh', x, p);
    if i == |sh.nodes[p].kids| {
    } else {
      KidAt(sh, p, i);
      KidAt(sh', p, i);
      var c := sh.nodes[p].kids[i];
      assert !Under(sh, c, x);
      SameEntry(sh, sh', x, c);
      UnderSelf(sh, x);
      NotBelow(sh, c, x);
      Unaffected(sh, sh', x, c, 0);
      Unaffected(sh, sh', x, p, i + 1);
    }
  }

  lemma {:induction false} NotBelow(sh: Shape, c: TreeNode, x: TreeNode)
    requires Ok(sh) && c in sh.nodes && x in sh.nodes && (!Under(sh, c, x) || c == x)
    ensures forall j :: 0 <= j < |sh.nodes[c].kids| ==> !Under(sh, sh.nodes[c].kids[j], x)
  {
    hide Ok, Under;
    forall j | 0 <= j < |sh.nodes[c].kids| ensures !Under(sh, sh.nodes[c].kids[j], x) {
      if Under(sh, sh.nodes[c].kids[j], x) {
        UnderKid(sh, c, j, x);
      }
    }
  }

  lemma {:induction false} AddedOnlyAt(sh: Shape, p: TreeNode, at: nat, x: TreeNode, name: string, typ: char)
    requires Ok(sh) && p in sh.nodes && at <= |sh.nodes[p].kids| && x !in sh.nodes
    ensures Ok(Added(sh, p, at, x, name, typ))
    ensures OnlyAt(sh, Added(sh, p, at, x, name, typ), p)
    ensures ForestFrom(Added(sh, p, at, x, name, typ), x, 0) == Nil
  {
    hide Ok;
    AddedOk(sh, p, at, x, name, typ);
  }

  /** The subtree of a child of p is not affected by a change at p. */
  lemma {:induction false} KidUnaffected(sh: Shape, sh': Shape, p: TreeNode, c: TreeNode, i: nat)
    requires Ok(sh) && Ok(sh') && OnlyAt(sh, sh', p) && p in sh.nodes
    requires i < |sh.nodes[p].kids| && c == sh.nodes[p].kids[i] && c in sh'.nodes
    ensures c in sh.nodes && ForestFrom(sh', c, 0) == ForestFrom(sh, c, 0)
    ensures sh'.nodes[c] == sh.nodes[c]
  {
    hide Ok, OnlyAt, Under;
    KidAt(sh, p, i);
    KidNotAncestor(sh, p, i);
    NotBelow(sh, c, p);
    Unaffected(sh, sh', p, c, 0);
  }

  /** A leaf added behind the last child is appended to the forest of children. */
  lemma {:induction false} ForestOfAddedLast(sh: Shape, p: TreeNode, x: TreeNode, name: string, typ: char, i: nat)
    requires Ok(sh) && p in sh.nodes && x !in sh.nodes && i <= |sh.nodes[p].kids|
    ensures var sh' := Added(sh, p, |sh.nodes[p].kids|, x, name, typ);
            && Ok(sh')
            && ForestFrom(sh', p, i) == Append(ForestFrom(sh, p, i), Leaf(name, typ))
    decreases |sh.nodes[p].kids| - i
  {
    hide Ok, OnlyAt;
    var at := |sh.nodes[p].kids|;
    var sh' := Added(sh, p, at, x, name, typ);
    AddedOnlyAt(sh, p, at, x, name, typ);
    if i == at {
      assert sh'.nodes[p].kids[at] == x;
      assert ForestFrom(sh', p, at + 1) == Nil;
    } else {
      var c := sh.nodes[p].kids[i];
      assert sh'.nodes[p].kids[i] == c;
      KidAt(sh, p, i);
      KidUnaffected(sh, sh', p, c, i);
      ForestOfAddedLast(sh, p, x, name, typ, i + 1);
    }
  }

  lemma {:induction false} ForestShifted(sh: Shape, sh': Shape, p: TreeNode, i: nat, k: nat)
    requires Ok(sh) && Ok(sh') && OnlyAt(sh, sh', p) && p in sh.nodes && p in sh'.nodes
    requires i <= |sh.nodes[p].kids| && k <= |sh'.nodes[p].kids|
    requires sh'.nodes[p].kids[k..] == sh.nodes[p].kids[i..]
    ensures ForestFrom(sh', p, k) == ForestFrom(sh, p, i)
    decreases |sh.nodes[p].kids| - i
  {
    hide Ok, OnlyAt;
    assert |sh'.nodes[p].kids[k..]| == |sh.nodes[p].kids[i..]|;
    if i == |sh.nodes[p].kids| {
    } else {
      var c := sh.nodes[p].kids[i];
      assert sh.nodes[p].kids[i..][0] == c && sh'.nodes[p].kids[k..][0] == sh'.nodes[p].kids[k];
      KidAt(sh', p, k);
      KidUnaffected(sh, sh', p, c, i);
      assert sh'.nodes[p].kids[k + 1..] == sh'.nodes[p].kids[k..][1..];
      assert sh.nodes[p].kids[i + 1..] == sh.nodes[p].kids[i..][1..];
      ForestShifted(sh, sh', p, i + 1, k + 1);
    }
  }

  /** A leaf added in front becomes the first sibling. */
  lemma {:induction false} ForestOfAddedFirst(sh: Shape, p: TreeNode, x: TreeNode, name: string, typ: char)
    requires Ok(sh) && p in sh.nodes && x !in sh.nodes
    ensures var sh' := Added(sh, p, 0, x, name, typ);
            && Ok(sh')
            && ForestFrom(sh', p, 0) == Node(name, typ, Nil, ForestFrom(sh, p, 0))
  {
    hide Ok, OnlyAt;
    var sh' := Added(sh, p, 0, x, name, typ);
    AddedOnlyAt(sh, p, 0, x, name, typ);
    assert sh'.nodes[p].kids[0] == x;
    assert sh'.nodes[p].kids[1..] == sh.nodes[p].kids[0..];
    ForestShifted(sh, sh', p, 0, 1);
  }

  /** The forest without its i-th tree. */
  function Without(f: Forest, i: nat): Forest {
    match f
    case Nil => Nil
    case Node(_, _, _, sibling) => if i == 0 then sibling else f.(sibling := Without(sibling, i - 1))
  }

  function TreeCount(f: Forest): nat {
    match f
    case Nil => 0
    case Node(_, _, _, sibling) => 1 + TreeCount(sibling)
  }

  /** `Without` takes out one tree and leaves those before and behind it. */
  lemma {:induction false} WithoutMiddle(before: Forest, name: string, typ: char, child: Forest, behind: Forest)
    ensures Without(Append(before, Node(name, typ, child, behind)), TreeCount(before)) == Append(before, behind)
  {
    if before == Nil {
    } else {
      WithoutMiddle(before.sibling, name, typ, child, behind);
    }
  }

  lemma RemovedOnlyAt(sh: Shape, p: TreeNode, i: nat)
    requires Ok(sh) && p in sh.nodes && i < |sh.nodes[p].kids|
    ensures Ok(Removed(sh, p, i)) && OnlyAt(sh, Removed(sh, p, i), p)
  {
    hide Ok, Under;
    RemovedOk(sh, p, i);
  }

  /** Removing the i-th child removes exactly that tree from the forest of children. */
  lemma {:induction false} ForestOfRemoved(sh: Shape, p: TreeNode, i: nat, k: nat)
    requires Ok(sh) && p in sh.nodes && k <= i < |sh.nodes[p].kids|
    ensures var sh' := Removed(sh, p, i);
            && Ok(sh') && p in sh'.nodes
            && k <= |sh'.nodes[p].kids|
            && ForestFrom(sh', p, k) == Without(ForestFrom(sh, p, k), i - k)
    decreases i - k
  {
    hide Ok, OnlyAt, Under;
    var sh' := Removed(sh, p, i);
    RemovedOk(sh, p, i);
    RemovedOnlyAt(sh, p, i);
    if k == i {
      assert sh'.nodes[p].kids[i..] == sh.nodes[p].kids[i + 1..];
      ForestShifted(sh, sh', p, i + 1, i);
    } else {
      var c := sh.nodes[p].kids[k];
      KidOfRemoved(sh, p, i, k);
      KidAt(sh', p, k);
      KidUnaffected(sh, sh', p, c, k);
      ForestOfRemoved(sh, p, i, k + 1);
    }
  }

  // ----- reload: adding below the first match is a graft

  lemma {:induction false} BranchOf(sh: Shape, p: TreeNode, i: nat, x: TreeNode)
    requires Ok(sh) && p in sh.nodes && i < |sh.nodes[p].kids| && x in sh.nodes
    requires Under(sh, sh.nodes[p].kids[i], x)
    ensures p != x
    ensures forall j :: 0 <= j < |sh.nodes[p].kids| && j != i ==> !Under(sh, sh.nodes[p].kids[j], x)
  {
    hide Ok, Under;
    UnderKid(sh, p, i, x);
    forall j | 0 <= j < |sh.nodes[p].kids| && j != i ensures !Under(sh, sh.nodes[p].kids[j], x) {
      if Under(sh, sh.nodes[p].kids[j], x) {
        OneBranch(sh, p, i, j, x);
      }
    }
  }

  lemma {:induction false} FoundBelow(sh: Shape, c: TreeNode, name: string)
    requires Ok(sh) && c in sh.nodes && FindFrom(sh, c, 0, name).Some?
    ensures var x := FindFrom(sh, c, 0, name).value;
            x in sh.nodes && Under(sh, c, x) && x != c
  {
    hide Ok, Under;
    FoundFrom(sh, c, 0, name);
    var x := FindFrom(sh, c, 0, name).value;
    var j :| 0 <= j < |sh.nodes[c].kids| && Under(sh, sh.nodes[c].kids[j], x);
    UnderKid(sh, c, j, x);
  }

  lemma {:induction false} GraftBelow(sh: Shape, p: TreeNode, i: nat, parent: string,
                                      x: TreeNode, y: TreeNode, name: string, typ: char)
    requires Ok(sh) && p in sh.nodes && i <= |sh.nodes[p].kids| && y !in sh.nodes
    requires FindFrom(sh, p, i, parent) == Some(x) && x in sh.nodes && p != x
    ensures var sh' := Added(sh, x, |sh.nodes[x].kids|, y, name, typ);
            && Ok(sh') && sh'.nodes[p] == sh.nodes[p]
            && ForestFrom(sh', p, i) == Graft(ForestFrom(sh, p, i), parent, Leaf(name, typ))
    decreases sh.bound - sh.nodes[p].stamp, |sh.nodes[p].kids| - i
  {
    hide Ok, OnlyAt, Under;
    var at := |sh.nodes[x].kids|;
    var sh' := Added(sh, x, at, y, name, typ);
    AddedOnlyAt(sh, x, at, y, name, typ);
    KidAt(sh, p, i);
    var c := sh.nodes[p].kids[i];
    FoundFrom(sh, c, 0, parent);
    if sh.nodes[c].name == parent {
      UnderSelf(sh, c);
      BranchOf(sh, p, i, x);
      Unaffected(sh, sh', x, p, i + 1);
      ForestOfAddedLast(sh, c, y, name, typ, 0);
    } else if FindFrom(sh, c, 0, parent).Some? {
      FoundBelow(sh, c, parent);
      BranchOf(sh, p, i, x);
      Unaffected(sh, sh', x, p, i + 1);
      GraftBelow(sh, c, 0, parent, x, y, name, typ);
    } else {
      FoundFrom(sh, p, i + 1, parent);
      var j :| i + 1 <= j < |sh.nodes[p].kids| && Under(sh, sh.nodes[p].kids[j], x);
      BranchOf(sh, p, j, x);
      UnderSelf(sh, x);
      NotBelow(sh, c, x);
      Unaffected(sh, sh', x, c, 0);
      GraftBelow(sh, p, i + 1, parent, x, y, name, typ);
    }
  }

  /** Adding a leaf behind the children of the node that `searchTree` finds is `Graft`. */
  lemma {:induction false} AddedIsGraft(sh: Shape, parent: string, x: TreeNode, y: TreeNode, name: string, typ: char)
    requires Ok(sh) && sh.root in sh.nodes && y !in sh.nodes && Find(sh, sh.root, parent) == Some(x)
    ensures x in sh.nodes
    ensures var sh' := Added(sh, x, |sh.nodes[x].kids|, y, name, typ);
            && Ok(sh') && sh'.root in sh'.nodes
            && TreeAt(sh', sh.root) == Graft(TreeAt(sh, sh.root), parent, Leaf(name, typ))
  {
    hide Ok, OnlyAt, Under;
    FoundAt(sh, sh.root, parent);
    AddedOnlyAt(sh, x, |sh.nodes[x].kids|, y, name, typ);
    if sh.nodes[sh.root].name == parent {
      ForestOfAddedLast(sh, sh.root, y, name, typ, 0);
    } else {
      FoundFrom(sh, sh.root, 0, parent);
      FoundBelow(sh, sh.root, parent);
      GraftBelow(sh, sh.root, 0, parent, x, y, name, typ);
    }
  }
}
