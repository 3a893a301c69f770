// The shape of the node graph of the file system: who is whose child, as a value over node references.
module FsShape {
  import opened Wrappers
  import opened FsTree

  class TreeNode {
    var name: string
    var typ: char
    var child: TreeNode?
    var sibling: TreeNode?
    var parent: TreeNode

    constructor Root()
      ensures name == ROOT_NAME && typ == 'D' && child == null && sibling == null && parent == this
    {
      name := ROOT_NAME;
      typ := 'D';
      child := null;
      sibling := null;
      parent := this;
    }

    constructor (name: string, typ: char, parent: TreeNode, sibling: TreeNode?)
      ensures this.name == name && this.typ == typ && this.parent == parent
      ensures this.sibling == sibling && child == null
    {
      this.name := name;
      this.typ := typ;
      this.parent := parent;
      this.sibling := sibling;
      child := null;
    }

    /** The contents of the fields. */
    function Fields(): Cell
      reads this
    {
      Cell(name, typ, child, sibling, parent)
    }
  }

  datatype Cell = Cell(name: string, typ: char, child: TreeNode?, sibling: TreeNode?, parent: TreeNode)

  /** What the links of a node mean; `stamp` is its place in the order of creation. */
  datatype Entry = Entry(name: string, typ: char, parent: TreeNode, kids: seq<TreeNode>, stamp: nat)

  datatype Shape = Shape(nodes: map<TreeNode, Entry>, root: TreeNode, bound: nat)

  ghost predicate KidsOk(sh: Shape, n: TreeNode)
    requires n in sh.nodes
  {
    && (forall i :: 0 <= i < |sh.nodes[n].kids| ==>
          var c := sh.nodes[n].kids[i];
          c in sh.nodes && c != sh.root && sh.nodes[c].parent == n && sh.nodes[c].stamp > sh.nodes[n].stamp)
    && (forall i, j :: 0 <= i < j < |sh.nodes[n].kids| ==> sh.nodes[n].kids[i] != sh.nodes[n].kids[j])
  }

  ghost predicate ParentOk(sh: Shape, n: TreeNode)
    requires n in sh.nodes
  {
    && sh.nodes[n].stamp < sh.bound
    && sh.nodes[n].parent in sh.nodes
    && (if n == sh.root then sh.nodes[n].parent == n else n in sh.nodes[sh.nodes[n].parent].kids)
  }

  /** A finite tree: each node but the root is in exactly one list of children, that of its parent. */
  ghost predicate Ok(sh: Shape) {
    && sh.root in sh.nodes
    && (forall n :: n in sh.nodes ==> KidsOk(sh, n))
    && (forall n :: n in sh.nodes ==> ParentOk(sh, n))
  }

  lemma OkAt(sh: Shape, n: TreeNode)
    requires Ok(sh) && n in sh.nodes
    ensures sh.root in sh.nodes && KidsOk(sh, n) && ParentOk(sh, n)
  {
  }

  lemma DifferentKids(sh: Shape, p: TreeNode, i: nat, j: nat)
    requires Ok(sh) && p in sh.nodes && i < |sh.nodes[p].kids| && j < |sh.nodes[p].kids| && i != j
    ensures sh.nodes[p].kids[i] != sh.nodes[p].kids[j]
  {
    OkAt(sh, p);
  }

  lemma ParentIsOlder(sh: Shape, n: TreeNode)
    requires Ok(sh) && n in sh.nodes && n != sh.root
    ensures var p := sh.nodes[n].parent;
            p in sh.nodes && sh.nodes[p].stamp < sh.nodes[n].stamp
            && exists i :: 0 <= i < |sh.nodes[p].kids| && sh.nodes[p].kids[i] == n
  {
    assert ParentOk(sh, n);
    assert KidsOk(sh, sh.nodes[n].parent);
  }

  lemma KidAt(sh: Shape, p: TreeNode, i: nat)
    requires Ok(sh) && p in sh.nodes && i < |sh.nodes[p].kids|
    ensures var c := sh.nodes[p].kids[i];
            c in sh.nodes && c != sh.root && sh.nodes[c].parent == p
            && sh.nodes[p].stamp < sh.nodes[c].stamp < sh.bound
  {
    assert KidsOk(sh, p);
    assert ParentOk(sh, sh.nodes[p].kids[i]);
  }

  // ----- Ancestors

  /** a is n or an ancestor of n. */
  ghost predicate Under(sh: Shape, a: TreeNode, n: TreeNode)
    requires Ok(sh) && n in sh.nodes
    decreases sh.nodes[n].stamp
  {
    a == n
    || (n != sh.root && (ParentIsOlder(sh, n); Under(sh, a, sh.nodes[n].parent)))
  }

  lemma {:induction false} UnderIsOlder(sh: Shape, a: TreeNode, n: TreeNode)
    requires Ok(sh) && n in sh.nodes && Under(sh, a, n)
    ensures a in sh.nodes && (a == n || sh.nodes[a].stamp < sh.nodes[n].stamp)
    decreases sh.nodes[n].stamp
  {
    if a == n {
    } else {
      ParentIsOlder(sh, n);
      UnderIsOlder(sh, a, sh.nodes[n].parent);
    }
  }

  /** Everything in the shape is reachable from the root. */
  lemma {:induction false} AllUnderRoot(sh: Shape, n: TreeNode)
    requires Ok(sh) && n in sh.nodes
    ensures Under(sh, sh.root, n)
    decreases sh.nodes[n].stamp
  {
    if n == sh.root {
    } else {
      ParentIsOlder(sh, n);
      AllUnderRoot(sh, sh.nodes[n].parent);
    }
  }

  lemma {:induction false} UnderKid(sh: Shape, p: TreeNode, i: nat, n: TreeNode)
    requires Ok(sh) && p in sh.nodes && i < |sh.nodes[p].kids| && n in sh.nodes
    requires Under(sh, sh.nodes[p].kids[i], n)
    ensures Under(sh, p, n) && n != p
    decreases sh.nodes[n].stamp
  {
    KidAt(sh, p, i);
    var c := sh.nodes[p].kids[i];
    UnderIsOlder(sh, c, n);
    if n != c {
      ParentIsOlder(sh, n);
      if sh.nodes[n].parent == p {
        UnderIsOlder(sh, c, p);
      } else {
        UnderKid(sh, p, i, sh.nodes[n].parent);
      }
    }
  }

  /** The subtrees of two children are disjoint. */
  lemma {:induction false} OneBranch(sh: Shape, p: TreeNode, i: nat, j: nat, n: TreeNode)
    requires Ok(sh) && p in sh.nodes && i < |sh.nodes[p].kids| && j < |sh.nodes[p].kids| && n in sh.nodes
    requires Under(sh, sh.nodes[p].kids[i], n) && Under(sh, sh.nodes[p].kids[j], n)
    ensures i == j
    decreases sh.nodes[n].stamp
  {
    var c, d := sh.nodes[p].kids[i], sh.nodes[p].kids[j];
    KidAt(sh, p, i);
    KidAt(sh, p, j);
    assert KidsOk(sh, p);
    if n != c && n != d {
      ParentIsOlder(sh, n);
      OneBranch(sh, p, i, j, sh.nodes[n].parent);
    } else if n == c && n != d {
      UnderIsOlder(sh, d, sh.nodes[n].parent);
    } else if n == d && n != c {
      UnderIsOlder(sh, c, sh.nodes[n].parent);
    }
  }

  // ----- The tree as a value

  /** The i-th and later children of p with everything below them. */
  ghost function ForestFrom(sh: Shape, p: TreeNode, i: nat): Forest
    requires Ok(sh) && p in sh.nodes && i <= |sh.nodes[p].kids|
    decreases sh.bound - sh.nodes[p].stamp, |sh.nodes[p].kids| - i
  {
    if i == |sh.nodes[p].kids| then Nil
    else
      KidAt(sh, p, i);
      var c := sh.nodes[p].kids[i];
      Node(sh.nodes[c].name, sh.nodes[c].typ, ForestFrom(sh, c, 0), ForestFrom(sh, p, i + 1))
  }

  ghost function TreeAt(sh: Shape, n: TreeNode): Forest
    requires Ok(sh) && n in sh.nodes
  {
    Node(sh.nodes[n].name, sh.nodes[n].typ, ForestFrom(sh, n, 0), Nil)
  }

  /** The first node with that name among the i-th and later children of p, in preorder. */
  ghost function FindFrom(sh: Shape, p: TreeNode, i: nat, name: string): Option<TreeNode>
    requires Ok(sh) && p in sh.nodes && i <= |sh.nodes[p].kids|
    decreases sh.bound - sh.nodes[p].stamp, |sh.nodes[p].kids| - i
  {
    if i == |sh.nodes[p].kids| then None
    else
      KidAt(sh, p, i);
      var c := sh.nodes[p].kids[i];
      var found := if sh.nodes[c].name == name then Some(c) else FindFrom(sh, c, 0, name);
      if found.Some? then found else FindFrom(sh, p, i + 1, name)
  }

  ghost function Find(sh: Shape, n: TreeNode, name: string): Option<TreeNode>
    requires Ok(sh) && n in sh.nodes
  {
    if sh.nodes[n].name == name then Some(n) else FindFrom(sh, n, 0, name)
  }

  lemma {:induction false} FoundFrom(sh: Shape, p: TreeNode, i: nat, name: string)
    requires Ok(sh) && p in sh.nodes && i <= |sh.nodes[p].kids|
    ensures FindFrom(sh, p, i, name).Some? <==> name in Names(ForestFrom(sh, p, i))
    ensures FindFrom(sh, p, i, name).Some? ==>
              var x := FindFrom(sh, p, i, name).value;
              && x in sh.nodes && sh.nodes[x].name == name
              && exists j :: i <= j < |sh.nodes[p].kids| && Under(sh, sh.nodes[p].kids[j], x)
    decreases sh.bound - sh.nodes[p].stamp, |sh.nodes[p].kids| - i
  {
    hide Ok;
    if i == |sh.nodes[p].kids| {
    } else {
      KidAt(sh, p, i);
      var c := sh.nodes[p].kids[i];
      FoundFrom(sh, c, 0, name);
      FoundFrom(sh, p, i + 1, name);
      if sh.nodes[c].name != name && FindFrom(sh, c, 0, name).Some? {
        var x := FindFrom(sh, c, 0, name).value;
        var j :| 0 <= j < |sh.nodes[c].kids| && Under(sh, sh.nodes[c].kids[j], x);
        UnderKid(sh, c, j, x);
        assert Under(sh, sh.nodes[p].kids[i], x);
      } else if sh.nodes[c].name == name {
        assert Under(sh, sh.nodes[p].kids[i], c);
      }
    }
  }

  /** `searchTree` finds a node exactly when the name occurs, and the node bears the name. */
  lemma {:induction false} FoundAt(sh: Shape, n: TreeNode, name: string)
    requires Ok(sh) && n in sh.nodes
    ensures Find(sh, n, name).Some? <==> name in Names(TreeAt(sh, n))
    ensures Find(sh, n, name).Some? ==>
              var x := Find(sh, n, name).value;
              x in sh.nodes && sh.nodes[x].name == name && Under(sh, n, x)
  {
    FoundFrom(sh, n, 0, name);
    if sh.nodes[n].name != name && Find(sh, n, name).Some? {
      var x := Find(sh, n, name).value;
      var j :| 0 <= j < |sh.nodes[n].kids| && Under(sh, sh.nodes[n].kids[j], x);
      UnderKid(sh, n, j, x);
    }
  }

  // ----- The order of the search

  /** The i-th and later children of p with all that is below them, in the order in which `save` visits them. */
  ghost function Preorder(sh: Shape, p: TreeNode, i: nat): seq<TreeNode>
    requires Ok(sh) && p in sh.nodes && i <= |sh.nodes[p].kids|
    decreases sh.bound - sh.nodes[p].stamp, |sh.nodes[p].kids| - i
  {
    if i == |sh.nodes[p].kids| then []
    else
      KidAt(sh, p, i);
      var c := sh.nodes[p].kids[i];
      [c] + Preorder(sh, c, 0) + Preorder(sh, p, i + 1)
  }

  /** The nodes of q and their parents are nodes of the shape. */
  ghost predicate Within(sh: Shape, q: seq<TreeNode>) {
    forall k :: 0 <= k < |q| ==> q[k] in sh.nodes && sh.nodes[q[k]].parent in sh.nodes
  }

  /** The record of a node; the root has none. */
  ghost function RecordOf(sh: Shape, n: TreeNode): seq<Line>
    requires n in sh.nodes && sh.nodes[n].parent in sh.nodes
  {
    var e := sh.nodes[n];
    if e.name != ROOT_NAME then [Line(e.name, sh.nodes[e.parent].name, e.typ)] else []
  }

  /** The records of nodes, one after the other. */
  ghost function RecordsOf(sh: Shape, q: seq<TreeNode>): seq<Line>
    requires Within(sh, q)
  {
    if q == [] then [] else RecordOf(sh, q[0]) + RecordsOf(sh, q[1..])
  }

  lemma {:induction false} RecordsConcat(sh: Shape, q: seq<TreeNode>, r: seq<TreeNode>)
    requires Within(sh, q) && Within(sh, r)
    ensures Within(sh, q + r) && RecordsOf(sh, q + r) == RecordsOf(sh, q) + RecordsOf(sh, r)
  {
    hide RecordOf;
    if q == [] {
      assert q + r == r;
    } else {
      RecordsConcat(sh, q[1..], r);
      assert (q + r)[1..] == q[1..] + r && (q + r)[0] == q[0];
    }
  }

  /** That order is the order of the save file. */
  lemma {:induction false} PreorderIsSaved(sh: Shape, p: TreeNode, i: nat)
    requires Ok(sh) && p in sh.nodes && i <= |sh.nodes[p].kids|
    ensures Within(sh, Preorder(sh, p, i))
    ensures RecordsOf(sh, Preorder(sh, p, i)) == Lines(ForestFrom(sh, p, i), sh.nodes[p].name)
    decreases sh.bound - sh.nodes[p].stamp, |sh.nodes[p].kids| - i
  {
    hide Ok;
    if i == |sh.nodes[p].kids| {
    } else {
      KidAt(sh, p, i);
      var c := sh.nodes[p].kids[i];
      PreorderIsSaved(sh, c, 0);
      PreorderIsSaved(sh, p, i + 1);
      RecordsConcat(sh, [c] + Preorder(sh, c, 0), Preorder(sh, p, i + 1));
      assert ([c] + Preorder(sh, c, 0))[1..] == Preorder(sh, c, 0);
    }
  }

  /** found is the first node of q with that name, or None if there is none. */
  ghost predicate IsFirst(sh: Shape, q: seq<TreeNode>, name: string, found: Option<TreeNode>) {
    && (forall k :: 0 <= k < |q| ==> q[k] in sh.nodes)
    && match found
       case None => forall k :: 0 <= k < |q| ==> sh.nodes[q[k]].name != name
       case Some(x) =>
         exists k :: 0 <= k < |q| && q[k] == x && sh.nodes[x].name == name
                     && forall j :: 0 <= j < k ==> sh.nodes[q[j]].name != name
  }

  lemma FirstConcat(sh: Shape, q: seq<TreeNode>, r: seq<TreeNode>, name: string,
                    found: Option<TreeNode>, found': Option<TreeNode>)
    requires IsFirst(sh, q, name, found) && IsFirst(sh, r, name, found')
    ensures IsFirst(sh, q + r, name, if found.Some? then found else found')
  {
    var all := q + r;
    assert forall k :: 0 <= k < |all| ==> all[k] in if k < |q| then q else r;
    if found.Some? {
      var k :| 0 <= k < |q| && q[k] == found.value && sh.nodes[found.value].name == name
               && forall j :: 0 <= j < k ==> sh.nodes[q[j]].name != name;
      assert all[k] == found.value && forall j :: 0 <= j < k ==> all[j] == q[j];
    } else if found'.Some? {
      var k :| 0 <= k < |r| && r[k] == found'.value && sh.nodes[found'.value].name == name
               && forall j :: 0 <= j < k ==> sh.nodes[r[j]].name != name;
      assert all[|q| + k] == found'.value;
      assert forall j :: 0 <= j < |q| + k ==> all[j] == if j < |q| then q[j] else r[j - |q|];
    }
  }

  lemma FirstOfOne(sh: Shape, c: TreeNode, name: string)
    requires c in sh.nodes
    ensures IsFirst(sh, [c], name, if sh.nodes[c].name == name then Some(c) else None)
  {
    assert [c][0] == c;
  }

  /** The search finds the first node of that name in the order of the save file. */
  lemma {:induction false} FindFromIsFirst(sh: Shape, p: TreeNode, i: nat, name: string)
    requires Ok(sh) && p in sh.nodes && i <= |sh.nodes[p].kids|
    ensures IsFirst(sh, Preorder(sh, p, i), name, FindFrom(sh, p, i, name))
    decreases sh.bound - sh.nodes[p].stamp, |sh.nodes[p].kids| - i
  {
    hide Ok, IsFirst;
    if i == |sh.nodes[p].kids| {
      NoFirst(sh, name);
    } else {
      KidAt(sh, p, i);
      var c := sh.nodes[p].kids[i];
      FindFromIsFirst(sh, c, 0, name);
      FindFromIsFirst(sh, p, i + 1, name);
      FirstOfOne(sh, c, name);
      var own := if sh.nodes[c].name == name then Some(c) else None;
      FirstConcat(sh, [c], Preorder(sh, c, 0), name, own, FindFrom(sh, c, 0, name));
      FirstConcat(sh, [c] + Preorder(sh, c, 0), Preorder(sh, p, i + 1), name,
                  if own.Some? then own else FindFrom(sh, c, 0, name), FindFrom(sh, p, i + 1, name));
    }
  }

  lemma NoFirst(sh: Shape, name: string)
    ensures IsFirst(sh, [], name, None)
  {
  }

  lemma {:induction false} FindIsFirst(sh: Shape, n: TreeNode, name: string)
    requires Ok(sh) && n in sh.nodes
    ensures IsFirst(sh, [n] + Preorder(sh, n, 0), name, Find(sh, n, name))
  {
    hide Ok, IsFirst;
    FindFromIsFirst(sh, n, 0, name);
    FirstOfOne(sh, n, name);
    FirstConcat(sh, [n], Preorder(sh, n, 0), name, if sh.nodes[n].name == name then Some(n) else None,
                FindFrom(sh, n, 0, name));
  }
}
