// How the fields of the nodes represent the shape, and that each pointer update represents its change.
module FsLinks {
  import opened FsShape
  import opened FsUpdates

  /** The fields of all nodes at one moment. */
  type Heap = map<TreeNode, Cell>

  ghost function KidOrNull(kids: seq<TreeNode>, i: nat): TreeNode? {
    if i < |kids| then kids[i] else null
  }

  ghost predicate SiblingOk(h: Heap, kids: seq<TreeNode>, i: nat)
    requires i < |kids|
  {
    kids[i] in h && h[kids[i]].sibling == KidOrNull(kids, i + 1)
  }

  ghost predicate SiblingsOk(h: Heap, kids: seq<TreeNode>) {
    forall i: nat :: i < |kids| ==> SiblingOk(h, kids, i)
  }

  ghost predicate CellOk(sh: Shape, h: Heap, n: TreeNode)
    requires n in sh.nodes
  {
    var e := sh.nodes[n];
    && n in h
    && h[n].name == e.name && h[n].typ == e.typ && h[n].parent == e.parent
    && h[n].child == KidOrNull(e.kids, 0)
    && SiblingsOk(h, e.kids)
  }

  ghost predicate Linked(sh: Shape, h: Heap) {
    forall n :: n in sh.nodes ==> CellOk(sh, h, n)
  }

  lemma LinkedAt(sh: Shape, h: Heap, n: TreeNode)
    requires Linked(sh, h) && n in sh.nodes
    ensures CellOk(sh, h, n)
  {
  }

  /** The children of another node are not children of p. */
  lemma OtherKids(sh: Shape, p: TreeNode, n: TreeNode, i: nat)
    requires Ok(sh) && p in sh.nodes && n in sh.nodes && n != p && i < |sh.nodes[n].kids|
    ensures sh.nodes[n].kids[i] in sh.nodes && sh.nodes[sh.nodes[n].kids[i]].parent == n
    ensures sh.nodes[n].kids[i] !in sh.nodes[p].kids
  {
    hide Ok;
    KidAt(sh, n, i);
    var c := sh.nodes[n].kids[i];
    forall j | 0 <= j < |sh.nodes[p].kids| ensures sh.nodes[p].kids[j] != c {
      KidAt(sh, p, j);
    }
  }

  // ----- mkdir and creat

  ghost predicate StoredFirst(sh: Shape, h: Heap, h': Heap, p: TreeNode, x: TreeNode, name: string, typ: char) {
    && p in h && x !in h
    && h' == h[p := h[p].(child := x)][x := Cell(name, typ, null, h[p].child, p)]
  }

  lemma LinkedFirst(sh: Shape, h: Heap, h': Heap, p: TreeNode, x: TreeNode, name: string, typ: char)
    requires Ok(sh) && Linked(sh, h) && p in sh.nodes && x !in sh.nodes
    requires StoredFirst(sh, h, h', p, x, name, typ)
    ensures Linked(Added(sh, p, 0, x, name, typ), h')
  {
    hide Ok, Linked, KidsOk, ParentOk;
    var sh' := Added(sh, p, 0, x, name, typ);
    forall n | n in sh'.nodes ensures CellOk(sh', h', n) {
      LinkedAt(sh, h, p);
      if n in sh.nodes {
        LinkedAt(sh, h, n);
        var kids := sh.nodes[n].kids;
        forall i: nat | i < |kids| ensures SiblingOk(h', kids, i) {
          assert SiblingOk(h, kids, i);
          KidAt(sh, n, i);
        }
        if n == p {
          var kids' := sh'.nodes[p].kids;
          assert kids' == [x] + kids;
          forall i: nat | i < |kids'| ensures SiblingOk(h', kids', i) {
            assert i > 0 ==> SiblingOk(h', kids, i - 1);
          }
        }
      }
    }
    assert Linked(sh', h') by {
      LinkedIntro(sh', h');
    }
  }

  lemma LinkedIntro(sh: Shape, h: Heap)
    requires forall n :: n in sh.nodes ==> CellOk(sh, h, n)
    ensures Linked(sh, h)
  {
  }

  // ----- reload

  /** x is stored behind the last child of p: in p's child field or in the last child's sibling field. */
  ghost predicate StoredLast(sh: Shape, h: Heap, h': Heap, p: TreeNode, x: TreeNode, name: string, typ: char)
    requires p in sh.nodes
  {
    var kids := sh.nodes[p].kids;
    var leaf := Cell(name, typ, null, null, p);
    && p in h && x !in h
    && if kids == [] then
         h' == h[p := h[p].(child := x)][x := leaf]
       else
         && kids[|kids| - 1] in h
         && h' == h[kids[|kids| - 1] := h[kids[|kids| - 1]].(sibling := x)][x := leaf]
  }

  lemma LinkedLast(sh: Shape, h: Heap, h': Heap, p: TreeNode, x: TreeNode, name: string, typ: char)
    requires Ok(sh) && Linked(sh, h) && p in sh.nodes && x !in sh.nodes
    requires StoredLast(sh, h, h', p, x, name, typ)
    ensures Linked(Added(sh, p, |sh.nodes[p].kids|, x, name, typ), h')
  {
    hide Ok, Linked, KidsOk, ParentOk;
    var sh' := Added(sh, p, |sh.nodes[p].kids|, x, name, typ);
    forall n | n in sh'.nodes ensures CellOk(sh', h', n) {
      if n in sh.nodes {
        if n == p {
          LastOfParent(sh, h, h', p, x, name, typ);
        } else {
          LastOfOther(sh, h, h', p, x, name, typ, n);
        }
      }
    }
    LinkedIntro(sh', h');
  }

  lemma LastOfParent(sh: Shape, h: Heap, h': Heap, p: TreeNode, x: TreeNode, name: string, typ: char)
    requires Ok(sh) && Linked(sh, h) && p in sh.nodes && x !in sh.nodes
    requires StoredLast(sh, h, h', p, x, name, typ)
    ensures CellOk(Added(sh, p, |sh.nodes[p].kids|, x, name, typ), h', p)
  {
    hide Ok, Linked, KidsOk, ParentOk;
    var sh' := Added(sh, p, |sh.nodes[p].kids|, x, name, typ);
    LinkedAt(sh, h, p);
    var kids, kids' := sh.nodes[p].kids, sh'.nodes[p].kids;
    assert kids' == kids + [x];
    if kids != [] {
      KidAt(sh, p, |kids| - 1);
    }
    forall i: nat | i < |kids'| ensures SiblingOk(h', kids', i) {
      assert i < |kids| ==> SiblingOk(h, kids, i);
      if i < |kids| - 1 {
        KidAt(sh, p, i);
        DifferentKids(sh, p, i, |kids| - 1);
      }
    }
  }

  lemma LastOfOther(sh: Shape, h: Heap, h': Heap, p: TreeNode, x: TreeNode, name: string, typ: char, n: TreeNode)
    requires Ok(sh) && Linked(sh, h) && p in sh.nodes && x !in sh.nodes && n in sh.nodes && n != p
    requires StoredLast(sh, h, h', p, x, name, typ)
    ensures CellOk(Added(sh, p, |sh.nodes[p].kids|, x, name, typ), h', n)
  {
    hide Ok, Linked, KidsOk, ParentOk;
    LinkedAt(sh, h, n);
    var kids := sh.nodes[n].kids;
    forall i: nat | i < |kids| ensures SiblingOk(h', kids, i) {
      assert SiblingOk(h, kids, i);
      OtherKids(sh, p, n, i);
    }
  }

  // ----- rm and rmdir

  /** The i-th child of p is bypassed: in p's child field or in the previous child's sibling field. */
  ghost predicate Bypassed(sh: Shape, h: Heap, h': Heap, p: TreeNode, i: nat)
    requires p in sh.nodes && i < |sh.nodes[p].kids|
  {
    var kids := sh.nodes[p].kids;
    && p in h && kids[i] in h
    && if i == 0 then h' == h[p := h[p].(child := h[kids[0]].sibling)]
       else kids[i - 1] in h && h' == h[kids[i - 1] := h[kids[i - 1]].(sibling := h[kids[i]].sibling)]
  }

  lemma LinkedWithout(sh: Shape, h: Heap, h': Heap, p: TreeNode, i: nat)
    requires Ok(sh) && Linked(sh, h) && p in sh.nodes && i < |sh.nodes[p].kids| && Bypassed(sh, h, h', p, i)
    ensures Linked(Removed(sh, p, i), h')
  {
    hide Ok, Linked, KidsOk, ParentOk, Under, Bypassed;
    var sh' := Removed(sh, p, i);
    forall n | n in sh'.nodes ensures CellOk(sh', h', n) {
      if n == p {
        BypassedParent(sh, h, h', p, i);
      } else {
        BypassedOther(sh, h, h', p, i, n);
      }
    }
    LinkedIntro(sh', h');
  }

  lemma BypassedParent(sh: Shape, h: Heap, h': Heap, p: TreeNode, i: nat)
    requires Ok(sh) && Linked(sh, h) && p in sh.nodes && i < |sh.nodes[p].kids| && Bypassed(sh, h, h', p, i)
    requires p in Removed(sh, p, i).nodes
    ensures CellOk(Removed(sh, p, i), h', p)
  {
    hide Ok, Linked, KidsOk, ParentOk, Under;
    LinkedAt(sh, h, p);
    var kids, kids' := sh.nodes[p].kids, Removed(sh, p, i).nodes[p].kids;
    assert SiblingOk(h, kids, i);
    KidAt(sh, p, i);
    if i > 0 {
      KidAt(sh, p, i - 1);
    }
    forall k: nat | k < |kids'| ensures SiblingOk(h', kids', k) {
      var j := if k < i then k else k + 1;
      assert kids'[k] == kids[j] && SiblingOk(h, kids, j);
      KidAt(sh, p, j);
      if i > 0 && j != i - 1 {
        DifferentKids(sh, p, j, i - 1);
      }
    }
  }

  lemma BypassedOther(sh: Shape, h: Heap, h': Heap, p: TreeNode, i: nat, n: TreeNode)
    requires Ok(sh) && Linked(sh, h) && p in sh.nodes && i < |sh.nodes[p].kids| && Bypassed(sh, h, h', p, i)
    requires n in Removed(sh, p, i).nodes && n != p
    ensures CellOk(Removed(sh, p, i), h', n)
  {
    hide Ok, Linked, KidsOk, ParentOk, Under;
    LinkedAt(sh, h, n);
    var kids := sh.nodes[n].kids;
    forall k: nat | k < |kids| ensures SiblingOk(h', kids, k) {
      assert SiblingOk(h, kids, k);
      OtherKids(sh, p, n, k);
    }
  }
}
