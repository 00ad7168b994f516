/**
 * AVLTree of avlbst.h over the node arena. The tree object holds the root
 * pointer and the arena of AVLNode records; a ghost field `shape` is the tree
 * those records currently form. Every operation changes the records the way
 * the source does, pointer assignment by pointer assignment, and then states
 * its effect on `shape`.
 */
module AvlBst {
  import opened AvlShape
  import opened AvlOrder
  import opened AvlRotate
  import opened AvlFixup
  import opened AvlArena
  import opened AvlSwap

  // ---------------------------------------------------------------------------
  // Reading the arena through the shape
  // ---------------------------------------------------------------------------

  /** The record of the node at `p` is where the shape says, with its parent pointer. */
  lemma Lookup<V>(nodes: Arena<V>, t: Tree<V>, p: Path)
    requires Encodes(nodes, t, Null) && NodeAt(t, p)
    ensures Sub(t, p).id in nodes && nodes[Sub(t, p).id] == RecOf(Sub(t, p), ParentOf(t, p, Null))
  {
    EncodesSub(nodes, t, Null, p);
  }

  /** The node above position `p` points down to the subtree at `p`. */
  lemma ChildLink<V>(nodes: Arena<V>, t: Tree<V>, p: Path)
    requires Encodes(nodes, t, Null) && ValidPos(t, p) && p != []
    ensures NodeAt(t, Init(p))
    ensures var pid := Sub(t, Init(p)).id;
      pid in nodes && ParentOf(t, p, Null) == At(pid) &&
      (if Last(p) == Left then nodes[pid].left else nodes[pid].right) == PtrOf(Sub(t, p))
  {
    SubInit(t, p);
    Lookup(nodes, t, Init(p));
  }

  /**
   * Rewriting the record of the node at `p` with a new key, value or balance
   * field gives the arena of the tree with that node changed.
   */
  lemma RecordUpdate<V>(nodes: Arena<V>, t: Tree<V>, p: Path, s': Tree<V>)
    requires Encodes(nodes, t, Null) && Distinct(t) && NodeAt(t, p)
    requires s'.Node? && s'.id == Sub(t, p).id && s'.left == Sub(t, p).left && s'.right == Sub(t, p).right
    ensures Encodes(nodes[s'.id := RecOf(s', ParentOf(t, p, Null))], ReplaceAt(t, p, s'), Null)
    ensures Ids(ReplaceAt(t, p, s')) == Ids(t) && Distinct(ReplaceAt(t, p, s'))
  {
    var s := Sub(t, p);
    var par := ParentOf(t, p, Null);
    var nodes' := nodes[s.id := RecOf(s', par)];
    SubFacts(t, p);
    EncodesSub(nodes, t, Null, p);
    EncodesTop(nodes, s, s', par);
    if p != [] {
      ChildLink(nodes, t, p);
      ParentOutside(t, p);
      var pid := Sub(t, Init(p)).id;
      assert nodes'[pid] == Relink(nodes[pid], Last(p), PtrOf(s'));
    }
    OutsideFacts(t, p);
    EncodesIds(nodes, t, Null);
    AgreeUpdate(nodes, s.id, RecOf(s', par), Outside(t, p));
    EncodesReplace(nodes, nodes', t, Null, p, s');
    IdsReplace(t, p, s');
  }

  /**
   * The records after the pointer assignments of rotateLeft at `p`: the new
   * root and the pivot rewritten, the inner grandchild re-parented, the node
   * above pointing to the new root, everything else as it was.
   */
  lemma RotateLeftLinks<V>(n0: Arena<V>, n: Arena<V>, t: Tree<V>, p: Path)
    requires Encodes(n0, t, Null) && Distinct(t) && NodeAt(t, p) && Sub(t, p).right.Node?
    requires var s := Sub(t, p); var y := s.right; var r := LinkLeft(s);
      y.id in n && n[y.id] == RecOf(r, ParentOf(t, p, Null)) &&
      s.id in n && n[s.id] == RecOf(r.left, At(y.id)) &&
      (y.left.Node? ==> y.left.id in n0 && y.left.id in n && n[y.left.id] == n0[y.left.id].(parent := At(s.id))) &&
      Agree(n0, n, Ids(s.left) + Ids(y.right)) &&
      (y.left.Node? ==> Agree(n0, n, Ids(y.left.left) + Ids(y.left.right)))
    requires p != [] ==>
      (NodeAt(t, Init(p)) &&
       var pid := Sub(t, Init(p)).id;
       pid in n0 && pid in n && n[pid] == Relink(n0[pid], Last(p), At(Sub(t, p).right.id)))
    requires Agree(n0, n, Outside(t, p))
    ensures Encodes(n, ReplaceAt(t, p, LinkLeft(Sub(t, p))), Null)
  {
    var s := Sub(t, p);
    var y := s.right;
    var par := ParentOf(t, p, Null);
    SubFacts(t, p);
    EncodesSub(n0, t, Null, p);
    EncodesFrame(n0, n, s.left, At(s.id));
    EncodesFrame(n0, n, y.right, At(y.id));
    Reparent(n0, n, y.left, At(y.id), At(s.id));
    var r := LinkLeft(s);
    assert Encodes(n, r.left, At(y.id));
    assert Encodes(n, r, par);
    EncodesReplace(n0, n, t, Null, p, r);
  }

  /** The records after the pointer assignments of rotateRight at `p`. */
  lemma RotateRightLinks<V>(n0: Arena<V>, n: Arena<V>, t: Tree<V>, p: Path)
    requires Encodes(n0, t, Null) && Distinct(t) && NodeAt(t, p) && Sub(t, p).left.Node?
    requires var s := Sub(t, p); var y := s.left; var r := LinkRight(s);
      y.id in n && n[y.id] == RecOf(r, ParentOf(t, p, Null)) &&
      s.id in n && n[s.id] == RecOf(r.right, At(y.id)) &&
      (y.right.Node? ==> y.right.id in n0 && y.right.id in n && n[y.right.id] == n0[y.right.id].(parent := At(s.id))) &&
      Agree(n0, n, Ids(s.right) + Ids(y.left)) &&
      (y.right.Node? ==> Agree(n0, n, Ids(y.right.left) + Ids(y.right.right)))
    requires p != [] ==>
      (NodeAt(t, Init(p)) &&
       var pid := Sub(t, Init(p)).id;
       pid in n0 && pid in n && n[pid] == Relink(n0[pid], Last(p), At(Sub(t, p).left.id)))
    requires Agree(n0, n, Outside(t, p))
    ensures Encodes(n, ReplaceAt(t, p, LinkRight(Sub(t, p))), Null)
  {
    var s := Sub(t, p);
    var y := s.left;
    var par := ParentOf(t, p, Null);
    SubFacts(t, p);
    EncodesSub(n0, t, Null, p);
    EncodesFrame(n0, n, s.right, At(s.id));
    EncodesFrame(n0, n, y.left, At(y.id));
    Reparent(n0, n, y.right, At(y.id), At(s.id));
    var r := LinkRight(s);
    assert Encodes(n, r.right, At(y.id));
    assert Encodes(n, r, par);
    EncodesReplace(n0, n, t, Null, p, r);
  }

  /**
   * The pointer assignments of rotateLeft, in the source's order: the new
   * root's parent, the parent's child (when there is a parent), the new root's
   * left child, the pivot's parent and right child, and the inner grandchild's
   * parent.
   */
  ghost function LeftRotated<V>(n0: Arena<V>, pivot: nat, newRoot: nat, newSubtree: Ptr, par: Ptr, parLeft: bool): Arena<V>
    requires pivot in n0 && newRoot in n0
    requires par.At? ==> par.id in n0
    requires newSubtree.At? ==> newSubtree.id in n0
  {
    var n1 := n0[newRoot := n0[newRoot].(parent := par)];
    var n2 :=
      if par == Null then n1
      else if parLeft then n1[par.id := n1[par.id].(left := At(newRoot))]
      else n1[par.id := n1[par.id].(right := At(newRoot))];
    var n3 := n2[newRoot := n2[newRoot].(left := At(pivot))];
    var n4 := n3[pivot := n3[pivot].(parent := At(newRoot))];
    var n5 := n4[pivot := n4[pivot].(right := newSubtree)];
    if newSubtree.At? then n5[newSubtree.id := n5[newSubtree.id].(parent := At(pivot))] else n5
  }

  /** The mirror image: the pointer assignments of rotateRight. */
  ghost function RightRotated<V>(n0: Arena<V>, pivot: nat, newRoot: nat, newSubtree: Ptr, par: Ptr, parLeft: bool): Arena<V>
    requires pivot in n0 && newRoot in n0
    requires par.At? ==> par.id in n0
    requires newSubtree.At? ==> newSubtree.id in n0
  {
    var n1 := n0[newRoot := n0[newRoot].(parent := par)];
    var n2 :=
      if par == Null then n1
      else if parLeft then n1[par.id := n1[par.id].(left := At(newRoot))]
      else n1[par.id := n1[par.id].(right := At(newRoot))];
    var n3 := n2[newRoot := n2[newRoot].(right := At(pivot))];
    var n4 := n3[pivot := n3[pivot].(parent := At(newRoot))];
    var n5 := n4[pivot := n4[pivot].(left := newSubtree)];
    if newSubtree.At? then n5[newSubtree.id := n5[newSubtree.id].(parent := At(pivot))] else n5
  }

  /** What a rotation at `p` reads before it writes: the pointers around the pivot and the heavy child. */
  ghost predicate RotationReady<V>(n0: Arena<V>, t: Tree<V>, p: Path, d: Dir)
    requires NodeAt(t, p) && Child(Sub(t, p), d).Node?
  {
    var s := Sub(t, p); var y := Child(s, d); var par := ParentOf(t, p, Null);
    s.id in n0 && y.id in n0 && s.id != y.id &&
    n0[s.id] == RecOf(s, par) && n0[y.id] == RecOf(y, At(s.id)) &&
    (y.left.Node? ==> y.left.id in n0) && (y.right.Node? ==> y.right.id in n0) &&
    (par == Null <==> p == []) &&
    (par.At? ==>
      par.id in n0 && par.id != y.id && par.id != s.id &&
      (n0[par.id].left == At(s.id) <==> Last(p) == Left))
  }

  lemma RotationNodes<V>(n0: Arena<V>, t: Tree<V>, p: Path, d: Dir)
    requires Encodes(n0, t, Null) && Distinct(t) && NodeAt(t, p) && Child(Sub(t, p), d).Node?
    ensures var s := Sub(t, p); var y := Child(s, d);
      s.id in n0 && y.id in n0 && s.id != y.id &&
      n0[s.id] == RecOf(s, ParentOf(t, p, Null)) && n0[y.id] == RecOf(y, At(s.id)) &&
      (y.left.Node? ==> y.left.id in n0) && (y.right.Node? ==> y.right.id in n0)
  {
    var s := Sub(t, p);
    SubFacts(t, p);
    EncodesSub(n0, t, Null, p);
    EncodesIds(n0, s, ParentOf(t, p, Null));
    assert s.id !in Ids(Child(s, d));
  }

  lemma RotationParent<V>(n0: Arena<V>, t: Tree<V>, p: Path, d: Dir)
    requires Encodes(n0, t, Null) && Distinct(t) && NodeAt(t, p) && Child(Sub(t, p), d).Node?
    ensures var s := Sub(t, p); var y := Child(s, d); var par := ParentOf(t, p, Null);
      (par == Null <==> p == []) &&
      (par.At? ==>
        par.id in n0 && par.id != y.id && par.id != s.id &&
        (n0[par.id].left == At(s.id) <==> Last(p) == Left))
  {
    if p != [] {
      var s := Sub(t, p);
      ChildLink(n0, t, p);
      ParentOutside(t, p);
      SubInit(t, p);
      var q := Sub(t, Init(p));
      assert s.id in Ids(s) && Child(s, d).id in Ids(s);
      Lookup(n0, t, Init(p));
      assert n0[q.id].left == PtrOf(q.left);
      SubFacts(t, Init(p));
      LeftPointerNames(q, Last(p));
    }
  }

  lemma RotationPre<V>(n0: Arena<V>, t: Tree<V>, p: Path, d: Dir)
    requires Encodes(n0, t, Null) && Distinct(t) && NodeAt(t, p) && Child(Sub(t, p), d).Node?
    ensures RotationReady(n0, t, p, d)
  {
    RotationNodes(n0, t, p, d);
    RotationParent(n0, t, p, d);
  }

  /** The handles a rotation writes: the pivot, the new root, the parent and the moved grandchild. */
  function Written(pivot: nat, newRoot: nat, newSubtree: Ptr, par: Ptr): set<nat>
  {
    {pivot, newRoot} + (if par.At? then {par.id} else {}) + (if newSubtree.At? then {newSubtree.id} else {})
  }

  /** What rotateLeft's assignments leave in each record, for four distinct handles. */
  lemma LeftRotatedRecords<V>(n0: Arena<V>, pivot: nat, newRoot: nat, newSubtree: Ptr, par: Ptr, parLeft: bool)
    requires pivot in n0 && newRoot in n0 && pivot != newRoot
    requires par.At? ==> par.id in n0 && par.id != pivot && par.id != newRoot
    requires newSubtree.At? ==>
      newSubtree.id in n0 && newSubtree.id != pivot && newSubtree.id != newRoot &&
      (par.At? ==> newSubtree.id != par.id)
    ensures var n := LeftRotated(n0, pivot, newRoot, newSubtree, par, parLeft);
      n.Keys == n0.Keys &&
      n[newRoot] == n0[newRoot].(parent := par, left := At(pivot)) &&
      n[pivot] == n0[pivot].(parent := At(newRoot), right := newSubtree) &&
      (par.At? ==> n[par.id] == Relink(n0[par.id], if parLeft then Left else Right, At(newRoot))) &&
      (newSubtree.At? ==> n[newSubtree.id] == n0[newSubtree.id].(parent := At(pivot))) &&
      (forall i :: i in n0 && i !in Written(pivot, newRoot, newSubtree, par) ==> i in n && n[i] == n0[i])
  {
  }

  /** What rotateRight's assignments leave in each record. */
  lemma RightRotatedRecords<V>(n0: Arena<V>, pivot: nat, newRoot: nat, newSubtree: Ptr, par: Ptr, parLeft: bool)
    requires pivot in n0 && newRoot in n0 && pivot != newRoot
    requires par.At? ==> par.id in n0 && par.id != pivot && par.id != newRoot
    requires newSubtree.At? ==>
      newSubtree.id in n0 && newSubtree.id != pivot && newSubtree.id != newRoot &&
      (par.At? ==> newSubtree.id != par.id)
    ensures var n := RightRotated(n0, pivot, newRoot, newSubtree, par, parLeft);
      n.Keys == n0.Keys &&
      n[newRoot] == n0[newRoot].(parent := par, right := At(pivot)) &&
      n[pivot] == n0[pivot].(parent := At(newRoot), left := newSubtree) &&
      (par.At? ==> n[par.id] == Relink(n0[par.id], if parLeft then Left else Right, At(newRoot))) &&
      (newSubtree.At? ==> n[newSubtree.id] == n0[newSubtree.id].(parent := At(pivot))) &&
      (forall i :: i in n0 && i !in Written(pivot, newRoot, newSubtree, par) ==> i in n && n[i] == n0[i])
  {
  }

  /** Inside the rotated subtree: the written handles are the node, its heavy child and the inner grandchild. */
  lemma WrittenInside<V>(s: Tree<V>, d: Dir)
    requires Distinct(s) && s.Node? && Child(s, d).Node?
    ensures var y := Child(s, d); var o := if d == Left then Right else Left;
      var inner := Child(y, o); var w := Written(s.id, y.id, PtrOf(inner), Null);
      w <= Ids(s) &&
      Ids(Child(s, o)) !! w && Ids(Child(y, d)) !! w &&
      Ids(Child(s, o)) + Ids(Child(y, d)) <= Ids(s) &&
      (inner.Node? ==>
        inner.id != s.id && inner.id != y.id &&
        Ids(inner.left) !! w && Ids(inner.right) !! w &&
        Ids(inner.left) + Ids(inner.right) <= Ids(s))
  {
    var y := Child(s, d);
    var o := if d == Left then Right else Left;
    var inner := Child(y, o);
    assert Distinct(y);
    assert Ids(y) <= Ids(s);
    if inner.Node? {
      assert Distinct(inner);
      assert Ids(inner) <= Ids(y);
    }
  }

  /**
   * The handles a rotation at `p` writes lie inside the rotated subtree or
   * just above it, apart from the subtrees that move whole.
   */
  lemma RotationFrame<V>(t: Tree<V>, p: Path, d: Dir)
    requires Distinct(t) && NodeAt(t, p) && Child(Sub(t, p), d).Node?
    ensures var s := Sub(t, p); var y := Child(s, d); var o := if d == Left then Right else Left;
      var inner := Child(y, o); var w := Written(s.id, y.id, PtrOf(inner), ParentOf(t, p, Null));
      Ids(Child(s, o)) !! w && Ids(Child(y, d)) !! w &&
      (inner.Node? ==> Ids(inner.left) !! w && Ids(inner.right) !! w) &&
      Outside(t, p) !! w &&
      (inner.Node? ==>
        inner.id != s.id && inner.id != y.id &&
        (p != [] ==> inner.id != ParentOf(t, p, Null).id))
  {
    var s := Sub(t, p);
    var y := Child(s, d);
    var o := if d == Left then Right else Left;
    var inner := Child(y, o);
    var par := ParentOf(t, p, Null);
    SubFacts(t, p);
    WrittenInside(s, d);
    ParentApart(t, p);
    var inside := Ids(s);
    var w0 := Written(s.id, y.id, PtrOf(inner), Null);
    var e: set<nat> := if par.At? then {par.id} else {};
    WrittenSplit(s.id, y.id, PtrOf(inner), par);
    DisjointAfter(Ids(Child(s, o)), inside, w0, e);
    DisjointAfter(Ids(Child(y, d)), inside, w0, e);
    if inner.Node? {
      DisjointAfter(Ids(inner.left), inside, w0, e);
      DisjointAfter(Ids(inner.right), inside, w0, e);
      assert inner.id in inside;
    }
    assert Outside(t, p) !! w0 + e;
  }

  /** The record above a position lies neither in the subtree there nor among the other records. */
  lemma ParentApart<V>(t: Tree<V>, p: Path)
    requires Distinct(t) && NodeAt(t, p)
    ensures var par := ParentOf(t, p, Null);
      Outside(t, p) !! Ids(Sub(t, p)) &&
      (par.At? ==> par.id !in Ids(Sub(t, p)) && par.id !in Outside(t, p))
  {
    OutsideFacts(t, p);
    if p != [] {
      ParentOutside(t, p);
      SubInit(t, p);
    }
  }

  lemma WrittenSplit(pivot: nat, newRoot: nat, newSubtree: Ptr, par: Ptr)
    ensures Written(pivot, newRoot, newSubtree, par) ==
      Written(pivot, newRoot, newSubtree, Null) + (if par.At? then {par.id} else {})
  {
  }

  /** A set inside the rotated subtree that misses its written records misses the parent too. */
  lemma DisjointAfter(x: set<nat>, inside: set<nat>, w0: set<nat>, e: set<nat>)
    requires x <= inside && x !! w0 && inside !! e
    ensures x !! w0 + e
  {
  }

  /** After rotateLeft's pointer assignments, the arena holds the relinked tree. */
  lemma LeftRotatedEncodes<V>(n0: Arena<V>, t: Tree<V>, p: Path)
    requires Encodes(n0, t, Null) && Distinct(t) && NodeAt(t, p) && Sub(t, p).right.Node?
    ensures RotationReady(n0, t, p, Right)
    ensures var s := Sub(t, p); var y := s.right; var par := ParentOf(t, p, Null);
      var n := LeftRotated(n0, s.id, y.id, PtrOf(y.left), par, par.At? && n0[par.id].left == At(s.id));
      Encodes(n, ReplaceAt(t, p, LinkLeft(s)), Null) && n.Keys == n0.Keys
  {
    var s := Sub(t, p);
    var y := s.right;
    var par := ParentOf(t, p, Null);
    RotationPre(n0, t, p, Right);
    RotationFrame(t, p, Right);
    var parLeft := par.At? && n0[par.id].left == At(s.id);
    LeftRotatedRecords(n0, s.id, y.id, PtrOf(y.left), par, parLeft);
    var n := LeftRotated(n0, s.id, y.id, PtrOf(y.left), par, parLeft);
    var w := Written(s.id, y.id, PtrOf(y.left), par);
    SubFacts(t, p);
    EncodesIds(n0, t, Null);
    OutsideFacts(t, p);
    AgreeExcept(n0, n, w, Ids(s.left) + Ids(y.right));
    AgreeExcept(n0, n, w, Outside(t, p));
    if y.left.Node? {
      AgreeExcept(n0, n, w, Ids(y.left.left) + Ids(y.left.right));
    }
    if p != [] {
      ChildLink(n0, t, p);
    }
    RotateLeftLinks(n0, n, t, p);
  }

  /** After rotateRight's pointer assignments, the arena holds the relinked tree. */
  lemma RightRotatedEncodes<V>(n0: Arena<V>, t: Tree<V>, p: Path)
    requires Encodes(n0, t, Null) && Distinct(t) && NodeAt(t, p) && Sub(t, p).left.Node?
    ensures RotationReady(n0, t, p, Left)
    ensures var s := Sub(t, p); var y := s.left; var par := ParentOf(t, p, Null);
      var n := RightRotated(n0, s.id, y.id, PtrOf(y.right), par, par.At? && n0[par.id].left == At(s.id));
      Encodes(n, ReplaceAt(t, p, LinkRight(s)), Null) && n.Keys == n0.Keys
  {
    var s := Sub(t, p);
    var y := s.left;
    var par := ParentOf(t, p, Null);
    RotationPre(n0, t, p, Left);
    RotationFrame(t, p, Left);
    var parLeft := par.At? && n0[par.id].left == At(s.id);
    RightRotatedRecords(n0, s.id, y.id, PtrOf(y.right), par, parLeft);
    var n := RightRotated(n0, s.id, y.id, PtrOf(y.right), par, parLeft);
    var w := Written(s.id, y.id, PtrOf(y.right), par);
    SubFacts(t, p);
    EncodesIds(n0, t, Null);
    OutsideFacts(t, p);
    AgreeExcept(n0, n, w, Ids(s.right) + Ids(y.left));
    AgreeExcept(n0, n, w, Outside(t, p));
    if y.right.Node? {
      AgreeExcept(n0, n, w, Ids(y.right.left) + Ids(y.right.right));
    }
    if p != [] {
      ChildLink(n0, t, p);
    }
    RotateRightLinks(n0, n, t, p);
  }

  /**
   * Recomputing the balance of the child at direction `d` of the node at `p`,
   * then of the node at `p`, is recomputing both inside the subtree.
   */
  lemma TwoUpdates<V>(t: Tree<V>, p: Path, r: Tree<V>, d: Dir)
    requires ValidPos(t, p) && r.Node? && Child(r, d).Node?
    ensures var t1 := ReplaceAt(t, p, r);
      NodeAt(t1, p) && Sub(t1, p) == r && ValidPos(t1, p + [d]) && Sub(t1, p + [d]) == Child(r, d) &&
      var t2 := ReplaceAt(t1, p + [d], WithTrueBalance(Child(r, d)));
      ValidPos(t2, p) && Sub(t2, p) == WithChild(r, d, WithTrueBalance(Child(r, d))) &&
      ReplaceAt(t2, p, WithTrueBalance(Sub(t2, p))) ==
        ReplaceAt(t, p, WithTrueBalance(WithChild(r, d, WithTrueBalance(Child(r, d)))))
  {
    var t1 := ReplaceAt(t, p, r);
    SubReplace(t, p, r);
    SubSnoc(t1, p, d);
    var r' := WithChild(r, d, WithTrueBalance(Child(r, d)));
    ReplaceSnoc(t1, p, d, WithTrueBalance(Child(r, d)));
    ReplaceReplace(t, p, r, r');
    SubReplace(t, p, r');
    ReplaceReplace(t, p, r', WithTrueBalance(r'));
  }

  /**
   * The records form `t` from `root` down, nothing else is in the arena, and
   * every handle in use is below `nextId`.
   */
  ghost predicate Wellformed<V>(nodes: Arena<V>, t: Tree<V>, root: Ptr, nextId: nat)
  {
    Encodes(nodes, t, Null) && Distinct(t) && nodes.Keys == Ids(t) &&
    root == PtrOf(t) && (forall i :: i in nodes ==> i < nextId)
  }

  /** The arena and shape after rotateLeft's pointer assignments, before its balance updates. */
  lemma LeftRotateState<V>(n0: Arena<V>, t: Tree<V>, root: Ptr, nextId: nat, p: Path)
    requires Wellformed(n0, t, root, nextId) && NodeAt(t, p) && Sub(t, p).right.Node?
    ensures RotationReady(n0, t, p, Right)
    ensures var s := Sub(t, p); var y := s.right; var par := ParentOf(t, p, Null);
      var n := LeftRotated(n0, s.id, y.id, PtrOf(y.left), par, par.At? && n0[par.id].left == At(s.id));
      var r := LinkLeft(s);
      Wellformed(n, ReplaceAt(t, p, r), if p == [] then At(y.id) else root, nextId)
  {
    var s := Sub(t, p);
    var r := LinkLeft(s);
    LeftRotatedEncodes(n0, t, p);
    RelinkKeeps(s, r);
    SubFacts(t, p);
    IdsReplace(t, p, r);
  }

  /** The arena and shape after rotateRight's pointer assignments, before its balance updates. */
  lemma RightRotateState<V>(n0: Arena<V>, t: Tree<V>, root: Ptr, nextId: nat, p: Path)
    requires Wellformed(n0, t, root, nextId) && NodeAt(t, p) && Sub(t, p).left.Node?
    ensures RotationReady(n0, t, p, Left)
    ensures var s := Sub(t, p); var y := s.left; var par := ParentOf(t, p, Null);
      var n := RightRotated(n0, s.id, y.id, PtrOf(y.right), par, par.At? && n0[par.id].left == At(s.id));
      var r := LinkRight(s);
      Wellformed(n, ReplaceAt(t, p, r), if p == [] then At(y.id) else root, nextId)
  {
    var s := Sub(t, p);
    var r := LinkRight(s);
    RightRotatedEncodes(n0, t, p);
    RelinkKeeps(r, s);
    SubFacts(t, p);
    IdsReplace(t, p, r);
  }

  /** Replacing a child of a freshly placed node is placing the node with that child replaced. */
  lemma ChildReplace<V>(t: Tree<V>, p: Path, n: Tree<V>, d: Dir, c: Tree<V>)
    requires ValidPos(t, p) && n.Node?
    ensures var t1 := ReplaceAt(t, p, n);
      NodeAt(t1, p) && Sub(t1, p) == n && ValidPos(t1, p + [d]) && Sub(t1, p + [d]) == Child(n, d) &&
      ReplaceAt(t1, p + [d], c) == ReplaceAt(t, p, WithChild(n, d, c))
  {
    var t1 := ReplaceAt(t, p, n);
    SubReplace(t, p, n);
    SubSnoc(t1, p, d);
    ReplaceSnoc(t1, p, d, c);
    ReplaceReplace(t, p, n, WithChild(n, d, c));
  }

  /** The parent pointer of a child names the node above it. */
  lemma ChildParent<V>(nodes: Arena<V>, t: Tree<V>, p: Path, d: Dir)
    requires Encodes(nodes, t, Null) && NodeAt(t, p) && Child(Sub(t, p), d).Node?
    ensures Child(Sub(t, p), d).id in nodes && nodes[Child(Sub(t, p), d).id].parent == At(Sub(t, p).id)
  {
    SubSnoc(t, p, d);
    assert Init(p + [d]) == p;
    Lookup(nodes, t, p + [d]);
  }

  /** The arena and shape after nodeSwap of the node at `q` with its predecessor. */
  lemma SwapState<V>(n0: Arena<V>, t: Tree<V>, root: Ptr, nextId: nat, q: Path)
    requires Wellformed(n0, t, root, nextId) && NodeAt(t, q) && Sub(t, q).left.Node? && Sub(t, q).right.Node?
    ensures var s := Sub(t, q); var m := MaxNode(s.left);
      SwapReadable(n0, s.id, m.id) && SwapSeparate(n0, s.id, m.id) && n0[s.id] == RecOf(s, ParentOf(t, q, Null)) &&
      Wellformed(Swapped(n0, s.id, m.id), ReplaceAt(t, q, SwapWithPred(s)), if q == [] then At(m.id) else root, nextId)
  {
    var s := Sub(t, q);
    var w := SwapWithPred(s);
    SwapEncodes(n0, t, q);
    SubFacts(t, q);
    SwapWithPredIds(s);
    IdsReplace(t, q, w);
    assert (Ids(t) - Ids(s)) + Ids(w) == Ids(t);
  }

  /** The records nodeSwap leaves encode the tree with the node at `q` swapped with its predecessor. */
  lemma SwapEncodes<V>(n0: Arena<V>, t: Tree<V>, q: Path)
    requires Encodes(n0, t, Null) && Distinct(t) && NodeAt(t, q) && Sub(t, q).left.Node? && Sub(t, q).right.Node?
    ensures var s := Sub(t, q); var m := MaxNode(s.left);
      SwapReadable(n0, s.id, m.id) && SwapSeparate(n0, s.id, m.id) && n0[s.id] == RecOf(s, ParentOf(t, q, Null)) &&
      var n := Swapped(n0, s.id, m.id);
      n.Keys == n0.Keys && Encodes(n, ReplaceAt(t, q, SwapWithPred(s)), Null)
  {
    var s := Sub(t, q);
    var m := MaxNode(s.left);
    var par := ParentOf(t, q, Null);
    var w := SwapWithPred(s);
    SubFacts(t, q);
    EncodesSub(n0, t, Null, q);
    EncodesIds(n0, t, Null);
    if q != [] {
      ParentOutside(t, q);
      ChildLink(n0, t, q);
    }
    if RightmostPath(s.left) == [] {
      SwapInsideAdjacent(n0, s, par);
    } else {
      SwapInsideApart(n0, s, par);
    }
    SwapTreeFacts(n0, s, par);
    SwappedRecords(n0, s.id, m.id);
    var n := Swapped(n0, s.id, m.id);
    if q != [] {
      SubInit(t, q);
      var pq := Sub(t, Init(q));
      Lookup(n0, t, Init(q));
      SubFacts(t, Init(q));
      LeftPointerNames(pq, Last(q));
    }
    SwapWrittenRead(n0, s, par);
    SwapWrittenWhere(s, par);
    OutsideFacts(t, q);
    AgreeExcept(n0, n, SwapWritten(n0, s.id, m.id), Outside(t, q));
    EncodesReplace(n0, n, t, Null, q, w);
  }

  /** The arena and shape after setValue on the node at `q`. */
  lemma OverwriteState<V>(n0: Arena<V>, t: Tree<V>, root: Ptr, nextId: nat, q: Path, v: V)
    requires Wellformed(n0, t, root, nextId) && NodeAt(t, q)
    ensures Sub(t, q).id in n0
    ensures var id := Sub(t, q).id;
      Wellformed(n0[id := n0[id].(value := v)], ReplaceAt(t, q, Sub(t, q).(value := v)), root, nextId)
  {
    var s := Sub(t, q);
    Lookup(n0, t, q);
    RecordUpdate(n0, t, q, s.(value := v));
    if q != [] {
      assert ReplaceAt(t, q, s.(value := v)).id == t.id;
    }
  }

  /**
   * The arena and shape after insert places a new node, with the next unused
   * handle, in the empty slot at `q` below an existing node.
   */
  lemma AttachState<V>(n0: Arena<V>, t: Tree<V>, root: Ptr, nextId: nat, q: Path, key: int, value: V)
    requires Wellformed(n0, t, root, nextId) && q != [] && ValidPos(t, q) && Sub(t, q).Nil?
    ensures NodeAt(t, Init(q)) && Sub(t, Init(q)).id in n0 && Sub(t, Init(q)).id != nextId
    ensures var pid := Sub(t, Init(q)).id;
      var n := n0[nextId := Rec(key, value, Null, Null, At(pid), 0)];
      var leaf := Node(nextId, key, value, 0, Nil, Nil);
      Wellformed(n[pid := Relink(n[pid], Last(q), At(nextId))], ReplaceAt(t, q, leaf), root, nextId + 1) &&
      Ids(ReplaceAt(t, q, leaf)) == Ids(t) + {nextId}
  {
    var leaf := Node(nextId, key, value, 0, Nil, Nil);
    SubInit(t, q);
    SubFacts(t, Init(q));
    var pid := Sub(t, Init(q)).id;
    assert pid in Ids(Sub(t, Init(q)));
    var n := n0[nextId := Rec(key, value, Null, Null, At(pid), 0)];
    var n' := n[pid := Relink(n[pid], Last(q), At(nextId))];
    assert nextId !in Ids(t);
    OutsideFacts(t, q);
    assert Agree(n0, n', Outside(t, q));
    EncodesReplace(n0, n', t, Null, q, leaf);
    IdsReplace(t, q, leaf);
    var t' := ReplaceAt(t, q, leaf);
    assert t'.id == t.id;
    assert Ids(Sub(t, q)) == {} && Ids(leaf) == {nextId};
    AddToEmptySlot(Ids(t), Ids(Sub(t, q)), Ids(leaf), nextId);
    ArenaGrows(n0, nextId, n[nextId], pid, n'[pid]);
    assert Wellformed(n', t', root, nextId + 1);
  }

  lemma AddToEmptySlot(all: set<nat>, gone: set<nat>, added: set<nat>, k: nat)
    requires gone == {} && added == {k}
    ensures (all - gone) + added == all + {k}
  {
  }

  /** A new record at a fresh handle, then a change to an existing one: the handles grow by the new one. */
  lemma ArenaGrows<V>(n0: Arena<V>, k: nat, r: Rec<V>, j: nat, r': Rec<V>)
    requires j in n0 && (forall i :: i in n0 ==> i < k)
    ensures n0[k := r][j := r'].Keys == n0.Keys + {k}
  {
  }

  /**
   * The records after remove unlinks node `tid`, which has parent `par` and
   * at most the one child `child`: the child points up to `par`, `par` (or
   * root_) points down to the child, and the record of `tid` is deleted.
   */
  ghost function Detached<V>(n0: Arena<V>, tid: nat, par: Ptr, child: Ptr): Arena<V>
    requires child.At? ==> child.id in n0
    requires par.At? ==> par.id in n0
  {
    var n1 := if child.At? then n0[child.id := n0[child.id].(parent := par)] else n0;
    var n2 :=
      if par.Null? then n1
      else if n1[par.id].left == At(tid) then n1[par.id := n1[par.id].(left := child)]
      else n1[par.id := n1[par.id].(right := child)];
    n2 - {tid}
  }

  /** What Detached writes: the child's parent pointer, the parent's child pointer, and the deleted record. */
  lemma DetachedRecords<V>(n0: Arena<V>, tid: nat, par: Ptr, child: Ptr)
    requires child.At? ==> child.id in n0 && child.id != tid
    requires par.At? ==> par.id in n0 && par.id != tid && (child.At? ==> par.id != child.id)
    ensures var n := Detached(n0, tid, par, child);
      n.Keys == n0.Keys - {tid} &&
      (child.At? ==> n[child.id] == n0[child.id].(parent := par)) &&
      (par.At? ==> n[par.id] == Relink(n0[par.id], if n0[par.id].left == At(tid) then Left else Right, child)) &&
      (forall i :: i in n0 && i != tid && (child.At? ==> i != child.id) && (par.At? ==> i != par.id) ==> n[i] == n0[i])
  {
  }

  /** The handles around an unlinked node: its only child, the subtrees below that child, and its parent. */
  lemma UnlinkHandles<V>(t: Tree<V>, q: Path)
    requires Distinct(t) && NodeAt(t, q)
    requires Sub(t, q).left.Nil? || Sub(t, q).right.Nil?
    ensures var s := Sub(t, q); var c := OnlyChild(s);
      var par := ParentOf(t, q, Null);
      var written := {s.id} + (if c.Node? then {c.id} else {}) + (if par.At? then {par.id} else {});
      s.id in Ids(t) && Ids(c) <= Ids(t) && Outside(t, q) <= Ids(t) && Outside(t, q) !! written &&
      (c.Node? ==> c.id != s.id && (Ids(c.left) + Ids(c.right)) !! written) &&
      (par.At? ==> par.id in Ids(t) && par.id != s.id && (c.Node? ==> par.id != c.id))
  {
    var s := Sub(t, q);
    var c := OnlyChild(s);
    SubFacts(t, q);
    assert s.id in Ids(s);
    OutsideFacts(t, q);
    if q != [] {
      ParentOutside(t, q);
      SubFacts(t, Init(q));
      assert Sub(t, Init(q)).id in Ids(Sub(t, Init(q)));
    }
  }

  /** The records after remove unlinks the node at `q`, which has at most one child, encode the tree without it. */
  lemma UnlinkEncodes<V>(n0: Arena<V>, t: Tree<V>, q: Path)
    requires Encodes(n0, t, Null) && Distinct(t) && NodeAt(t, q)
    requires Sub(t, q).left.Nil? || Sub(t, q).right.Nil?
    ensures var s := Sub(t, q); var par := ParentOf(t, q, Null); var c := OnlyChild(s);
      s.id in n0 && n0[s.id] == RecOf(s, par) &&
      (par.At? ==> par.id in n0) && (c.Node? ==> c.id in n0) &&
      Encodes(Detached(n0, s.id, par, PtrOf(c)), ReplaceAt(t, q, c), Null) &&
      Detached(n0, s.id, par, PtrOf(c)).Keys == n0.Keys - {s.id}
  {
    var s := Sub(t, q);
    var par := ParentOf(t, q, Null);
    var c := OnlyChild(s);
    Lookup(n0, t, q);
    EncodesSub(n0, t, Null, q);
    EncodesIds(n0, t, Null);
    UnlinkHandles(t, q);
    var written := {s.id} + (if c.Node? then {c.id} else {}) + (if par.At? then {par.id} else {});
    DetachedRecords(n0, s.id, par, PtrOf(c));
    var n := Detached(n0, s.id, par, PtrOf(c));
    if q != [] {
      SubInit(t, q);
      var pq := Sub(t, Init(q));
      SubFacts(t, Init(q));
      Lookup(n0, t, Init(q));
      LeftPointerNames(pq, Last(q));
    }
    if c.Node? {
      AgreeExcept(n0, n, written, Ids(c.left) + Ids(c.right));
      Reparent(n0, n, c, At(s.id), par);
    }
    AgreeExcept(n0, n, written, Outside(t, q));
    EncodesReplace(n0, n, t, Null, q, c);
  }


  /** The arena and shape after remove unlinks the node at `q`, which has at most one child. */
  lemma UnlinkState<V>(n0: Arena<V>, t: Tree<V>, root: Ptr, nextId: nat, q: Path)
    requires Wellformed(n0, t, root, nextId) && NodeAt(t, q)
    requires Sub(t, q).left.Nil? || Sub(t, q).right.Nil?
    ensures var s := Sub(t, q); var par := ParentOf(t, q, Null); var c := OnlyChild(s);
      s.id in n0 && n0[s.id] == RecOf(s, par) &&
      (par.At? ==> par.id in n0) && (c.Node? ==> c.id in n0) &&
      Wellformed(Detached(n0, s.id, par, PtrOf(c)), ReplaceAt(t, q, c), if q == [] then PtrOf(c) else root, nextId) &&
      Ids(ReplaceAt(t, q, c)) == Ids(t) - {s.id}
  {
    var s := Sub(t, q);
    var c := OnlyChild(s);
    UnlinkEncodes(n0, t, q);
    UnlinkIds(t, q);
    if q != [] {
      assert ReplaceAt(t, q, c).id == t.id;
    }
  }


  class AVLTree<V> {
    /** root_ */
    var root: Ptr
    /** The AVLNode objects reachable from root_, by handle. */
    var nodes: Arena<V>
    /** A handle no record uses yet: where the next `new AVLNode` goes. */
    var nextId: nat
    /** The tree the records form. */
    ghost var shape: Tree<V>

    /** The records form `shape` from root_ down, and nothing else is in the arena. */
    ghost predicate Valid()
      reads this
    {
      Wellformed(nodes, shape, root, nextId)
    }

    /** A binary search tree whose balance fields are the true height differences, all in [-1, 1]. */
    ghost predicate Invariant()
      reads this
    {
      Valid() && SearchTree(shape) && AvlCorrect(shape)
    }

    /** An empty tree: root_ is null. */
    constructor ()
      ensures Invariant() && shape == Nil && nodes == map[]
    {
      root := Null;
      nodes := map[];
      nextId := 0;
      shape := Nil;
    }

    /** getHeight: -1 for a null pointer, otherwise one more than the taller child. */
    function GetHeight(node: Ptr, ghost t: Tree<V>, ghost par: Ptr): (h: int)
      reads this
      requires Encodes(nodes, t, par) && node == PtrOf(t)
      ensures h == Height(t)
      decreases t
    {
      if node == Null then -1
      else
        var leftHeight := GetHeight(nodes[node.id].left, t.left, node);
        var rightHeight := GetHeight(nodes[node.id].right, t.right, node);
        if leftHeight > rightHeight then 1 + leftHeight else 1 + rightHeight
    }

    /** findBalance: 0 for a null pointer, otherwise the right height minus the left height. */
    function FindBalance(node: Ptr, ghost t: Tree<V>, ghost par: Ptr): (b: int)
      reads this
      requires Encodes(nodes, t, par) && node == PtrOf(t)
      ensures b == AvlShape.FindBalance(t)
    {
      if node == Null then 0
      else GetHeight(nodes[node.id].right, t.right, node) - GetHeight(nodes[node.id].left, t.left, node)
    }

    /** updateBalance: store the node's true balance in its balance field; nothing for a null pointer. */
    method UpdateBalance(node: Ptr, ghost p: Path)
      requires Valid() && ValidPos(shape, p) && node == PtrOf(Sub(shape, p))
      modifies this
      ensures Valid() && root == old(root) && nextId == old(nextId)
      ensures shape == ReplaceAt(old(shape), p, WithTrueBalance(Sub(old(shape), p)))
    {
      ghost var s := Sub(shape, p);
      if node != Null {
        ghost var par := ParentOf(shape, p, Null);
        EncodesSub(nodes, shape, Null, p);
        var b := FindBalance(node, s, par);
        Lookup(nodes, shape, p);
        nodes := nodes[node.id := nodes[node.id].(balance := b)];
        RecordUpdate(old(nodes), shape, p, WithTrueBalance(s));
        shape := ReplaceAt(shape, p, WithTrueBalance(s));
      } else {
        ReplaceSelf(shape, p);
      }
    }

    /**
     * The pointer assignments of rotateLeft at `p`, in the source's order: the
     * right child `newRoot` of `pivot` takes its place under the parent (or as
     * root_), `pivot` becomes its left child, and `newRoot`'s inner subtree
     * moves over to `pivot`. Balance fields are not touched.
     */
    method LinkLeftAt(pivot: Ptr, ghost p: Path) returns (newRoot: Ptr)
      requires Valid() && NodeAt(shape, p) && Sub(shape, p).right.Node? && pivot == PtrOf(Sub(shape, p))
      modifies this
      ensures Valid() && nextId == old(nextId)
      ensures shape == ReplaceAt(old(shape), p, LinkLeft(Sub(old(shape), p)))
      ensures newRoot == At(Sub(old(shape), p).right.id)
    {
      ghost var t := shape;
      ghost var s := Sub(t, p);
      ghost var n0 := nodes;
      LeftRotateState(n0, t, root, nextId, p);
      var n := nodes;
      newRoot := n[pivot.id].right;
      var newSubtree := n[newRoot.id].left;
      var par := n[pivot.id].parent;
      ghost var parLeft := par.At? && n0[par.id].left == pivot;

      n := n[newRoot.id := n[newRoot.id].(parent := par)];
      if par == Null {
        root := newRoot;
      } else if pivot == n[par.id].left {
        n := n[par.id := n[par.id].(left := newRoot)];
      } else {
        n := n[par.id := n[par.id].(right := newRoot)];
      }
      n := n[newRoot.id := n[newRoot.id].(left := pivot)];
      n := n[pivot.id := n[pivot.id].(parent := newRoot)];
      n := n[pivot.id := n[pivot.id].(right := newSubtree)];
      if newSubtree != Null {
        n := n[newSubtree.id := n[newSubtree.id].(parent := pivot)];
      }
      nodes := n;
      assert nodes == LeftRotated(n0, s.id, s.right.id, newSubtree, par, parLeft);
      assert root == if p == [] then At(s.right.id) else old(root);
      shape := ReplaceAt(t, p, LinkLeft(s));
    }

    /** The pointer assignments of rotateRight: the mirror image of LinkLeftAt. */
    method LinkRightAt(pivot: Ptr, ghost p: Path) returns (newRoot: Ptr)
      requires Valid() && NodeAt(shape, p) && Sub(shape, p).left.Node? && pivot == PtrOf(Sub(shape, p))
      modifies this
      ensures Valid() && nextId == old(nextId)
      ensures shape == ReplaceAt(old(shape), p, LinkRight(Sub(old(shape), p)))
      ensures newRoot == At(Sub(old(shape), p).left.id)
    {
      ghost var t := shape;
      ghost var s := Sub(t, p);
      ghost var n0 := nodes;
      RightRotateState(n0, t, root, nextId, p);
      var n := nodes;
      newRoot := n[pivot.id].left;
      var newSubtree := n[newRoot.id].right;
      var par := n[pivot.id].parent;
      ghost var parLeft := par.At? && n0[par.id].left == pivot;

      n := n[newRoot.id := n[newRoot.id].(parent := par)];
      if par == Null {
        root := newRoot;
      } else if pivot == n[par.id].left {
        n := n[par.id := n[par.id].(left := newRoot)];
      } else {
        n := n[par.id := n[par.id].(right := newRoot)];
      }
      n := n[newRoot.id := n[newRoot.id].(right := pivot)];
      n := n[pivot.id := n[pivot.id].(parent := newRoot)];
      n := n[pivot.id := n[pivot.id].(left := newSubtree)];
      if newSubtree != Null {
        n := n[newSubtree.id := n[newSubtree.id].(parent := pivot)];
      }
      nodes := n;
      assert nodes == RightRotated(n0, s.id, s.left.id, newSubtree, par, parLeft);
      assert root == if p == [] then At(s.left.id) else old(root);
      shape := ReplaceAt(t, p, LinkRight(s));
    }

    /**
     * rotateLeft: the relinking of LinkLeftAt, then the balance fields of the
     * old and the new subtree root recomputed, in that order.
     */
    method RotateLeft(pivot: Ptr, ghost p: Path)
      requires Valid() && NodeAt(shape, p) && Sub(shape, p).right.Node? && pivot == PtrOf(Sub(shape, p))
      modifies this
      ensures Valid() && nextId == old(nextId)
      ensures shape == ReplaceAt(old(shape), p, AvlRotate.RotateLeft(Sub(old(shape), p)))
    {
      ghost var t := shape;
      ghost var r := LinkLeft(Sub(t, p));
      var newRoot := LinkLeftAt(pivot, p);
      TwoUpdates(t, p, r, Left);
      UpdateBalance(pivot, p + [Left]);
      UpdateBalance(newRoot, p);
    }

    /** rotateRight: the mirror image of rotateLeft. */
    method RotateRight(pivot: Ptr, ghost p: Path)
      requires Valid() && NodeAt(shape, p) && Sub(shape, p).left.Node? && pivot == PtrOf(Sub(shape, p))
      modifies this
      ensures Valid() && nextId == old(nextId)
      ensures shape == ReplaceAt(old(shape), p, AvlRotate.RotateRight(Sub(old(shape), p)))
    {
      ghost var t := shape;
      ghost var r := LinkRight(Sub(t, p));
      var newRoot := LinkRightAt(pivot, p);
      TwoUpdates(t, p, r, Right);
      UpdateBalance(pivot, p + [Right]);
      UpdateBalance(newRoot, p);
    }

    /**
     * rebalanceNode: recompute the node's balance; above 1, rotate the right
     * child right first when its balance field is negative, then rotate the
     * node left and answer its new parent; below -1 the mirror image;
     * otherwise answer the node itself. The answer is the root of the subtree
     * now at the node's old position.
     */
    method RebalanceNode(node: Ptr, ghost p: Path) returns (newRoot: Ptr)
      requires Valid() && NodeAt(shape, p) && node == PtrOf(Sub(shape, p)) && CanRebalance(Sub(shape, p))
      modifies this
      ensures Valid() && nextId == old(nextId)
      ensures shape == ReplaceAt(old(shape), p, Rebalance(Sub(old(shape), p)))
      ensures NodeAt(shape, p) && newRoot == PtrOf(Sub(shape, p))
    {
      ghost var t := shape;
      ghost var s := Sub(t, p);
      ghost var n := WithTrueBalance(s);
      UpdateBalance(node, p);
      SubReplace(t, p, n);
      Lookup(nodes, shape, p);
      var balance := nodes[node.id].balance;

      if balance > 1 {
        newRoot := RotateRightHeavy(node, p);
        ReplaceReplace(t, p, n, AvlRotate.FixRightHeavy(n));
        return;
      }

      if balance < -1 {
        newRoot := RotateLeftHeavy(node, p);
        ReplaceReplace(t, p, n, AvlRotate.FixLeftHeavy(n));
        return;
      }
      newRoot := node;
    }

    /**
     * rebalanceNode's branch for a node with balance above 1: rotate the
     * right child right when its balance field is negative, then rotate the
     * node left; answer the node's new parent, the subtree's new root.
     */
    method RotateRightHeavy(node: Ptr, ghost p: Path) returns (newRoot: Ptr)
      requires Valid() && NodeAt(shape, p) && node == PtrOf(Sub(shape, p))
      requires Sub(shape, p).right.Node? && RootBalanceCorrect(Sub(shape, p).right)
      modifies this
      ensures Valid() && nextId == old(nextId)
      ensures shape == ReplaceAt(old(shape), p, AvlRotate.FixRightHeavy(Sub(old(shape), p)))
      ensures NodeAt(shape, p) && newRoot == PtrOf(Sub(shape, p))
    {
      ghost var t := shape;
      ghost var n := Sub(t, p);
      ghost var n' := if n.right.bal < 0 then n.(right := AvlRotate.RotateRight(n.right)) else n;
      Lookup(nodes, shape, p);
      var rightChild := nodes[node.id].right;
      SubSnoc(shape, p, Right);
      Lookup(nodes, shape, p + [Right]);
      if nodes[rightChild.id].balance < 0 {
        ChildReplace(t, p, n, Right, AvlRotate.RotateRight(n.right));
        ReplaceSelf(t, p);
        RotateRight(rightChild, p + [Right]);
      } else {
        ReplaceSelf(t, p);
      }
      SubReplace(t, p, n');
      RotateLeft(node, p);
      ReplaceReplace(t, p, n', AvlRotate.RotateLeft(n'));
      SubReplace(t, p, AvlRotate.RotateLeft(n'));
      ChildParent(nodes, shape, p, Left);
      newRoot := nodes[node.id].parent;
    }

    /** rebalanceNode's branch for a node with balance below -1: the mirror image of RotateRightHeavy. */
    method RotateLeftHeavy(node: Ptr, ghost p: Path) returns (newRoot: Ptr)
      requires Valid() && NodeAt(shape, p) && node == PtrOf(Sub(shape, p))
      requires Sub(shape, p).left.Node? && RootBalanceCorrect(Sub(shape, p).left)
      modifies this
      ensures Valid() && nextId == old(nextId)
      ensures shape == ReplaceAt(old(shape), p, AvlRotate.FixLeftHeavy(Sub(old(shape), p)))
      ensures NodeAt(shape, p) && newRoot == PtrOf(Sub(shape, p))
    {
      ghost var t := shape;
      ghost var n := Sub(t, p);
      ghost var n' := if n.left.bal > 0 then n.(left := AvlRotate.RotateLeft(n.left)) else n;
      Lookup(nodes, shape, p);
      var leftChild := nodes[node.id].left;
      SubSnoc(shape, p, Left);
      Lookup(nodes, shape, p + [Left]);
      if nodes[leftChild.id].balance > 0 {
        ChildReplace(t, p, n, Left, AvlRotate.RotateLeft(n.left));
        ReplaceSelf(t, p);
        RotateLeft(leftChild, p + [Left]);
      } else {
        ReplaceSelf(t, p);
      }
      SubReplace(t, p, n');
      RotateRight(node, p);
      ReplaceReplace(t, p, n', AvlRotate.RotateRight(n'));
      SubReplace(t, p, AvlRotate.RotateRight(n'));
      ChildParent(nodes, shape, p, Right);
      newRoot := nodes[node.id].parent;
    }

    /**
     * The binary search tree's internalFind: descend from root_ by comparing
     * keys; the node holding `key`, or null when there is none.
     */
    method InternalFind(key: int) returns (found: Ptr, ghost q: Path)
      requires Valid() && SearchTree(shape)
      ensures found == Null <==> key !in KeySet(shape)
      ensures found != Null ==>
        NodeAt(shape, q) && SearchPath(shape, q, key) && Sub(shape, q).key == key && found == At(Sub(shape, q).id)
    {
      var cur := root;
      q := [];
      while cur != Null
        invariant ValidPos(shape, q) && SearchPath(shape, q, key) && cur == PtrOf(Sub(shape, q))
        invariant key in KeySet(shape) <==> key in KeySet(Sub(shape, q))
        decreases Height(Sub(shape, q))
      {
        Lookup(nodes, shape, q);
        var k := nodes[cur.id].key;
        if key == k {
          return cur, q;
        }
        ghost var s := Sub(shape, q);
        SearchPathSnoc(shape, q, key);
        SearchPathFinds(shape, q, key);
        if key < k {
          cur := nodes[cur.id].left;
          q := q + [Left];
        } else {
          cur := nodes[cur.id].right;
          q := q + [Right];
        }
        SubSnoc(shape, q[..|q| - 1], q[|q| - 1]);
        assert q[..|q| - 1] + [q[|q| - 1]] == q;
      }
      found := Null;
    }

    /**
     * The binary search tree's predecessor, for a node with a left child: the
     * rightmost node of the left subtree.
     */
    method Predecessor(node: Ptr, ghost q: Path) returns (pred: Ptr)
      requires Valid() && NodeAt(shape, q) && Sub(shape, q).left.Node? && node == PtrOf(Sub(shape, q))
      ensures pred == At(MaxNode(Sub(shape, q).left).id)
    {
      ghost var s := Sub(shape, q);
      Lookup(nodes, shape, q);
      EncodesSub(nodes, shape, Null, q);
      pred := nodes[node.id].left;
      ghost var sub := s.left;
      ghost var up := At(s.id);
      while nodes[pred.id].right != Null
        invariant sub.Node? && Encodes(nodes, sub, up) && pred == At(sub.id)
        invariant MaxNode(sub) == MaxNode(s.left)
        decreases Height(sub)
      {
        up := pred;
        pred := nodes[pred.id].right;
        sub := sub.right;
      }
    }

    /**
     * nodeSwap of a node with two children and its predecessor: the binary
     * search tree's swap of the two nodes' places, then the exchange of their
     * balance fields. Each position keeps its balance.
     */
    method NodeSwap(n1: Ptr, n2: Ptr, ghost q: Path)
      requires Valid() && NodeAt(shape, q) && Sub(shape, q).left.Node? && Sub(shape, q).right.Node?
      requires n1 == At(Sub(shape, q).id) && n2 == At(MaxNode(Sub(shape, q).left).id)
      modifies this
      ensures Valid() && nextId == old(nextId)
      ensures shape == ReplaceAt(old(shape), q, SwapWithPred(Sub(old(shape), q)))
    {
      ghost var t := shape;
      ghost var n0 := nodes;
      SwapState(n0, t, root, nextId, q);
      var n := nodes;
      var S := n[n1.id];
      var M := n[n2.id];
      var adjacent := S.left == n2;

      // The binary search tree's nodeSwap: every link to or from either node is redirected.
      n := n[n2.id := Rec(M.key, M.value, if adjacent then n1 else S.left, S.right, S.parent, M.balance)];
      n := n[n1.id := Rec(S.key, S.value, M.left, Null, if adjacent then n2 else M.parent, S.balance)];
      if S.parent == Null {
        root := n2;
      } else if n[S.parent.id].left == n1 {
        n := n[S.parent.id := n[S.parent.id].(left := n2)];
      } else {
        n := n[S.parent.id := n[S.parent.id].(right := n2)];
      }
      n := n[S.right.id := n[S.right.id].(parent := n2)];
      if !adjacent {
        n := n[S.left.id := n[S.left.id].(parent := n2)];
        if M.parent != Null {
          n := n[M.parent.id := n[M.parent.id].(right := n1)];
        }
      }
      if M.left != Null {
        n := n[M.left.id := n[M.left.id].(parent := n1)];
      }

      assert n == SwapLinks(n0, n1.id, n2.id);

      // AVLTree's part: the two balance fields change places.
      var tempB := n[n1.id].balance;
      n := n[n1.id := n[n1.id].(balance := n[n2.id].balance)];
      n := n[n2.id := n[n2.id].(balance := tempB)];

      assert n == Swapped(n0, n1.id, n2.id);
      nodes := n;
      shape := ReplaceAt(t, q, SwapWithPred(Sub(t, q)));
    }

    /** setValue on the node at `q`: only its value changes. */
    method SetValue(node: Ptr, ghost q: Path, value: V)
      requires Valid() && NodeAt(shape, q) && node == At(Sub(shape, q).id)
      modifies this
      ensures Valid() && nextId == old(nextId) && nodes.Keys == old(nodes.Keys)
      ensures shape == ReplaceAt(old(shape), q, Sub(old(shape), q).(value := value))
    {
      ghost var t := shape;
      OverwriteState(nodes, t, root, nextId, q, value);
      nodes := nodes[node.id := nodes[node.id].(value := value)];
      shape := ReplaceAt(t, q, Sub(t, q).(value := value));
    }

    /**
     * The new node of insert: an AVLNode with the key, the value, parent
     * `par` and balance 0, under the next unused handle, hung as `par`'s left
     * child when the key is smaller than `par`'s and as its right child
     * otherwise, which is the empty slot at `q`.
     */
    method AttachNew(par: Ptr, key: int, value: V, ghost q: Path)
      requires Valid() && q != [] && ValidPos(shape, q) && Sub(shape, q).Nil? && NodeAt(shape, Init(q))
      requires par == At(Sub(shape, Init(q)).id) && Last(q) == (if key < Sub(shape, Init(q)).key then Left else Right)
      modifies this
      ensures Valid() && nextId == old(nextId) + 1
      ensures shape == ReplaceAt(old(shape), q, Node(old(nextId), key, value, 0, Nil, Nil))
      ensures Ids(shape) == old(Ids(shape)) + {old(nextId)}
    {
      ghost var t0 := shape;
      ghost var leaf := Node(nextId, key, value, 0, Nil, Nil);
      AttachState(nodes, t0, root, nextId, q, key, value);
      Lookup(nodes, t0, Init(q));
      var newNode := At(nextId);
      nodes := nodes[nextId := Rec(key, value, Null, Null, par, 0)];
      nextId := nextId + 1;
      if key < nodes[par.id].key {
        nodes := nodes[par.id := nodes[par.id].(left := newNode)];
      } else {
        nodes := nodes[par.id := nodes[par.id].(right := newNode)];
      }
      shape := ReplaceAt(t0, q, leaf);
    }

    /**
     * The walk of insert after the new node is hung: from its parent upwards,
     * rebalance each node and stop once that node's balance field is 0, else
     * go on from its parent, until the root has been passed. Before the walk
     * one subtree is one taller than `t0` had it; after it the tree is
     * AVL-correct, with the same nodes and entries.
     */
    method InsertWalk(start: Ptr, ghost p: Path, ghost t0: Tree<V>)
      requires Valid() && SearchTree(shape) && AvlCorrect(t0)
      requires NodeAt(shape, p) && start == At(Sub(shape, p).id) && InsertFrontier(t0, shape, p)
      modifies this
      ensures Invariant() && nextId == old(nextId)
      ensures Contents(shape) == old(Contents(shape)) && Ids(shape) == old(Ids(shape))
    {
      var node := start;
      ghost var np := p;
      ghost var settled := false;
      while node != Null
        invariant Valid() && nextId == old(nextId)
        invariant SearchTree(shape) && Contents(shape) == old(Contents(shape)) && Ids(shape) == old(Ids(shape))
        invariant node != Null ==> NodeAt(shape, np) && node == At(Sub(shape, np).id)
        invariant settled ==> AvlCorrect(shape)
        invariant !settled ==> node != Null && InsertFrontier(t0, shape, np)
        decreases !settled, if node == Null then 0 else |np| + 1
      {
        ghost var t := shape;
        ghost var np', settled' := InsertClimb(t0, t, np, settled);
        RebalanceAtKeeps(t, np);
        var _ := RebalanceNode(node, np);
        np, settled := np', settled';
        Lookup(nodes, shape, np);
        if nodes[node.id].balance == 0 {
          break;
        }
        node := nodes[node.id].parent;
        if np != [] {
          SubInit(shape, np);
          np := Init(np);
        }
      }
    }

    /**
     * insert: an existing key gets the new value and nothing else changes;
     * otherwise a new node with balance 0 is hung in the empty slot the
     * search ends at (or becomes root_), and the loop walks up from its
     * parent, rebalancing each node, until a node's balance field is 0 or the
     * root has been passed.
     */
    method Insert(key: int, value: V)
      requires Invariant()
      modifies this
      ensures Invariant()
      ensures Contents(shape) == old(Contents(shape))[key := value]
      ensures key in old(KeySet(shape)) ==> SameShape(old(shape), shape) && nextId == old(nextId)
      ensures key !in old(KeySet(shape)) ==> Ids(shape) == old(Ids(shape)) + {old(nextId)}
      ensures old(shape).Nil? ==> shape == Node(old(nextId), key, value, 0, Nil, Nil)
    {
      if root == Null {
        var id := nextId;
        nodes := nodes[id := Rec(key, value, Null, Null, Null, 0)];
        root := At(id);
        nextId := nextId + 1;
        shape := Node(id, key, value, 0, Nil, Nil);
        return;
      }

      var curr := root;
      var par := Null;
      ghost var q: Path := [];
      while curr != Null
        invariant Valid() && SearchTree(shape) && AvlCorrect(shape)
        invariant shape == old(shape) && nodes == old(nodes) && root == old(root) && nextId == old(nextId)
        invariant ValidPos(shape, q) && SearchPath(shape, q, key) && curr == PtrOf(Sub(shape, q))
        invariant key in KeySet(shape) <==> key in KeySet(Sub(shape, q))
        invariant q == [] <==> par == Null
        invariant q != [] ==>
          NodeAt(shape, Init(q)) && par == At(Sub(shape, Init(q)).id) &&
          Last(q) == (if key < Sub(shape, Init(q)).key then Left else Right)
        decreases Height(Sub(shape, q))
      {
        par := curr;
        Lookup(nodes, shape, q);
        if key == nodes[curr.id].key {
          ghost var t := shape;
          OverwriteValue(t, q, value);
          ValueOnly(t, q, value);
          SetValue(curr, q, value);
          return;
        }
        DescendStep(shape, q, key);
        if key < nodes[curr.id].key {
          curr := nodes[curr.id].left;
          q := q + [Left];
        } else {
          curr := nodes[curr.id].right;
          q := q + [Right];
        }
      }

      ghost var t0 := shape;
      ghost var leaf := Node(nextId, key, value, 0, Nil, Nil);
      AttachLeaf(t0, q, leaf);
      InsertStart(t0, q, leaf);
      ReplaceKeepsAbove(t0, q, leaf);
      AttachNew(par, key, value, q);
      InsertWalk(par, Init(q), t0);
    }

    /**
     * The unlinking step of remove, for a node with at most one child: the
     * child (if any) points up to the node's parent, the parent (or root_)
     * points down to the child, and the node's record is deleted.
     */
    method Unlink(target: Ptr, ghost q: Path) returns (par: Ptr)
      requires Valid() && NodeAt(shape, q) && target == At(Sub(shape, q).id)
      requires Sub(shape, q).left.Nil? || Sub(shape, q).right.Nil?
      modifies this
      ensures Valid() && nextId == old(nextId)
      ensures shape == ReplaceAt(old(shape), q, OnlyChild(Sub(old(shape), q)))
      ensures Ids(shape) == old(Ids(shape)) - {Sub(old(shape), q).id}
      ensures par == ParentOf(old(shape), q, Null)
    {
      ghost var t := shape;
      ghost var n0 := nodes;
      UnlinkState(n0, t, root, nextId, q);
      par := nodes[target.id].parent;
      var child := nodes[target.id].left;
      if child == Null {
        child := nodes[target.id].right;
      }
      var n := nodes;
      if child != Null {
        n := n[child.id := n[child.id].(parent := par)];
      }
      if par == Null {
        root := child;
      } else if target == n[par.id].left {
        n := n[par.id := n[par.id].(left := child)];
      } else {
        n := n[par.id := n[par.id].(right := child)];
      }
      n := n - {target.id};
      assert n == Detached(n0, target.id, par, child);
      nodes := n;
      shape := ReplaceAt(t, q, OnlyChild(Sub(t, q)));
    }

    /**
     * The walk of remove after the unlink: from the removed node's parent
     * upwards, rebalance each node and go on from the parent of the subtree
     * root rebalanceNode answers, until that root has balance -1 or 1 or the
     * root of the tree has been passed. Before the walk the tree is either
     * AVL-correct already or one subtree is one shorter than `t0` had it;
     * after it the tree is AVL-correct, with the same nodes and entries.
     */
    method RemoveWalk(start: Ptr, ghost p: Path, ghost done: bool, ghost t0: Tree<V>)
      requires Valid() && SearchTree(shape) && AvlCorrect(t0)
      requires start != Null ==> NodeAt(shape, p) && start == At(Sub(shape, p).id)
      requires done ==> AvlCorrect(shape)
      requires !done ==> start != Null && RemoveFrontier(t0, shape, p)
      modifies this
      ensures Invariant() && nextId == old(nextId)
      ensures Contents(shape) == old(Contents(shape)) && Ids(shape) == old(Ids(shape))
    {
      var node := start;
      ghost var np := p;
      ghost var settled := done;
      while node != Null
        invariant Valid() && nextId == old(nextId)
        invariant SearchTree(shape) && Contents(shape) == old(Contents(shape)) && Ids(shape) == old(Ids(shape))
        invariant node != Null ==> NodeAt(shape, np) && node == At(Sub(shape, np).id)
        invariant settled ==> AvlCorrect(shape)
        invariant !settled ==> node != Null && RemoveFrontier(t0, shape, np)
        decreases if node == Null then 0 else |np| + 1
      {
        ghost var t := shape;
        ghost var settled' := RemoveClimb(t0, t, np, settled);
        RebalanceAtKeeps(t, np);
        var newSubtreeRoot := RebalanceNode(node, np);
        settled := settled';
        Lookup(nodes, shape, np);
        var newBalance := nodes[newSubtreeRoot.id].balance;
        if newBalance == -1 || newBalance == 1 {
          break;
        }
        node := nodes[newSubtreeRoot.id].parent;
        if np != [] {
          SubInit(shape, np);
          np := Init(np);
        }
      }
    }

    /**
     * remove: nothing when the key is absent. Otherwise a node with two
     * children first trades places with its predecessor; the node, now with
     * at most one child, is unlinked and deleted, and the loop walks up from
     * its parent rebalancing each subtree root until one has balance -1 or 1
     * or the root has been passed.
     */
    method Remove(key: int)
      requires Invariant()
      modifies this
      ensures Invariant() && nextId == old(nextId)
      ensures Contents(shape) == old(Contents(shape)) - {key}
      ensures key !in old(KeySet(shape)) ==> shape == old(shape) && nodes == old(nodes) && root == old(root)
      ensures key in old(KeySet(shape)) ==>
        exists q :: NodeAt(old(shape), q) && Sub(old(shape), q).key == key &&
          Ids(shape) == old(Ids(shape)) - {Sub(old(shape), q).id}
    {
      var target, q := InternalFind(key);
      if target == Null {
        ghost var c := Contents(shape);
        assert c - {key} == c by {
          ContentsKeys(shape);
        }
        return;
      }
      ghost var T := shape;
      ghost var s := Sub(T, q);
      ghost var u := ReplaceAt(T, q, Unlinked(s));
      ghost var C := Contents(T) - {key};
      assert SearchTree(u) && Contents(u) == C by {
        RemoveAt(T, q);
      }
      ghost var qt, t0 := UnlinkPlace(T, q);
      Lookup(nodes, shape, q);
      if nodes[target.id].left != Null && nodes[target.id].right != Null {
        var pred := Predecessor(target, q);
        NodeSwap(target, pred, q);
      }

      assert shape == t0;
      UnlinkIds(t0, qt);
      ghost var t1 := ReplaceAt(t0, qt, OnlyChild(Sub(t0, qt)));
      assert (qt == [] ==> AvlCorrect(t1)) && (qt != [] ==> RemoveFrontier(t0, t1, Init(qt))) by {
        RemoveStart(t0, qt);
      }
      assert qt != [] ==> NodeAt(t1, Init(qt)) && Sub(t1, Init(qt)).id == Sub(t0, Init(qt)).id by {
        if qt != [] {
          ReplaceKeepsAbove(t0, qt, OnlyChild(Sub(t0, qt)));
        }
      }
      var par := Unlink(target, qt);
      assert shape == u;
      ghost var np := if qt == [] then [] else Init(qt);
      RemoveWalk(par, np, qt == [], t0);
      assert Ids(T) - {s.id} == Ids(shape);
    }
  }
}
