/**
 * The walk back up the tree after an insertion or a removal in avlbst.h, on
 * the shape. Between two calls of rebalanceNode, the tree differs from an AVL
 * tree `t0` at exactly one position: the node there is unchanged, one child is
 * unchanged, and the other child is an AVL tree one level higher (insertion)
 * or one level lower (removal) than it was in `t0`. Everywhere above, the
 * stored balance fields are those of `t0`, now possibly stale. One call of
 * rebalanceNode at that position either makes the whole tree AVL-correct or
 * moves the difference one level up.
 */
module AvlFixup {
  import opened AvlShape
  import opened AvlOrder
  import opened AvlRotate

  /** Same handle, key, value and stored balance. */
  ghost predicate SameNode<V>(a: Tree<V>, b: Tree<V>)
  {
    a.Node? && b.Node? && a.id == b.id && a.key == b.key && a.value == b.value && a.bal == b.bal
  }

  /**
   * `c` replaces `c0` and is one level higher; a grown subtree leans to one
   * side unless it is the new leaf itself.
   */
  ghost predicate Grown<V>(c0: Tree<V>, c: Tree<V>)
  {
    AvlCorrect(c) && Height(c) == Height(c0) + 1 && (c0.Nil? || c.bal != 0)
  }

  /** `c` replaces `c0` and is one level lower. */
  ghost predicate Shrunk<V>(c0: Tree<V>, c: Tree<V>)
  {
    AvlCorrect(c) && Height(c) == Height(c0) - 1
  }

  /** `t` is `t0` except in the subtree at `p`. */
  ghost predicate SameAbove<V>(t0: Tree<V>, t: Tree<V>, p: Path)
  {
    ValidPos(t0, p) && ValidPos(t, p) && t == ReplaceAt(t0, p, Sub(t, p))
  }

  /** `t` is `t0` except below the node at `p`, which keeps its handle, key, value and balance field. */
  ghost predicate ChangedBelow<V>(t0: Tree<V>, t: Tree<V>, p: Path)
  {
    NodeAt(t0, p) && SameAbove(t0, t, p) && SameNode(Sub(t0, p), Sub(t, p))
  }

  /** During the walk up after an insertion, the node at `p` has a child that grew. */
  ghost predicate InsertFrontier<V>(t0: Tree<V>, t: Tree<V>, p: Path)
  {
    ChangedBelow(t0, t, p) &&
    var s0, s := Sub(t0, p), Sub(t, p);
    (s.left == s0.left && Grown(s0.right, s.right)) ||
    (s.right == s0.right && Grown(s0.left, s.left))
  }

  /** During the walk up after a removal, the node at `p` has a child that shrank. */
  ghost predicate RemoveFrontier<V>(t0: Tree<V>, t: Tree<V>, p: Path)
  {
    ChangedBelow(t0, t, p) &&
    var s0, s := Sub(t0, p), Sub(t, p);
    (s.left == s0.left && Shrunk(s0.right, s.right)) ||
    (s.right == s0.right && Shrunk(s0.left, s.left))
  }

  /** The subtree at `p` is replaced by an AVL tree of the height it had in `t0`. */
  lemma SettledAt<V>(t0: Tree<V>, t: Tree<V>, p: Path, r: Tree<V>)
    requires AvlCorrect(t0) && SameAbove(t0, t, p)
    requires AvlCorrect(r) && Height(r) == Height(Sub(t0, p))
    ensures AvlCorrect(ReplaceAt(t, p, r))
  {
    ReplaceReplace(t0, p, Sub(t, p), r);
    ReplaceSameHeight(t0, p, r);
  }

  /** Replacing the subtree at `p` by `r` changes, seen from one level up, only that child. */
  lemma MovedUp<V>(t0: Tree<V>, t: Tree<V>, p: Path, r: Tree<V>)
    requires SameAbove(t0, t, p) && p != []
    ensures NodeAt(t0, Init(p)) && Sub(t0, p) == Child(Sub(t0, Init(p)), Last(p))
    ensures SameAbove(t0, ReplaceAt(t, p, r), Init(p))
    ensures Sub(ReplaceAt(t, p, r), Init(p)) == WithChild(Sub(t0, Init(p)), Last(p), r)
  {
    var q := Init(p);
    SubInit(t0, p);
    var w := WithChild(Sub(t0, q), Last(p), r);
    ReplaceReplace(t0, p, Sub(t, p), r);
    ReplaceInit(t0, p, r);
    ReplaceReplace(t0, q, Sub(t0, q), w);
    ReplaceSelf(t0, q);
  }

  lemma GrownAbove<V>(t0: Tree<V>, t: Tree<V>, p: Path, r: Tree<V>)
    requires SameAbove(t0, t, p) && p != [] && Grown(Sub(t0, p), r)
    ensures InsertFrontier(t0, ReplaceAt(t, p, r), Init(p))
  {
    MovedUp(t0, t, p, r);
  }

  lemma ShrunkAbove<V>(t0: Tree<V>, t: Tree<V>, p: Path, r: Tree<V>)
    requires SameAbove(t0, t, p) && p != [] && Shrunk(Sub(t0, p), r)
    ensures RemoveFrontier(t0, ReplaceAt(t, p, r), Init(p))
  {
    MovedUp(t0, t, p, r);
  }

  // ---------------------------------------------------------------------------
  // Insertion
  // ---------------------------------------------------------------------------

  /** Attaching a new leaf under the node at `Init(q)` starts the walk up there. */
  lemma InsertStart<V>(t0: Tree<V>, q: Path, leaf: Tree<V>)
    requires q != [] && ValidPos(t0, q) && Sub(t0, q).Nil?
    requires leaf.Node? && leaf.left.Nil? && leaf.right.Nil? && leaf.bal == 0
    ensures InsertFrontier(t0, ReplaceAt(t0, q, leaf), Init(q))
  {
    ReplaceSelf(t0, q);
    assert SameAbove(t0, t0, q);
    assert Grown(Sub(t0, q), leaf);
    GrownAbove(t0, t0, q, leaf);
  }

  /** The heights at the frontier of an insertion, against those in `t0`. */
  lemma InsertHeights<V>(t0: Tree<V>, t: Tree<V>, p: Path)
    requires AvlCorrect(t0) && InsertFrontier(t0, t, p)
    ensures var s := Sub(t, p);
      AvlCorrect(s.left) && AvlCorrect(s.right) && -2 <= FindBalance(s) <= 2 &&
      (FindBalance(s) == 0 ==> Height(s) == Height(Sub(t0, p))) &&
      (FindBalance(s) != 0 ==> Height(s) == Height(Sub(t0, p)) + 1) &&
      (FindBalance(s) == 2 ==> s.right.bal != 0) &&
      (FindBalance(s) == -2 ==> s.left.bal != 0)
  {
    SubFacts(t0, p);
  }

  /**
   * One call of rebalanceNode at the frontier of an insertion. Without a
   * rotation, a balance of 0 means the subtree kept its height and the walk
   * can stop; otherwise the growth moves to the parent. After a rotation the
   * subtree is back at its old height and the whole tree is an AVL tree.
   */
  lemma InsertStep<V>(t0: Tree<V>, t: Tree<V>, p: Path)
    requires AvlCorrect(t0) && InsertFrontier(t0, t, p)
    ensures var s := Sub(t, p);
      CanRebalance(s) && -2 <= FindBalance(s) <= 2 &&
      var r := Rebalance(s);
      var t' := ReplaceAt(t, p, r);
      (-1 <= FindBalance(s) <= 1 ==> r == WithTrueBalance(s) && (r.bal == 0 ==> AvlCorrect(t'))) &&
      (!(-1 <= FindBalance(s) <= 1) ==> AvlCorrect(t')) &&
      (p == [] ==> AvlCorrect(t')) &&
      (AvlCorrect(t') || (p != [] && InsertFrontier(t0, t', Init(p))))
  {
    var s, s0 := Sub(t, p), Sub(t0, p);
    InsertHeights(t0, t, p);
    RebalanceRestores(s);
    var r := Rebalance(s);
    assert SameAbove(t0, t, p);
    if p == [] {
      assert ReplaceAt(t, p, r) == r;
    } else if !(-1 <= FindBalance(s) <= 1) || r.bal == 0 {
      assert Height(r) == Height(s0);
      SettledAt(t0, t, p, r);
    } else {
      assert Grown(s0, r);
      GrownAbove(t0, t, p, r);
    }
  }

  /**
   * One turn of insert's loop, in either state: the walk is still at a
   * frontier, or the tree is already AVL-correct and rebalanceNode changes
   * nothing. `p'` is where the node just rebalanced ends up (one level down
   * when it was rotated), `settled'` whether the tree is AVL-correct now; if
   * not, the frontier is at the parent.
   */
  lemma InsertClimb<V>(t0: Tree<V>, t: Tree<V>, p: Path, settled: bool) returns (p': Path, settled': bool)
    requires AvlCorrect(t0) && NodeAt(t, p)
    requires settled ==> AvlCorrect(t)
    requires !settled ==> InsertFrontier(t0, t, p)
    ensures CanRebalance(Sub(t, p))
    ensures var t' := ReplaceAt(t, p, Rebalance(Sub(t, p)));
      NodeAt(t', p') && Sub(t', p').id == Sub(t, p).id &&
      (Sub(t', p').bal == 0 ==> settled') &&
      (settled' ==> AvlCorrect(t')) &&
      (!settled' ==> p' != [] && InsertFrontier(t0, t', Init(p')))
    ensures settled ==> settled' && p' == p && ReplaceAt(t, p, Rebalance(Sub(t, p))) == t
    ensures !settled' ==> p' == p
  {
    var s := Sub(t, p);
    var r: Tree<V>;
    if settled {
      SubFacts(t, p);
      RebalanceCorrectNode(s);
      ReplaceSelf(t, p);
      p', settled' := p, true;
      r := s;
    } else {
      InsertStep(t0, t, p);
      r := Rebalance(s);
      var t' := ReplaceAt(t, p, r);
      SubReplace(t, p, r);
      if -1 <= FindBalance(s) <= 1 {
        p', settled' := p, AvlCorrect(t');
      } else {
        var n := WithTrueBalance(s);
        var d := if FindBalance(s) > 1 then Left else Right;
        SubSnoc(t', p, d);
        if FindBalance(s) > 1 {
          var n' := if n.right.bal < 0 then n.(right := RotateRight(n.right)) else n;
          assert r == RotateLeft(n');
        } else {
          var n' := if n.left.bal > 0 then n.(left := RotateLeft(n.left)) else n;
          assert r == RotateRight(n');
        }
        p', settled' := p + [d], true;
      }
    }
  }

  // ---------------------------------------------------------------------------
  // Removal
  // ---------------------------------------------------------------------------

  /** The child that takes the place of a node with at most one child. */
  ghost function OnlyChild<V>(s: Tree<V>): Tree<V>
    requires s.Node?
  {
    if s.left.Node? then s.left else s.right
  }

  /** The rightmost node of `l` given another handle, key and value; its balance field stays. */
  ghost function MoveToMax<V>(l: Tree<V>, id: nat, key: int, value: V): (r: Tree<V>)
    requires l.Node?
    ensures r.Node? && r.id == (if l.right.Nil? then id else l.id)
  {
    if l.right.Nil? then l.(id := id, key := key, value := value)
    else l.(right := MoveToMax(l.right, id, key, value))
  }

  /**
   * nodeSwap of a node with two children and its predecessor, the rightmost
   * node of its left subtree: the two exchange places, and each position keeps
   * its balance field.
   */
  ghost function SwapWithPred<V>(s: Tree<V>): (r: Tree<V>)
    requires s.Node? && s.left.Node?
    ensures r.Node?
  {
    var m := MaxNode(s.left);
    Node(m.id, m.key, m.value, s.bal, MoveToMax(s.left, s.id, s.key, s.value), s.right)
  }

  lemma {:induction false} MoveToMaxShape<V>(l: Tree<V>, id: nat, key: int, value: V)
    requires l.Node?
    ensures Height(MoveToMax(l, id, key, value)) == Height(l)
    ensures AvlCorrect(l) ==> AvlCorrect(MoveToMax(l, id, key, value))
    ensures NodeAt(MoveToMax(l, id, key, value), RightmostPath(l))
    ensures Sub(MoveToMax(l, id, key, value), RightmostPath(l)) ==
      MaxNode(l).(id := id, key := key, value := value)
    ensures ReplaceAt(MoveToMax(l, id, key, value), RightmostPath(l), MaxNode(l).left) == RemoveMax(l)
  {
    if l.right.Node? {
      MoveToMaxShape(l.right, id, key, value);
    }
  }

  lemma {:induction false} MoveToMaxIds<V>(l: Tree<V>, id: nat, key: int, value: V)
    requires l.Node? && Distinct(l) && id !in Ids(l)
    ensures MaxNode(l).id in Ids(l)
    ensures Ids(MoveToMax(l, id, key, value)) == Ids(l) - {MaxNode(l).id} + {id}
    ensures Distinct(MoveToMax(l, id, key, value))
  {
    if l.right.Node? {
      MoveToMaxIds(l.right, id, key, value);
    }
  }

  /**
   * After the swap the removed node sits where its predecessor was, with no
   * right child; unlinking it there gives the subtree with the predecessor in
   * the removed node's place.
   */
  lemma SwapThenUnlink<V>(s: Tree<V>)
    requires s.Node? && s.left.Node? && s.right.Node?
    ensures var q := [Left] + RightmostPath(s.left);
      var w := SwapWithPred(s);
      NodeAt(w, q) && Sub(w, q).id == s.id && Sub(w, q).key == s.key && Sub(w, q).right.Nil? &&
      ReplaceAt(w, q, OnlyChild(Sub(w, q))) == Unlinked(s)
  {
    var l := s.left;
    var m := MaxNode(l);
    var w := SwapWithPred(s);
    MoveToMaxShape(l, s.id, s.key, s.value);
    var q := [Left] + RightmostPath(l);
    SubAppend(w, [Left], RightmostPath(l), m.left);
    assert OnlyChild(Sub(w, q)) == m.left;
  }

  lemma SwapWithPredShape<V>(s: Tree<V>)
    requires s.Node? && s.left.Node?
    ensures Height(SwapWithPred(s)) == Height(s)
    ensures AvlCorrect(s) ==> AvlCorrect(SwapWithPred(s))
  {
    MoveToMaxShape(s.left, s.id, s.key, s.value);
    var w := SwapWithPred(s);
    assert w.left.Node? && w.right == s.right;
    assert FindBalance(w) == FindBalance(s);
  }

  lemma SwapWithPredIds<V>(s: Tree<V>)
    requires s.Node? && s.left.Node? && Distinct(s)
    ensures Ids(SwapWithPred(s)) == Ids(s) && Distinct(SwapWithPred(s))
  {
    var l := s.left;
    var m := MaxNode(l);
    MoveToMaxIds(l, s.id, s.key, s.value);
    var w := SwapWithPred(s);
    var a := Ids(l) - {m.id} + {s.id};
    assert Ids(w.left) == a;
    assert m.id !in Ids(s.right) && m.id != s.id;
    assert m.id !in a && Ids(s.right) !! a;
    assert Ids(w) == {m.id} + a + Ids(s.right);
  }

  /** Unlinking a node with at most one child starts the walk up at its parent. */
  lemma RemoveStart<V>(t0: Tree<V>, q: Path)
    requires AvlCorrect(t0) && NodeAt(t0, q) && (Sub(t0, q).left.Nil? || Sub(t0, q).right.Nil?)
    ensures q == [] ==> AvlCorrect(ReplaceAt(t0, q, OnlyChild(Sub(t0, q))))
    ensures q != [] ==> RemoveFrontier(t0, ReplaceAt(t0, q, OnlyChild(Sub(t0, q))), Init(q))
  {
    SubFacts(t0, q);
    assert Shrunk(Sub(t0, q), OnlyChild(Sub(t0, q)));
    if q != [] {
      ReplaceSelf(t0, q);
      assert SameAbove(t0, t0, q);
      ShrunkAbove(t0, t0, q, OnlyChild(Sub(t0, q)));
    }
  }

  /** The heights at the frontier of a removal, against those in `t0`. */
  lemma RemoveHeights<V>(t0: Tree<V>, t: Tree<V>, p: Path)
    requires AvlCorrect(t0) && RemoveFrontier(t0, t, p)
    ensures var s := Sub(t, p);
      AvlCorrect(s.left) && AvlCorrect(s.right) && -2 <= FindBalance(s) <= 2 &&
      (FindBalance(s) == 0 ==> Height(s) == Height(Sub(t0, p)) - 1) &&
      (FindBalance(s) != 0 ==> Height(s) == Height(Sub(t0, p)))
  {
    SubFacts(t0, p);
  }

  /**
   * One call of rebalanceNode at the frontier of a removal. The subtree ends
   * with balance 0 exactly when it is one level lower than before, and then
   * the shrinking moves to the parent; a balance of -1 or 1 means its height
   * is restored and the whole tree is an AVL tree.
   */
  lemma RemoveStep<V>(t0: Tree<V>, t: Tree<V>, p: Path)
    requires AvlCorrect(t0) && RemoveFrontier(t0, t, p)
    ensures var s := Sub(t, p);
      CanRebalance(s) && -2 <= FindBalance(s) <= 2 &&
      var r := Rebalance(s);
      var t' := ReplaceAt(t, p, r);
      (r.bal != 0 ==> AvlCorrect(t')) &&
      (p == [] ==> AvlCorrect(t')) &&
      (r.bal == 0 && p != [] ==> RemoveFrontier(t0, t', Init(p)))
  {
    var s := Sub(t, p);
    RemoveHeights(t0, t, p);
    RebalanceRestores(s);
    var r := Rebalance(s);
    if r.bal != 0 {
      SettledAt(t0, t, p, r);
    } else if p != [] {
      ShrunkAbove(t0, t, p, r);
    }
  }

  /**
   * Where remove unlinks the node it found at `q`: in place when it has at
   * most one child, otherwise at the predecessor's old position after the
   * swap. Either way the result is the tree with `Unlinked` at `q`, and the
   * tree before the unlink is still AVL-correct.
   */
  lemma UnlinkPlace<V>(t: Tree<V>, q: Path) returns (qt: Path, t': Tree<V>)
    requires AvlCorrect(t) && Distinct(t) && NodeAt(t, q)
    ensures var s := Sub(t, q);
      t' == (if s.left.Node? && s.right.Node? then ReplaceAt(t, q, SwapWithPred(s)) else t) &&
      AvlCorrect(t') && Distinct(t') && Ids(t') == Ids(t) && NodeAt(t', qt) && Sub(t', qt).id == s.id &&
      (Sub(t', qt).left.Nil? || Sub(t', qt).right.Nil?) &&
      ReplaceAt(t', qt, OnlyChild(Sub(t', qt))) == ReplaceAt(t, q, Unlinked(s))
  {
    var s := Sub(t, q);
    if s.left.Node? && s.right.Node? {
      var w := SwapWithPred(s);
      var r := [Left] + RightmostPath(s.left);
      t' := ReplaceAt(t, q, w);
      SwapThenUnlink(s);
      SwapWithPredShape(s);
      SubFacts(t, q);
      ReplaceSameHeight(t, q, w);
      SubReplace(t, q, w);
      SubAppend(t', q, r, OnlyChild(Sub(w, r)));
      ReplaceReplace(t, q, w, Unlinked(s));
      SwapWithPredIds(s);
      IdsReplace(t, q, w);
      qt := q + r;
    } else {
      t', qt := t, q;
    }
  }

  /** Unlinking a node with at most one child frees exactly its handle. */
  lemma UnlinkIds<V>(t: Tree<V>, q: Path)
    requires Distinct(t) && NodeAt(t, q) && (Sub(t, q).left.Nil? || Sub(t, q).right.Nil?)
    ensures var v := Sub(t, q); var u := ReplaceAt(t, q, OnlyChild(v));
      v.id in Ids(t) && v.id !in Ids(u) && Ids(u) == Ids(t) - {v.id} && Distinct(u)
  {
    var v := Sub(t, q);
    var c := OnlyChild(v);
    SubFacts(t, q);
    assert Ids(v) == Ids(c) + {v.id} && v.id !in Ids(c);
    IdsReplace(t, q, c);
  }



  /**
   * One turn of remove's loop, in either state. The loop follows the root of
   * the rebalanced subtree, which stays at `p`; a balance of -1 or 1 there
   * means the tree is AVL-correct, and otherwise, unless the tree is already
   * AVL-correct, the frontier is at the parent.
   */
  lemma RemoveClimb<V>(t0: Tree<V>, t: Tree<V>, p: Path, settled: bool) returns (settled': bool)
    requires AvlCorrect(t0) && NodeAt(t, p)
    requires settled ==> AvlCorrect(t)
    requires !settled ==> RemoveFrontier(t0, t, p)
    ensures CanRebalance(Sub(t, p))
    ensures var r := Rebalance(Sub(t, p)); var t' := ReplaceAt(t, p, r);
      NodeAt(t', p) && Sub(t', p) == r &&
      (r.bal == -1 || r.bal == 1 ==> settled') &&
      (settled' ==> AvlCorrect(t')) &&
      (!settled' ==> p != [] && RemoveFrontier(t0, t', Init(p)))
    ensures settled ==> settled' && ReplaceAt(t, p, Rebalance(Sub(t, p))) == t
  {
    var s := Sub(t, p);
    if settled {
      SubFacts(t, p);
      RebalanceCorrectNode(s);
      ReplaceSelf(t, p);
      settled' := true;
    } else {
      RemoveStep(t0, t, p);
      var r := Rebalance(s);
      SubReplace(t, p, r);
      settled' := AvlCorrect(ReplaceAt(t, p, r));
    }
  }

  // ---------------------------------------------------------------------------
  // The walk keeps the keys, the map and the nodes
  // ---------------------------------------------------------------------------

  /** Rebalancing one subtree keeps the whole tree's map, its order and its nodes. */
  lemma RebalanceAtKeeps<V>(t: Tree<V>, p: Path)
    requires NodeAt(t, p) && CanRebalance(Sub(t, p)) && Distinct(t)
    ensures Contents(ReplaceAt(t, p, Rebalance(Sub(t, p)))) == Contents(t)
    ensures KeySet(ReplaceAt(t, p, Rebalance(Sub(t, p)))) == KeySet(t)
    ensures SearchTree(t) ==> SearchTree(ReplaceAt(t, p, Rebalance(Sub(t, p))))
    ensures Ids(ReplaceAt(t, p, Rebalance(Sub(t, p)))) == Ids(t)
    ensures Distinct(ReplaceAt(t, p, Rebalance(Sub(t, p))))
  {
    var s := Sub(t, p);
    RebalanceKeeps(s);
    SubFacts(t, p);
    ReplaceSameContents(t, p, Rebalance(s));
    IdsReplace(t, p, Rebalance(s));
    SubFacts(t, p);
  }

  /**
   * Inserting a key and removing it again need not give the old tree back.
   * Into root 2 with right child 3, insert 4: the walk rebalances 3 (balance
   * 1) and then 2 (balance 2), which rotates left, so 3 becomes the root.
   * Removing 4 unlinks the leaf and rebalances 3 (balance -1), which stops
   * the walk: the tree is now root 3 with left child 2, the same entries in
   * a different shape.
   */
  lemma InsertThenRemoveReshapes()
    ensures var t0 := Node(0, 2, 20, 1, Nil, Node(1, 3, 30, 0, Nil, Nil));
      var t1 := ReplaceAt(t0, [Right, Right], Node(2, 4, 40, 0, Nil, Nil));
      CanRebalance(Sub(t1, [Right])) &&
      var t2 := ReplaceAt(t1, [Right], Rebalance(Sub(t1, [Right])));
      CanRebalance(t2) &&
      var t3 := Rebalance(t2);
      t3 == Node(1, 3, 30, 0, Node(0, 2, 20, 0, Nil, Nil), Node(2, 4, 40, 0, Nil, Nil)) &&
      var t4 := ReplaceAt(t3, [Right], OnlyChild(Sub(t3, [Right])));
      CanRebalance(t4) &&
      var t5 := Rebalance(t4);
      AvlCorrect(t0) && SearchTree(t0) && AvlCorrect(t3) && AvlCorrect(t5) && SearchTree(t5) &&
      Contents(t5) == Contents(t0) && t5 == Node(1, 3, 30, -1, Node(0, 2, 20, 0, Nil, Nil), Nil) && t5 != t0
  {
  }
}
