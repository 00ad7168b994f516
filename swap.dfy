/**
 * nodeSwap of a node with two children and its predecessor, on the arena:
 * the two records exchange places in the tree (every pointer to or from
 * either is redirected), and AVLTree::nodeSwap then exchanges their balance
 * fields, so that each position keeps its balance.
 */
module AvlSwap {
  import opened AvlShape
  import opened AvlOrder
  import opened AvlFixup
  import opened AvlArena

  /** The handles whose records a swap of `sid` with `mid` reads. */
  ghost predicate SwapReadable<V>(n0: Arena<V>, sid: nat, mid: nat)
  {
    sid in n0 && mid in n0 && sid != mid &&
    n0[sid].left.At? && n0[sid].left.id in n0 &&
    n0[sid].right.At? && n0[sid].right.id in n0 &&
    (n0[sid].parent.At? ==> n0[sid].parent.id in n0) &&
    (n0[mid].parent.At? ==> n0[mid].parent.id in n0) &&
    (n0[mid].left.At? ==> n0[mid].left.id in n0)
  }

  /**
   * The records after nodeSwap of the node `sid` with its predecessor `mid`
   * (the rightmost node of its left subtree): first the relinking of the
   * binary search tree's swap, where each record keeps its balance field,
   * then AVLTree's exchange of the two balance fields. When the predecessor
   * is the left child itself the two become parent and child the other way
   * round.
   */
  ghost function Swapped<V>(n0: Arena<V>, sid: nat, mid: nat): Arena<V>
    requires SwapReadable(n0, sid, mid)
  {
    var n := SwapLinks(n0, sid, mid);
    n[sid := n[sid].(balance := n[mid].balance)][mid := n[mid].(balance := n[sid].balance)]
  }

  /** The binary search tree's part of nodeSwap: the relinking alone. */
  ghost function SwapLinks<V>(n0: Arena<V>, sid: nat, mid: nat): (n: Arena<V>)
    requires SwapReadable(n0, sid, mid)
    ensures sid in n && mid in n
  {
    var S := n0[sid];
    var M := n0[mid];
    var adjacent := S.left == At(mid);
    var n1 := n0[mid := Rec(M.key, M.value, if adjacent then At(sid) else S.left, S.right, S.parent, M.balance)];
    var n2 := n1[sid := Rec(S.key, S.value, M.left, Null, if adjacent then At(mid) else M.parent, S.balance)];
    var n3 :=
      if S.parent.At? then
        n2[S.parent.id := Relink(n2[S.parent.id], if n0[S.parent.id].left == At(sid) then Left else Right, At(mid))]
      else n2;
    var n4 := n3[S.right.id := n3[S.right.id].(parent := At(mid))];
    var n5 := if adjacent then n4 else n4[S.left.id := n4[S.left.id].(parent := At(mid))];
    var n6 := if adjacent || M.parent.Null? then n5 else n5[M.parent.id := n5[M.parent.id].(right := At(sid))];
    if M.left.At? then n6[M.left.id := n6[M.left.id].(parent := At(sid))] else n6
  }

  /** The handles a swap writes. */
  ghost function SwapWritten<V>(n0: Arena<V>, sid: nat, mid: nat): set<nat>
    requires SwapReadable(n0, sid, mid)
  {
    var S := n0[sid];
    var M := n0[mid];
    {sid, mid, S.left.id, S.right.id} +
    (if S.parent.At? then {S.parent.id} else {}) +
    (if M.parent.At? then {M.parent.id} else {}) +
    (if M.left.At? then {M.left.id} else {})
  }

  /** The handles around the two nodes are as distinct as they are in a tree. */
  ghost predicate SwapSeparate<V>(n0: Arena<V>, sid: nat, mid: nat)
    requires SwapReadable(n0, sid, mid)
  {
    var S := n0[sid];
    var M := n0[mid];
    var adjacent := S.left == At(mid);
    var sl, sr := S.left.id, S.right.id;
    sr != sid && sr != mid && sr != sl &&
    (S.parent.At? ==>
      var pid := S.parent.id;
      pid != sid && pid != mid && pid != sr && pid != sl &&
      (M.parent.At? ==> pid != M.parent.id) && (M.left.At? ==> pid != M.left.id)) &&
    (!adjacent ==>
      sl != sid && M.parent.At? && M.parent.id != sid && M.parent.id != mid && M.parent.id != sr) &&
    (adjacent ==> M.parent == At(sid)) &&
    (M.left.At? ==>
      var ml := M.left.id;
      ml != sid && ml != mid && ml != sr && (!adjacent ==> ml != sl && ml != M.parent.id))
  }

  /** What the swap leaves in each record. */
  lemma SwappedRecords<V>(n0: Arena<V>, sid: nat, mid: nat)
    requires SwapReadable(n0, sid, mid) && SwapSeparate(n0, sid, mid)
    ensures var n := Swapped(n0, sid, mid); var S := n0[sid]; var M := n0[mid];
      var adjacent := S.left == At(mid); var sl, sr := S.left.id, S.right.id;
      n.Keys == n0.Keys &&
      n[mid] == Rec(M.key, M.value, if adjacent then At(sid) else S.left, S.right, S.parent, S.balance) &&
      n[sid] == Rec(S.key, S.value, M.left, Null, if adjacent then At(mid) else M.parent, M.balance) &&
      (S.parent.At? ==>
        n[S.parent.id] == Relink(n0[S.parent.id], if n0[S.parent.id].left == At(sid) then Left else Right, At(mid))) &&
      n[sr] == n0[sr].(parent := At(mid)) &&
      (!adjacent && sl == M.parent.id ==> n[sl] == n0[sl].(parent := At(mid), right := At(sid))) &&
      (!adjacent && sl != M.parent.id ==>
        n[sl] == n0[sl].(parent := At(mid)) && n[M.parent.id] == n0[M.parent.id].(right := At(sid))) &&
      (M.left.At? ==> n[M.left.id] == n0[M.left.id].(parent := At(sid))) &&
      (forall x :: x in n0 && x !in SwapWritten(n0, sid, mid) ==> x in n && n[x] == n0[x])
  {
  }

  /** Where the predecessor sits in the left subtree, and what its handles are apart from. */
  lemma MaxFacts<V>(l: Tree<V>)
    requires l.Node? && Distinct(l)
    ensures var r := RightmostPath(l); var m := MaxNode(l);
      m.id in Ids(l) && Ids(m) <= Ids(l) && Distinct(m) &&
      (r == [] <==> m.id == l.id) && (r == [] ==> m == l) &&
      (r != [] ==>
        NodeAt(l, Init(r)) && Sub(l, Init(r)).right == m &&
        Sub(l, Init(r)).id in Ids(l) && Sub(l, Init(r)).id !in Ids(m) && l.id !in Ids(m))
  {
    var r := RightmostPath(l);
    var m := MaxNode(l);
    SubFacts(l, r);
    if r != [] {
      assert r == [Right] + RightmostPath(l.right);
      SubFacts(l.right, RightmostPath(l.right));
      ParentOutside(l, r);
      SubInit(l, r);
      assert Last(r) == Right;
      SubFacts(l, Init(r));
    }
  }

  /** Reading the arena around a node with two children and its predecessor. */
  lemma SwapTreeFacts<V>(n0: Arena<V>, s: Tree<V>, par: Ptr)
    requires Encodes(n0, s, par) && Distinct(s) && s.Node? && s.left.Node? && s.right.Node?
    requires par.At? ==> par.id in n0 && par.id !in Ids(s)
    ensures var m := MaxNode(s.left); var r := RightmostPath(s.left);
      SwapReadable(n0, s.id, m.id) && SwapSeparate(n0, s.id, m.id) &&
      n0[s.id] == RecOf(s, par) &&
      (n0[s.id].left == At(m.id) <==> r == []) &&
      n0[m.id] == RecOf(m, ParentOf(s.left, r, At(s.id)))
  {
    var l := s.left;
    var m := MaxNode(l);
    var r := RightmostPath(l);
    MaxFacts(l);
    EncodesIds(n0, s, par);
    EncodesSub(n0, l, At(s.id), r);
    assert Ids(l) !! Ids(s.right) && s.id !in Ids(l) && s.id !in Ids(s.right);
    assert s.right.id in Ids(s.right) && l.id in Ids(l);
    if m.left.Node? {
      assert m.left.id in Ids(m) && m.left.id != m.id;
    }
    if r != [] {
      SubInit(l, r);
      SubFacts(l, Init(r));
      var mp := Sub(l, Init(r));
      assert ParentOf(l, r, At(s.id)) == At(mp.id);
    }
  }

  /** The handles a swap writes, read off the tree. */
  ghost function SwapWrittenIds<V>(s: Tree<V>, par: Ptr): set<nat>
    requires s.Node? && s.left.Node? && s.right.Node?
  {
    var l := s.left;
    var m := MaxNode(l);
    var r := RightmostPath(l);
    {s.id, m.id, l.id, s.right.id} +
    (if par.At? then {par.id} else {}) +
    (if r != [] then SubInit(l, r); {Sub(l, Init(r)).id} else {s.id}) +
    (if m.left.Node? then {m.left.id} else {})
  }

  lemma SwapWrittenRead<V>(n0: Arena<V>, s: Tree<V>, par: Ptr)
    requires Encodes(n0, s, par) && Distinct(s) && s.Node? && s.left.Node? && s.right.Node?
    requires par.At? ==> par.id in n0 && par.id !in Ids(s)
    ensures SwapReadable(n0, s.id, MaxNode(s.left).id)
    ensures SwapWritten(n0, s.id, MaxNode(s.left).id) == SwapWrittenIds(s, par)
  {
    var l := s.left;
    var r := RightmostPath(l);
    SwapTreeFacts(n0, s, par);
    if r != [] {
      SubInit(l, r);
      assert ParentOf(l, r, At(s.id)) == At(Sub(l, Init(r)).id);
    }
  }

  /** The written handles other than the parent's all lie in the left subtree, or are the node or its right child. */
  lemma SwapWrittenInside<V>(s: Tree<V>, par: Ptr)
    requires Distinct(s) && s.Node? && s.left.Node? && s.right.Node?
    ensures var l := s.left; var m := MaxNode(l); var r := RightmostPath(l);
      SwapWrittenIds(s, par) - {s.id, s.right.id} - (if par.At? then {par.id} else {}) <= Ids(l) &&
      m.id in Ids(m) && (m.left.Node? ==> m.left.id in Ids(m) && m.left.id != m.id) &&
      (r != [] ==>
        NodeAt(l, Init(r)) &&
        var mp := Sub(l, Init(r));
        mp.id !in Ids(m) && l.id !in Ids(m) && mp.id in Ids(l))
  {
    var l := s.left;
    var m := MaxNode(l);
    var r := RightmostPath(l);
    MaxFacts(l);
    if m.left.Node? {
      assert m.left.id in Ids(m.left);
    }
  }

  /** Which subtrees the written handles stay clear of. */
  lemma SwapWrittenWhere<V>(s: Tree<V>, par: Ptr)
    requires Distinct(s) && s.Node? && s.left.Node? && s.right.Node?
    requires par.At? ==> par.id !in Ids(s)
    ensures var l := s.left; var m := MaxNode(l); var r := RightmostPath(l);
      var w := SwapWrittenIds(s, par);
      w <= Ids(s) + (if par.At? then {par.id} else {}) &&
      Ids(s.right.left) + Ids(s.right.right) !! w &&
      (m.left.Node? ==> Ids(m.left.left) + Ids(m.left.right) !! w) &&
      (r != [] ==> Outside(l, r) - {l.id} !! w)
  {
    var l := s.left;
    var m := MaxNode(l);
    var r := RightmostPath(l);
    var w := SwapWrittenIds(s, par);
    var pset := if par.At? then {par.id} else {};
    SwapWrittenInside(s, par);
    MaxFacts(l);
    var sr := s.right;
    assert Ids(l) !! Ids(sr) && s.id !in Ids(l) && s.id !in Ids(sr);
    assert Ids(l) <= Ids(s) && Ids(sr) <= Ids(s);
    assert w <= Ids(l) + {s.id, sr.id} + pset;
    var xs := Ids(sr.left) + Ids(sr.right);
    assert Distinct(sr) && sr.id !in xs && xs <= Ids(sr);
    assert xs !! w;
    if m.left.Node? {
      var ml := m.left;
      var xm := Ids(ml.left) + Ids(ml.right);
      assert Distinct(ml) && ml.id !in xm && xm <= Ids(ml) && Ids(ml) <= Ids(m);
      assert m.id !in Ids(ml);
      assert xm !! w;
    }
    if r != [] {
      OutsideFacts(l, r);
      SubInit(l, r);
      var mp := Sub(l, Init(r));
      assert Outside(l, r) == Ids(l) - Ids(m) - {mp.id};
    }
  }

  /** The right subtree of the swapped node moves whole under the predecessor. */
  lemma SwapMovesRight<V>(n0: Arena<V>, s: Tree<V>, par: Ptr)
    requires Encodes(n0, s, par) && Distinct(s) && s.Node? && s.left.Node? && s.right.Node?
    requires par.At? ==> par.id in n0 && par.id !in Ids(s)
    ensures SwapReadable(n0, s.id, MaxNode(s.left).id)
    ensures Encodes(Swapped(n0, s.id, MaxNode(s.left).id), s.right, At(MaxNode(s.left).id))
  {
    var m := MaxNode(s.left);
    SwapTreeFacts(n0, s, par);
    SwappedRecords(n0, s.id, m.id);
    SwapWrittenRead(n0, s, par);
    SwapWrittenWhere(s, par);
    var n := Swapped(n0, s.id, m.id);
    var sr := s.right;
    assert Encodes(n0, sr, At(s.id));
    EncodesIds(n0, sr, At(s.id));
    AgreeExcept(n0, n, SwapWritten(n0, s.id, m.id), Ids(sr.left) + Ids(sr.right));
    Reparent(n0, n, sr, At(s.id), At(m.id));
  }

  /** The left subtree of the predecessor moves whole under the swapped node. */
  lemma SwapMovesPredLeft<V>(n0: Arena<V>, s: Tree<V>, par: Ptr)
    requires Encodes(n0, s, par) && Distinct(s) && s.Node? && s.left.Node? && s.right.Node?
    requires par.At? ==> par.id in n0 && par.id !in Ids(s)
    ensures SwapReadable(n0, s.id, MaxNode(s.left).id)
    ensures Encodes(Swapped(n0, s.id, MaxNode(s.left).id), MaxNode(s.left).left, At(s.id))
  {
    var l := s.left;
    var m := MaxNode(l);
    var r := RightmostPath(l);
    SwapTreeFacts(n0, s, par);
    SwappedRecords(n0, s.id, m.id);
    SwapWrittenRead(n0, s, par);
    SwapWrittenWhere(s, par);
    var n := Swapped(n0, s.id, m.id);
    EncodesSub(n0, l, At(s.id), r);
    var ml := m.left;
    assert Encodes(n0, ml, At(m.id));
    MaxFacts(l);
    if ml.Node? {
      EncodesIds(n0, ml, At(m.id));
      AgreeExcept(n0, n, SwapWritten(n0, s.id, m.id), Ids(ml.left) + Ids(ml.right));
      assert Distinct(ml);
    }
    Reparent(n0, n, ml, At(m.id), At(s.id));
  }

  /** Giving the rightmost node another handle, key and value is replacing it at its path. */
  lemma {:induction false} MoveToMaxReplace<V>(l: Tree<V>, id: nat, key: int, value: V)
    requires l.Node?
    ensures MoveToMax(l, id, key, value) ==
      ReplaceAt(l, RightmostPath(l), MaxNode(l).(id := id, key := key, value := value))
  {
    if l.right.Node? {
      MoveToMaxReplace(l.right, id, key, value);
      assert ([Right] + RightmostPath(l.right))[1..] == RightmostPath(l.right);
    }
  }

  /** The swap when the predecessor is the left child itself. */
  lemma SwapInsideAdjacent<V>(n0: Arena<V>, s: Tree<V>, par: Ptr)
    requires Encodes(n0, s, par) && Distinct(s) && s.Node? && s.left.Node? && s.right.Node?
    requires par.At? ==> par.id in n0 && par.id !in Ids(s)
    requires RightmostPath(s.left) == []
    ensures SwapReadable(n0, s.id, MaxNode(s.left).id)
    ensures Encodes(Swapped(n0, s.id, MaxNode(s.left).id), SwapWithPred(s), par)
  {
    var m := MaxNode(s.left);
    SwapTreeFacts(n0, s, par);
    SwappedRecords(n0, s.id, m.id);
    SwapMovesRight(n0, s, par);
    SwapMovesPredLeft(n0, s, par);
    var n := Swapped(n0, s.id, m.id);
    var w := SwapWithPred(s);
    assert m == s.left;
    assert w.left == Node(s.id, s.key, s.value, m.bal, m.left, Nil);
    assert n[s.id] == RecOf(w.left, At(m.id));
    assert n[m.id] == RecOf(w, par);
  }

  /** The left subtree's root hung under the predecessor, in an arena where only that record changed. */
  lemma HangLeftUnderPred<V>(n0: Arena<V>, s: Tree<V>, par: Ptr)
    requires Encodes(n0, s, par) && Distinct(s) && s.Node? && s.left.Node?
    ensures var l := s.left; var mid := MaxNode(l).id;
      l.id in n0 && Encodes(n0[l.id := n0[l.id].(parent := At(mid))], l, At(mid))
  {
    var l := s.left;
    var mid := MaxNode(l).id;
    var n0' := n0[l.id := n0[l.id].(parent := At(mid))];
    assert Encodes(n0, l, At(s.id));
    EncodesIds(n0, l, At(s.id));
    AgreeUpdate(n0, l.id, n0'[l.id], Ids(l.left) + Ids(l.right));
    Reparent(n0, n0', l, At(s.id), At(mid));
  }

  /** The records the apart case writes inside the left subtree. */
  lemma SwapApartRecords<V>(n0: Arena<V>, s: Tree<V>, par: Ptr)
    requires Encodes(n0, s, par) && Distinct(s) && s.Node? && s.left.Node? && s.right.Node?
    requires par.At? ==> par.id in n0 && par.id !in Ids(s)
    requires RightmostPath(s.left) != []
    ensures var l := s.left; var m := MaxNode(l); var r := RightmostPath(l);
      SwapReadable(n0, s.id, m.id) && l.id in n0 &&
      var n := Swapped(n0, s.id, m.id);
      var n0' := n0[l.id := n0[l.id].(parent := At(m.id))];
      NodeAt(l, Init(r)) && Last(r) == Right &&
      var mp := Sub(l, Init(r));
      ParentOf(l, r, At(m.id)) == At(mp.id) &&
      mp.id in n0' && mp.id in n && n[mp.id] == Relink(n0'[mp.id], Right, At(s.id)) &&
      s.id in n && n[s.id] == RecOf(m.(id := s.id, key := s.key, value := s.value), At(mp.id)) &&
      Agree(n0', n, Outside(l, r))
  {
    SwapApartPred(n0, s, par);
    SwapApartAgree(n0, s, par);
  }

  /** The apart case: the predecessor's old parent now points down to `s`, whose record takes the predecessor's place. */
  lemma SwapApartPred<V>(n0: Arena<V>, s: Tree<V>, par: Ptr)
    requires Encodes(n0, s, par) && Distinct(s) && s.Node? && s.left.Node? && s.right.Node?
    requires par.At? ==> par.id in n0 && par.id !in Ids(s)
    requires RightmostPath(s.left) != []
    ensures var l := s.left; var m := MaxNode(l); var r := RightmostPath(l);
      SwapReadable(n0, s.id, m.id) && l.id in n0 &&
      var n := Swapped(n0, s.id, m.id);
      var n0' := n0[l.id := n0[l.id].(parent := At(m.id))];
      NodeAt(l, Init(r)) && Last(r) == Right &&
      var mp := Sub(l, Init(r));
      ParentOf(l, r, At(m.id)) == At(mp.id) &&
      mp.id in n0' && mp.id in n && n[mp.id] == Relink(n0'[mp.id], Right, At(s.id)) &&
      s.id in n && n[s.id] == RecOf(m.(id := s.id, key := s.key, value := s.value), At(mp.id))
  {
    var l := s.left;
    var m := MaxNode(l);
    var r := RightmostPath(l);
    SwapTreeFacts(n0, s, par);
    SwappedRecords(n0, s.id, m.id);
    MaxFacts(l);
    SubInit(l, r);
    var mp := Sub(l, Init(r));
    assert ParentOf(l, r, At(m.id)) == At(mp.id) == ParentOf(l, r, At(s.id));
  }

  /** The apart case: outside the path to the predecessor, the left subtree's records are as before. */
  lemma SwapApartAgree<V>(n0: Arena<V>, s: Tree<V>, par: Ptr)
    requires Encodes(n0, s, par) && Distinct(s) && s.Node? && s.left.Node? && s.right.Node?
    requires par.At? ==> par.id in n0 && par.id !in Ids(s)
    requires RightmostPath(s.left) != []
    ensures var l := s.left; var m := MaxNode(l); var r := RightmostPath(l);
      SwapReadable(n0, s.id, m.id) && l.id in n0 &&
      Agree(n0[l.id := n0[l.id].(parent := At(m.id))], Swapped(n0, s.id, m.id), Outside(l, r))
  {
    var l := s.left;
    var m := MaxNode(l);
    var r := RightmostPath(l);
    SwapTreeFacts(n0, s, par);
    SwappedRecords(n0, s.id, m.id);
    SwapWrittenRead(n0, s, par);
    SwapWrittenWhere(s, par);
    MaxFacts(l);
    EncodesIds(n0, s, par);
    var n := Swapped(n0, s.id, m.id);
    SubInit(l, r);
    OutsideFacts(l, r);
    assert Ids(l) <= Ids(s);
    var o := Outside(l, r);
    AgreeExcept(n0, n, SwapWritten(n0, s.id, m.id), o - {l.id});
    var n0' := n0[l.id := n0[l.id].(parent := At(m.id))];
    assert l.id in o ==> n[l.id] == n0'[l.id];
    AgreeMoved(n0, n0', n, o, l.id);
  }

  /** Agreement away from `k`, with `k`'s record rewritten to the new one, is agreement throughout. */
  lemma AgreeMoved<V>(n0: Arena<V>, n0': Arena<V>, n: Arena<V>, o: set<nat>, k: nat)
    requires Agree(n0, n, o - {k}) && k in n0 && k in n0' && n0' == n0[k := n0'[k]]
    requires k in o ==> k in n && n[k] == n0'[k]
    ensures Agree(n0', n, o)
  {
  }

  /** The swap when the predecessor lies further down the left subtree's right spine. */
  lemma SwapInsideApart<V>(n0: Arena<V>, s: Tree<V>, par: Ptr)
    requires Encodes(n0, s, par) && Distinct(s) && s.Node? && s.left.Node? && s.right.Node?
    requires par.At? ==> par.id in n0 && par.id !in Ids(s)
    requires RightmostPath(s.left) != []
    ensures SwapReadable(n0, s.id, MaxNode(s.left).id)
    ensures Encodes(Swapped(n0, s.id, MaxNode(s.left).id), SwapWithPred(s), par)
  {
    var l := s.left;
    var m := MaxNode(l);
    var r := RightmostPath(l);
    SwapTreeFacts(n0, s, par);
    SwappedRecords(n0, s.id, m.id);
    SwapMovesRight(n0, s, par);
    SwapMovesPredLeft(n0, s, par);
    HangLeftUnderPred(n0, s, par);
    SwapApartRecords(n0, s, par);
    var n := Swapped(n0, s.id, m.id);
    var n0' := n0[l.id := n0[l.id].(parent := At(m.id))];
    var bottom := m.(id := s.id, key := s.key, value := s.value);
    assert Encodes(n, bottom, ParentOf(l, r, At(m.id)));
    EncodesReplace(n0', n, l, At(m.id), r, bottom);
    MoveToMaxReplace(l, s.id, s.key, s.value);
    MaxFacts(l);
    var w := SwapWithPred(s);
    assert Encodes(n, w.left, At(m.id));
    assert n[m.id] == RecOf(w, par);
  }
}
