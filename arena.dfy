/**
 * The heap of AVLNode objects, as an arena: each node is a record under a
 * handle, and a pointer is either null or a handle. A record holds what an
 * AVLNode holds in avlbst.h and bst.h: key, value, left, right and parent
 * pointers, and the balance field.
 *
 * `Encodes(nodes, t, parent)` says that the records reachable from the root
 * of `t` are exactly the nodes of `t`, linked as `t` is, with `parent` as the
 * root's parent pointer.
 */
module AvlArena {
  import opened AvlShape

  datatype Ptr = Null | At(id: nat)

  /** An AVLNode: the fields of a bst.h Node plus `balance_`. */
  datatype Rec<V> = Rec(key: int, value: V, left: Ptr, right: Ptr, parent: Ptr, balance: int)

  type Arena<V> = map<nat, Rec<V>>

  /** The pointer to the root of a subtree. */
  function PtrOf<V>(t: Tree<V>): Ptr
  {
    if t.Nil? then Null else At(t.id)
  }

  /** The record of a node at the root of `t` whose children are those of `t`. */
  ghost function RecOf<V>(t: Tree<V>, parent: Ptr): Rec<V>
    requires t.Node?
  {
    Rec(t.key, t.value, PtrOf(t.left), PtrOf(t.right), parent, t.bal)
  }

  ghost predicate Encodes<V>(nodes: Arena<V>, t: Tree<V>, parent: Ptr)
  {
    match t
    case Nil => true
    case Node(id, _, _, _, l, r) =>
      id in nodes && nodes[id] == RecOf(t, parent) &&
      Encodes(nodes, l, At(id)) && Encodes(nodes, r, At(id))
  }

  /** One child pointer of a record set. */
  function Relink<V>(rec: Rec<V>, d: Dir, c: Ptr): Rec<V>
  {
    if d == Left then rec.(left := c) else rec.(right := c)
  }

  /** The parent pointer of the node at `p`, when `par` is the root's. */
  ghost function ParentOf<V>(t: Tree<V>, p: Path, par: Ptr): Ptr
    requires ValidPos(t, p)
  {
    if p == [] then par else SubInit(t, p); At(Sub(t, Init(p)).id)
  }

  /** The records with these handles are the same in both arenas. */
  ghost predicate Agree<V>(nodes: Arena<V>, nodes': Arena<V>, ids: set<nat>)
  {
    forall i :: i in ids ==> i in nodes && i in nodes' && nodes'[i] == nodes[i]
  }

  /** The handles of a subtree other than those below `p` and the one just above `p`. */
  ghost function Outside<V>(t: Tree<V>, p: Path): set<nat>
    requires ValidPos(t, p)
  {
    if p == [] then {} else SubInit(t, p); Ids(t) - Ids(Sub(t, p)) - {Sub(t, Init(p)).id}
  }

  lemma OutsideFacts<V>(t: Tree<V>, p: Path)
    requires ValidPos(t, p)
    ensures Outside(t, p) <= Ids(t) && Outside(t, p) !! Ids(Sub(t, p))
    ensures p != [] ==> NodeAt(t, Init(p)) && Sub(t, Init(p)).id !in Outside(t, p)
  {
    if p != [] {
      SubInit(t, p);
    }
  }

  /** Rewriting one record outside a set of handles leaves those records alone. */
  lemma AgreeUpdate<V>(nodes: Arena<V>, k: nat, r: Rec<V>, ids: set<nat>)
    requires k !in ids && ids <= nodes.Keys
    ensures Agree(nodes, nodes[k := r], ids)
  {
  }

  lemma {:induction false} EncodesIds<V>(nodes: Arena<V>, t: Tree<V>, par: Ptr)
    requires Encodes(nodes, t, par)
    ensures Ids(t) <= nodes.Keys
  {
    if t.Node? {
      EncodesIds(nodes, t.left, At(t.id));
      EncodesIds(nodes, t.right, At(t.id));
    }
  }

  /** Records other than those of `t` do not matter to `t`. */
  lemma {:induction false} EncodesFrame<V>(nodes: Arena<V>, nodes': Arena<V>, t: Tree<V>, par: Ptr)
    requires Encodes(nodes, t, par) && Agree(nodes, nodes', Ids(t))
    ensures Encodes(nodes', t, par)
  {
    if t.Node? {
      EncodesFrame(nodes, nodes', t.left, At(t.id));
      EncodesFrame(nodes, nodes', t.right, At(t.id));
    }
  }

  /** A subtree hung under another parent: only its root's parent pointer changes. */
  lemma Reparent<V>(nodes: Arena<V>, nodes': Arena<V>, t: Tree<V>, par: Ptr, par': Ptr)
    requires Encodes(nodes, t, par) && Distinct(t)
    requires t.Node? ==> t.id in nodes' && nodes'[t.id] == nodes[t.id].(parent := par')
    requires t.Node? ==> Agree(nodes, nodes', Ids(t.left) + Ids(t.right))
    ensures Encodes(nodes', t, par')
  {
    if t.Node? {
      EncodesFrame(nodes, nodes', t.left, At(t.id));
      EncodesFrame(nodes, nodes', t.right, At(t.id));
    }
  }

  /** The root record rewritten with a new key, value or balance field, children unchanged. */
  lemma EncodesTop<V>(nodes: Arena<V>, s: Tree<V>, s': Tree<V>, par: Ptr)
    requires Encodes(nodes, s, par) && Distinct(s)
    requires s.Node? && s'.Node? && s'.id == s.id && s'.left == s.left && s'.right == s.right
    ensures Encodes(nodes[s.id := RecOf(s', par)], s', par)
  {
    var nodes' := nodes[s.id := RecOf(s', par)];
    EncodesIds(nodes, s, par);
    AgreeUpdate(nodes, s.id, RecOf(s', par), Ids(s.left));
    AgreeUpdate(nodes, s.id, RecOf(s', par), Ids(s.right));
    EncodesFrame(nodes, nodes', s.left, At(s.id));
    EncodesFrame(nodes, nodes', s.right, At(s.id));
  }

  /** Every subtree is encoded, under the parent pointer of its position. */
  lemma {:induction false} EncodesSub<V>(nodes: Arena<V>, t: Tree<V>, par: Ptr, p: Path)
    requires Encodes(nodes, t, par) && ValidPos(t, p)
    ensures Encodes(nodes, Sub(t, p), ParentOf(t, p, par))
    decreases p
  {
    if p != [] {
      var c := Child(t, p[0]);
      EncodesSub(nodes, c, At(t.id), p[1..]);
      ParentOfChild(t, p, par);
    }
  }

  lemma ParentOfChild<V>(t: Tree<V>, p: Path, par: Ptr)
    requires ValidPos(t, p) && p != []
    ensures ParentOf(t, p, par) == ParentOf(Child(t, p[0]), p[1..], At(t.id))
  {
    if |p| > 1 {
      assert Init(p) == [p[0]] + Init(p[1..]);
      assert Init(p)[1..] == Init(p[1..]);
      SubInit(Child(t, p[0]), p[1..]);
    }
  }

  lemma InitChild<V>(t: Tree<V>, p: Path)
    requires ValidPos(t, p) && |p| > 1
    ensures Init(p[1..]) == Init(p)[1..] && Last(p[1..]) == Last(p)
    ensures NodeAt(t, Init(p)) && NodeAt(Child(t, p[0]), Init(p[1..]))
    ensures Sub(t, Init(p)) == Sub(Child(t, p[0]), Init(p[1..]))
    ensures Sub(t, p) == Sub(Child(t, p[0]), p[1..])
  {
    var ip, c := Init(p), Child(t, p[0]);
    assert ip != [] && ip[0] == p[0] && ip[1..] == Init(p[1..]);
    SubInit(t, p);
    SubInit(c, p[1..]);
    assert Sub(t, ip) == Sub(c, ip[1..]);
  }

  lemma OutsideChild<V>(t: Tree<V>, p: Path)
    requires Distinct(t) && ValidPos(t, p) && |p| > 1
    ensures Init(p[1..]) == Init(p)[1..] && Last(p[1..]) == Last(p)
    ensures NodeAt(t, Init(p)) && NodeAt(Child(t, p[0]), Init(p[1..]))
    ensures Sub(t, Init(p)) == Sub(Child(t, p[0]), Init(p[1..]))
    ensures Outside(Child(t, p[0]), p[1..]) <= Outside(t, p)
    ensures t.id in Outside(t, p)
    ensures Ids(Child(t, if p[0] == Left then Right else Left)) <= Outside(t, p)
  {
    var c := Child(t, p[0]);
    var o := Child(t, if p[0] == Left then Right else Left);
    InitChild(t, p);
    SubFacts(c, p[1..]);
    SubFacts(c, Init(p[1..]));
    var a := Ids(Sub(t, p));
    var pid := Sub(t, Init(p)).id;
    assert a <= Ids(c);
    assert pid in Ids(c);
    assert t.id !in Ids(c) && Ids(o) !! Ids(c);
    assert Outside(t, p) == Ids(t) - a - {pid};
    assert Outside(c, p[1..]) == Ids(c) - a - {pid};
  }

  /**
   * Putting `s` in place of the subtree at `p`: the records of `s` are in
   * place under the right parent, the record above has its child pointer set,
   * and all other records of `t` are untouched.
   */
  lemma {:induction false} EncodesReplace<V>(nodes: Arena<V>, nodes': Arena<V>, t: Tree<V>, par: Ptr, p: Path, s: Tree<V>)
    requires Encodes(nodes, t, par) && Distinct(t) && ValidPos(t, p)
    requires Encodes(nodes', s, ParentOf(t, p, par))
    requires p != [] ==>
      (NodeAt(t, Init(p)) &&
       var pid := Sub(t, Init(p)).id;
       pid in nodes && pid in nodes' && nodes'[pid] == Relink(nodes[pid], Last(p), PtrOf(s)))
    requires Agree(nodes, nodes', Outside(t, p))
    ensures Encodes(nodes', ReplaceAt(t, p, s), par)
    decreases p
  {
    if p != [] {
      var d := p[0];
      var c := Child(t, d);
      var o := Child(t, if d == Left then Right else Left);
      if |p| == 1 {
        assert Init(p) == [] && Sub(t, p) == c;
        assert Outside(t, p) == Ids(o);
        EncodesFrame(nodes, nodes', o, At(t.id));
      } else {
        OutsideChild(t, p);
        ParentOfChild(t, p, par);
        EncodesReplace(nodes, nodes', c, At(t.id), p[1..], s);
        EncodesFrame(nodes, nodes', o, At(t.id));
      }
    }
  }

  /** Handles not written keep their records. */
  lemma AgreeExcept<V>(n0: Arena<V>, n: Arena<V>, written: set<nat>, ids: set<nat>)
    requires ids <= n0.Keys && ids !! written
    requires forall i :: i in n0 && i !in written ==> i in n && n[i] == n0[i]
    ensures Agree(n0, n, ids)
  {
  }

  /** In a node with distinct handles, the left pointer names a child exactly when that child is the left one. */
  lemma LeftPointerNames<V>(q: Tree<V>, d: Dir)
    requires Distinct(q) && q.Node? && Child(q, d).Node?
    ensures PtrOf(q.left) == At(Child(q, d).id) <==> d == Left
  {
    if d == Right && q.left.Node? {
      assert q.left.id in Ids(q.left) && q.right.id in Ids(q.right);
    }
  }
}
