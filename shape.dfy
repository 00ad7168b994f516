/**
 * The shape of an AVL tree as a value. Every node of the tree carries the
 * handle of its record in the node arena, its key, its value and its stored
 * balance field. Heights and balances are computed from the shape alone,
 * as `getHeight` and `findBalance` do in avlbst.h.
 */
module AvlShape {

  /** Which child to follow; a position in a tree is a path of directions from the root. */
  datatype Dir = Left | Right
  type Path = seq<Dir>

  datatype Tree<V> = Nil | Node(id: nat, key: int, value: V, bal: int, left: Tree<V>, right: Tree<V>)

  /** getHeight: an empty subtree has height -1, a node one more than its taller child. */
  function Height<V>(t: Tree<V>): (h: int)
    ensures -1 <= h
    ensures t.Nil? ==> h == -1
    ensures t.Node? ==> Height(t.left) < h && Height(t.right) < h
    ensures t.Node? ==> h == Height(t.left) + 1 || h == Height(t.right) + 1
  {
    match t
    case Nil => -1
    case Node(_, _, _, _, l, r) =>
      var lh := Height(l);
      var rh := Height(r);
      if lh > rh then 1 + lh else 1 + rh
  }

  /** findBalance: right height minus left height; 0 for an empty subtree. */
  function FindBalance<V>(t: Tree<V>): (b: int)
    ensures t.Nil? ==> b == 0
    ensures b > 0 ==> t.Node? && t.right.Node? && Height(t) == Height(t.right) + 1
    ensures b < 0 ==> t.Node? && t.left.Node? && Height(t) == Height(t.left) + 1
    ensures t.Node? && b == 0 ==> Height(t.left) == Height(t.right) == Height(t) - 1
  {
    if t.Nil? then 0 else Height(t.right) - Height(t.left)
  }

  /** updateBalance: store the true height difference in the node's balance field. */
  function WithTrueBalance<V>(t: Tree<V>): (r: Tree<V>)
    ensures r.Nil? <==> t.Nil?
    ensures Height(r) == Height(t) && FindBalance(r) == FindBalance(t)
    ensures r.Node? ==> r.bal == FindBalance(r)
    ensures r.Node? ==> r.id == t.id && r.key == t.key && r.value == t.value
    ensures r.Node? ==> r.left == t.left && r.right == t.right
  {
    if t.Nil? then Nil else t.(bal := FindBalance(t))
  }

  /** Every node's balance field equals its true height difference and lies in [-1, 1]. */
  ghost predicate AvlCorrect<V>(t: Tree<V>)
  {
    match t
    case Nil => true
    case Node(_, _, _, b, l, r) =>
      b == FindBalance(t) && -1 <= b <= 1 && AvlCorrect(l) && AvlCorrect(r)
  }

  /** The balance field of the root alone is the true height difference. */
  ghost predicate RootBalanceCorrect<V>(t: Tree<V>)
  {
    t.Nil? || t.bal == FindBalance(t)
  }

  /** The arena handles used by a tree. */
  ghost function Ids<V>(t: Tree<V>): set<nat>
  {
    match t
    case Nil => {}
    case Node(id, _, _, _, l, r) => {id} + Ids(l) + Ids(r)
  }

  /** No handle occurs twice: every node is a distinct record. */
  ghost predicate Distinct<V>(t: Tree<V>)
  {
    match t
    case Nil => true
    case Node(id, _, _, _, l, r) =>
      id !in Ids(l) && id !in Ids(r) && Ids(l) !! Ids(r) && Distinct(l) && Distinct(r)
  }

  /** The same nodes, keys and balance fields in the same places; only values may differ. */
  ghost predicate SameShape<V>(a: Tree<V>, b: Tree<V>)
  {
    match a
    case Nil => b.Nil?
    case Node(id, k, _, bl, l, r) =>
      b.Node? && b.id == id && b.key == k && b.bal == bl && SameShape(l, b.left) && SameShape(r, b.right)
  }

  // ---------------------------------------------------------------------------
  // Positions
  // ---------------------------------------------------------------------------

  function Child<V>(t: Tree<V>, d: Dir): Tree<V>
    requires t.Node?
  {
    if d == Left then t.left else t.right
  }

  function WithChild<V>(t: Tree<V>, d: Dir, c: Tree<V>): Tree<V>
    requires t.Node?
  {
    if d == Left then t.(left := c) else t.(right := c)
  }

  function Init(p: Path): Path
    requires p != []
  {
    p[..|p| - 1]
  }

  function Last(p: Path): Dir
    requires p != []
  {
    p[|p| - 1]
  }

  /** A path that stays inside the tree; it may end at an empty slot. */
  ghost predicate ValidPos<V>(t: Tree<V>, p: Path)
  {
    p == [] || (t.Node? && ValidPos(Child(t, p[0]), p[1..]))
  }

  /** A path that ends at a node. */
  ghost predicate NodeAt<V>(t: Tree<V>, p: Path)
  {
    ValidPos(t, p) && Sub(t, p).Node?
  }

  /** The subtree at a position. */
  ghost function Sub<V>(t: Tree<V>, p: Path): Tree<V>
    requires ValidPos(t, p)
  {
    if p == [] then t else Sub(Child(t, p[0]), p[1..])
  }

  /** The tree with the subtree at a position replaced. */
  ghost function ReplaceAt<V>(t: Tree<V>, p: Path, s: Tree<V>): Tree<V>
    requires ValidPos(t, p)
  {
    if p == [] then s else WithChild(t, p[0], ReplaceAt(Child(t, p[0]), p[1..], s))
  }

  lemma {:induction false} SubSnoc<V>(t: Tree<V>, p: Path, d: Dir)
    requires NodeAt(t, p)
    ensures ValidPos(t, p + [d]) && Sub(t, p + [d]) == Child(Sub(t, p), d)
    decreases p
  {
    if p != [] {
      assert (p + [d])[1..] == p[1..] + [d];
      SubSnoc(Child(t, p[0]), p[1..], d);
    }
  }

  /** The position just above a non-root position holds a node, whose child is the subtree there. */
  lemma {:induction false} SubInit<V>(t: Tree<V>, p: Path)
    requires p != [] && ValidPos(t, p)
    ensures NodeAt(t, Init(p)) && Sub(t, p) == Child(Sub(t, Init(p)), Last(p))
    decreases p
  {
    if |p| > 1 {
      assert Init(p)[1..] == Init(p[1..]);
      SubInit(Child(t, p[0]), p[1..]);
    }
  }

  lemma {:induction false} ReplaceSnoc<V>(t: Tree<V>, p: Path, d: Dir, s: Tree<V>)
    requires NodeAt(t, p)
    ensures ValidPos(t, p + [d])
    ensures ReplaceAt(t, p + [d], s) == ReplaceAt(t, p, WithChild(Sub(t, p), d, s))
    decreases p
  {
    SubSnoc(t, p, d);
    if p != [] {
      assert (p + [d])[1..] == p[1..] + [d];
      ReplaceSnoc(Child(t, p[0]), p[1..], d, s);
    }
  }

  lemma {:induction false} SubReplace<V>(t: Tree<V>, p: Path, s: Tree<V>)
    requires ValidPos(t, p)
    ensures ValidPos(ReplaceAt(t, p, s), p) && Sub(ReplaceAt(t, p, s), p) == s
    decreases p
  {
    if p != [] {
      SubReplace(Child(t, p[0]), p[1..], s);
    }
  }

  lemma {:induction false} ReplaceReplace<V>(t: Tree<V>, p: Path, s1: Tree<V>, s2: Tree<V>)
    requires ValidPos(t, p)
    ensures ValidPos(ReplaceAt(t, p, s1), p)
    ensures ReplaceAt(ReplaceAt(t, p, s1), p, s2) == ReplaceAt(t, p, s2)
    decreases p
  {
    SubReplace(t, p, s1);
    if p != [] {
      ReplaceReplace(Child(t, p[0]), p[1..], s1, s2);
    }
  }

  lemma {:induction false} ReplaceSelf<V>(t: Tree<V>, p: Path)
    requires ValidPos(t, p)
    ensures ReplaceAt(t, p, Sub(t, p)) == t
    decreases p
  {
    if p != [] {
      ReplaceSelf(Child(t, p[0]), p[1..]);
    }
  }

  /** Replacing a subtree leaves the position just above it in place, with the new child. */
  lemma ReplaceInit<V>(t: Tree<V>, p: Path, s: Tree<V>)
    requires p != [] && ValidPos(t, p)
    ensures NodeAt(t, Init(p))
    ensures ReplaceAt(t, p, s) == ReplaceAt(t, Init(p), WithChild(Sub(t, Init(p)), Last(p), s))
    ensures NodeAt(ReplaceAt(t, p, s), Init(p))
    ensures Sub(ReplaceAt(t, p, s), Init(p)) == WithChild(Sub(t, Init(p)), Last(p), s)
  {
    SubInit(t, p);
    assert p == Init(p) + [Last(p)];
    ReplaceSnoc(t, Init(p), Last(p), s);
    SubReplace(t, Init(p), WithChild(Sub(t, Init(p)), Last(p), s));
  }

  /** Replacing a subtree leaves the node above it in place, under the same handle. */
  lemma ReplaceKeepsAbove<V>(t: Tree<V>, p: Path, s: Tree<V>)
    requires p != [] && ValidPos(t, p)
    ensures NodeAt(t, Init(p)) && NodeAt(ReplaceAt(t, p, s), Init(p))
    ensures Sub(ReplaceAt(t, p, s), Init(p)).id == Sub(t, Init(p)).id
  {
    ReplaceInit(t, p, s);
    SubReplace(t, Init(p), WithChild(Sub(t, Init(p)), Last(p), s));
  }

  /** A position below a position: paths compose. */
  lemma {:induction false} SubAppend<V>(t: Tree<V>, p: Path, r: Path, c: Tree<V>)
    requires ValidPos(t, p) && ValidPos(Sub(t, p), r)
    ensures ValidPos(t, p + r) && Sub(t, p + r) == Sub(Sub(t, p), r)
    ensures ReplaceAt(t, p + r, c) == ReplaceAt(t, p, ReplaceAt(Sub(t, p), r, c))
    decreases p
  {
    if p != [] {
      assert (p + r)[1..] == p[1..] + r;
      SubAppend(Child(t, p[0]), p[1..], r, c);
    } else {
      assert p + r == r;
    }
  }

  // ---------------------------------------------------------------------------
  // Handles
  // ---------------------------------------------------------------------------

  lemma {:induction false} SubFacts<V>(t: Tree<V>, p: Path)
    requires ValidPos(t, p)
    ensures Ids(Sub(t, p)) <= Ids(t)
    ensures Distinct(t) ==> Distinct(Sub(t, p))
    ensures AvlCorrect(t) ==> AvlCorrect(Sub(t, p))
    decreases p
  {
    if p != [] {
      SubFacts(Child(t, p[0]), p[1..]);
    }
  }

  /** In a tree of distinct handles, the node above a position is not inside the subtree there. */
  lemma ParentOutside<V>(t: Tree<V>, p: Path)
    requires Distinct(t) && p != [] && ValidPos(t, p)
    ensures NodeAt(t, Init(p))
    ensures Sub(t, Init(p)).id !in Ids(Sub(t, p))
    ensures Ids(Sub(t, p)) <= Ids(Sub(t, Init(p)))
  {
    SubInit(t, p);
    SubFacts(t, Init(p));
  }

  lemma {:induction false} IdsReplace<V>(t: Tree<V>, p: Path, s: Tree<V>)
    requires Distinct(t) && ValidPos(t, p) && Distinct(s)
    requires Ids(s) !! (Ids(t) - Ids(Sub(t, p)))
    ensures Distinct(ReplaceAt(t, p, s))
    ensures Ids(ReplaceAt(t, p, s)) == (Ids(t) - Ids(Sub(t, p))) + Ids(s)
    decreases p
  {
    if p != [] {
      var c := Child(t, p[0]);
      var o := Child(t, if p[0] == Left then Right else Left);
      SubFacts(c, p[1..]);
      IdsReplace(c, p[1..], s);
      IdsStep(t, p[0], ReplaceAt(c, p[1..], s), Ids(Sub(c, p[1..])), Ids(s));
    }
  }

  /** One level of IdsReplace: a child whose handles went from `Ids(c)` to `Ids(c) - a + b`. */
  lemma IdsStep<V>(t: Tree<V>, d: Dir, c': Tree<V>, a: set<nat>, b: set<nat>)
    requires t.Node? && Distinct(t) && Distinct(c') && a <= Ids(Child(t, d))
    requires Ids(c') == Ids(Child(t, d)) - a + b && b !! (Ids(t) - a)
    ensures Distinct(WithChild(t, d, c'))
    ensures Ids(WithChild(t, d, c')) == (Ids(t) - a) + b
  {
    var c := Child(t, d);
    var o := Child(t, if d == Left then Right else Left);
    assert Ids(t) == {t.id} + Ids(c) + Ids(o);
    assert Ids(WithChild(t, d, c')) == {t.id} + Ids(c') + Ids(o);
  }


  // ---------------------------------------------------------------------------
  // Heights and balance
  // ---------------------------------------------------------------------------

  /**
   * Putting in an AVL-correct subtree of the same height as the one it replaces
   * leaves the whole tree AVL-correct and of the same height: no ancestor's
   * balance field goes stale.
   */
  lemma {:induction false} ReplaceSameHeight<V>(t: Tree<V>, p: Path, s: Tree<V>)
    requires AvlCorrect(t) && ValidPos(t, p)
    requires AvlCorrect(s) && Height(s) == Height(Sub(t, p))
    ensures AvlCorrect(ReplaceAt(t, p, s)) && Height(ReplaceAt(t, p, s)) == Height(t)
    decreases p
  {
    if p != [] {
      ReplaceSameHeight(Child(t, p[0]), p[1..], s);
    }
  }

  lemma {:induction false} SameShapeSelf<V>(t: Tree<V>)
    ensures SameShape(t, t)
  {
    if t.Node? {
      SameShapeSelf(t.left);
      SameShapeSelf(t.right);
    }
  }

  /**
   * Overwriting the value of one node keeps every handle, key and balance
   * field where it was, and keeps the tree AVL-correct.
   */
  lemma {:induction false} ValueOnly<V>(t: Tree<V>, p: Path, v: V)
    requires NodeAt(t, p)
    ensures SameShape(t, ReplaceAt(t, p, Sub(t, p).(value := v)))
    ensures AvlCorrect(t) ==> AvlCorrect(ReplaceAt(t, p, Sub(t, p).(value := v)))
    decreases p
  {
    var s := Sub(t, p);
    if p == [] {
      SameShapeSelf(t.left);
      SameShapeSelf(t.right);
    } else {
      ValueOnly(Child(t, p[0]), p[1..], v);
      SameShapeSelf(Child(t, if p[0] == Left then Right else Left));
    }
    if AvlCorrect(t) {
      SubFacts(t, p);
      ReplaceSameHeight(t, p, s.(value := v));
    }
  }

  /** No node lies deeper than the height. */
  lemma {:induction false} DepthBelowHeight<V>(t: Tree<V>, p: Path)
    requires NodeAt(t, p)
    ensures |p| <= Height(t)
    decreases p
  {
    if p != [] {
      DepthBelowHeight(Child(t, p[0]), p[1..]);
    }
  }

  /** A path to a deepest node: the height is the length of the longest root-to-node path. */
  ghost function DeepestPath<V>(t: Tree<V>): (p: Path)
    requires t.Node?
    ensures NodeAt(t, p) && |p| == Height(t)
  {
    var l, r := t.left, t.right;
    if l.Nil? && r.Nil? then []
    else if Height(l) >= Height(r) then [Left] + DeepestPath(l)
    else [Right] + DeepestPath(r)
  }
}
