/**
 * Binary-search-tree order on the shape: the keys a tree holds, the map it
 * stands for, and the search paths that insertion and lookup follow.
 */
module AvlOrder {
  import opened AvlShape

  ghost function KeySet<V>(t: Tree<V>): set<int>
  {
    match t
    case Nil => {}
    case Node(_, k, _, _, l, r) => KeySet(l) + {k} + KeySet(r)
  }

  /** The key/value map a tree stands for, read in order. */
  ghost function Contents<V>(t: Tree<V>): map<int, V>
  {
    match t
    case Nil => map[]
    case Node(_, k, v, _, l, r) => Contents(l) + map[k := v] + Contents(r)
  }

  /** The keys met by an in-order traversal. */
  ghost function Inorder<V>(t: Tree<V>): seq<int>
  {
    match t
    case Nil => []
    case Node(_, k, _, _, l, r) => Inorder(l) + [k] + Inorder(r)
  }

  ghost predicate StrictlyIncreasing(s: seq<int>)
  {
    forall i, j :: 0 <= i < j < |s| ==> s[i] < s[j]
  }

  /** Every key in a left subtree is smaller, every key in a right subtree larger, than the node's key. */
  ghost predicate SearchTree<V>(t: Tree<V>)
  {
    match t
    case Nil => true
    case Node(_, k, _, _, l, r) =>
      SearchTree(l) && SearchTree(r) &&
      (forall j :: j in KeySet(l) ==> j < k) &&
      (forall j :: j in KeySet(r) ==> k < j)
  }

  lemma {:induction false} ContentsKeys<V>(t: Tree<V>)
    ensures Contents(t).Keys == KeySet(t)
  {
    if t.Node? {
      ContentsKeys(t.left);
      ContentsKeys(t.right);
    }
  }

  lemma {:induction false} InorderKey<V>(t: Tree<V>, j: int)
    ensures j in Inorder(t) <==> j in KeySet(t)
  {
    if t.Node? {
      InorderKey(t.left, j);
      InorderKey(t.right, j);
    }
  }

  lemma InorderKeys<V>(t: Tree<V>)
    ensures forall j :: j in Inorder(t) <==> j in KeySet(t)
  {
    forall j ensures j in Inorder(t) <==> j in KeySet(t) {
      InorderKey(t, j);
    }
  }

  lemma IncreasingSplit(a: seq<int>, x: int, b: seq<int>)
    requires StrictlyIncreasing(a + [x] + b)
    ensures StrictlyIncreasing(a) && StrictlyIncreasing(b)
    ensures forall j :: j in a ==> j < x
    ensures forall j :: j in b ==> x < j
  {
    var s := a + [x] + b;
    assert forall i :: 0 <= i < |a| ==> s[i] == a[i];
    assert forall i :: 0 <= i < |b| ==> s[|a| + 1 + i] == b[i];
    assert s[|a|] == x;
    forall i, j | 0 <= i < j < |a| ensures a[i] < a[j] {
      assert s[i] < s[j];
    }
    forall i, j | 0 <= i < j < |b| ensures b[i] < b[j] {
      assert s[|a| + 1 + i] < s[|a| + 1 + j];
    }
    forall j | j in a ensures j < x {
      var i :| 0 <= i < |a| && a[i] == j;
      assert s[i] < s[|a|];
    }
    forall j | j in b ensures x < j {
      var i :| 0 <= i < |b| && b[i] == j;
      assert s[|a|] < s[|a| + 1 + i];
    }
  }

  lemma IncreasingJoin(a: seq<int>, x: int, b: seq<int>)
    requires StrictlyIncreasing(a) && StrictlyIncreasing(b)
    requires forall j :: j in a ==> j < x
    requires forall j :: j in b ==> x < j
    ensures StrictlyIncreasing(a + [x] + b)
  {
    var s := a + [x] + b;
    forall i, j | 0 <= i < j < |s| ensures s[i] < s[j] {
      if j < |a| {
        assert s[i] == a[i] && s[j] == a[j];
      } else if i > |a| {
        assert s[i] == b[i - |a| - 1] && s[j] == b[j - |a| - 1];
      } else if i == |a| {
        assert s[j] == b[j - |a| - 1];
        assert s[j] in b;
      } else if j == |a| {
        assert s[i] == a[i];
        assert s[i] in a;
      } else {
        assert s[i] == a[i] && s[j] == b[j - |a| - 1];
        assert s[i] in a && s[j] in b;
      }
    }
  }

  /** The order invariant holds exactly when an in-order traversal yields strictly increasing keys. */
  lemma {:induction false} SearchTreeIffSorted<V>(t: Tree<V>)
    ensures SearchTree(t) <==> StrictlyIncreasing(Inorder(t))
  {
    if t.Node? {
      SearchTreeIffSorted(t.left);
      SearchTreeIffSorted(t.right);
      InorderKeys(t.left);
      InorderKeys(t.right);
      if SearchTree(t) {
        IncreasingJoin(Inorder(t.left), t.key, Inorder(t.right));
      }
      if StrictlyIncreasing(Inorder(t)) {
        IncreasingSplit(Inorder(t.left), t.key, Inorder(t.right));
      }
    }
  }

  /** Trees with the same in-order keys hold the same keys and are ordered alike. */
  lemma SameInorder<V>(a: Tree<V>, b: Tree<V>)
    requires Inorder(a) == Inorder(b)
    ensures KeySet(a) == KeySet(b)
    ensures SearchTree(a) <==> SearchTree(b)
  {
    forall j ensures j in KeySet(a) <==> j in KeySet(b) {
      InorderKey(a, j);
      InorderKey(b, j);
    }
    SearchTreeIffSorted(a);
    SearchTreeIffSorted(b);
  }

  // ---------------------------------------------------------------------------
  // Search paths
  // ---------------------------------------------------------------------------

  /** Every step of the path goes left when the key is smaller than the node's key, right when larger. */
  ghost predicate SearchPath<V>(t: Tree<V>, p: Path, k: int)
  {
    p == [] ||
    (t.Node? && k != t.key && p[0] == (if k < t.key then Left else Right) &&
     SearchPath(Child(t, p[0]), p[1..], k))
  }

  lemma {:induction false} SearchPathValid<V>(t: Tree<V>, p: Path, k: int)
    requires SearchPath(t, p, k)
    ensures ValidPos(t, p)
    decreases p
  {
    if p != [] {
      SearchPathValid(Child(t, p[0]), p[1..], k);
    }
  }

  /** One more step of the descent, taken by comparing the key with the node's key. */
  lemma {:induction false} SearchPathSnoc<V>(t: Tree<V>, p: Path, k: int)
    requires SearchPath(t, p, k) && NodeAt(t, p) && Sub(t, p).key != k
    ensures var d := if k < Sub(t, p).key then Left else Right;
      SearchPath(t, p + [d], k) && NodeAt(t, p) && ValidPos(t, p + [d])
    decreases p
  {
    var d := if k < Sub(t, p).key then Left else Right;
    SubSnoc(t, p, d);
    if p != [] {
      assert (p + [d])[1..] == p[1..] + [d];
      SearchPathSnoc(Child(t, p[0]), p[1..], k);
    }
  }

  /** Along a search path for k, the key is in the tree exactly when it is in the subtree reached. */
  lemma {:induction false} SearchPathFinds<V>(t: Tree<V>, p: Path, k: int)
    requires SearchTree(t) && ValidPos(t, p) && SearchPath(t, p, k)
    ensures SearchTree(Sub(t, p))
    ensures k in KeySet(t) <==> k in KeySet(Sub(t, p))
    decreases p
  {
    if p != [] {
      SearchPathFinds(Child(t, p[0]), p[1..], k);
    }
  }

  /** One step of a descent that has not found the key yet, with what a loop needs to go on. */
  lemma DescendStep<V>(t: Tree<V>, p: Path, k: int)
    requires SearchTree(t) && SearchPath(t, p, k) && NodeAt(t, p) && Sub(t, p).key != k
    requires k in KeySet(t) <==> k in KeySet(Sub(t, p))
    ensures var d := if k < Sub(t, p).key then Left else Right;
      ValidPos(t, p + [d]) && SearchPath(t, p + [d], k) && Sub(t, p + [d]) == Child(Sub(t, p), d) &&
      (k in KeySet(t) <==> k in KeySet(Sub(t, p + [d]))) &&
      Init(p + [d]) == p && Last(p + [d]) == d
  {
    var s := Sub(t, p);
    var d := if k < s.key then Left else Right;
    SearchPathSnoc(t, p, k);
    SearchPathFinds(t, p, k);
    SubSnoc(t, p, d);
    ChildKeys(s, k);
    assert Init(p + [d]) == p;
  }

  /** In an ordered node, a key other than the node's own is in the subtree exactly when it is on its side. */
  lemma ChildKeys<V>(s: Tree<V>, k: int)
    requires s.Node? && SearchTree(s) && k != s.key
    ensures k in KeySet(s) <==> k in KeySet(Child(s, if k < s.key then Left else Right))
  {
    if k < s.key {
      assert k !in KeySet(s.right);
    } else {
      assert k !in KeySet(s.left);
    }
  }

  /** Map algebra used as a proof step below: taking a key other than the root key out of a union of three maps. */
  lemma UnionWithout<V>(a: map<int, V>, x: int, v: V, b: map<int, V>, k: int)
    requires k != x
    ensures (a + map[x := v] + b) - {k} == (a - {k}) + map[x := v] + (b - {k})
  {
  }

  /** Map algebra used as a proof step: a key below the root key is found in the left part. */
  lemma UnionFindLeft<V>(a: map<int, V>, x: int, v: V, b: map<int, V>, k: int)
    requires k != x && k !in b
    ensures k in a + map[x := v] + b <==> k in a
    ensures k in a ==> (a + map[x := v] + b)[k] == a[k]
  {
  }

  /** Map algebra used as a proof step: a key above the root key is found in the right part. */
  lemma UnionFindRight<V>(a: map<int, V>, x: int, v: V, b: map<int, V>, k: int)
    requires k != x && k !in a
    ensures k in a + map[x := v] + b <==> k in b
    ensures k in b ==> (a + map[x := v] + b)[k] == b[k]
  {
  }

  /**
   * Replacing the subtree at the end of a search path for k by an ordered
   * subtree whose keys are the old ones plus at most k keeps the order.
   */
  lemma {:induction false} ReplaceAlongSearchPathOrder<V>(t: Tree<V>, p: Path, s: Tree<V>, k: int)
    requires SearchTree(t) && ValidPos(t, p) && SearchPath(t, p, k) && SearchTree(s)
    requires KeySet(s) <= KeySet(Sub(t, p)) + {k}
    ensures SearchTree(ReplaceAt(t, p, s))
    ensures KeySet(ReplaceAt(t, p, s)) <= KeySet(t) + {k}
    decreases p
  {
    if p != [] {
      ReplaceAlongSearchPathOrder(Child(t, p[0]), p[1..], s, k);
    }
  }

  /**
   * Replacing the subtree at the end of a search path for k by one whose map
   * differs from it at most in k changes the whole tree's map at most in k.
   */
  lemma {:induction false} ReplaceAlongSearchPathContents<V>(t: Tree<V>, p: Path, s: Tree<V>, k: int)
    requires SearchTree(t) && ValidPos(t, p) && SearchPath(t, p, k)
    requires Contents(s) - {k} == Contents(Sub(t, p)) - {k}
    ensures Contents(ReplaceAt(t, p, s)) - {k} == Contents(t) - {k}
    ensures k in Contents(ReplaceAt(t, p, s)) <==> k in Contents(s)
    ensures k in Contents(s) ==> Contents(ReplaceAt(t, p, s))[k] == Contents(s)[k]
    decreases p
  {
    if p != [] {
      var c := Child(t, p[0]);
      var c' := ReplaceAt(c, p[1..], s);
      ReplaceAlongSearchPathContents(c, p[1..], s, k);
      if p[0] == Left {
        ContentsKeys(t.right);
        assert ReplaceAt(t, p, s) == t.(left := c');
        UnionWithout(Contents(c'), t.key, t.value, Contents(t.right), k);
        UnionWithout(Contents(c), t.key, t.value, Contents(t.right), k);
        UnionFindLeft(Contents(c'), t.key, t.value, Contents(t.right), k);
      } else {
        ContentsKeys(t.left);
        assert ReplaceAt(t, p, s) == t.(right := c');
        UnionWithout(Contents(t.left), t.key, t.value, Contents(c'), k);
        UnionWithout(Contents(t.left), t.key, t.value, Contents(c), k);
        UnionFindRight(Contents(t.left), t.key, t.value, Contents(c'), k);
      }
    }
  }

  /** Putting in a subtree with the same keys, map and order leaves the tree's keys, map and order as they were. */
  lemma {:induction false} ReplaceSameContents<V>(t: Tree<V>, p: Path, s: Tree<V>)
    requires ValidPos(t, p)
    requires Contents(s) == Contents(Sub(t, p)) && KeySet(s) == KeySet(Sub(t, p))
    requires SearchTree(Sub(t, p)) ==> SearchTree(s)
    ensures Contents(ReplaceAt(t, p, s)) == Contents(t)
    ensures KeySet(ReplaceAt(t, p, s)) == KeySet(t)
    ensures SearchTree(t) ==> SearchTree(ReplaceAt(t, p, s))
    decreases p
  {
    if p != [] {
      if SearchTree(t) {
        SubFactsOrder(t, p);
      }
      ReplaceSameContents(Child(t, p[0]), p[1..], s);
    }
  }

  lemma {:induction false} SubFactsOrder<V>(t: Tree<V>, p: Path)
    requires ValidPos(t, p) && SearchTree(t)
    ensures SearchTree(Sub(t, p))
    decreases p
  {
    if p != [] {
      SubFactsOrder(Child(t, p[0]), p[1..]);
    }
  }

  // ---------------------------------------------------------------------------
  // Removal of a node with at most one child, or of the largest key
  // ---------------------------------------------------------------------------

  /** The rightmost node: the predecessor of a node is the rightmost node of its left subtree. */
  ghost function MaxNode<V>(t: Tree<V>): (m: Tree<V>)
    requires t.Node?
    ensures m.Node? && m.right.Nil?
  {
    if t.right.Nil? then t else MaxNode(t.right)
  }

  /** The tree without its rightmost node, whose left subtree takes its place. */
  ghost function RemoveMax<V>(t: Tree<V>): Tree<V>
    requires t.Node?
  {
    if t.right.Nil? then t.left else t.(right := RemoveMax(t.right))
  }

  /** The path to the rightmost node. */
  ghost function RightmostPath<V>(t: Tree<V>): (p: Path)
    requires t.Node?
    ensures NodeAt(t, p) && Sub(t, p) == MaxNode(t)
    ensures forall i :: 0 <= i < |p| ==> p[i] == Right
    ensures ReplaceAt(t, p, MaxNode(t).left) == RemoveMax(t)
  {
    if t.right.Nil? then [] else [Right] + RightmostPath(t.right)
  }

  lemma {:induction false} RemoveMaxKeys<V>(t: Tree<V>)
    requires t.Node? && SearchTree(t)
    ensures MaxNode(t).key in KeySet(t)
    ensures forall j :: j in KeySet(t) ==> j <= MaxNode(t).key
    ensures SearchTree(RemoveMax(t))
    ensures KeySet(RemoveMax(t)) == KeySet(t) - {MaxNode(t).key}
  {
    if t.right.Node? {
      RemoveMaxKeys(t.right);
    }
  }

  lemma {:induction false} RemoveMaxContents<V>(t: Tree<V>)
    requires t.Node? && SearchTree(t)
    ensures Contents(RemoveMax(t)) == Contents(t) - {MaxNode(t).key}
    ensures MaxNode(t).key in Contents(t) && Contents(t)[MaxNode(t).key] == MaxNode(t).value
  {
    RemoveMaxKeys(t);
    ContentsKeys(t.left);
    var m := MaxNode(t).key;
    assert m !in Contents(t.left);
    if t.right.Nil? {
      assert Contents(t) == Contents(t.left) + map[t.key := t.value];
    } else {
      RemoveMaxContents(t.right);
      UnionWithout(Contents(t.left), t.key, t.value, Contents(t.right), m);
      assert Contents(t.left) - {m} == Contents(t.left);
      UnionFindRight(Contents(t.left), t.key, t.value, Contents(t.right), m);
    }
  }

  /**
   * The subtree that takes the place of a removed node: its only child, or,
   * when it has two, itself with its predecessor's handle, key and value moved
   * into its place and the predecessor unlinked; the balance field stays with
   * the position.
   */
  ghost function Unlinked<V>(s: Tree<V>): Tree<V>
    requires s.Node?
  {
    if s.left.Node? && s.right.Node? then
      var m := MaxNode(s.left);
      Node(m.id, m.key, m.value, s.bal, RemoveMax(s.left), s.right)
    else if s.left.Node? then s.left
    else s.right
  }

  /** Map algebra used as a proof step: removing the middle key of a three-part union. */
  lemma RemoveMiddle<V>(a: map<int, V>, k: int, v: V, b: map<int, V>)
    requires k !in a && k !in b
    ensures (a + map[k := v] + b) - {k} == a + b
  {
  }

  /** Map algebra used as a proof step: taking a key out and putting its value back. */
  lemma Reinsert<V>(a: map<int, V>, k: int)
    requires k in a
    ensures (a - {k}) + map[k := a[k]] == a
  {
  }

  /** The predecessor's key fits between the rest of the left subtree and the right subtree. */
  lemma PredecessorFits<V>(s: Tree<V>)
    requires s.Node? && s.left.Node? && s.right.Node? && SearchTree(s)
    ensures SearchTree(Unlinked(s))
    ensures KeySet(Unlinked(s)) == KeySet(s) - {s.key}
  {
    var l, r := s.left, s.right;
    var l' := RemoveMax(l);
    RemoveMaxKeys(l);
    var mn := MaxNode(l);
    var m := mn.key;
    assert m < s.key;
    forall j | j in KeySet(l') ensures j < m {
      assert j in KeySet(l) && j != m;
    }
    forall j | j in KeySet(r) ensures m < j {
      assert s.key < j;
    }
    var u := Node(mn.id, m, mn.value, s.bal, l', r);
    assert Unlinked(s) == u;
    assert SearchTree(u);
    assert s.key !in KeySet(l) && s.key !in KeySet(r);
    SplitKeys(KeySet(l), m, KeySet(r), s.key);
  }

  /** Set algebra used as a proof step of PredecessorFits. */
  lemma SplitKeys(a: set<int>, m: int, b: set<int>, k: int)
    requires m in a && k !in a && k !in b
    ensures (a - {m}) + {m} + b == (a + {k} + b) - {k}
  {
  }

  lemma UnlinkedKeys<V>(s: Tree<V>)
    requires s.Node? && SearchTree(s)
    ensures SearchTree(Unlinked(s))
    ensures KeySet(Unlinked(s)) == KeySet(s) - {s.key}
  {
    assert s.key !in KeySet(s.left) && s.key !in KeySet(s.right);
    if s.left.Node? && s.right.Node? {
      PredecessorFits(s);
    }
  }

  lemma UnlinkedContents<V>(s: Tree<V>)
    requires s.Node? && SearchTree(s)
    ensures Contents(Unlinked(s)) == Contents(s) - {s.key}
  {
    ContentsKeys(s.left);
    ContentsKeys(s.right);
    var cl, cr := Contents(s.left), Contents(s.right);
    RemoveMiddle(cl, s.key, s.value, cr);
    if s.left.Node? && s.right.Node? {
      RemoveMaxContents(s.left);
      var m := MaxNode(s.left);
      Reinsert(cl, m.key);
      assert Contents(Unlinked(s)) == (cl - {m.key}) + map[m.key := m.value] + cr;
    }
  }

  /** Map algebra used as a proof step: two maps equal off `k` and at `k` are equal. */
  lemma MapsAgree<V>(m1: map<int, V>, m2: map<int, V>, k: int)
    requires m1 - {k} == m2 - {k}
    requires k in m1 <==> k in m2
    requires k in m1 ==> m1[k] == m2[k]
    ensures m1 == m2
  {
    forall j | j in m1 ensures j in m2 && m1[j] == m2[j] {
      if j != k {
        assert j in m1 - {k};
      }
    }
    forall j | j in m2 ensures j in m1 {
      if j != k {
        assert j in m2 - {k};
      }
    }
  }

  /** Inserting into the empty slot a search path for k ends at adds exactly k. */
  lemma AttachLeaf<V>(t: Tree<V>, p: Path, leaf: Tree<V>)
    requires leaf.Node? && leaf.left.Nil? && leaf.right.Nil?
    requires SearchTree(t) && ValidPos(t, p) && SearchPath(t, p, leaf.key) && Sub(t, p).Nil?
    ensures leaf.key !in KeySet(t)
    ensures SearchTree(ReplaceAt(t, p, leaf))
    ensures KeySet(ReplaceAt(t, p, leaf)) == KeySet(t) + {leaf.key}
    ensures Contents(ReplaceAt(t, p, leaf)) == Contents(t)[leaf.key := leaf.value]
  {
    var k := leaf.key;
    SearchPathFinds(t, p, k);
    ReplaceAlongSearchPathOrder(t, p, leaf, k);
    ReplaceAlongSearchPathContents(t, p, leaf, k);
    var t' := ReplaceAt(t, p, leaf);
    var c, c0 := Contents(t'), Contents(t);
    OverwriteAgrees(c, c0, k, leaf.value);
    ContentsKeys(t);
    ContentsKeys(t');
    UpdateKeys(c0, k, leaf.value);
  }

  /** Map algebra used as a proof step: an update adds its key to the domain. */
  lemma UpdateKeys<V>(m: map<int, V>, k: int, v: V)
    ensures m[k := v].Keys == m.Keys + {k}
  {
  }

  /** Replacing the value at the end of a search path for its key overwrites that key's value only. */
  lemma OverwriteValue<V>(t: Tree<V>, p: Path, v: V)
    requires SearchTree(t) && NodeAt(t, p) && SearchPath(t, p, Sub(t, p).key)
    ensures SearchTree(ReplaceAt(t, p, Sub(t, p).(value := v)))
    ensures Contents(ReplaceAt(t, p, Sub(t, p).(value := v))) == Contents(t)[Sub(t, p).key := v]
  {
    var s := Sub(t, p);
    var k := s.key;
    var s' := s.(value := v);
    SubFactsOrder(t, p);
    NewRootValue(s, v);
    ReplaceAlongSearchPathOrder(t, p, s', k);
    ReplaceAlongSearchPathContents(t, p, s', k);
    var t' := ReplaceAt(t, p, s');
    OverwriteAgrees(Contents(t'), Contents(t), k, v);
  }

  /** A new value at a subtree's root changes that key's entry only. */
  lemma NewRootValue<V>(s: Tree<V>, v: V)
    requires s.Node? && SearchTree(s)
    ensures SearchTree(s.(value := v)) && KeySet(s.(value := v)) == KeySet(s)
    ensures Contents(s.(value := v)) - {s.key} == Contents(s) - {s.key}
    ensures s.key in Contents(s.(value := v)) && Contents(s.(value := v))[s.key] == v
  {
    var k := s.key;
    ContentsKeys(s.left);
    ContentsKeys(s.right);
    RemoveMiddle(Contents(s.left), k, v, Contents(s.right));
    RemoveMiddle(Contents(s.left), k, s.value, Contents(s.right));
  }

  /** Map algebra used as a proof step: a map that agrees with `m0` off `k` and holds `v` at `k` is `m0[k := v]`. */
  lemma OverwriteAgrees<V>(m: map<int, V>, m0: map<int, V>, k: int, v: V)
    requires m - {k} == m0 - {k} && k in m && m[k] == v
    ensures m == m0[k := v]
  {
    assert m0[k := v] - {k} == m0 - {k};
    MapsAgree(m, m0[k := v], k);
  }

  /** Removing the node at the end of a search path for its key removes exactly that key. */
  lemma RemoveAt<V>(t: Tree<V>, p: Path)
    requires SearchTree(t) && NodeAt(t, p) && SearchPath(t, p, Sub(t, p).key)
    ensures SearchTree(ReplaceAt(t, p, Unlinked(Sub(t, p))))
    ensures Contents(ReplaceAt(t, p, Unlinked(Sub(t, p)))) == Contents(t) - {Sub(t, p).key}
  {
    var s := Sub(t, p);
    var k := s.key;
    var u := Unlinked(s);
    SubFactsOrder(t, p);
    UnlinkedKeys(s);
    UnlinkedContents(s);
    assert KeySet(u) <= KeySet(s) + {k};
    assert Contents(u) - {k} == Contents(s) - {k};
    ReplaceAlongSearchPathOrder(t, p, u, k);
    ReplaceAlongSearchPathContents(t, p, u, k);
    var t' := ReplaceAt(t, p, u);
    assert k !in Contents(u) by {
      ContentsKeys(u);
    }
    assert (Contents(t) - {k}) - {k} == Contents(t) - {k};
    MapsAgree(Contents(t'), Contents(t) - {k}, k);
  }
}
