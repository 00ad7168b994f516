/**
 * equal-paths.cpp: does every root-to-leaf path of a binary tree have the same
 * length? `depth` measures the longest downward path in edges, and
 * `equalPaths` compares the depths of the two subtrees wherever a node has two
 * children, descending into the only child otherwise.
 */
module EqualPaths {

  /** A tree node as equal-paths.cpp uses it: a key and two child pointers; `Empty` is a null pointer. */
  datatype BTree = Empty | Br(key: int, left: BTree, right: BTree)

  predicate IsLeaf(t: BTree)
  {
    t.Br? && t.left.Empty? && t.right.Empty?
  }

  /**
   * depth: 0 for a null pointer and for a leaf; otherwise one more than the
   * larger depth of the children, a missing child counting 0.
   */
  function Depth(t: BTree): (d: nat)
    ensures t.Empty? || IsLeaf(t) ==> d == 0
    ensures t.Br? && !IsLeaf(t) ==> d >= 1
  {
    match t
    case Empty => 0
    case Br(_, l, r) =>
      if l.Empty? && r.Empty? then 0
      else
        var ld := if !l.Empty? then Depth(l) else 0;
        var rd := if !r.Empty? then Depth(r) else 0;
        if ld > rd then ld + 1 else rd + 1
  }

  /** equalPaths, branch for branch. */
  function EqualPaths(t: BTree): (b: bool)
    ensures t.Empty? || IsLeaf(t) ==> b
    ensures t.Br? && t.left.Empty? ==> b == EqualPaths(t.right)
    ensures t.Br? && t.right.Empty? ==> b == EqualPaths(t.left)
  {
    match t
    case Empty => true
    case Br(_, l, r) =>
      if l.Empty? && r.Empty? then true
      else if !l.Empty? && !r.Empty? then
        if Depth(l) != Depth(r) then false
        else EqualPaths(l) && EqualPaths(r)
      else if !l.Empty? then EqualPaths(l)
      else EqualPaths(r)
  }

  // ---------------------------------------------------------------------------
  // What the functions mean
  // ---------------------------------------------------------------------------

  /** The lengths, in edges, of the root-to-leaf paths. */
  ghost function LeafDepths(t: BTree): set<nat>
  {
    match t
    case Empty => {}
    case Br(_, l, r) =>
      if l.Empty? && r.Empty? then {0}
      else Below(LeafDepths(l)) + Below(LeafDepths(r))
  }

  /** Path lengths seen from one level higher up. */
  ghost function Below(s: set<nat>): set<nat>
  {
    set d | d in s :: d + 1
  }

  /** All lengths in the set are one and the same. */
  ghost predicate AllSame(s: set<nat>)
  {
    forall d1, d2 :: d1 in s && d2 in s ==> d1 == d2
  }

  /** Every root-to-leaf path has the same length. */
  ghost predicate SameLengthPaths(t: BTree)
  {
    AllSame(LeafDepths(t))
  }

  lemma BelowSame(s: set<nat>)
    ensures AllSame(Below(s)) <==> AllSame(s)
    ensures forall d :: d in s <==> d + 1 in Below(s)
  {
    forall d1, d2 | d1 in s && d2 in s && AllSame(Below(s)) ensures d1 == d2 {
      assert d1 + 1 in Below(s) && d2 + 1 in Below(s);
    }
  }

  /** depth is the length of the longest root-to-leaf path, and a non-empty tree has one. */
  lemma {:induction false} DepthIsLongestPath(t: BTree)
    ensures t.Br? ==> Depth(t) in LeafDepths(t)
    ensures forall d :: d in LeafDepths(t) ==> d <= Depth(t)
  {
    match t
    case Empty =>
    case Br(_, l, r) =>
      if !(l.Empty? && r.Empty?) {
        DepthIsLongestPath(l);
        DepthIsLongestPath(r);
        if !l.Empty? && (r.Empty? || Depth(l) > Depth(r)) {
          assert Depth(t) == Depth(l) + 1;
        } else {
          assert Depth(t) == Depth(r) + 1;
        }
      }
  }

  /** In a tree whose paths all have one length, that length is the depth. */
  lemma OnlyDepth(t: BTree)
    requires t.Br? && SameLengthPaths(t)
    ensures LeafDepths(t) == {Depth(t)}
  {
    DepthIsLongestPath(t);
  }

  /** equalPaths answers exactly whether all root-to-leaf paths have the same length. */
  lemma {:induction false} EqualPathsCorrect(t: BTree)
    ensures EqualPaths(t) <==> SameLengthPaths(t)
  {
    match t
    case Empty =>
    case Br(_, l, r) =>
      if !(l.Empty? && r.Empty?) {
        EqualPathsCorrect(l);
        EqualPathsCorrect(r);
        if !l.Empty? && !r.Empty? {
          BothChildren(t);
        } else if !l.Empty? {
          BelowSame(LeafDepths(l));
          assert LeafDepths(t) == Below(LeafDepths(l));
        } else {
          BelowSame(LeafDepths(r));
          assert LeafDepths(t) == Below(LeafDepths(r));
        }
      }
  }

  /** The step of EqualPathsCorrect at a node with two children. */
  lemma BothChildren(t: BTree)
    requires t.Br? && t.left.Br? && t.right.Br?
    requires EqualPaths(t.left) <==> SameLengthPaths(t.left)
    requires EqualPaths(t.right) <==> SameLengthPaths(t.right)
    ensures EqualPaths(t) <==> SameLengthPaths(t)
  {
    var l, r := t.left, t.right;
    var sl, sr := Below(LeafDepths(l)), Below(LeafDepths(r));
    BelowSame(LeafDepths(l));
    BelowSame(LeafDepths(r));
    DepthIsLongestPath(l);
    DepthIsLongestPath(r);
    if EqualPaths(t) {
      OnlyDepth(l);
      OnlyDepth(r);
      assert sl == {Depth(l) + 1} && sr == {Depth(r) + 1};
    }
    if SameLengthPaths(t) {
      assert Depth(l) + 1 in sl && Depth(r) + 1 in sr;
    }
  }

  /** Two subtrees of different depth make the answer false, whatever they contain. */
  lemma UnequalDepthsFail(t: BTree)
    requires t.Br? && t.left.Br? && t.right.Br? && Depth(t.left) != Depth(t.right)
    ensures !EqualPaths(t) && !SameLengthPaths(t)
  {
    EqualPathsCorrect(t);
  }
}
