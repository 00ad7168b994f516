/**
 * Rotations and the rebalancing step of avlbst.h, on the shape. A rotation
 * relinks three nodes and then recomputes the balance fields of the pivot and
 * of the new subtree root from the true heights; rebalancing recomputes a
 * node's balance field and, when it has left [-1, 1], performs a single or a
 * double rotation chosen by the sign of the heavy child's stored balance.
 */
module AvlRotate {
  import opened AvlShape
  import opened AvlOrder

  /**
   * rotateLeft: the right child becomes the subtree root, the pivot becomes
   * its left child, and the right child's former left subtree (the inner
   * grandchild) becomes the pivot's right subtree.
   */
  ghost function RotateLeft<V>(t: Tree<V>): (r: Tree<V>)
    requires t.Node? && t.right.Node?
    ensures r.Node? && r.left.Node?
    ensures r.id == t.right.id && r.key == t.right.key && r.value == t.right.value
    ensures r.left.id == t.id && r.left.key == t.key && r.left.value == t.value
    ensures r.left.left == t.left && r.left.right == t.right.left && r.right == t.right.right
    ensures r.bal == FindBalance(r) && r.left.bal == FindBalance(r.left)
  {
    var y := t.right;
    var x := WithTrueBalance(Node(t.id, t.key, t.value, t.bal, t.left, y.left));
    WithTrueBalance(Node(y.id, y.key, y.value, y.bal, x, y.right))
  }

  /** rotateRight: the mirror image of rotateLeft. */
  ghost function RotateRight<V>(t: Tree<V>): (r: Tree<V>)
    requires t.Node? && t.left.Node?
    ensures r.Node? && r.right.Node?
    ensures r.id == t.left.id && r.key == t.left.key && r.value == t.left.value
    ensures r.right.id == t.id && r.right.key == t.key && r.right.value == t.value
    ensures r.right.right == t.right && r.right.left == t.left.right && r.left == t.left.left
    ensures r.bal == FindBalance(r) && r.right.bal == FindBalance(r.right)
  {
    var y := t.left;
    var x := WithTrueBalance(Node(t.id, t.key, t.value, t.bal, y.right, t.right));
    WithTrueBalance(Node(y.id, y.key, y.value, y.bal, y.left, x))
  }

  /** The links of rotateLeft before the two balance updates: every balance field is still the old one. */
  ghost function LinkLeft<V>(t: Tree<V>): (r: Tree<V>)
    requires t.Node? && t.right.Node?
    ensures r.Node? && r.left.Node?
    ensures RotateLeft(t) == WithTrueBalance(r.(left := WithTrueBalance(r.left)))
  {
    var y := t.right;
    Node(y.id, y.key, y.value, y.bal, Node(t.id, t.key, t.value, t.bal, t.left, y.left), y.right)
  }

  /** The links of rotateRight before the two balance updates. */
  ghost function LinkRight<V>(t: Tree<V>): (r: Tree<V>)
    requires t.Node? && t.left.Node?
    ensures r.Node? && r.right.Node?
    ensures RotateRight(t) == WithTrueBalance(r.(right := WithTrueBalance(r.right)))
  {
    var y := t.left;
    Node(y.id, y.key, y.value, y.bal, y.left, Node(t.id, t.key, t.value, t.bal, y.right, t.right))
  }

  /** What rebalanceNode needs: a node whose children's stored balances are their true ones. */
  ghost predicate CanRebalance<V>(t: Tree<V>)
  {
    t.Node? && RootBalanceCorrect(t.left) && RootBalanceCorrect(t.right)
  }

  /**
   * rebalanceNode: recompute the node's balance; if it exceeds 1, rotate the
   * right child right first when that child leans left, then rotate the node
   * left; symmetrically below -1; otherwise leave the node in place.
   */
  ghost function Rebalance<V>(t: Tree<V>): (r: Tree<V>)
    requires CanRebalance(t)
    ensures r.Node?
  {
    var n := WithTrueBalance(t);
    if n.bal > 1 then FixRightHeavy(n)
    else if n.bal < -1 then FixLeftHeavy(n)
    else n
  }

  /** The rotations for a right-heavy node: the right child rotated right first when it leans left, then the node rotated left. */
  ghost function FixRightHeavy<V>(n: Tree<V>): (r: Tree<V>)
    requires n.Node? && n.right.Node? && RootBalanceCorrect(n.right)
    ensures r.Node?
  {
    var n' := if n.right.bal < 0 then n.(right := RotateRight(n.right)) else n;
    RotateLeft(n')
  }

  /** The mirror image of FixRightHeavy for a left-heavy node. */
  ghost function FixLeftHeavy<V>(n: Tree<V>): (r: Tree<V>)
    requires n.Node? && n.left.Node? && RootBalanceCorrect(n.left)
    ensures r.Node?
  {
    var n' := if n.left.bal > 0 then n.(left := RotateLeft(n.left)) else n;
    RotateRight(n')
  }

  // ---------------------------------------------------------------------------
  // Rotations keep the order and the nodes
  // ---------------------------------------------------------------------------

  lemma MapUnionAssoc<V>(a: map<int, V>, b: map<int, V>, c: map<int, V>)
    ensures (a + b) + c == a + (b + c)
  {
  }

  /**
   * `r` is `t` with its right child lifted above it: the links of a left
   * rotation, whatever the balance fields say. A right rotation is the same
   * relation read the other way round.
   */
  ghost predicate LeftRelinked<V>(t: Tree<V>, r: Tree<V>)
  {
    t.Node? && t.right.Node? && r.Node? && r.left.Node? &&
    r.id == t.right.id && r.key == t.right.key && r.value == t.right.value &&
    r.left.id == t.id && r.left.key == t.key && r.left.value == t.value &&
    r.left.left == t.left && r.left.right == t.right.left && r.right == t.right.right
  }

  lemma RelinkInorder<V>(t: Tree<V>, r: Tree<V>)
    requires LeftRelinked(t, r)
    ensures Inorder(r) == Inorder(t)
  {
    var y := t.right;
    var a, b, c := Inorder(t.left), Inorder(y.left), Inorder(y.right);
    assert Inorder(r.left) == a + [t.key] + b;
    assert Inorder(y) == b + [y.key] + c;
  }

  /** Relinking keeps the in-order key sequence, hence the key set and the order. */
  lemma RelinkOrder<V>(t: Tree<V>, r: Tree<V>)
    requires LeftRelinked(t, r)
    ensures Inorder(r) == Inorder(t)
    ensures KeySet(r) == KeySet(t)
    ensures SearchTree(r) <==> SearchTree(t)
  {
    RelinkInorder(t, r);
    SameInorder(r, t);
  }

  lemma RelinkContents<V>(t: Tree<V>, r: Tree<V>)
    requires LeftRelinked(t, r)
    ensures Contents(r) == Contents(t)
  {
    var y := t.right;
    var ca, cb, cc := Contents(t.left), Contents(y.left), Contents(y.right);
    var mx, my := map[t.key := t.value], map[y.key := y.value];
    assert Contents(r) == ((ca + mx) + cb) + my + cc;
    assert Contents(t) == (ca + mx) + ((cb + my) + cc);
    MapUnionAssoc(ca + mx, cb, my);
    MapUnionAssoc(ca + mx, cb + my, cc);
  }

  lemma RelinkIds<V>(t: Tree<V>, r: Tree<V>)
    requires LeftRelinked(t, r)
    ensures Ids(r) == Ids(t)
    ensures Distinct(r) <==> Distinct(t)
  {
    var y, x := t.right, r.left;
    assert Ids(x) == {t.id} + Ids(t.left) + Ids(y.left);
    assert Ids(y) == {y.id} + Ids(y.left) + Ids(y.right);
  }

  /** A rotation keeps the in-order keys, the map, the order and the set of nodes. */
  lemma RelinkKeeps<V>(t: Tree<V>, r: Tree<V>)
    requires LeftRelinked(t, r)
    ensures Inorder(r) == Inorder(t) && KeySet(r) == KeySet(t) && Contents(r) == Contents(t)
    ensures SearchTree(r) <==> SearchTree(t)
    ensures Ids(r) == Ids(t) && (Distinct(r) <==> Distinct(t))
  {
    RelinkOrder(t, r);
    RelinkContents(t, r);
    RelinkIds(t, r);
  }

  lemma RotateLeftKeeps<V>(t: Tree<V>)
    requires t.Node? && t.right.Node?
    ensures Inorder(RotateLeft(t)) == Inorder(t) && KeySet(RotateLeft(t)) == KeySet(t)
    ensures Contents(RotateLeft(t)) == Contents(t)
    ensures SearchTree(RotateLeft(t)) <==> SearchTree(t)
    ensures Ids(RotateLeft(t)) == Ids(t) && (Distinct(RotateLeft(t)) <==> Distinct(t))
  {
    RelinkKeeps(t, RotateLeft(t));
  }

  lemma RotateRightKeeps<V>(t: Tree<V>)
    requires t.Node? && t.left.Node?
    ensures Inorder(RotateRight(t)) == Inorder(t) && KeySet(RotateRight(t)) == KeySet(t)
    ensures Contents(RotateRight(t)) == Contents(t)
    ensures SearchTree(RotateRight(t)) <==> SearchTree(t)
    ensures Ids(RotateRight(t)) == Ids(t) && (Distinct(RotateRight(t)) <==> Distinct(t))
  {
    RelinkKeeps(RotateRight(t), t);
  }

  /** Rebalancing keeps the in-order key sequence, the map, the order and the set of nodes. */
  lemma RebalanceKeeps<V>(t: Tree<V>)
    requires CanRebalance(t)
    ensures Inorder(Rebalance(t)) == Inorder(t)
    ensures KeySet(Rebalance(t)) == KeySet(t)
    ensures SearchTree(Rebalance(t)) <==> SearchTree(t)
    ensures Contents(Rebalance(t)) == Contents(t)
    ensures Ids(Rebalance(t)) == Ids(t)
    ensures Distinct(Rebalance(t)) <==> Distinct(t)
  {
    var n := WithTrueBalance(t);
    if n.bal > 1 {
      var n' := if n.right.bal < 0 then n.(right := RotateRight(n.right)) else n;
      if n.right.bal < 0 {
        RotateRightKeeps(n.right);
        SameInorder(n', n);
      }
      RotateLeftKeeps(n');
      SameInorder(Rebalance(t), t);
    } else if n.bal < -1 {
      var n' := if n.left.bal > 0 then n.(left := RotateLeft(n.left)) else n;
      if n.left.bal > 0 {
        RotateLeftKeeps(n.left);
        SameInorder(n', n);
      }
      RotateRightKeeps(n');
      SameInorder(Rebalance(t), t);
    }
  }

  // ---------------------------------------------------------------------------
  // Rebalancing restores the AVL condition
  // ---------------------------------------------------------------------------

  /** A single left rotation at a node two levels heavier on the right, whose right child does not lean left. */
  lemma SingleLeft<V>(t: Tree<V>)
    requires t.Node? && t.right.Node? && AvlCorrect(t.left) && AvlCorrect(t.right)
    requires FindBalance(t) == 2 && t.right.bal >= 0
    ensures AvlCorrect(RotateLeft(t))
    ensures t.right.bal == 0 ==> Height(RotateLeft(t)) == Height(t) && RotateLeft(t).bal == -1
    ensures t.right.bal != 0 ==> Height(RotateLeft(t)) == Height(t) - 1 && RotateLeft(t).bal == 0
  {
    var y := t.right;
    var h := Height(t.left);
    assert Height(y) == h + 2;
    assert Height(y.right) == h + 1;
    assert Height(y.left) == h + 1 - y.bal;
  }

  lemma SingleRight<V>(t: Tree<V>)
    requires t.Node? && t.left.Node? && AvlCorrect(t.left) && AvlCorrect(t.right)
    requires FindBalance(t) == -2 && t.left.bal <= 0
    ensures AvlCorrect(RotateRight(t))
    ensures t.left.bal == 0 ==> Height(RotateRight(t)) == Height(t) && RotateRight(t).bal == 1
    ensures t.left.bal != 0 ==> Height(RotateRight(t)) == Height(t) - 1 && RotateRight(t).bal == 0
  {
    var y := t.left;
    var h := Height(t.right);
    assert Height(y) == h + 2;
    assert Height(y.left) == h + 1;
    assert Height(y.right) == h + 1 + y.bal;
  }

  /** A right-left double rotation at a node two levels heavier on the right, whose right child leans left. */
  lemma DoubleRightLeft<V>(t: Tree<V>)
    requires t.Node? && t.right.Node? && AvlCorrect(t.left) && AvlCorrect(t.right)
    requires FindBalance(t) == 2 && t.right.bal < 0
    ensures t.right.left.Node?
    ensures AvlCorrect(RotateLeft(t.(right := RotateRight(t.right))))
    ensures Height(RotateLeft(t.(right := RotateRight(t.right)))) == Height(t) - 1
    ensures RotateLeft(t.(right := RotateRight(t.right))).bal == 0
  {
    var y := t.right;
    var h := Height(t.left);
    assert Height(y) == h + 2 && y.bal == -1;
    var z := y.left;
    assert Height(z) == h + 1 && Height(y.right) == h;
    assert Height(z.left) == h || Height(z.left) == h - 1;
    assert Height(z.right) == h || Height(z.right) == h - 1;
    var y2 := RotateRight(y);
    assert y2.right.left == z.right && y2.right.right == y.right;
    assert Height(y2.right) == h + 1;
    assert Height(y2) == h + 2;
    assert AvlCorrect(y2.right);
  }

  lemma DoubleLeftRight<V>(t: Tree<V>)
    requires t.Node? && t.left.Node? && AvlCorrect(t.left) && AvlCorrect(t.right)
    requires FindBalance(t) == -2 && t.left.bal > 0
    ensures t.left.right.Node?
    ensures AvlCorrect(RotateRight(t.(left := RotateLeft(t.left))))
    ensures Height(RotateRight(t.(left := RotateLeft(t.left)))) == Height(t) - 1
    ensures RotateRight(t.(left := RotateLeft(t.left))).bal == 0
  {
    var y := t.left;
    var h := Height(t.right);
    assert Height(y) == h + 2 && y.bal == 1;
    var z := y.right;
    assert Height(z) == h + 1 && Height(y.left) == h;
    assert Height(z.left) == h || Height(z.left) == h - 1;
    assert Height(z.right) == h || Height(z.right) == h - 1;
    var y2 := RotateLeft(y);
    assert y2.left.right == z.left && y2.left.left == y.left;
    assert Height(y2.left) == h + 1;
    assert Height(y2) == h + 2;
    assert AvlCorrect(y2.left);
  }

  /**
   * The middle step of the double rotation at avlbst.h:361-362 stores
   * balances outside [-1, 1] but never outside [-2, 2]: the child's new root
   * gets 1 or 2, the child itself 0 or 1.
   */
  lemma DoubleRightLeftMiddle<V>(t: Tree<V>)
    requires t.Node? && t.right.Node? && AvlCorrect(t.left) && AvlCorrect(t.right)
    requires FindBalance(t) == 2 && t.right.bal < 0
    ensures t.right.left.Node?
    ensures 1 <= RotateRight(t.right).bal <= 2
    ensures 0 <= RotateRight(t.right).right.bal <= 1
  {
    var y := t.right;
    var h := Height(t.left);
    assert Height(y) == h + 2 && y.bal == -1;
    var z := y.left;
    assert Height(z) == h + 1 && Height(y.right) == h;
    assert Height(z.left) == h || Height(z.left) == h - 1;
    assert Height(z.right) == h || Height(z.right) == h - 1;
    var y2 := RotateRight(y);
    assert y2.right.left == z.right && y2.right.right == y.right;
    assert Height(y2.right) == h + 1;
  }

  /** The mirror: the middle step at avlbst.h:370-371 stores -1 or -2 and 0 or -1. */
  lemma DoubleLeftRightMiddle<V>(t: Tree<V>)
    requires t.Node? && t.left.Node? && AvlCorrect(t.left) && AvlCorrect(t.right)
    requires FindBalance(t) == -2 && t.left.bal > 0
    ensures t.left.right.Node?
    ensures -2 <= RotateLeft(t.left).bal <= -1
    ensures -1 <= RotateLeft(t.left).left.bal <= 0
  {
    var y := t.left;
    var h := Height(t.right);
    assert Height(y) == h + 2 && y.bal == 1;
    var z := y.right;
    assert Height(z) == h + 1 && Height(y.left) == h;
    assert Height(z.left) == h || Height(z.left) == h - 1;
    assert Height(z.right) == h || Height(z.right) == h - 1;
    var y2 := RotateLeft(y);
    assert y2.left.right == z.left && y2.left.left == y.left;
    assert Height(y2.left) == h + 1;
  }

  /**
   * rebalanceNode on a node whose children are AVL trees and whose heights
   * differ by at most two returns an AVL tree. A node already in [-1, 1] is
   * left in place with its balance recomputed. After a rotation the subtree is
   * as high as before when the heavy child was level (possible only after a
   * removal), and one lower otherwise; the old node sits below the new root on
   * the side it was light on.
   */
  lemma {:induction false} RebalanceRestores<V>(t: Tree<V>)
    requires t.Node? && AvlCorrect(t.left) && AvlCorrect(t.right)
    requires -2 <= FindBalance(t) <= 2
    ensures CanRebalance(t)
    ensures AvlCorrect(Rebalance(t))
    ensures -1 <= FindBalance(t) <= 1 ==> Rebalance(t) == WithTrueBalance(t)
    ensures FindBalance(t) == 2 ==> Rebalance(t).left.Node? && Rebalance(t).left.id == t.id
    ensures FindBalance(t) == -2 ==> Rebalance(t).right.Node? && Rebalance(t).right.id == t.id
    ensures FindBalance(t) == 2 && t.right.bal == 0 ==>
      Height(Rebalance(t)) == Height(t) && Rebalance(t).bal == -1
    ensures FindBalance(t) == -2 && t.left.bal == 0 ==>
      Height(Rebalance(t)) == Height(t) && Rebalance(t).bal == 1
    ensures FindBalance(t) == 2 && t.right.bal != 0 ==>
      Height(Rebalance(t)) == Height(t) - 1 && Rebalance(t).bal == 0
    ensures FindBalance(t) == -2 && t.left.bal != 0 ==>
      Height(Rebalance(t)) == Height(t) - 1 && Rebalance(t).bal == 0
  {
    if FindBalance(t) == 2 {
      RightHeavy(t);
    } else if FindBalance(t) == -2 {
      LeftHeavy(t);
    }
  }

  /** The right-heavy case of RebalanceRestores: a single or a double rotation to the left. */
  lemma RightHeavy<V>(t: Tree<V>)
    requires t.Node? && AvlCorrect(t.left) && AvlCorrect(t.right) && FindBalance(t) == 2
    ensures CanRebalance(t) && AvlCorrect(Rebalance(t))
    ensures Rebalance(t).left.Node? && Rebalance(t).left.id == t.id
    ensures t.right.bal == 0 ==> Height(Rebalance(t)) == Height(t) && Rebalance(t).bal == -1
    ensures t.right.bal != 0 ==> Height(Rebalance(t)) == Height(t) - 1 && Rebalance(t).bal == 0
  {
    var n := WithTrueBalance(t);
    if n.right.bal < 0 {
      DoubleRightLeft(n);
    } else {
      SingleLeft(n);
    }
  }

  /** The left-heavy case of RebalanceRestores: a single or a double rotation to the right. */
  lemma LeftHeavy<V>(t: Tree<V>)
    requires t.Node? && AvlCorrect(t.left) && AvlCorrect(t.right) && FindBalance(t) == -2
    ensures CanRebalance(t) && AvlCorrect(Rebalance(t))
    ensures Rebalance(t).right.Node? && Rebalance(t).right.id == t.id
    ensures t.left.bal == 0 ==> Height(Rebalance(t)) == Height(t) && Rebalance(t).bal == 1
    ensures t.left.bal != 0 ==> Height(Rebalance(t)) == Height(t) - 1 && Rebalance(t).bal == 0
  {
    var n := WithTrueBalance(t);
    if n.left.bal > 0 {
      DoubleLeftRight(n);
    } else {
      SingleRight(n);
    }
  }

  /** An AVL-correct node is left exactly as it is. */
  lemma RebalanceCorrectNode<V>(t: Tree<V>)
    requires t.Node? && AvlCorrect(t)
    ensures CanRebalance(t) && Rebalance(t) == t
  {
  }
}
