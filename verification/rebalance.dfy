/**
 The rebalancing step applied to every node on the way back up from an
 insertion. The four rotation cases are tried in a fixed order and the first
 that matches wins; a child whose own factor is 0 is handled by the SINGLE
 rotation (`>= 0` on the left, `<= 0` on the right).
 */
module Rebalance {
  import opened AvlNode
  import opened Rotations

  /**
   Rebalance the subtree rooted at `t`. An absent node has factor 0 and is
   returned as is. When the factor exceeds 1 the left child exists (its cached
   height is at least 2), and in the left-right case so does its right child;
   symmetrically on the right.
   */
  function Balance(t: Tree): (r: Tree)
    ensures InOrder(r) == InOrder(t) && Keys(r) == Keys(t) && Size(r) == Size(t)
    ensures -1 <= BalanceFactor(t) <= 1 ==> r == t
    // left-left: the left child rises to the root and keeps its left subtree
    ensures BalanceFactor(t) > 1 && BalanceFactor(t.left) >= 0 ==>
      r.Node? && r.value == t.left.value && r.left == t.left.left
    // left-right: the left child's right child rises to the root
    ensures BalanceFactor(t) > 1 && BalanceFactor(t.left) < 0 ==>
      r.Node? && r.value == t.left.right.value
    // right-right: the right child rises to the root and keeps its right subtree
    ensures BalanceFactor(t) < -1 && BalanceFactor(t.right) <= 0 ==>
      r.Node? && r.value == t.right.value && r.right == t.right.right
    // right-left: the right child's left child rises to the root
    ensures BalanceFactor(t) < -1 && BalanceFactor(t.right) > 0 ==>
      r.Node? && r.value == t.right.left.value
  {
    var factor := BalanceFactor(t);
    if factor > 1 && BalanceFactor(t.left) >= 0 then
      RotateRight(t)
    else if factor > 1 && BalanceFactor(t.left) < 0 then
      RotateRight(t.(left := RotateLeft(t.left)))
    else if factor < -1 && BalanceFactor(t.right) <= 0 then
      RotateLeft(t)
    else if factor < -1 && BalanceFactor(t.right) > 0 then
      RotateLeft(t.(right := RotateRight(t.right)))
    else
      t
  }

  /**
   The situation `Balance` is called in: both subtrees are valid AVL trees,
   the node's own cached height is fresh and its factor is off by at most one
   step, i.e. within [-2, 2].
   */
  predicate NearlyAvl(t: Tree) {
    && t.Node?
    && Bst(t)
    && Avl(t.left) && Avl(t.right)
    && t.height == 1 + Max(GetHeight(t.left), GetHeight(t.right))
    && -2 <= BalanceFactor(t) <= 2
  }

  /**
   From a nearly-AVL node, `Balance` yields a valid AVL tree with the same
   in-order keys, whose height is the node's height or one less.
   */
  lemma BalanceRestoresAvl(t: Tree)
    requires NearlyAvl(t)
    ensures Avl(Balance(t))
    ensures GetHeight(t) - 1 <= GetHeight(Balance(t)) <= GetHeight(t)
  {
    BstIffAscending(t);
    BstIffAscending(Balance(t));
    if BalanceFactor(t) > 1 && BalanceFactor(t.left) >= 0 {
      LeftLeft(t);
    } else if BalanceFactor(t) > 1 {
      LeftRight(t);
    } else if BalanceFactor(t) < -1 && BalanceFactor(t.right) <= 0 {
      RightRight(t);
    } else if BalanceFactor(t) < -1 {
      RightLeft(t);
    }
  }

  /** Left-left case: the single right rotation. */
  lemma LeftLeft(t: Tree)
    requires NearlyAvl(t) && BalanceFactor(t) > 1 && BalanceFactor(t.left) >= 0
    ensures HeightsOk(Balance(t)) && Balanced(Balance(t))
    ensures GetHeight(t) - 1 <= GetHeight(Balance(t)) <= GetHeight(t)
  {
  }

  /** Left-right case: rotate the left child left, then the node right. */
  lemma LeftRight(t: Tree)
    requires NearlyAvl(t) && BalanceFactor(t) > 1 && BalanceFactor(t.left) < 0
    ensures HeightsOk(Balance(t)) && Balanced(Balance(t))
    ensures GetHeight(t) - 1 <= GetHeight(Balance(t)) <= GetHeight(t)
  {
    var Node(x, yv, c, _) := t;
    var Node(a, xv, z, _) := x;
    var Node(b1, zv, b2, _) := z;
    assert HeightsOk(z) && Balanced(z);
    assert HeightsOk(b1) && HeightsOk(b2) && Balanced(b1) && Balanced(b2);
    var x' := Node(a, xv, b1, 1 + Max(GetHeight(a), GetHeight(b1)));
    var y' := Node(b2, yv, c, 1 + Max(GetHeight(b2), GetHeight(c)));
    assert Balance(t) == Node(x', zv, y', 1 + Max(GetHeight(x'), GetHeight(y')));
  }

  /** Right-right case: the single left rotation. */
  lemma RightRight(t: Tree)
    requires NearlyAvl(t) && BalanceFactor(t) < -1 && BalanceFactor(t.right) <= 0
    ensures HeightsOk(Balance(t)) && Balanced(Balance(t))
    ensures GetHeight(t) - 1 <= GetHeight(Balance(t)) <= GetHeight(t)
  {
  }

  /** Right-left case: rotate the right child right, then the node left. */
  lemma RightLeft(t: Tree)
    requires NearlyAvl(t) && BalanceFactor(t) < -1 && BalanceFactor(t.right) > 0
    ensures HeightsOk(Balance(t)) && Balanced(Balance(t))
    ensures GetHeight(t) - 1 <= GetHeight(Balance(t)) <= GetHeight(t)
  {
    var Node(a, xv, y, _) := t;
    var Node(z, yv, c, _) := y;
    var Node(b1, zv, b2, _) := z;
    assert HeightsOk(z) && Balanced(z);
    assert HeightsOk(b1) && HeightsOk(b2) && Balanced(b1) && Balanced(b2);
    var x' := Node(a, xv, b1, 1 + Max(GetHeight(a), GetHeight(b1)));
    var y' := Node(b2, yv, c, 1 + Max(GetHeight(b2), GetHeight(c)));
    assert Balance(t) == Node(x', zv, y', 1 + Max(GetHeight(x'), GetHeight(y')));
  }

  /**
   Why the left-left test is `>= 0` and not `> 0`. When the node's factor is
   2 and its left child is perfectly balanced (factor 0, a shape insertion
   never produces but the `>= 0` condition admits), `Balance` takes the
   single right rotation and yields a valid AVL tree, whereas the left-right double
   rotation leaves the old left child with a factor of 2 whenever the left
   child's right subtree leans right. (Keys 1..7 arranged as 6 over 3 and 7,
   3 over 2 and 4, 2 over 1, 4 over 5 form such a node.)
   */
  lemma EvenLeftChildNeedsSingleRotation(t: Tree)
    requires NearlyAvl(t) && BalanceFactor(t) == 2 && BalanceFactor(t.left) == 0
    requires BalanceFactor(t.left.right) == -1
    ensures Avl(Balance(t))
    ensures !Balanced(RotateRight(t.(left := RotateLeft(t.left))))
  {
  }
}
