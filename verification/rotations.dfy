/**
 The two single rotations. Each relinks three subtrees around two nodes and
 then refreshes the cached heights of the two moved nodes, the one that
 becomes a child first and the new subtree root second. The three subtrees
 that are carried along keep their cached heights untouched.
 */
module Rotations {
  import opened AvlNode

  /**
   Right rotation at `y`: its left child `x` becomes the subtree root, `x`'s
   former right subtree becomes `y`'s left subtree and `y` becomes `x`'s right
   child. The source dereferences `y.left`, so it must exist.
   */
  function RotateRight(y: Tree): (r: Tree)
    requires y.Node? && y.left.Node?
    ensures r.Node? && r.right.Node?
    ensures r.value == y.left.value && r.left == y.left.left
    ensures r.right.value == y.value && r.right.left == y.left.right && r.right.right == y.right
    ensures InOrder(r) == InOrder(y) && Keys(r) == Keys(y) && Size(r) == Size(y)
    ensures Bst(r) <==> Bst(y)
    ensures HeightsOk(y.left.left) && HeightsOk(y.left.right) && HeightsOk(y.right) ==> HeightsOk(r)
  {
    var x := y.left;
    var y' := UpdateHeight(y.(left := x.right));
    var r := UpdateHeight(x.(right := y'));
    BstIffAscending(y);
    BstIffAscending(r);
    r
  }

  /**
   Left rotation at `x`, the mirror image: its right child `y` becomes the
   subtree root and `x` becomes `y`'s left child.
   */
  function RotateLeft(x: Tree): (r: Tree)
    requires x.Node? && x.right.Node?
    ensures r.Node? && r.left.Node?
    ensures r.value == x.right.value && r.right == x.right.right
    ensures r.left.value == x.value && r.left.left == x.left && r.left.right == x.right.left
    ensures InOrder(r) == InOrder(x) && Keys(r) == Keys(x) && Size(r) == Size(x)
    ensures Bst(r) <==> Bst(x)
    ensures HeightsOk(x.left) && HeightsOk(x.right.left) && HeightsOk(x.right.right) ==> HeightsOk(r)
  {
    var y := x.right;
    var x' := UpdateHeight(x.(right := y.left));
    var r := UpdateHeight(y.(left := x'));
    BstIffAscending(x);
    BstIffAscending(r);
    r
  }
}
