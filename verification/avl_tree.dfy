/**
 The tree object and its two public entry points, `add` and `clear`.

 `Add` is modelled as written, including its shortcut for a key below the
 current root: instead of inserting, it makes a new root holding the key,
 hangs the whole old tree as that root's LEFT child and leaves the root's
 cached height at 1. The lemmas below show that this breaks search order
 (and the height and balance invariants), and `AddCorrected` states what
 inserting at the root would give instead.
 */
module AvlTree {
  import opened AvlNode
  import opened Insertion

  /** The state of the tree object: one owned root reference, `Nil` when the tree is empty. */
  datatype TreeState = TreeState(root: Tree)

  /** A newly constructed tree. */
  function Empty(): (r: TreeState)
    ensures Keys(r.root) == {} && Size(r.root) == 0 && Avl(r.root)
  {
    TreeState(Nil)
  }

  /** Drop the root; the tree is empty again and a later `Add` starts afresh. */
  function Clear(s: TreeState): (r: TreeState)
    ensures InOrder(r.root) == [] && Size(r.root) == 0 && Avl(r.root)
    ensures forall value :: Add(r, value).root == Leaf(value)
  {
    TreeState(Nil)
  }

  /**
   The public insertion as written. Whatever branch is taken, the key set
   gains exactly `value`; only the branch for a non-empty tree whose root is
   at most `value` goes through the balancing `Insert`.
   */
  function Add(s: TreeState, value: int): (r: TreeState)
    ensures r.root.Node?
    ensures Keys(r.root) == Keys(s.root) + {value}
  {
    if s.root.Nil? || value < s.root.value then
      TreeState(Node(s.root, value, Nil, 1))
    else
      TreeState(Insert(s.root, value))
  }

  /** `Add` applied to the keys of `values`, first to last. */
  function AddAll(s: TreeState, values: seq<int>): (r: TreeState)
    ensures Keys(r.root) == Keys(s.root) + set k | k in values
    decreases |values|
  {
    if values == [] then s
    else
      assert values == [values[0]] + values[1..];
      AddAll(Add(s, values[0]), values[1..])
  }

  /** On an empty tree, or for a key not below the root, `Add` is `Insert` at the root. */
  lemma AddAgreesWithInsert(s: TreeState, value: int)
    requires s.root.Nil? || value >= s.root.value
    ensures Add(s, value).root == Insert(s.root, value)
    ensures s.root.Nil? ==> Add(s, value).root == Leaf(value)
  {
  }

  /** In those cases `Add` therefore keeps a valid AVL tree valid. */
  lemma AddNotBelowRootKeepsAvl(s: TreeState, value: int)
    requires Avl(s.root)
    requires s.root.Nil? || value >= s.root.value
    ensures Avl(Add(s, value).root)
  {
    InsertKeepsAvl(s.root, value);
  }

  /**
   A key below the root of a non-empty tree becomes the new root with the
   old tree on its left and cached height 1: the old root's key, which is
   larger, now sits in the left subtree, so search order is broken. A node
   is created even when `value` is already present deeper in the tree.
   */
  lemma AddBelowRootBreaksOrder(s: TreeState, value: int)
    requires s.root.Node? && value < s.root.value
    ensures Add(s, value).root == Node(s.root, value, Nil, 1)
    ensures !Bst(Add(s, value).root)
    ensures Size(Add(s, value).root) == Size(s.root) + 1
  {
  }

  /**
   With fresh heights beforehand, the new root's cached height 1 is stale;
   once the old tree is at least two levels tall the new root is also out of
   balance.
   */
  lemma AddBelowRootBreaksHeights(s: TreeState, value: int)
    requires HeightsOk(s.root) && s.root.Node? && value < s.root.value
    ensures !HeightsOk(Add(s, value).root)
    ensures GetHeight(s.root) >= 2 ==> !Balanced(Add(s, value).root)
  {
  }

  /** Adding a larger key and then a smaller one (10, then 5) leaves the larger on the left. */
  lemma AddSmallerAfterLarger(a: int, b: int)
    requires b < a
    ensures Add(Add(Empty(), a), b).root == Node(Leaf(a), b, Nil, 1)
    ensures !Bst(Add(Add(Empty(), a), b).root)
  {
  }

  /**
   Adding the largest, the smallest, then the middle key (30, 10, 20) through
   `Add` gives the smallest at the root with the largest on its left and the
   middle on its right, while inserting the same keys gives the middle key
   over the other two.
   */
  lemma AddZigZagDiffersFromInsert(a: int, b: int, c: int)
    requires a < b < c
    ensures AddAll(Empty(), [c, a, b]).root == Node(Leaf(c), a, Leaf(b), 2)
    ensures !Bst(AddAll(Empty(), [c, a, b]).root)
    ensures InsertAll(Nil, [c, a, b]) == Node(Leaf(a), b, Leaf(c), 2)
  {
    var s1 := Add(Empty(), c);
    assert s1.root == Leaf(c);
    var s2 := Add(s1, a);
    assert s2.root == Node(Leaf(c), a, Nil, 1);
    var s3 := Add(s2, b);
    assert s3.root == Insert(s2.root, b);
    assert s3.root == Node(Leaf(c), a, Leaf(b), 2);
    assert [c, a, b][1..] == [a, b];
    assert [a, b][1..] == [b];
    assert AddAll(Empty(), [c, a, b]) == AddAll(s1, [a, b]);
    assert AddAll(s1, [a, b]) == AddAll(s2, [b]);
    assert AddAll(s2, [b]) == AddAll(s3, []);
    assert c in Keys(s3.root.left);
    ZigZagInsertsRotateTwice(a, b, c);
  }

  /**
   The evidently intended public insertion: always insert at the root. It
   keeps every valid AVL tree valid and gains exactly the new key.
   */
  function AddCorrected(s: TreeState, value: int): (r: TreeState)
    ensures r.root.Node?
    ensures Keys(r.root) == Keys(s.root) + {value}
  {
    TreeState(Insert(s.root, value))
  }

  /** `AddCorrected` keeps a valid AVL tree valid, adds at most one level and one node. */
  lemma AddCorrectedKeepsAvl(s: TreeState, value: int)
    requires Avl(s.root)
    ensures Avl(AddCorrected(s, value).root)
    ensures GetHeight(s.root) <= GetHeight(AddCorrected(s, value).root) <= GetHeight(s.root) + 1
    ensures Size(AddCorrected(s, value).root) == Size(s.root) + (if value in Keys(s.root) then 0 else 1)
  {
    InsertKeepsAvl(s.root, value);
    InsertSize(s.root, value);
  }

  /** After `Clear`, inserting any keys one by one builds a valid AVL tree of exactly those keys. */
  lemma ClearThenInsertAll(s: TreeState, values: seq<int>)
    ensures Avl(InsertAll(Clear(s).root, values))
    ensures Keys(InsertAll(Clear(s).root, values)) == set k | k in values
  {
    InsertAllKeepsAvl(Nil, values);
  }
}
