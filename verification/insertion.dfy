/**
 Recursive insertion: descend by comparison, create a leaf at the empty
 position, ignore a key that is already present, and on the way back up
 refresh each node's cached height and rebalance it.
 */
module Insertion {
  import opened AvlNode
  import opened Rebalance

  /**
   Insert `value` into the subtree `t` and return the new subtree root. The
   key set always gains exactly `value`, whatever shape `t` has.
   */
  function Insert(t: Tree, value: int): (r: Tree)
    ensures r.Node?
    ensures Keys(r) == Keys(t) + {value}
    ensures t == Nil ==> r == Leaf(value)
  {
    match t
    case Nil => Leaf(value)
    case Node(l, v, rt, _) =>
      if value < v then
        Balance(UpdateHeight(t.(left := Insert(l, value))))
      else if value > v then
        Balance(UpdateHeight(t.(right := Insert(rt, value))))
      else
        t
  }

  /**
   On a valid AVL tree, insertion yields a valid AVL tree whose height is the
   old height or one more.
   */
  lemma {:induction false} InsertKeepsAvl(t: Tree, value: int)
    requires Avl(t)
    ensures Avl(Insert(t, value))
    ensures GetHeight(t) <= GetHeight(Insert(t, value)) <= GetHeight(t) + 1
  {
    match t
    case Nil =>
    case Node(l, v, rt, _) =>
      if value < v {
        InsertKeepsAvl(l, value);
        InsertLeftStep(t, value);
      } else if value > v {
        InsertKeepsAvl(rt, value);
        InsertRightStep(t, value);
      }
  }

  /**
   One step back up the insertion path on the left: the left subtree has
   become a valid AVL tree at most one level taller; refreshing the height and
   rebalancing gives a valid AVL tree at most one level taller than `t`.
   */
  lemma InsertLeftStep(t: Tree, value: int)
    requires Avl(t) && t.Node? && value < t.value
    requires Avl(Insert(t.left, value))
    requires GetHeight(t.left) <= GetHeight(Insert(t.left, value)) <= GetHeight(t.left) + 1
    ensures Avl(Insert(t, value))
    ensures GetHeight(t) <= GetHeight(Insert(t, value)) <= GetHeight(t) + 1
  {
    var l' := Insert(t.left, value);
    var n := Node(l', t.value, t.right, 1 + Max(GetHeight(l'), GetHeight(t.right)));
    assert Insert(t, value) == Balance(n);
    assert Bst(n) by {
      assert forall k :: k in Keys(l') ==> k < t.value;
    }
    assert NearlyAvl(n);
    BalanceRestoresAvl(n);
    if BalanceFactor(n) > 1 {
      assert GetHeight(t.left) == GetHeight(t.right) + 1;
    }
  }

  /** The mirror image of `InsertLeftStep`. */
  lemma InsertRightStep(t: Tree, value: int)
    requires Avl(t) && t.Node? && value > t.value
    requires Avl(Insert(t.right, value))
    requires GetHeight(t.right) <= GetHeight(Insert(t.right, value)) <= GetHeight(t.right) + 1
    ensures Avl(Insert(t, value))
    ensures GetHeight(t) <= GetHeight(Insert(t, value)) <= GetHeight(t) + 1
  {
    var r' := Insert(t.right, value);
    var n := Node(t.left, t.value, r', 1 + Max(GetHeight(t.left), GetHeight(r')));
    assert Insert(t, value) == Balance(n);
    assert Bst(n) by {
      assert forall k :: k in Keys(r') ==> t.value < k;
    }
    assert NearlyAvl(n);
    BalanceRestoresAvl(n);
    if BalanceFactor(n) < -1 {
      assert GetHeight(t.right) == GetHeight(t.left) + 1;
    }
  }

  /**
   Inserting a key that is already present into a valid AVL tree returns the
   very same tree: same shape, same keys, same cached heights.
   */
  lemma {:induction false} InsertPresentIsIdentity(t: Tree, value: int)
    requires Avl(t) && value in Keys(t)
    ensures Insert(t, value) == t
  {
    match t
    case Nil =>
    case Node(l, v, rt, _) =>
      if value < v {
        InsertPresentIsIdentity(l, value);
      } else if value > v {
        InsertPresentIsIdentity(rt, value);
      }
  }

  /** Inserting an absent key creates exactly one node. */
  lemma {:induction false} InsertAbsentAddsOneNode(t: Tree, value: int)
    requires value !in Keys(t)
    ensures Size(Insert(t, value)) == Size(t) + 1
  {
    match t
    case Nil =>
    case Node(l, v, rt, _) =>
      if value < v {
        InsertAbsentAddsOneNode(l, value);
      } else {
        InsertAbsentAddsOneNode(rt, value);
      }
  }

  /** Node count after insertion into a valid AVL tree: +1 for a new key, +0 for a duplicate. */
  lemma InsertSize(t: Tree, value: int)
    requires Avl(t)
    ensures Size(Insert(t, value)) == Size(t) + (if value in Keys(t) then 0 else 1)
  {
    if value in Keys(t) {
      InsertPresentIsIdentity(t, value);
    } else {
      InsertAbsentAddsOneNode(t, value);
    }
  }

  /** Insert the keys of `values` one after another, first to last. */
  function InsertAll(t: Tree, values: seq<int>): (r: Tree)
    ensures Keys(r) == Keys(t) + set k | k in values
    decreases |values|
  {
    if values == [] then t
    else
      assert values == [values[0]] + values[1..];
      InsertAll(Insert(t, values[0]), values[1..])
  }

  /** Any sequence of insertions into a valid AVL tree (e.g. the empty one) keeps it valid. */
  lemma {:induction false} InsertAllKeepsAvl(t: Tree, values: seq<int>)
    requires Avl(t)
    ensures Avl(InsertAll(t, values))
    decreases |values|
  {
    if values != [] {
      InsertKeepsAvl(t, values[0]);
      InsertAllKeepsAvl(Insert(t, values[0]), values[1..]);
    }
  }

  /**
   Inserting three ascending keys (10, 20, 30, say) takes the single left
   rotation of the right-right case: the middle key ends at the root.
   */
  lemma AscendingInsertsRotateLeft(a: int, b: int, c: int)
    requires a < b < c
    ensures InsertAll(Nil, [a, b, c]) == Node(Leaf(a), b, Leaf(c), 2)
  {
    var t1 := Insert(Nil, a);
    var t2 := Insert(t1, b);
    assert t2 == Node(Nil, a, Leaf(b), 2);
    var t3 := Insert(t2, c);
    assert Insert(Leaf(b), c) == Node(Nil, b, Leaf(c), 2);
    assert t3 == Node(Leaf(a), b, Leaf(c), 2);
    assert [a, b, c][1..] == [b, c];
    assert [b, c][1..] == [c];
    assert InsertAll(Nil, [a, b, c]) == InsertAll(t1, [b, c]);
    assert InsertAll(t1, [b, c]) == InsertAll(t2, [c]);
    assert InsertAll(t2, [c]) == InsertAll(t3, []);
  }

  /**
   Inserting the largest, then the smallest, then the middle key (30, 10, 20,
   say) takes the left-right double rotation and reaches the same shape.
   */
  lemma ZigZagInsertsRotateTwice(a: int, b: int, c: int)
    requires a < b < c
    ensures InsertAll(Nil, [c, a, b]) == Node(Leaf(a), b, Leaf(c), 2)
  {
    var t1 := Insert(Nil, c);
    var t2 := Insert(t1, a);
    assert t2 == Node(Leaf(a), c, Nil, 2);
    var t3 := Insert(t2, b);
    assert Insert(Leaf(a), b) == Node(Nil, a, Leaf(b), 2);
    assert t3 == Node(Leaf(a), b, Leaf(c), 2);
    assert [c, a, b][1..] == [a, b];
    assert [a, b][1..] == [b];
    assert InsertAll(Nil, [c, a, b]) == InsertAll(t1, [a, b]);
    assert InsertAll(t1, [a, b]) == InsertAll(t2, [b]);
    assert InsertAll(t2, [b]) == InsertAll(t3, []);
  }
}
