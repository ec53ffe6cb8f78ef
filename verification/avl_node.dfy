/**
 The node of the AVL tree and the three invariants the tree is meant to keep.

 A node holds an integer key, two owned children and a CACHED height. The
 cached height is only ever refreshed by `UpdateHeight`; nothing walks a
 subtree to recompute it. The invariants are therefore stated separately:
 `Bst` (search order), `HeightsOk` (every cached height is fresh) and
 `Balanced` (every cached balance factor lies in [-1, 1]).
 */
module AvlNode {

  /** An absent subtree (`null` in the source) or a node with its cached height. */
  datatype Tree = Nil | Node(left: Tree, value: int, right: Tree, height: nat)

  /** A freshly created node: no children and a cached height of 1. */
  function Leaf(value: int): (r: Tree)
    ensures r.Node? && r.left == Nil && r.right == Nil && r.value == value
    ensures HeightsOk(r) && TrueHeight(r) == 1
  {
    Node(Nil, value, Nil, 1)
  }

  function Max(a: int, b: int): int {
    if a < b then b else a
  }

  /** The height the source reads: 0 for an absent node, otherwise the cached field. */
  function GetHeight(t: Tree): nat {
    match t
    case Nil => 0
    case Node(_, _, _, h) => h
  }

  /** Refresh a node's cached height from its children's cached heights. */
  function UpdateHeight(t: Tree): (r: Tree)
    requires t.Node?
    ensures r.Node? && r.left == t.left && r.value == t.value && r.right == t.right
    ensures GetHeight(r) >= 1
    ensures HeightsOk(t.left) && HeightsOk(t.right) ==> HeightsOk(r)
    ensures HeightsOk(t) ==> r == t
  {
    t.(height := 1 + Max(GetHeight(t.left), GetHeight(t.right)))
  }

  /** Left cached height minus right cached height; 0 for an absent node. */
  function BalanceFactor(t: Tree): int {
    match t
    case Nil => 0
    case Node(l, _, r, _) => GetHeight(l) - GetHeight(r)
  }

  /** The height obtained by walking the subtree, independent of any cache. */
  function TrueHeight(t: Tree): nat {
    match t
    case Nil => 0
    case Node(l, _, r, _) => 1 + Max(TrueHeight(l), TrueHeight(r))
  }

  /** Number of nodes. */
  function Size(t: Tree): nat {
    match t
    case Nil => 0
    case Node(l, _, r, _) => Size(l) + 1 + Size(r)
  }

  /** The set of keys stored in the tree. */
  function Keys(t: Tree): set<int> {
    match t
    case Nil => {}
    case Node(l, v, r, _) => Keys(l) + {v} + Keys(r)
  }

  /** The keys in in-order (left, node, right) traversal order. */
  function InOrder(t: Tree): seq<int> {
    match t
    case Nil => []
    case Node(l, v, r, _) => InOrder(l) + [v] + InOrder(r)
  }

  predicate Ascending(s: seq<int>) {
    forall i, j :: 0 <= i < j < |s| ==> s[i] < s[j]
  }

  /** Search order: every key on the left is smaller, every key on the right larger. */
  predicate Bst(t: Tree) {
    match t
    case Nil => true
    case Node(l, v, r, _) =>
      && Bst(l) && Bst(r)
      && (forall k :: k in Keys(l) ==> k < v)
      && (forall k :: k in Keys(r) ==> v < k)
  }

  /** Every cached height equals 1 + the larger cached height of the children. */
  predicate HeightsOk(t: Tree) {
    match t
    case Nil => true
    case Node(l, _, r, h) =>
      && h == 1 + Max(GetHeight(l), GetHeight(r))
      && HeightsOk(l) && HeightsOk(r)
  }

  /** Every node's balance factor lies in [-1, 1]. */
  predicate Balanced(t: Tree) {
    match t
    case Nil => true
    case Node(l, _, r, _) =>
      && -1 <= BalanceFactor(t) <= 1
      && Balanced(l) && Balanced(r)
  }

  /** The three invariants together: a valid AVL tree. */
  predicate Avl(t: Tree) {
    Bst(t) && HeightsOk(t) && Balanced(t)
  }

  /** When heights are fresh, the cached height is the walked height. */
  lemma {:induction false} CachedHeightIsTrue(t: Tree)
    requires HeightsOk(t)
    ensures GetHeight(t) == TrueHeight(t)
  {
    match t
    case Nil =>
    case Node(l, _, r, _) =>
      CachedHeightIsTrue(l);
      CachedHeightIsTrue(r);
  }

  /**
   On a valid AVL tree every node's displayed balance factor is the difference
   of the walked heights of its children, and lies in [-1, 1].
   */
  lemma {:induction false} AvlFactorIsTrueFactor(t: Tree)
    requires Avl(t) && t.Node?
    ensures BalanceFactor(t) == TrueHeight(t.left) - TrueHeight(t.right)
    ensures -1 <= TrueHeight(t.left) - TrueHeight(t.right) <= 1
  {
    CachedHeightIsTrue(t.left);
    CachedHeightIsTrue(t.right);
  }

  /** The key set is the set of elements of the in-order sequence. */
  lemma {:induction false} KeysAreInOrderElements(t: Tree)
    ensures forall k :: k in Keys(t) <==> k in InOrder(t)
  {
    match t
    case Nil =>
    case Node(l, _, r, _) =>
      KeysAreInOrderElements(l);
      KeysAreInOrderElements(r);
  }

  /** Search order holds exactly when the in-order traversal is strictly ascending. */
  lemma {:induction false} BstIffAscending(t: Tree)
    ensures Bst(t) <==> Ascending(InOrder(t))
  {
    match t
    case Nil =>
    case Node(l, v, r, _) =>
      BstIffAscending(l);
      BstIffAscending(r);
      KeysAreInOrderElements(l);
      KeysAreInOrderElements(r);
      AscendingJoin(InOrder(l), v, InOrder(r));
  }

  /** `a + [v] + b` is ascending iff both parts are and `v` separates them. */
  lemma AscendingJoin(a: seq<int>, v: int, b: seq<int>)
    ensures Ascending(a + [v] + b) <==>
      && Ascending(a) && Ascending(b)
      && (forall k :: k in a ==> k < v)
      && (forall k :: k in b ==> v < k)
  {
    if Ascending(a + [v] + b) {
      AscendingSplit(a, v, b);
    }
    if && Ascending(a) && Ascending(b)
       && (forall k :: k in a ==> k < v)
       && (forall k :: k in b ==> v < k)
    {
      AscendingConcat(a, v, b);
    }
  }

  lemma AscendingSplit(a: seq<int>, v: int, b: seq<int>)
    requires Ascending(a + [v] + b)
    ensures Ascending(a) && Ascending(b)
    ensures forall k :: k in a ==> k < v
    ensures forall k :: k in b ==> v < k
  {
    var s := a + [v] + b;
    assert forall i :: 0 <= i < |a| ==> s[i] == a[i];
    assert s[|a|] == v;
    assert forall i :: 0 <= i < |b| ==> s[|a| + 1 + i] == b[i];
    forall k | k in a ensures k < v {
      var i :| 0 <= i < |a| && a[i] == k;
      assert s[i] < s[|a|];
    }
    forall k | k in b ensures v < k {
      var i :| 0 <= i < |b| && b[i] == k;
      assert s[|a|] < s[|a| + 1 + i];
    }
    forall i, j | 0 <= i < j < |b| ensures b[i] < b[j] {
      assert s[|a| + 1 + i] < s[|a| + 1 + j];
    }
  }

  lemma AscendingConcat(a: seq<int>, v: int, b: seq<int>)
    requires Ascending(a) && Ascending(b)
    requires forall k :: k in a ==> k < v
    requires forall k :: k in b ==> v < k
    ensures Ascending(a + [v] + b)
  {
    var s := a + [v] + b;
    forall i, j | 0 <= i < j < |s| ensures s[i] < s[j] {
      if j < |a| {
        assert s[i] == a[i] && s[j] == a[j];
      } else if j == |a| {
        assert s[i] == a[i] && a[i] in a;
      } else if i < |a| {
        assert s[i] == a[i] && a[i] in a;
        assert s[j] == b[j - |a| - 1] && b[j - |a| - 1] in b;
      } else if i == |a| {
        assert s[j] == b[j - |a| - 1] && b[j - |a| - 1] in b;
      } else {
        assert s[i] == b[i - |a| - 1];
        assert s[j] == b[j - |a| - 1];
      }
    }
  }
}
