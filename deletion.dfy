/**
 * `deleteNode` (AVL.cpp:192-309): recursive binary-search deletion with
 * the leaf, splice and two-children cases, followed by the same
 * rebalancing tail as insertion.
 */
module Deletion {
  import opened Nodes
  import opened Invariants
  import opened Rotations

  /** The key of the rightmost node of a non-empty subtree: the in-order
      predecessor a two-children deletion copies up. */
  function Rightmost(t: Tree): (k: int)
    requires t.Node?
    ensures k in Keys(t)
    ensures Ordered(t) ==> forall y :: y in Keys(t) ==> y <= k
    decreases t
  {
    if t.right.Empty? then t.data else Rightmost(t.right)
  }

  /** The walk of AVL.cpp:225-229: follow right children from the root of
      the left subtree until there is none. */
  method RightmostKey(t: Tree) returns (k: int)
    requires t.Node?
    ensures k == Rightmost(t)
  {
    var temp := t;
    while temp.right.Node?
      invariant temp.Node? && Rightmost(temp) == Rightmost(t)
      decreases temp
    {
      temp := temp.right;
    }
    k := temp.data;
  }

  /** Deletes `x` from the slot holding `t`. A missing key leaves every node
      as it was and reports failure. With two children, the node takes the
      key of its in-order predecessor and that key is deleted from the left
      subtree (whose own result is ignored, as in the source). */
  function Delete(t: Tree, x: int): (u: Update)
    ensures !u.success ==> u.tree == t
    ensures u.success ==> x in Keys(t)
    ensures Keys(u.tree) <= Keys(t)
    ensures HeightsOk(t) ==> HeightsOk(u.tree)
    decreases t
  {
    match t
    case Empty => Update(Empty, false)
    case Node(d, h, l, r) =>
      if x < d then
        var sub := Delete(l, x);
        if !sub.success then Update(Node(d, h, sub.tree, r), false)
        else Update(Rebalance(Node(d, h, sub.tree, r)), true)
      else if x > d then
        var sub := Delete(r, x);
        if !sub.success then Update(Node(d, h, l, sub.tree), false)
        else Update(Rebalance(Node(d, h, l, sub.tree)), true)
      else if l.Empty? && r.Node? then
        assert HeightsOk(r) ==> HeightsOk(r.left) && HeightsOk(r.right);
        Update(Rebalance(r), true)
      else if r.Empty? && l.Node? then
        assert HeightsOk(l) ==> HeightsOk(l.left) && HeightsOk(l.right);
        Update(Rebalance(l), true)
      else if r.Node? && l.Node? then
        var m := Rightmost(l);
        var sub := Delete(l, m);
        Update(Rebalance(Node(m, h, sub.tree, r)), true)
      else
        Update(Empty, true)
  }

  /** `deleteNode` as the source runs it, with the predecessor found by the
      loop of `RightmostKey`. */
  method DeleteNode(t: Tree, x: int) returns (u: Update)
    ensures u == Delete(t, x)
    decreases t
  {
    match t
    case Empty =>
      u := Update(Empty, false);
    case Node(d, h, l, r) =>
      if x < d {
        var sub := DeleteNode(l, x);
        if !sub.success {
          u := Update(Node(d, h, sub.tree, r), false);
        } else {
          u := Update(Rebalance(Node(d, h, sub.tree, r)), true);
        }
      } else if x > d {
        var sub := DeleteNode(r, x);
        if !sub.success {
          u := Update(Node(d, h, l, sub.tree), false);
        } else {
          u := Update(Rebalance(Node(d, h, l, sub.tree)), true);
        }
      } else if l.Empty? && r.Node? {
        u := Update(Rebalance(r), true);
      } else if r.Empty? && l.Node? {
        u := Update(Rebalance(l), true);
      } else if r.Node? && l.Node? {
        var m := RightmostKey(l);
        var sub := DeleteNode(l, m);
        u := Update(Rebalance(Node(m, h, sub.tree, r)), true);
      } else {
        u := Update(Empty, true);
      }
  }

  /** On a search tree, deletion succeeds exactly when `x` is present,
      removes exactly `x` and keeps the search order. */
  lemma {:induction false} DeleteKeepsOrder(t: Tree, x: int)
    requires Ordered(t)
    ensures Delete(t, x).success <==> x in Keys(t)
    ensures Keys(Delete(t, x).tree) == Keys(t) - {x}
    ensures Ordered(Delete(t, x).tree)
    decreases t
  {
    match t
    case Empty =>
    case Node(d, h, l, r) =>
      if x < d {
        DeleteKeepsOrder(l, x);
      } else if x > d {
        DeleteKeepsOrder(r, x);
      } else if r.Node? && l.Node? {
        var m := Rightmost(l);
        DeleteKeepsOrder(l, m);
        PredecessorCopyKeepsOrder(t, Delete(l, m).tree);
      }
  }

  /** The two-children case: with the predecessor's key copied up and
      removed from the left subtree, the node is still ordered and holds
      every key but the deleted one. */
  lemma PredecessorCopyKeepsOrder(t: Tree, sub: Tree)
    requires t.Node? && t.left.Node? && Ordered(t)
    requires Ordered(sub) && Keys(sub) == Keys(t.left) - {Rightmost(t.left)}
    ensures Ordered(Node(Rightmost(t.left), t.height, sub, t.right))
    ensures Keys(Node(Rightmost(t.left), t.height, sub, t.right)) == Keys(t) - {t.data}
  {
  }

  /** Deletion from a balanced tree with correct heights keeps both
      properties and shrinks the height by at most one. */
  lemma {:induction false} DeleteKeepsBalance(t: Tree, x: int)
    requires HeightsOk(t) && Balanced(t)
    ensures HeightsOk(Delete(t, x).tree) && Balanced(Delete(t, x).tree)
    ensures HeightOrZero(t) - 1 <= HeightOrZero(Delete(t, x).tree) <= HeightOrZero(t)
    decreases t, 1
  {
    match t
    case Empty =>
    case Node(d, h, l, r) =>
      if x < d {
        DeleteKeepsBalance(l, x);
        var sub := Delete(l, x);
        if sub.success {
          assert Delete(t, x).tree == Rebalance(t.(left := sub.tree));
          ShrunkLeftRebalances(t, sub.tree);
        }
      } else if x > d {
        DeleteKeepsBalance(r, x);
        var sub := Delete(r, x);
        if sub.success {
          assert Delete(t, x).tree == Rebalance(t.(right := sub.tree));
          ShrunkRightRebalances(t, sub.tree);
        }
      } else {
        DeleteHereKeepsBalance(t);
      }
  }

  /** The case where the node holds the key: the leaf, splice and
      predecessor-copy cases each keep balance and correct heights and
      lower the height by at most one. */
  lemma {:induction false} DeleteHereKeepsBalance(t: Tree)
    requires t.Node? && HeightsOk(t) && Balanced(t)
    ensures HeightsOk(Delete(t, t.data).tree) && Balanced(Delete(t, t.data).tree)
    ensures HeightOrZero(t) - 1 <= HeightOrZero(Delete(t, t.data).tree) <= HeightOrZero(t)
    decreases t, 0
  {
    var l, r := t.left, t.right;
    if l.Empty? && r.Node? {
      assert Delete(t, t.data).tree == Rebalance(r);
      RebalanceValidIsIdentity(r);
    } else if r.Empty? && l.Node? {
      assert Delete(t, t.data).tree == Rebalance(l);
      RebalanceValidIsIdentity(l);
    } else if r.Node? && l.Node? {
      var m := Rightmost(l);
      DeleteKeepsBalance(l, m);
      var sub := Delete(l, m);
      assert Delete(t, t.data).tree == Rebalance(t.(data := m).(left := sub.tree));
      ShrunkLeftRebalances(t.(data := m), sub.tree);
    }
  }

  /** A left subtree that lost at most one level, put back under a valid
      node and rebalanced, gives a valid subtree at most one level lower. */
  lemma ShrunkLeftRebalances(t: Tree, l': Tree)
    requires t.Node? && HeightsOk(t) && Balanced(t)
    requires HeightsOk(l') && Balanced(l')
    requires HeightOrZero(t.left) - 1 <= HeightOrZero(l') <= HeightOrZero(t.left)
    ensures HeightsOk(Rebalance(t.(left := l'))) && Balanced(Rebalance(t.(left := l')))
    ensures HeightOrZero(t) - 1 <= HeightOrZero(Rebalance(t.(left := l'))) <= HeightOrZero(t)
  {
    RebalanceRestoresBalance(t.(left := l'));
  }

  /** The mirror image of `ShrunkLeftRebalances`. */
  lemma ShrunkRightRebalances(t: Tree, r': Tree)
    requires t.Node? && HeightsOk(t) && Balanced(t)
    requires HeightsOk(r') && Balanced(r')
    requires HeightOrZero(t.right) - 1 <= HeightOrZero(r') <= HeightOrZero(t.right)
    ensures HeightsOk(Rebalance(t.(right := r'))) && Balanced(Rebalance(t.(right := r')))
    ensures HeightOrZero(t) - 1 <= HeightOrZero(Rebalance(t.(right := r'))) <= HeightOrZero(t)
  {
    RebalanceRestoresBalance(t.(right := r'));
  }

  /** Deletion keeps all three AVL invariants. */
  lemma DeleteKeepsAvl(t: Tree, x: int)
    requires IsAvl(t)
    ensures IsAvl(Delete(t, x).tree)
  {
    DeleteKeepsOrder(t, x);
    DeleteKeepsBalance(t, x);
  }
}
