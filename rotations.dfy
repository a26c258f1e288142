/**
 * `rightRotate`, `leftRotate` (AVL.cpp:11-93) and the rebalancing tail that
 * `insertNode` and `deleteNode` share (AVL.cpp:122-176 and 253-307).
 *
 * A rotation takes the subtree in a slot and returns the subtree the slot
 * holds afterwards; the promoted child must be present, which every call
 * site guarantees through the balance factor it has just tested.
 */
module Rotations {
  import opened Nodes
  import opened Invariants

  /** `rightRotate` at E with left child C: C's right subtree becomes E's
      left subtree, E becomes C's right child and C the subtree root. E's
      height is recomputed, then C's. */
  function RotateRight(t: Tree): (r: Tree)
    requires t.Node? && t.left.Node?
    ensures r.Node? && r.data == t.left.data && r.left == t.left.left
    ensures r.right.Node? && r.right.data == t.data
    ensures r.right.left == t.left.right && r.right.right == t.right
    ensures InOrder(r) == InOrder(t) && Keys(r) == Keys(t)
    ensures Ordered(t) ==> Ordered(r)
    ensures HeightsOk(t.left.left) && HeightsOk(t.left.right) && HeightsOk(t.right) ==> HeightsOk(r)
  {
    var c := t.left;
    var e := Node(t.data, 1 + Max(HeightOrZero(c.right), HeightOrZero(t.right)), c.right, t.right);
    var r := Node(c.data, 1 + Max(HeightOrZero(c.left), HeightOrZero(e)), c.left, e);
    OrderedIffIncreasing(t);
    OrderedIffIncreasing(r);
    r
  }

  /** `leftRotate`: the mirror image of `RotateRight`. */
  function RotateLeft(t: Tree): (r: Tree)
    requires t.Node? && t.right.Node?
    ensures r.Node? && r.data == t.right.data && r.right == t.right.right
    ensures r.left.Node? && r.left.data == t.data
    ensures r.left.right == t.right.left && r.left.left == t.left
    ensures InOrder(r) == InOrder(t) && Keys(r) == Keys(t)
    ensures Ordered(t) ==> Ordered(r)
    ensures HeightsOk(t.right.right) && HeightsOk(t.right.left) && HeightsOk(t.left) ==> HeightsOk(r)
  {
    var c := t.right;
    var e := Node(t.data, 1 + Max(HeightOrZero(t.left), HeightOrZero(c.left)), t.left, c.left);
    var r := Node(c.data, 1 + Max(HeightOrZero(e), HeightOrZero(c.right)), e, c.right);
    OrderedIffIncreasing(t);
    OrderedIffIncreasing(r);
    r
  }

  /** The tail of `insertNode`/`deleteNode` once the recursive call has
      succeeded: recompute the node's height, then apply one of the four
      rotation cases chosen by the balance factor, with tie-breaks `>= 0`
      and `<= 0` on the heavier child's own balance. */
  function Rebalance(t: Tree): (r: Tree)
    requires t.Node?
    ensures r.Node?
    ensures InOrder(r) == InOrder(t) && Keys(r) == Keys(t)
    ensures Ordered(t) ==> Ordered(r)
    ensures HeightsOk(t.left) && HeightsOk(t.right) ==> HeightsOk(r)
  {
    var n := t.(height := 1 + Max(HeightOrZero(t.left), HeightOrZero(t.right)));
    var balance := GetBalance(n);
    if balance > 1 then
      if GetBalance(n.left) >= 0 then RotateRight(n)
      else
        assert HeightsOk(n.left) ==> HeightsOk(n.left.right);
        RotateRight(n.(left := RotateLeft(n.left)))
    else if balance < -1 then
      if GetBalance(n.right) <= 0 then RotateLeft(n)
      else
        assert HeightsOk(n.right) ==> HeightsOk(n.right.left);
        RotateLeft(n.(right := RotateRight(n.right)))
    else n
  }

  /** Rebalancing a node whose children are valid AVL subtrees whose heights
      differ by at most 2 yields a valid AVL subtree whose height is the
      larger child height or one more; when the children already differ by
      at most 1, no rotation happens and the height is one more. */
  lemma RebalanceRestoresBalance(t: Tree)
    requires t.Node?
    requires HeightsOk(t.left) && HeightsOk(t.right) && Balanced(t.left) && Balanced(t.right)
    requires -2 <= HeightOrZero(t.left) - HeightOrZero(t.right) <= 2
    ensures HeightsOk(Rebalance(t)) && Balanced(Rebalance(t))
    ensures var m := Max(HeightOrZero(t.left), HeightOrZero(t.right));
      m <= HeightOrZero(Rebalance(t)) <= m + 1
    ensures -1 <= HeightOrZero(t.left) - HeightOrZero(t.right) <= 1 ==>
      HeightOrZero(Rebalance(t)) == 1 + Max(HeightOrZero(t.left), HeightOrZero(t.right))
  {
    var balance := HeightOrZero(t.left) - HeightOrZero(t.right);
    if balance > 1 {
      if GetBalance(t.left) >= 0 {
        LeftLeftBalances(t);
      } else {
        LeftRightBalances(t);
      }
    } else if balance < -1 {
      if GetBalance(t.right) <= 0 {
        RightRightBalances(t);
      } else {
        RightLeftBalances(t);
      }
    } else {
      var n := t.(height := 1 + Max(HeightOrZero(t.left), HeightOrZero(t.right)));
      assert Rebalance(t) == n;
      HeightsOkIsRecomputed(n);
    }
  }

  /** Left-left case: the tail makes a single right rotation, which leaves
      a valid subtree as high as the left child or one higher. */
  lemma LeftLeftBalances(t: Tree)
    requires t.Node?
    requires HeightsOk(t.left) && HeightsOk(t.right) && Balanced(t.left) && Balanced(t.right)
    requires HeightOrZero(t.left) == HeightOrZero(t.right) + 2
    requires GetBalance(t.left) >= 0
    ensures HeightsOk(Rebalance(t)) && Balanced(Rebalance(t))
    ensures HeightOrZero(t.left) <= HeightOrZero(Rebalance(t)) <= HeightOrZero(t.left) + 1
  {
    var n := t.(height := 1 + Max(HeightOrZero(t.left), HeightOrZero(t.right)));
    assert Rebalance(t) == RotateRight(n);
  }

  /** Right-right case: a single left rotation, the mirror image. */
  lemma RightRightBalances(t: Tree)
    requires t.Node?
    requires HeightsOk(t.left) && HeightsOk(t.right) && Balanced(t.left) && Balanced(t.right)
    requires HeightOrZero(t.right) == HeightOrZero(t.left) + 2
    requires GetBalance(t.right) <= 0
    ensures HeightsOk(Rebalance(t)) && Balanced(Rebalance(t))
    ensures HeightOrZero(t.right) <= HeightOrZero(Rebalance(t)) <= HeightOrZero(t.right) + 1
  {
    var n := t.(height := 1 + Max(HeightOrZero(t.left), HeightOrZero(t.right)));
    assert Rebalance(t) == RotateLeft(n);
  }

  /** Left-right case: a left rotation at the left child, then a right
      rotation at the node; the result is as high as the old left child. */
  lemma LeftRightBalances(t: Tree)
    requires t.Node?
    requires HeightsOk(t.left) && HeightsOk(t.right) && Balanced(t.left) && Balanced(t.right)
    requires HeightOrZero(t.left) == HeightOrZero(t.right) + 2
    requires GetBalance(t.left) < 0
    ensures HeightsOk(Rebalance(t)) && Balanced(Rebalance(t))
    ensures HeightOrZero(Rebalance(t)) == HeightOrZero(t.left)
  {
    var n := t.(height := 1 + Max(HeightOrZero(t.left), HeightOrZero(t.right)));
    assert Rebalance(t) == RotateRight(n.(left := RotateLeft(n.left)));
  }

  /** Right-left case: the mirror image of the left-right case. */
  lemma RightLeftBalances(t: Tree)
    requires t.Node?
    requires HeightsOk(t.left) && HeightsOk(t.right) && Balanced(t.left) && Balanced(t.right)
    requires HeightOrZero(t.right) == HeightOrZero(t.left) + 2
    requires GetBalance(t.right) > 0
    ensures HeightsOk(Rebalance(t)) && Balanced(Rebalance(t))
    ensures HeightOrZero(Rebalance(t)) == HeightOrZero(t.right)
  {
    var n := t.(height := 1 + Max(HeightOrZero(t.left), HeightOrZero(t.right)));
    assert Rebalance(t) == RotateLeft(n.(right := RotateRight(n.right)));
  }

  /** On a node that is already a valid AVL subtree, rebalancing changes
      nothing: the recomputed height equals the cached one and no case fires. */
  lemma RebalanceValidIsIdentity(t: Tree)
    requires t.Node? && HeightsOk(t) && Balanced(t)
    ensures Rebalance(t) == t
  {
  }
}
