/**
 * `insertNode` (AVL.cpp:95-178): recursive binary-search insertion that
 * rebalances every node on the way back up.
 */
module Insertion {
  import opened Nodes
  import opened Invariants
  import opened Rotations

  /** Inserts `x` below the slot holding `t`. A duplicate key leaves every
      node as it was and reports failure. */
  function Insert(t: Tree, x: int): (u: Update)
    ensures u.tree.Node?
    ensures !u.success ==> u.tree == t && x in Keys(t)
    ensures u.success ==> Keys(u.tree) == Keys(t) + {x}
    ensures HeightsOk(t) ==> HeightsOk(u.tree)
    ensures Ordered(t) ==> Ordered(u.tree) && (u.success <==> x !in Keys(t))
    decreases t
  {
    match t
    case Empty => Update(NewNode(x), true)
    case Node(d, h, l, r) =>
      if x < d then
        var sub := Insert(l, x);
        if !sub.success then Update(Node(d, h, sub.tree, r), false)
        else Update(Rebalance(Node(d, h, sub.tree, r)), true)
      else if x > d then
        var sub := Insert(r, x);
        if !sub.success then Update(Node(d, h, l, sub.tree), false)
        else Update(Rebalance(Node(d, h, l, sub.tree)), true)
      else
        Update(t, false)
  }

  /** Insertion into a balanced tree with correct heights keeps both
      properties and grows the height by at most one. */
  lemma {:induction false} InsertKeepsBalance(t: Tree, x: int)
    requires HeightsOk(t) && Balanced(t)
    ensures HeightsOk(Insert(t, x).tree) && Balanced(Insert(t, x).tree)
    ensures HeightOrZero(t) <= HeightOrZero(Insert(t, x).tree) <= HeightOrZero(t) + 1
    decreases t
  {
    match t
    case Empty =>
    case Node(d, h, l, r) =>
      if x < d {
        InsertKeepsBalance(l, x);
        var sub := Insert(l, x);
        if sub.success { RebalanceRestoresBalance(Node(d, h, sub.tree, r)); }
      } else if x > d {
        InsertKeepsBalance(r, x);
        var sub := Insert(r, x);
        if sub.success { RebalanceRestoresBalance(Node(d, h, l, sub.tree)); }
      }
  }

  /** Insertion keeps all three AVL invariants. */
  lemma InsertKeepsAvl(t: Tree, x: int)
    requires IsAvl(t)
    ensures IsAvl(Insert(t, x).tree)
  {
    InsertKeepsBalance(t, x);
  }

  /** Adding the same key twice: the second insertion fails and changes
      nothing. */
  lemma InsertTwice(t: Tree, x: int)
    requires Ordered(t)
    ensures !Insert(Insert(t, x).tree, x).success
    ensures Insert(Insert(t, x).tree, x).tree == Insert(t, x).tree
  {
  }
}
