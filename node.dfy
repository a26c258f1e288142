/**
 * The node record of the AVL tree (Node.h, Node.cpp) as an immutable value.
 *
 * A `Tree` is the content of one child slot: `Empty` is the null pointer,
 * `Node` a cell holding its key (`data`), its cached subtree height and its
 * two children. Heights are `nat`: the source only ever stores 1 (a fresh
 * node) or 1 + the larger child height, so a cached height is never negative.
 */
module Nodes {

  datatype Tree = Empty | Node(data: int, height: nat, left: Tree, right: Tree)

  /** What a slot-rewriting operation yields: the subtree now in the slot and
      the `bool` the source returns. */
  datatype Update = Update(tree: Tree, success: bool)

  function Max(a: int, b: int): (m: int)
    ensures m >= a && m >= b && (m == a || m == b)
  {
    if a < b then b else a
  }

  /** The set of keys stored in a subtree. */
  function Keys(t: Tree): (s: set<int>)
  {
    match t
    case Empty => {}
    case Node(d, _, l, r) => Keys(l) + {d} + Keys(r)
  }

  /** The keys of a subtree in in-order (left, node, right). */
  function InOrder(t: Tree): (s: seq<int>)
  {
    match t
    case Empty => []
    case Node(d, _, l, r) => InOrder(l) + [d] + InOrder(r)
  }

  /** The height as the number of nodes on the longest path from the root of
      the subtree to a leaf; an absent subtree has height 0. */
  ghost function TrueHeight(t: Tree): (h: nat)
  {
    match t
    case Empty => 0
    case Node(_, _, l, r) => 1 + Max(TrueHeight(l), TrueHeight(r))
  }

  /** Every cached height is the number of nodes on the longest path down
      from its node. */
  ghost predicate HeightsOk(t: Tree)
  {
    match t
    case Empty => true
    case Node(_, h, l, r) => HeightsOk(l) && HeightsOk(r) && h == TrueHeight(t)
  }

  /** `nodeHeightOrZero`: the cached height of a slot, 0 for an absent node;
      under correct cached heights, the slot's true height. */
  function HeightOrZero(t: Tree): (h: nat)
    ensures t.Empty? ==> h == 0
    ensures t.Node? ==> h == t.height
    ensures HeightsOk(t) ==> h == TrueHeight(t)
  {
    if t.Empty? then 0 else t.height
  }

  /** Correct cached heights are exactly what the source recomputes: every
      cached height is 1 + the larger cached child height. */
  lemma {:induction false} HeightsOkIsRecomputed(t: Tree)
    ensures HeightsOk(t) <==>
      (t.Node? ==> HeightsOk(t.left) && HeightsOk(t.right) &&
                   t.height == 1 + Max(HeightOrZero(t.left), HeightOrZero(t.right)))
  {
  }

  /** Every key in a subtree occurs in its in-order sequence and vice versa. */
  lemma {:induction false} InOrderHasKeys(t: Tree)
    ensures forall y :: y in Keys(t) <==> y in InOrder(t)
  {
    if t.Node? {
      InOrderHasKeys(t.left);
      InOrderHasKeys(t.right);
    }
  }

  /** The constructor `Node(int)`: a leaf of height 1 holding `x`. */
  function NewNode(x: int): (n: Tree)
    ensures n.Node? && n.data == x && n.height == 1
    ensures n.left.Empty? && n.right.Empty?
    ensures HeightsOk(n) && TrueHeight(n) == 1
    ensures Keys(n) == {x} && InOrder(n) == [x]
  {
    Node(x, 1, Empty, Empty)
  }

  /** `getData`: the key stored in the node, sitting between the in-order
      sequences of its two children. */
  function GetData(n: Tree): (d: int)
    requires n.Node?
    ensures d in Keys(n)
    ensures InOrder(n) == InOrder(n.left) + [d] + InOrder(n.right)
  {
    n.data
  }

  /** `getLeftChild`: the left slot, `Empty` when there is no left child. */
  function GetLeftChild(n: Tree): (c: Tree)
    requires n.Node?
    ensures c == n.left
    ensures Keys(c) <= Keys(n)
    ensures InOrder(n) == InOrder(c) + [n.data] + InOrder(n.right)
    ensures TrueHeight(c) < TrueHeight(n)
  {
    n.left
  }

  /** `getRightChild`: the right slot, `Empty` when there is no right child. */
  function GetRightChild(n: Tree): (c: Tree)
    requires n.Node?
    ensures c == n.right
    ensures Keys(c) <= Keys(n)
    ensures InOrder(n) == InOrder(n.left) + [n.data] + InOrder(c)
    ensures TrueHeight(c) < TrueHeight(n)
  {
    n.right
  }

  /** `getHeight`: the cached height, not recomputed; when the tree keeps its
      heights correct it is the number of nodes on the longest downward path. */
  function GetHeight(n: Tree): (h: nat)
    requires n.Node?
    ensures h == n.height
    ensures HeightsOk(n) ==> h == TrueHeight(n)
  {
    n.height
  }
}
