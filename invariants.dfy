/**
 * The invariants the AVL tree keeps after every public operation: keys in
 * binary-search order, correct cached heights (see `Nodes.HeightsOk`) and a
 * balance factor between -1 and 1 at every node.
 */
module Invariants {
  import opened Nodes

  /** `getBalance`: left cached height minus right cached height, 0 for an
      absent node; when both children's cached heights are correct, the
      difference of their true heights. */
  function GetBalance(t: Tree): (b: int)
    ensures t.Empty? ==> b == 0
    ensures t.Node? ==> b == HeightOrZero(t.left) - HeightOrZero(t.right)
    ensures t.Node? && HeightsOk(t.left) && HeightsOk(t.right) ==>
              b == TrueHeight(t.left) - TrueHeight(t.right)
  {
    if t.Empty? then 0 else HeightOrZero(t.left) - HeightOrZero(t.right)
  }

  /** Binary-search order: left keys < node key < right keys, at every node. */
  ghost predicate Ordered(t: Tree)
  {
    match t
    case Empty => true
    case Node(d, _, l, r) =>
      Ordered(l) && Ordered(r) &&
      (forall y :: y in Keys(l) ==> y < d) &&
      (forall y :: y in Keys(r) ==> d < y)
  }

  /** Every node's balance factor lies in [-1, 1]. */
  ghost predicate Balanced(t: Tree)
  {
    match t
    case Empty => true
    case Node(_, _, l, r) => Balanced(l) && Balanced(r) && -1 <= GetBalance(t) <= 1
  }

  ghost predicate IsAvl(t: Tree)
  {
    Ordered(t) && HeightsOk(t) && Balanced(t)
  }

  ghost predicate StrictlyIncreasing(s: seq<int>)
  {
    forall i, j :: 0 <= i < j < |s| ==> s[i] < s[j]
  }

  /** A strictly increasing sequence split around one element: both parts
      increase and lie below and above that element. */
  lemma IncreasingSplits(a: seq<int>, d: int, b: seq<int>)
    requires StrictlyIncreasing(a + [d] + b)
    ensures StrictlyIncreasing(a) && StrictlyIncreasing(b)
    ensures forall y :: y in a ==> y < d
    ensures forall y :: y in b ==> d < y
  {
    var s := a + [d] + b;
    assert forall i :: 0 <= i < |a| ==> s[i] == a[i];
    assert forall j :: 0 <= j < |b| ==> s[|a| + 1 + j] == b[j];
    assert s[|a|] == d;
    forall i, j | 0 <= i < j < |b| ensures b[i] < b[j] {
      assert s[|a| + 1 + i] < s[|a| + 1 + j];
    }
    forall y | y in a ensures y < d {
      var i :| 0 <= i < |a| && a[i] == y;
      assert s[i] < s[|a|];
    }
    forall y | y in b ensures d < y {
      var j :| 0 <= j < |b| && b[j] == y;
      assert s[|a|] < s[|a| + 1 + j];
    }
  }

  /** Conversely, two increasing sequences separated by `d` join into one. */
  lemma IncreasingJoins(a: seq<int>, d: int, b: seq<int>)
    requires StrictlyIncreasing(a) && StrictlyIncreasing(b)
    requires forall y :: y in a ==> y < d
    requires forall y :: y in b ==> d < y
    ensures StrictlyIncreasing(a + [d] + b)
  {
    var s := a + [d] + b;
    forall i, j | 0 <= i < j < |s| ensures s[i] < s[j] {
      if j < |a| {
        assert s[i] == a[i] && s[j] == a[j];
      } else if i < |a| {
        assert s[i] == a[i] && a[i] in a;
        if j > |a| { assert s[j] == b[j - |a| - 1] && s[j] in b; }
      } else if i == |a| {
        assert s[j] == b[j - |a| - 1] && s[j] in b;
      } else {
        assert s[i] == b[i - |a| - 1] && s[j] == b[j - |a| - 1];
      }
    }
  }

  /** The search-tree order holds exactly when the in-order traversal is
      strictly increasing. */
  lemma {:induction false} OrderedIffIncreasing(t: Tree)
    ensures Ordered(t) <==> StrictlyIncreasing(InOrder(t))
  {
    if t.Node? {
      OrderedIffIncreasing(t.left);
      OrderedIffIncreasing(t.right);
      InOrderHasKeys(t.left);
      InOrderHasKeys(t.right);
      var a, b := InOrder(t.left), InOrder(t.right);
      if StrictlyIncreasing(a + [t.data] + b) {
        IncreasingSplits(a, t.data, b);
      }
      if Ordered(t) {
        IncreasingJoins(a, t.data, b);
      }
    }
  }
}
