/**
 * The public AVL wrapper (AVL.h, AVL.cpp:6-9, 180, 311-321): an object
 * owning the root slot, whose `add`, `remove` and `clear` reassign it.
 */
module AvlTree {
  import opened Nodes
  import opened Invariants
  import opened Insertion
  import opened Deletion

  class AVL {
    var root: Tree

    /** Order, correct heights and balance hold between public calls. */
    ghost predicate Valid()
      reads this
    {
      IsAvl(root)
    }

    /** A new tree is empty. */
    constructor ()
      ensures Valid() && root == Empty
    {
      root := Empty;
    }

    /** `getRootNode`: the root slot itself, `Empty` exactly when the tree
        holds no key. */
    function GetRootNode(): (r: Tree)
      reads this
      ensures r == root
      ensures r.Empty? <==> Keys(root) == {}
    {
      root
    }

    /** `add`: true iff `x` was absent; the key set gains `x`, and on false
        the tree is unchanged. The AVL invariants hold afterwards. */
    method Add(x: int) returns (ok: bool)
      requires Valid()
      modifies this
      ensures Valid()
      ensures ok <==> x !in old(Keys(root))
      ensures Keys(root) == old(Keys(root)) + {x}
      ensures !ok ==> root == old(root)
    {
      InsertKeepsAvl(root, x);
      var u := Insert(root, x);
      root := u.tree;
      ok := u.success;
    }

    /** `remove`: true iff `x` was present; the key set loses `x`, and on
        false the tree is unchanged. The AVL invariants hold afterwards. */
    method Remove(x: int) returns (ok: bool)
      requires Valid()
      modifies this
      ensures Valid()
      ensures ok <==> x in old(Keys(root))
      ensures Keys(root) == old(Keys(root)) - {x}
      ensures !ok ==> root == old(root)
    {
      DeleteKeepsOrder(root, x);
      DeleteKeepsAvl(root, x);
      var u := DeleteNode(root, x);
      root := u.tree;
      ok := u.success;
    }

    /** `clear`: delete the root's key until the tree is empty; each round
        removes a present key, so the key count falls. */
    method Clear()
      requires Valid()
      modifies this
      ensures Valid() && root == Empty
    {
      while root.Node?
        invariant Valid()
        decreases |Keys(root)|
      {
        DeleteKeepsOrder(root, root.data);
        DeleteKeepsAvl(root, root.data);
        var u := DeleteNode(root, root.data);
        root := u.tree;
      }
    }
  }
}
