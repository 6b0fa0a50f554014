/**
 * Rotations and `balanceNode`.
 *
 * A rotation takes a node whose slot the caller holds and returns the node
 * that now occupies the slot: the child on the rotation's far side (the
 * "hook") is promoted, the node is demoted below it, and the hook's inner
 * child moves across to the demoted node. The demoted node's height is
 * recomputed first and the hook's height from it.
 */
module Rebalance {
  import opened KeyOrder
  import opened AvlNode

  /** `rightRotation`: the left child becomes the root of the subtree. */
  function RotateRight(t: Tree): (r: Tree)
    requires t.Node? && t.left.Node?
    ensures r.Node? && r.key == t.left.key && r.left == t.left.left
    ensures Items(r) == Items(t) && Pairs(r) == Pairs(t) && KeySet(r) == KeySet(t)
    ensures HeightsOk(t.left.left) && HeightsOk(t.left.right) && HeightsOk(t.right) ==> HeightsOk(r)
  {
    var hook := t.left;
    var node := UpdateHeight(t.(left := hook.right));
    UpdateHeight(hook.(right := node))
  }

  /** `leftRotation`: the right child becomes the root of the subtree. */
  function RotateLeft(t: Tree): (r: Tree)
    requires t.Node? && t.right.Node?
    ensures r.Node? && r.key == t.right.key && r.right == t.right.right
    ensures Items(r) == Items(t) && Pairs(r) == Pairs(t) && KeySet(r) == KeySet(t)
    ensures HeightsOk(t.right.left) && HeightsOk(t.right.right) && HeightsOk(t.left) ==> HeightsOk(r)
  {
    var hook := t.right;
    var node := UpdateHeight(t.(right := hook.left));
    UpdateHeight(hook.(left := node))
  }

  /** Height of the left subtree minus height of the right, from the cached heights. */
  function Lean(t: Tree): int
    requires t.Node?
  {
    Height(t.left) - Height(t.right)
  }

  /**
   * `balanceNode`. A node whose left side is two or more higher is rotated
   * right, after first rotating its left child left when that child leans to
   * its right (the left-right case); the mirror image for the right side.
   * A node whose sides differ by at most one is returned unchanged.
   */
  function Balance(t: Tree): (r: Tree)
    requires t.Node?
    ensures r.Node?
    ensures Items(r) == Items(t) && Pairs(r) == Pairs(t) && KeySet(r) == KeySet(t)
    ensures -1 <= Lean(t) <= 1 ==> r == t
    ensures Lean(t) >= 2 ==> r.key == (if Lean(t.left) == -1 then t.left.right.key else t.left.key)
    ensures Lean(t) <= -2 ==> r.key == (if Lean(t.right) == 1 then t.right.left.key else t.right.key)
  {
    if Lean(t) >= 2 then
      var l := if Lean(t.left) == -1 then RotateLeft(t.left) else t.left;
      RotateRight(t.(left := l))
    else if Lean(t) <= -2 then
      var r := if Lean(t.right) == 1 then RotateRight(t.right) else t.right;
      RotateLeft(t.(right := r))
    else
      t
  }

  lemma RotateRightPreservesBst(t: Tree)
    requires t.Node? && t.left.Node? && Bst(t)
    ensures Bst(RotateRight(t))
  {
    var hook := t.left;
    forall x | x in KeySet(t.right)
      ensures Less(hook.key, x)
    {
      LessTransitive(hook.key, t.key, x);
    }
  }

  lemma RotateLeftPreservesBst(t: Tree)
    requires t.Node? && t.right.Node? && Bst(t)
    ensures Bst(RotateLeft(t))
  {
    var hook := t.right;
    forall x | x in KeySet(t.left)
      ensures Less(x, hook.key)
    {
      LessTransitive(x, t.key, hook.key);
    }
  }

  lemma BalancePreservesBst(t: Tree)
    requires t.Node? && Bst(t)
    ensures Bst(Balance(t))
  {
    if Lean(t) >= 2 {
      if Lean(t.left) == -1 {
        RotateLeftPreservesBst(t.left);
      }
      var l := if Lean(t.left) == -1 then RotateLeft(t.left) else t.left;
      RotateRightPreservesBst(t.(left := l));
    } else if Lean(t) <= -2 {
      if Lean(t.right) == 1 {
        RotateRightPreservesBst(t.right);
      }
      var r := if Lean(t.right) == 1 then RotateRight(t.right) else t.right;
      RotateLeftPreservesBst(t.(right := r));
    }
  }

  /**
   * Applied to a node whose cached height is current, whose subtrees are AVL
   * trees and whose sides differ by at most two, `balanceNode` yields an AVL
   * subtree with correct heights, at most one lower than the node was.
   */
  lemma BalanceRestoresAvl(t: Tree)
    requires t.Node? && HeightsOk(t) && Balanced(t.left) && Balanced(t.right)
    requires -2 <= Lean(t) <= 2
    ensures HeightsOk(Balance(t)) && Balanced(Balance(t))
    ensures t.height - 1 <= Height(Balance(t)) <= t.height
  {
    if Lean(t) == 2 {
      if Lean(t.left) == -1 {
        LeftRightCase(t);
      } else {
        LeftLeftCase(t);
      }
    } else if Lean(t) == -2 {
      if Lean(t.right) == 1 {
        RightLeftCase(t);
      } else {
        RightRightCase(t);
      }
    }
  }

  /** Left side two higher, left child not leaning right: one right rotation. */
  lemma LeftLeftCase(t: Tree)
    requires t.Node? && HeightsOk(t) && Balanced(t.left) && Balanced(t.right)
    requires Lean(t) == 2 && Lean(t.left) != -1
    ensures var r := RotateRight(t);
      HeightsOk(r) && Balanced(r) && t.height - 1 <= Height(r) <= t.height
  {
    var l := t.left;
    var r := RotateRight(t);
    var n := UpdateHeight(t.(left := l.right));
    assert r == UpdateHeight(l.(right := n));
    assert Balanced(n);
  }

  /** Left side two higher, left child leaning right: left then right rotation. */
  lemma LeftRightCase(t: Tree)
    requires t.Node? && HeightsOk(t) && Balanced(t.left) && Balanced(t.right)
    requires Lean(t) == 2 && Lean(t.left) == -1
    ensures var r := RotateRight(t.(left := RotateLeft(t.left)));
      HeightsOk(r) && Balanced(r) && Height(r) == t.height - 1
  {
    var l := t.left;
    var lr := l.right;
    assert HeightsOk(l) && HeightsOk(lr) && Balanced(lr);
    var hd := Height(t.right);
    assert Height(l.left) == hd && Height(lr) == hd + 1;
    assert hd - 1 <= Height(lr.left) <= hd && hd - 1 <= Height(lr.right) <= hd;
    // the left rotation of the left child
    var a := UpdateHeight(l.(right := lr.left));
    assert Height(a) == hd + 1 && Balanced(a) && HeightsOk(a);
    var l2 := UpdateHeight(lr.(left := a));
    assert RotateLeft(l) == l2;
    // the right rotation of the node
    var b := UpdateHeight(t.(left := lr.right));
    assert Height(b) == hd + 1 && Balanced(b) && HeightsOk(b);
    var r := UpdateHeight(l2.(right := b));
    assert RotateRight(t.(left := l2)) == r;
    assert Height(r) == hd + 2 && r.left == a && r.right == b;
  }

  /** Right side two higher, right child not leaning left: one left rotation. */
  lemma RightRightCase(t: Tree)
    requires t.Node? && HeightsOk(t) && Balanced(t.left) && Balanced(t.right)
    requires Lean(t) == -2 && Lean(t.right) != 1
    ensures var r := RotateLeft(t);
      HeightsOk(r) && Balanced(r) && t.height - 1 <= Height(r) <= t.height
  {
    var rt := t.right;
    var r := RotateLeft(t);
    var n := UpdateHeight(t.(right := rt.left));
    assert r == UpdateHeight(rt.(left := n));
    assert Balanced(n);
  }

  /** Right side two higher, right child leaning left: right then left rotation. */
  lemma RightLeftCase(t: Tree)
    requires t.Node? && HeightsOk(t) && Balanced(t.left) && Balanced(t.right)
    requires Lean(t) == -2 && Lean(t.right) == 1
    ensures var r := RotateLeft(t.(right := RotateRight(t.right)));
      HeightsOk(r) && Balanced(r) && Height(r) == t.height - 1
  {
    var rt := t.right;
    var rl := rt.left;
    assert HeightsOk(rt) && HeightsOk(rl) && Balanced(rl);
    var hd := Height(t.left);
    assert Height(rt.right) == hd && Height(rl) == hd + 1;
    assert hd - 1 <= Height(rl.left) <= hd && hd - 1 <= Height(rl.right) <= hd;
    // the right rotation of the right child
    var b := UpdateHeight(rt.(left := rl.right));
    assert Height(b) == hd + 1 && Balanced(b) && HeightsOk(b);
    var r2 := UpdateHeight(rl.(right := b));
    assert RotateRight(rt) == r2;
    // the left rotation of the node
    var a := UpdateHeight(t.(right := rl.left));
    assert Height(a) == hd + 1 && Balanced(a) && HeightsOk(a);
    var r := UpdateHeight(r2.(left := a));
    assert RotateLeft(t.(right := r2)) == r;
    assert Height(r) == hd + 2 && r.left == a && r.right == b;
  }
}
