/**
 * Removal: `remove` searches for the key, `removeNode` takes out the node
 * that holds it according to how many children it has, and every node on the
 * search path has its height recomputed and is rebalanced on the way back up.
 *
 * `RemoveNode` gives the two-children case the behaviour the code is evidently
 * meant to have: the smallest entry of the right subtree is removed from that
 * subtree, copied into the node, and the node's height is recomputed and the
 * node rebalanced. The code as written removes that entry by a fresh search
 * from the root of the whole tree and then overwrites whatever node sits in
 * the slot afterwards, through a 32-bit `int`; `RemoveRootAsWritten` models
 * that for the case where the slot is the root.
 */
module Removal {
  import opened KeyOrder
  import opened AvlNode
  import opened Rebalance

  /** The entry reached by following left links from the root of a subtree. */
  function MinItem(t: Tree): (m: (Key, Value))
    requires t.Node?
    ensures m in Pairs(t) && m.0 in KeySet(t)
  {
    if t.left.Nil? then (t.key, t.value) else MinItem(t.left)
  }

  /** In a search tree that entry holds the least key. */
  lemma {:induction false} MinItemIsLeast(t: Tree)
    requires t.Node? && Bst(t)
    ensures forall x :: x in KeySet(t) ==> LessEq(MinItem(t).0, x)
  {
    if t.left.Node? {
      MinItemIsLeast(t.left);
      var m := MinItem(t).0;
      forall x | x in KeySet(t.right)
        ensures Less(m, x)
      {
        LessTransitive(m, t.key, x);
      }
    }
  }

  /** `remove(slot, k)`: the new subtree root, and whether a node was removed. */
  function Remove(t: Tree, k: Key): (r: (Tree, bool))
    ensures !r.1 ==> r.0 == t
    ensures r.1 ==> k in KeySet(t)
    ensures KeySet(r.0) <= KeySet(t)
    ensures |Items(t)| - 1 <= |Items(r.0)| <= |Items(t)|
    decreases t, 1
  {
    match t
    case Nil => (Nil, false)
    case Node(key, _, _, left, right) =>
      if key == k then
        (RemoveNode(t), true)
      else if Less(key, k) then
        var (right', removed) := Remove(right, k);
        if !removed then (t, false)
        else (Balance(UpdateHeight(t.(right := right'))), true)
      else
        var (left', removed) := Remove(left, k);
        if !removed then (t, false)
        else (Balance(UpdateHeight(t.(left := left'))), true)
  }

  /**
   * `removeNode(slot)` for a non-null slot: a leaf leaves an empty slot, a
   * node with one child is replaced by that child, and a node with two
   * children takes over the entry of its in-order successor, which is removed
   * from the right subtree.
   */
  function RemoveNode(t: Tree): (r: Tree)
    requires t.Node?
    ensures KeySet(r) <= KeySet(t)
    ensures |Items(t)| - 1 <= |Items(r)| <= |Items(t)|
    decreases t, 0
  {
    if IsLeaf(t) then
      Nil
    else if NumChildren(t) == 1 then
      if t.right.Node? then t.right else t.left
    else
      var m := MinItem(t.right);
      var right' := Remove(t.right, m.0).0;
      Balance(UpdateHeight(Node(m.0, m.1, t.height, t.left, right')))
  }

  /**
   * On a search tree, removal succeeds exactly when the key is present, takes
   * out exactly that key and its entry, and keeps the search order.
   */
  lemma {:induction false} RemoveBst(t: Tree, k: Key)
    requires Bst(t)
    ensures var (t', removed) := Remove(t, k);
      && Bst(t')
      && (removed <==> k in KeySet(t))
      && KeySet(t') == KeySet(t) - {k}
      && Pairs(t') == WithoutKey(Pairs(t), k)
      && (removed ==> |Items(t')| == |Items(t)| - 1)
    decreases t, 1
  {
    match t
    case Nil =>
    case Node(key, _, _, left, right) =>
      if key == k {
        RemoveNodeBst(t);
      } else {
        LessTotal(k, key);
        if Less(key, k) {
          RemoveBst(right, k);
          if k in KeySet(left) {
            LessAsymmetric(k, key);
          }
          var (right', removed) := Remove(right, k);
          if removed {
            RebuildRightBst(t, k, right');
          } else {
            WithoutAbsentKey(t, k);
          }
        } else {
          RemoveBst(left, k);
          if k in KeySet(right) {
            LessAsymmetric(key, k);
          }
          var (left', removed) := Remove(left, k);
          if removed {
            RebuildLeftBst(t, k, left');
          } else {
            WithoutAbsentKey(t, k);
          }
        }
      }
  }

  lemma WithoutKeyUnion(a: set<(Key, Value)>, b: set<(Key, Value)>, c: set<(Key, Value)>, k: Key)
    ensures WithoutKey(a + b + c, k) == WithoutKey(a, k) + WithoutKey(b, k) + WithoutKey(c, k)
  {
  }

  /** Taking a key out of a node's entries: what remains of each part. */
  lemma WithoutKeyOfNode(t: Tree, k: Key)
    requires t.Node? && Bst(t)
    requires k == t.key || k !in KeySet(t.left) || k !in KeySet(t.right)
    ensures k == t.key ==> WithoutKey(Pairs(t), k) == Pairs(t.left) + Pairs(t.right)
    ensures k != t.key && k !in KeySet(t.left) ==>
      WithoutKey(Pairs(t), k) == Pairs(t.left) + {(t.key, t.value)} + WithoutKey(Pairs(t.right), k)
    ensures k != t.key && k !in KeySet(t.right) ==>
      WithoutKey(Pairs(t), k) == WithoutKey(Pairs(t.left), k) + {(t.key, t.value)} + Pairs(t.right)
  {
    var own := {(t.key, t.value)};
    WithoutKeyUnion(Pairs(t.left), own, Pairs(t.right), k);
    if k == t.key {
      LessIrreflexive(k);
      WithoutAbsentKey(t.left, k);
      WithoutAbsentKey(t.right, k);
      assert WithoutKey(own, k) == {};
    } else {
      assert WithoutKey(own, k) == own;
      if k !in KeySet(t.left) {
        WithoutAbsentKey(t.left, k);
      }
      if k !in KeySet(t.right) {
        WithoutAbsentKey(t.right, k);
      }
    }
  }

  /** The path step of removal on the right: `k` was taken out of the right subtree. */
  lemma RebuildRightBst(t: Tree, k: Key, right': Tree)
    requires t.Node? && Bst(t) && Less(t.key, k) && k !in KeySet(t.left)
    requires Bst(right') && KeySet(right') == KeySet(t.right) - {k}
    requires Pairs(right') == WithoutKey(Pairs(t.right), k)
    ensures var n := Balance(UpdateHeight(t.(right := right')));
      Bst(n) && KeySet(n) == KeySet(t) - {k} && Pairs(n) == WithoutKey(Pairs(t), k)
  {
    LessIrreflexive(k);
    WithoutKeyOfNode(t, k);
    var n := UpdateHeight(t.(right := right'));
    assert KeySet(n) == KeySet(t) - {k};
    assert Pairs(n) == WithoutKey(Pairs(t), k);
    assert Bst(n);
    BalancePreservesBst(n);
  }

  /** The path step of removal on the left: `k` was taken out of the left subtree. */
  lemma RebuildLeftBst(t: Tree, k: Key, left': Tree)
    requires t.Node? && Bst(t) && Less(k, t.key) && k !in KeySet(t.right)
    requires Bst(left') && KeySet(left') == KeySet(t.left) - {k}
    requires Pairs(left') == WithoutKey(Pairs(t.left), k)
    ensures var n := Balance(UpdateHeight(t.(left := left')));
      Bst(n) && KeySet(n) == KeySet(t) - {k} && Pairs(n) == WithoutKey(Pairs(t), k)
  {
    LessIrreflexive(k);
    WithoutKeyOfNode(t, k);
    var n := UpdateHeight(t.(left := left'));
    assert KeySet(n) == KeySet(t) - {k};
    assert Pairs(n) == WithoutKey(Pairs(t), k);
    assert Bst(n);
    BalancePreservesBst(n);
  }

  lemma {:induction false} RemoveNodeBst(t: Tree)
    requires t.Node? && Bst(t)
    ensures var t' := RemoveNode(t);
      && Bst(t')
      && KeySet(t') == KeySet(t) - {t.key}
      && Pairs(t') == WithoutKey(Pairs(t), t.key)
      && |Items(t')| == |Items(t)| - 1
    decreases t, 0
  {
    var key := t.key;
    WithoutKeyOfNode(t, key);
    assert KeySet(t) - {key} == KeySet(t.left) + KeySet(t.right) by {
      LessIrreflexive(key);
    }
    if !IsLeaf(t) && NumChildren(t) != 1 {
      var m := MinItem(t.right);
      RemoveBst(t.right, m.0);
      var right' := Remove(t.right, m.0).0;
      SuccessorTakesOverBst(t, right');
      var n := UpdateHeight(Node(m.0, m.1, t.height, t.left, right'));
      assert |Items(n)| == |Items(t)| - 1;
    }
  }

  /**
   * The two-children case: the successor's entry, removed from the right
   * subtree, replaces the node's own.
   */
  lemma SuccessorTakesOverBst(t: Tree, right': Tree)
    requires t.Node? && t.right.Node? && Bst(t)
    requires var m := MinItem(t.right);
      && Bst(right') && KeySet(right') == KeySet(t.right) - {m.0}
      && Pairs(right') == WithoutKey(Pairs(t.right), m.0)
    ensures var m := MinItem(t.right);
      var n := Balance(UpdateHeight(Node(m.0, m.1, t.height, t.left, right')));
      Bst(n) && KeySet(n) == KeySet(t.left) + KeySet(t.right)
      && Pairs(n) == Pairs(t.left) + Pairs(t.right)
  {
    var m := MinItem(t.right);
    MinItemIsLeast(t.right);
    forall x | x in KeySet(t.left)
      ensures Less(x, m.0)
    {
      LessTransitive(x, t.key, m.0);
    }
    forall x | x in KeySet(right')
      ensures Less(m.0, x)
    {
      assert x in KeySet(t.right) && x != m.0;
    }
    var n := UpdateHeight(Node(m.0, m.1, t.height, t.left, right'));
    assert Bst(n);
    assert KeySet(n) == KeySet(t.left) + KeySet(t.right);
    MinRestored(t.right);
    assert Pairs(n) == Pairs(t.left) + Pairs(t.right);
    BalancePreservesBst(n);
  }

  /** Putting the least entry back after taking its key out restores the entries. */
  lemma MinRestored(t: Tree)
    requires t.Node? && Bst(t)
    ensures WithoutKey(Pairs(t), MinItem(t).0) + {MinItem(t)} == Pairs(t)
  {
    var m := MinItem(t);
    forall p | p in Pairs(t) && p.0 == m.0
      ensures p == m
    {
      PairsFunctional(t, m.0, p.1, m.1);
    }
  }

  /**
   * Removal from a balanced tree with correct heights gives a balanced tree
   * with correct heights that is at most one lower.
   */
  lemma {:induction false} RemoveAvl(t: Tree, k: Key)
    requires HeightsOk(t) && Balanced(t)
    ensures var t' := Remove(t, k).0;
      HeightsOk(t') && Balanced(t') && Height(t) - 1 <= Height(t') <= Height(t)
    decreases t, 1
  {
    match t
    case Nil =>
    case Node(key, _, _, left, right) =>
      if key == k {
        RemoveNodeAvl(t);
      } else if Less(key, k) {
        RemoveAvl(right, k);
        var (right', removed) := Remove(right, k);
        if removed {
          BalanceRestoresAvl(UpdateHeight(t.(right := right')));
        }
      } else {
        RemoveAvl(left, k);
        var (left', removed) := Remove(left, k);
        if removed {
          BalanceRestoresAvl(UpdateHeight(t.(left := left')));
        }
      }
  }

  lemma {:induction false} RemoveNodeAvl(t: Tree)
    requires t.Node? && HeightsOk(t) && Balanced(t)
    ensures var t' := RemoveNode(t);
      HeightsOk(t') && Balanced(t') && Height(t) - 1 <= Height(t') <= Height(t)
    decreases t, 0
  {
    if !IsLeaf(t) && NumChildren(t) != 1 {
      var m := MinItem(t.right);
      RemoveAvl(t.right, m.0);
      var right' := Remove(t.right, m.0).0;
      BalanceRestoresAvl(UpdateHeight(Node(m.0, m.1, t.height, t.left, right')));
    }
  }

  lemma RemovePreservesAvl(t: Tree, k: Key)
    requires IsAvl(t)
    ensures IsAvl(Remove(t, k).0)
  {
    RemoveBst(t, k);
    RemoveAvl(t, k);
  }

  // ---------------------------------------------------------------------
  // The two-children case as written

  /**
   * `int newValue = smallestInRight->value;` followed by the store back into
   * a `size_t`: the value keeps its low 32 bits, read as a signed `int` and
   * sign-extended to 64 bits.
   */
  function ThroughInt(v: Value): (w: Value)
    ensures w % 0x1_0000_0000 == v % 0x1_0000_0000
    ensures v < 0x8000_0000 ==> w == v
    ensures 0x1_0000_0000 <= v < 0x1_8000_0000 ==> w == v - 0x1_0000_0000
  {
    var low := v % 0x1_0000_0000;
    if low < 0x8000_0000 then low else low + 0xFFFF_FFFF_0000_0000
  }

  /**
   * `remove(root, k)` when the root holds `k` and has two children, as the
   * code is written: the successor's key is removed by a new search from the
   * root, which rebalances the root's slot, and the node that then occupies
   * the slot is overwritten with the successor's key and its value passed
   * through an `int`, and is rebalanced once more. Resetting the height to
   * its own cached value is a no-op.
   */
  function RemoveRootAsWritten(t: Tree): (r: Tree)
    requires t.Node? && NumChildren(t) == 2
    ensures r.Node?
    ensures KeySet(r) <= KeySet(t)
  {
    var m := MinItem(t.right);
    var t1 := Remove(t, m.0).0;
    assert |Items(t1)| >= 2;
    Balance(t1.(key := m.0, value := ThroughInt(m.1)))
  }
}
