/**
 * Insertion: `addNode` descends to the null slot where the key belongs,
 * places a fresh node there, and on the way back up recomputes the height of
 * each node on the path and rebalances it. A key already present stops the
 * descent and leaves the tree exactly as it was.
 */
module Insertion {
  import opened KeyOrder
  import opened AvlNode
  import opened Rebalance

  /**
   * `addNode(new AVLNode(k, v), slot)`: the new subtree root, and whether a
   * node was added.
   */
  function Insert(t: Tree, k: Key, v: Value): (r: (Tree, bool))
    ensures r.0.Node?
    ensures KeySet(r.0) == KeySet(t) + {k}
    ensures r.1 ==> Pairs(r.0) == Pairs(t) + {(k, v)} && |Items(r.0)| == |Items(t)| + 1
    ensures !r.1 ==> r.0 == t
  {
    match t
    case Nil => (NewNode(k, v), true)
    case Node(key, _, _, left, right) =>
      if k == key then
        (t, false)
      else if Less(key, k) then
        var (right', inserted) := Insert(right, k, v);
        if !inserted then (t, false)
        else (Balance(UpdateHeight(t.(right := right'))), true)
      else
        var (left', inserted) := Insert(left, k, v);
        if !inserted then (t, false)
        else (Balance(UpdateHeight(t.(left := left'))), true)
  }

  /**
   * On a search tree, insertion succeeds exactly when the key is absent and
   * keeps the search order.
   */
  lemma {:induction false} InsertBst(t: Tree, k: Key, v: Value)
    requires Bst(t)
    ensures Bst(Insert(t, k, v).0)
    ensures Insert(t, k, v).1 <==> k !in KeySet(t)
  {
    match t
    case Nil =>
    case Node(key, _, _, left, right) =>
      if k != key {
        LessTotal(k, key);
        if Less(key, k) {
          InsertBst(right, k, v);
          if k in KeySet(left) {
            LessAsymmetric(k, key);
          }
          var (right', inserted) := Insert(right, k, v);
          if inserted {
            BalancePreservesBst(UpdateHeight(t.(right := right')));
          }
        } else {
          InsertBst(left, k, v);
          if k in KeySet(right) {
            LessAsymmetric(key, k);
          }
          var (left', inserted) := Insert(left, k, v);
          if inserted {
            BalancePreservesBst(UpdateHeight(t.(left := left')));
          }
        }
      }
  }

  /**
   * Insertion into a balanced tree with correct heights gives a balanced tree
   * with correct heights that is at most one higher.
   */
  lemma {:induction false} InsertAvl(t: Tree, k: Key, v: Value)
    requires HeightsOk(t) && Balanced(t)
    ensures var t' := Insert(t, k, v).0;
      HeightsOk(t') && Balanced(t') && Height(t) <= Height(t') <= Height(t) + 1
  {
    match t
    case Nil =>
    case Node(key, _, _, left, right) =>
      if k != key {
        if Less(key, k) {
          InsertAvl(right, k, v);
          var (right', inserted) := Insert(right, k, v);
          if inserted {
            BalanceRestoresAvl(UpdateHeight(t.(right := right')));
          }
        } else {
          InsertAvl(left, k, v);
          var (left', inserted) := Insert(left, k, v);
          if inserted {
            BalanceRestoresAvl(UpdateHeight(t.(left := left')));
          }
        }
      }
  }

  lemma InsertPreservesAvl(t: Tree, k: Key, v: Value)
    requires IsAvl(t)
    ensures IsAvl(Insert(t, k, v).0)
  {
    InsertBst(t, k, v);
    InsertAvl(t, k, v);
  }
}
