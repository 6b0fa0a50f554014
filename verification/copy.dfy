/**
 * Deep copy: `cloneTree` rebuilds the tree node by node in pre-order. Each
 * copy is made with the node constructor, which sets the height to 0, and the
 * height is never recomputed, so a copy has the source's shape, keys and
 * values but every cached height is 0. `CloneKeepingHeights` is the copy the
 * code is evidently meant to make.
 *
 * In this value model a copy shares nothing with its source by construction:
 * no later operation on one can change the other.
 */
module Copy {
  import opened AvlNode

  /** Same shape, keys and values at every position; heights may differ. */
  predicate SameButHeights(a: Tree, b: Tree) {
    match a
    case Nil => b.Nil?
    case Node(k, v, _, l, r) =>
      b.Node? && b.key == k && b.value == v && SameButHeights(l, b.left) && SameButHeights(r, b.right)
  }

  /** Every node's cached height is 0. */
  predicate ZeroHeights(t: Tree) {
    match t
    case Nil => true
    case Node(_, _, h, l, r) => h == 0 && ZeroHeights(l) && ZeroHeights(r)
  }

  /** `cloneTree(slot, other)`, as written. */
  function Clone(t: Tree): (c: Tree)
    ensures SameButHeights(c, t) && ZeroHeights(c)
    ensures Items(c) == Items(t) && Pairs(c) == Pairs(t) && KeySet(c) == KeySet(t)
    ensures Bst(t) ==> Bst(c)
  {
    match t
    case Nil => Nil
    case Node(k, v, _, l, r) => Node(k, v, 0, Clone(l), Clone(r))
  }

  /** A clone that also copies each cached height: it equals its source. */
  function CloneKeepingHeights(t: Tree): (c: Tree)
    ensures c == t
  {
    match t
    case Nil => Nil
    case Node(k, v, h, l, r) => Node(k, v, h, CloneKeepingHeights(l), CloneKeepingHeights(r))
  }

  /** A copy of any tree with two or more levels has wrong cached heights. */
  lemma CloneBreaksHeights(t: Tree)
    requires HeightsOk(t) && Height(t) >= 1
    ensures !HeightsOk(Clone(t))
    ensures Height(Clone(t)) == 0 && Height(t) != 0
  {
  }
}
