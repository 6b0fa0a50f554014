/**
 * The node of the AVL tree and the invariants the tree keeps over its nodes.
 *
 * A C++ `AVLNode*` becomes a `Tree`: `Nil` for `nullptr`, `Node` for a node
 * that exclusively owns its two subtrees. Besides the operations of the node
 * itself, this module defines the abstract views the rest of the model states
 * its contracts in: the in-order sequence of entries, the set of entries, the
 * set of keys, and the three invariants (search order, cached heights, balance).
 */
module AvlNode {
  import opened KeyOrder

  /** `size_t`, 64 bits wide. */
  type Value = v: int | 0 <= v < 0x1_0000_0000_0000_0000

  datatype Tree =
    | Nil
    | Node(key: Key, value: Value, height: nat, left: Tree, right: Tree)

  function Max(a: int, b: int): int {
    if a < b then b else a
  }

  /** The constructor `AVLNode(key, value)`: a childless node of height 0. */
  function NewNode(k: Key, v: Value): (t: Tree)
    ensures t.Node? && t.key == k && t.value == v && t.height == 0
    ensures IsLeaf(t)
    ensures IsAvl(t) && Items(t) == [(k, v)] && KeySet(t) == {k}
  {
    Node(k, v, 0, Nil, Nil)
  }

  /** `numChildren`: how many of the two child links are non-null. */
  function NumChildren(t: Tree): (n: nat)
    requires t.Node?
    ensures n <= 2
    ensures n == 2 <==> t.left.Node? && t.right.Node?
  {
    (if t.left.Node? then 1 else 0) + (if t.right.Node? then 1 else 0)
  }

  /** `isLeaf`. */
  function IsLeaf(t: Tree): (b: bool)
    requires t.Node?
    ensures b <==> NumChildren(t) == 0
  {
    t.left.Nil? && t.right.Nil?
  }

  /** The static `AVLNode::getHeight`: -1 for a null subtree, else the cached height. */
  function Height(t: Tree): (h: int)
    ensures h >= -1
    ensures h == -1 <==> t.Nil?
  {
    if t.Nil? then -1 else t.height
  }

  /** `updateHeight`: recompute a node's cached height from its children's cached heights. */
  function UpdateHeight(t: Tree): (r: Tree)
    requires t.Node?
    ensures r.Node? && r.key == t.key && r.value == t.value
    ensures r.left == t.left && r.right == t.right
    ensures HeightsOk(t.left) && HeightsOk(t.right) ==> HeightsOk(r)
  {
    t.(height := 1 + Max(Height(t.left), Height(t.right)))
  }

  // ---------------------------------------------------------------------
  // Abstract views

  /** The entries in in-order (left, node, right) order. */
  function Items(t: Tree): seq<(Key, Value)> {
    match t
    case Nil => []
    case Node(k, v, _, l, r) => Items(l) + [(k, v)] + Items(r)
  }

  /** The entries as a set. */
  function Pairs(t: Tree): set<(Key, Value)> {
    match t
    case Nil => {}
    case Node(k, v, _, l, r) => Pairs(l) + {(k, v)} + Pairs(r)
  }

  /** The keys stored anywhere in the tree. */
  function KeySet(t: Tree): set<Key> {
    match t
    case Nil => {}
    case Node(k, _, _, l, r) => KeySet(l) + {k} + KeySet(r)
  }

  /** The entries of `ps` whose key is not `k`. */
  function WithoutKey(ps: set<(Key, Value)>, k: Key): set<(Key, Value)> {
    set p | p in ps && p.0 != k
  }

  /** The number of edges on the longest downward path: what a node's height means. */
  function Depth(t: Tree): int {
    match t
    case Nil => -1
    case Node(_, _, _, l, r) => 1 + Max(Depth(l), Depth(r))
  }

  // ---------------------------------------------------------------------
  // Invariants

  /** Search order: left keys sort before the node's key, right keys after it. */
  predicate Bst(t: Tree) {
    match t
    case Nil => true
    case Node(k, _, _, l, r) =>
      && Bst(l) && Bst(r)
      && (forall x :: x in KeySet(l) ==> Less(x, k))
      && (forall x :: x in KeySet(r) ==> Less(k, x))
  }

  /** Every cached height is what `updateHeight` would compute. */
  predicate HeightsOk(t: Tree) {
    match t
    case Nil => true
    case Node(_, _, h, l, r) => h == 1 + Max(Height(l), Height(r)) && HeightsOk(l) && HeightsOk(r)
  }

  /** The AVL bound: at every node the children's heights differ by at most one. */
  predicate Balanced(t: Tree) {
    match t
    case Nil => true
    case Node(_, _, _, l, r) => -1 <= Height(l) - Height(r) <= 1 && Balanced(l) && Balanced(r)
  }

  predicate IsAvl(t: Tree) {
    Bst(t) && HeightsOk(t) && Balanced(t)
  }

  // ---------------------------------------------------------------------
  // Facts about the views

  /** With correct caches, a node's height is the number of hops to its deepest leaf. */
  lemma {:induction false} CachedHeightIsDepth(t: Tree)
    requires HeightsOk(t)
    ensures Height(t) == Depth(t)
  {
    if t.Node? {
      CachedHeightIsDepth(t.left);
      CachedHeightIsDepth(t.right);
    }
  }

  lemma {:induction false} PairKeysInKeySet(t: Tree)
    ensures forall p :: p in Pairs(t) ==> p.0 in KeySet(t)
  {
    if t.Node? {
      PairKeysInKeySet(t.left);
      PairKeysInKeySet(t.right);
    }
  }

  /** Removing an absent key removes no entry. */
  lemma WithoutAbsentKey(t: Tree, k: Key)
    requires k !in KeySet(t)
    ensures WithoutKey(Pairs(t), k) == Pairs(t)
  {
  }

  /** In a search tree each key carries one value. */
  lemma {:induction false} PairsFunctional(t: Tree, k: Key, v1: Value, v2: Value)
    requires Bst(t) && (k, v1) in Pairs(t) && (k, v2) in Pairs(t)
    ensures v1 == v2
  {
    match t
    case Node(key, _, _, l, r) =>
      PairKeysInKeySet(l);
      PairKeysInKeySet(r);
      LessIrreflexive(k);
      if (k, v1) in Pairs(l) || (k, v2) in Pairs(l) {
        if Less(k, key) {
          LessAsymmetric(k, key);
        }
        if (k, v1) in Pairs(l) && (k, v2) in Pairs(l) {
          PairsFunctional(l, k, v1, v2);
        }
      } else if (k, v1) in Pairs(r) || (k, v2) in Pairs(r) {
        if Less(key, k) {
          LessAsymmetric(key, k);
        }
        if (k, v1) in Pairs(r) && (k, v2) in Pairs(r) {
          PairsFunctional(r, k, v1, v2);
        }
      }
  }

  /** In a search tree no key is stored twice: there are as many entries as keys. */
  lemma {:induction false} KeyCount(t: Tree)
    requires Bst(t)
    ensures |Items(t)| == |KeySet(t)|
  {
    match t
    case Nil =>
    case Node(k, _, _, l, r) =>
      KeyCount(l);
      KeyCount(r);
      LessIrreflexive(k);
      forall x | x in KeySet(l) ensures x !in KeySet(r) {
        if x in KeySet(r) {
          LessAsymmetric(x, k);
        }
      }
      var lk := KeySet(l) + {k};
      assert k !in KeySet(l);
      assert |lk| == |KeySet(l)| + 1;
      assert lk !! KeySet(r) by { assert k !in KeySet(r); }
      assert |lk + KeySet(r)| == |lk| + |KeySet(r)|;
  }
}
