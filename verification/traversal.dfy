/**
 * In-order walks: `keys` (through `addKeys`) lists every key, and
 * `findRange` (through `addKeysRange`) lists the values of the keys between
 * two inclusive bounds, skipping the subtrees the bounds rule out.
 */
module Traversal {
  import opened KeyOrder
  import opened AvlNode

  /** `addKeys`: left subtree, the node's key, right subtree. */
  function Keys(t: Tree): (ks: seq<Key>)
    ensures |ks| == |Items(t)|
    ensures forall i :: 0 <= i < |ks| ==> ks[i] == Items(t)[i].0
  {
    match t
    case Nil => []
    case Node(k, _, _, l, r) => Keys(l) + [k] + Keys(r)
  }

  /** Every key sorts strictly before every later one: ascending, no key twice. */
  predicate StrictlyAscending(ks: seq<Key>) {
    forall i, j :: 0 <= i < j < |ks| ==> Less(ks[i], ks[j])
  }

  /** `lo <= k && k <= hi`, the test `addKeysRange` applies to a node's key. */
  predicate InRange(k: Key, lo: Key, hi: Key) {
    LessEq(lo, k) && LessEq(k, hi)
  }

  /**
   * `addKeysRange(root, hi, lo, values)`: a node inside the bounds
   * contributes its left subtree, its value and its right subtree; a node
   * below `lo` only its right subtree; a node above `hi` only its left.
   */
  function FindRange(t: Tree, lo: Key, hi: Key): (vs: seq<Value>)
    ensures |vs| <= |Items(t)|
  {
    match t
    case Nil => []
    case Node(k, v, _, l, r) =>
      if InRange(k, lo, hi) then FindRange(l, lo, hi) + [v] + FindRange(r, lo, hi)
      else if Less(k, lo) then FindRange(r, lo, hi)
      else if Less(hi, k) then FindRange(l, lo, hi)
      else []
  }

  /** The reference for a range query: the values of the in-range entries, in the order given. */
  function ValuesInRange(items: seq<(Key, Value)>, lo: Key, hi: Key): seq<Value> {
    if |items| == 0 then []
    else (if InRange(items[0].0, lo, hi) then [items[0].1] else []) + ValuesInRange(items[1..], lo, hi)
  }

  // ---------------------------------------------------------------------
  // Keys

  lemma {:induction false} KeysAreKeySet(t: Tree)
    ensures forall x :: x in Keys(t) <==> x in KeySet(t)
  {
    if t.Node? {
      KeysAreKeySet(t.left);
      KeysAreKeySet(t.right);
    }
  }

  lemma AscendingJoin(a: seq<Key>, k: Key, b: seq<Key>)
    requires StrictlyAscending(a) && StrictlyAscending(b)
    requires forall x :: x in a ==> Less(x, k)
    requires forall y :: y in b ==> Less(k, y)
    ensures StrictlyAscending(a + [k] + b)
  {
    var s := a + [k] + b;
    forall i, j | 0 <= i < j < |s|
      ensures Less(s[i], s[j])
    {
      if j < |a| {
      } else if i > |a| {
        assert s[i] == b[i - |a| - 1] && s[j] == b[j - |a| - 1];
      } else if i == |a| {
        assert s[j] in b;
      } else if j == |a| {
        assert s[i] in a;
      } else {
        assert s[i] in a && s[j] in b;
        LessTransitive(s[i], k, s[j]);
      }
    }
  }

  /** On a search tree `keys()` lists every stored key once, in ascending order. */
  lemma {:induction false} KeysAscending(t: Tree)
    requires Bst(t)
    ensures StrictlyAscending(Keys(t))
    ensures forall x :: x in Keys(t) <==> x in KeySet(t)
  {
    KeysAreKeySet(t);
    if t.Node? {
      KeysAscending(t.left);
      KeysAscending(t.right);
      AscendingJoin(Keys(t.left), t.key, Keys(t.right));
    }
  }

  // ---------------------------------------------------------------------
  // Range query

  lemma {:induction false} ValuesInRangeAppend(a: seq<(Key, Value)>, b: seq<(Key, Value)>, lo: Key, hi: Key)
    ensures ValuesInRange(a + b, lo, hi) == ValuesInRange(a, lo, hi) + ValuesInRange(b, lo, hi)
    decreases |a|
  {
    if |a| > 0 {
      ValuesInRangeAppend(a[1..], b, lo, hi);
      assert (a + b)[1..] == a[1..] + b;
    } else {
      assert a + b == b;
    }
  }

  /** A subtree none of whose keys lies within the bounds contributes nothing. */
  lemma {:induction false} NothingInRange(t: Tree, lo: Key, hi: Key)
    requires forall x :: x in KeySet(t) ==> !InRange(x, lo, hi)
    ensures ValuesInRange(Items(t), lo, hi) == []
  {
    if t.Node? {
      NothingInRange(t.left, lo, hi);
      NothingInRange(t.right, lo, hi);
      ValuesInRangeAppend(Items(t.left) + [(t.key, t.value)], Items(t.right), lo, hi);
      ValuesInRangeAppend(Items(t.left), [(t.key, t.value)], lo, hi);
    }
  }

  /**
   * On a search tree, the pruned walk returns exactly the values whose keys
   * lie within the bounds, in ascending key order.
   */
  lemma {:induction false} FindRangeMatchesFilter(t: Tree, lo: Key, hi: Key)
    requires Bst(t)
    ensures FindRange(t, lo, hi) == ValuesInRange(Items(t), lo, hi)
  {
    match t
    case Nil =>
    case Node(k, v, _, l, r) =>
      FindRangeMatchesFilter(l, lo, hi);
      FindRangeMatchesFilter(r, lo, hi);
      NodeValuesInRange(t, lo, hi);
      LessTotal(k, lo);
      LessTotal(k, hi);
      if InRange(k, lo, hi) {
      } else if Less(k, lo) {
        BelowLowerBound(t, lo, hi);
      } else if Less(hi, k) {
        AboveUpperBound(t, lo, hi);
      }
  }

  /** The reference selection on a node splits at the node's entry. */
  lemma NodeValuesInRange(t: Tree, lo: Key, hi: Key)
    requires t.Node?
    ensures ValuesInRange(Items(t), lo, hi)
      == ValuesInRange(Items(t.left), lo, hi)
         + (if InRange(t.key, lo, hi) then [t.value] else [])
         + ValuesInRange(Items(t.right), lo, hi)
  {
    ValuesInRangeAppend(Items(t.left) + [(t.key, t.value)], Items(t.right), lo, hi);
    ValuesInRangeAppend(Items(t.left), [(t.key, t.value)], lo, hi);
  }

  /** Below `lo`, a search tree's left subtree lies wholly out of range. */
  lemma BelowLowerBound(t: Tree, lo: Key, hi: Key)
    requires t.Node? && Bst(t) && Less(t.key, lo)
    ensures ValuesInRange(Items(t.left), lo, hi) == []
  {
    forall x | x in KeySet(t.left)
      ensures !InRange(x, lo, hi)
    {
      LessTransitive(x, t.key, lo);
      LessAsymmetric(x, lo);
    }
    NothingInRange(t.left, lo, hi);
  }

  /** Above `hi`, a search tree's right subtree lies wholly out of range. */
  lemma AboveUpperBound(t: Tree, lo: Key, hi: Key)
    requires t.Node? && Bst(t) && Less(hi, t.key)
    ensures ValuesInRange(Items(t.right), lo, hi) == []
  {
    forall x | x in KeySet(t.right)
      ensures !InRange(x, lo, hi)
    {
      LessTransitive(hi, t.key, x);
      LessAsymmetric(hi, x);
    }
    NothingInRange(t.right, lo, hi);
  }

  /** Bounds the wrong way round (`hi < lo`) select nothing. */
  lemma FindRangeInvertedIsEmpty(t: Tree, lo: Key, hi: Key)
    requires Bst(t) && Less(hi, lo)
    ensures FindRange(t, lo, hi) == []
  {
    forall x | x in KeySet(t)
      ensures !InRange(x, lo, hi)
    {
      if InRange(x, lo, hi) {
        // lo <= x <= hi would make lo <= hi
        if Less(lo, x) && Less(x, hi) {
          LessTransitive(lo, x, hi);
        }
        LessAsymmetric(hi, lo);
        LessIrreflexive(lo);
      }
    }
    FindRangeMatchesFilter(t, lo, hi);
    NothingInRange(t, lo, hi);
  }
}
