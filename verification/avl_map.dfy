/**
 * The `AVLTree` object: the root slot and the `numNodes` counter, with the
 * public operations. Each public operation delegates to the recursive helper
 * on the root slot, as the C++ class does.
 *
 * `Valid` is what the public operations are meant to keep: an AVL search tree
 * with correct cached heights, and a counter equal to the number of nodes.
 * `remove` does not keep it, because it never decrements `numNodes`;
 * `RemoveCounted` is the removal with the decrement.
 */
module AvlMap {
  import opened KeyOrder
  import opened Wrappers
  import opened AvlNode
  import Insertion
  import Removal
  import Lookup
  import Traversal
  import Copy

  datatype AvlTree = AvlTree(root: Tree, numNodes: nat)

  predicate Valid(m: AvlTree) {
    IsAvl(m.root) && m.numNodes == |Items(m.root)|
  }

  /** The default constructor. */
  function Empty(): (m: AvlTree)
    ensures Valid(m) && Keys(m) == [] && GetHeight(m) == -1
  {
    AvlTree(Nil, 0)
  }

  /** `insert(k, v)`: counts the new node only when one was added. */
  function Insert(m: AvlTree, k: Key, v: Value): (r: (AvlTree, bool))
    ensures r.1 ==> r.0.numNodes == m.numNodes + 1
    ensures !r.1 ==> r.0 == m
  {
    var (root', inserted) := Insertion.Insert(m.root, k, v);
    if inserted then (AvlTree(root', m.numNodes + 1), true) else (m, false)
  }

  /**
   * `remove(k)` as written for the counter, which is left as it was; the
   * two-children step is the corrected one (see `Removal.RemoveNode`).
   */
  function Remove(m: AvlTree, k: Key): (r: (AvlTree, bool))
    ensures r.0.numNodes == m.numNodes
    ensures !r.1 ==> r.0 == m
  {
    var (root', removed) := Removal.Remove(m.root, k);
    (AvlTree(root', m.numNodes), removed)
  }

  /**
   * `remove(k)` with the decrement the counter needs, and with the corrected
   * two-children step of `Removal.RemoveNode`. A counter of 0 with a node to
   * remove only arises from an invalid tree; it is left at 0.
   */
  function RemoveCounted(m: AvlTree, k: Key): (r: (AvlTree, bool))
    ensures r.1 && m.numNodes > 0 ==> r.0.numNodes == m.numNodes - 1
    ensures !r.1 ==> r.0 == m
  {
    var (root', removed) := Removal.Remove(m.root, k);
    if !removed then (m, false)
    else if m.numNodes > 0 then (AvlTree(root', m.numNodes - 1), true)
    else (AvlTree(root', 0), true)
  }

  /** `contains(k)`: whether `get(k)` finds a value. */
  function Contains(m: AvlTree, k: Key): (b: bool)
    ensures b <==> Get(m, k).Some?
  {
    Lookup.Contains(m.root, k)
  }

  /** `get(k)`: a value it returns is stored under `k`. */
  function Get(m: AvlTree, k: Key): (r: Option<Value>)
    ensures r.Some? ==> (k, r.value) in Pairs(m.root)
  {
    Lookup.Get(m.root, k)
  }

  /** Reading through `operator[]`: the value `get(k)` finds, or the key-not-found error (`std::invalid_argument`). */
  function At(m: AvlTree, k: Key): (r: Result<Value, Lookup.Error>)
    ensures r.Success? <==> Contains(m, k)
    ensures r.Success? ==> Get(m, k) == Some(r.value)
  {
    Lookup.At(m.root, k)
  }

  /**
   * Writing through `operator[]`: only a stored key can be written; the
   * value under it changes, every other lookup and the counter do not.
   */
  function AssignAt(m: AvlTree, k: Key, v: Value): (r: Result<AvlTree, Lookup.Error>)
    ensures r.Success? <==> Contains(m, k)
    ensures r.Success? ==> r.value.numNodes == m.numNodes && Get(r.value, k) == Some(v)
    ensures r.Success? ==> forall j :: j != k ==> Get(r.value, j) == Get(m, j)
  {
    match Lookup.AssignAt(m.root, k, v)
    case Failure(e) => Failure(e)
    case Success(root') => Success(m.(root := root'))
  }

  /** `findRange(lo, hi)`: never more values than there are nodes. */
  function FindRange(m: AvlTree, lo: Key, hi: Key): (vs: seq<Value>)
    ensures |vs| <= |Items(m.root)|
  {
    Traversal.FindRange(m.root, lo, hi)
  }

  /** `keys()`: the key of each entry, in in-order position. */
  function Keys(m: AvlTree): (ks: seq<Key>)
    ensures |ks| == |Items(m.root)|
    ensures forall i :: 0 <= i < |ks| ==> ks[i] == Items(m.root)[i].0
  {
    Traversal.Keys(m.root)
  }

  /** `size()`: the counter, which is the number of nodes while the object is valid. */
  function Size(m: AvlTree): (n: nat)
    ensures Valid(m) ==> n == |Items(m.root)|
  {
    m.numNodes
  }

  /** `getHeight()`: the root's cached height, -1 exactly for an empty tree. */
  function GetHeight(m: AvlTree): (h: int)
    ensures h >= -1
    ensures h == -1 <==> m.root.Nil?
  {
    Height(m.root)
  }

  /** The copy constructor: the counter is copied and the nodes cloned. */
  function CopyOf(other: AvlTree): (m: AvlTree)
    ensures Keys(m) == Keys(other) && Size(m) == Size(other)
    ensures Copy.SameButHeights(m.root, other.root) && Copy.ZeroHeights(m.root)
  {
    AvlTree(Copy.Clone(other.root), other.numNodes)
  }

  /**
   * The copy constructor with heights copied too: the copy is valid whenever
   * its source is, and reports the same height.
   */
  function CopyKeepingHeights(other: AvlTree): (m: AvlTree)
    ensures Keys(m) == Keys(other) && Size(m) == Size(other) && GetHeight(m) == GetHeight(other)
    ensures forall k :: Get(m, k) == Get(other, k)
    ensures Valid(other) ==> Valid(m)
  {
    AvlTree(Copy.CloneKeepingHeights(other.root), other.numNodes)
  }

  /**
   * `operator=`: the destination's own nodes are released and it becomes a
   * copy of `other`; nothing of the old destination survives.
   */
  function Assign(dest: AvlTree, other: AvlTree): (m: AvlTree)
    ensures Keys(m) == Keys(other) && Size(m) == Size(other)
    ensures Copy.SameButHeights(m.root, other.root) && Copy.ZeroHeights(m.root)
    ensures forall k :: Get(m, k) == Get(other, k)
  {
    CopyLookups(other);
    CopyOf(other)
  }

  // ---------------------------------------------------------------------
  // Helpers

  /** Two search trees with the same entries under `j` give the same answer to `get(j)`. */
  lemma SameEntriesSameGet(t1: Tree, t2: Tree, j: Key)
    requires Bst(t1) && Bst(t2)
    requires forall v :: (j, v) in Pairs(t1) <==> (j, v) in Pairs(t2)
    ensures Lookup.Get(t1, j) == Lookup.Get(t2, j)
  {
    Lookup.GetFindsStoredValue(t1, j);
    Lookup.GetFindsStoredValue(t2, j);
    if Lookup.Get(t2, j).Some? {
      assert (j, Lookup.Get(t2, j).value) in Pairs(t1);
    }
  }

  /** Two ascending key listings with the same keys are the same listing. */
  lemma {:induction false} AscendingUnique(a: seq<Key>, b: seq<Key>)
    requires Traversal.StrictlyAscending(a) && Traversal.StrictlyAscending(b)
    requires forall x :: x in a <==> x in b
    ensures a == b
    decreases |a|
  {
    if |a| > 0 {
      assert a[0] in a;
    }
    if |b| > 0 {
      assert b[0] in b;
    }
    if |a| > 0 && |b| > 0 {
      assert a[0] in b && b[0] in a;
      assert a[0] == b[0] by {
        if a[0] != b[0] {
          var i :| 0 <= i < |a| && a[i] == b[0];
          var j :| 0 <= j < |b| && b[j] == a[0];
          LessAsymmetric(a[0], b[0]);
        }
      }
      LessIrreflexive(a[0]);
      forall x
        ensures x in a[1..] <==> x in b[1..]
      {
        if x in a[1..] {
          var i :| 1 <= i < |a| && a[i] == x;
          assert x in a;
          var j :| 0 <= j < |b| && b[j] == x;
          assert j != 0;
          assert b[1..][j - 1] == x;
        }
        if x in b[1..] {
          var j :| 1 <= j < |b| && b[j] == x;
          assert x in b;
          var i :| 0 <= i < |a| && a[i] == x;
          assert i != 0;
          assert a[1..][i - 1] == x;
        }
      }
      AscendingUnique(a[1..], b[1..]);
      assert a == [a[0]] + a[1..] && b == [b[0]] + b[1..];
    }
  }

  /** Copying keeps every entry, so every lookup answers as on the source. */
  lemma CopyLookups(other: AvlTree)
    ensures forall k :: Get(CopyOf(other), k) == Get(other, k)
  {
    forall k
      ensures Get(CopyOf(other), k) == Get(other, k)
    {
      CloneGet(other.root, k);
    }
  }

  /** `get` follows the same path through a clone as through its source. */
  lemma {:induction false} CloneGet(t: Tree, k: Key)
    ensures Lookup.Get(Copy.Clone(t), k) == Lookup.Get(t, k)
  {
    if t.Node? {
      CloneGet(t.left, k);
      CloneGet(t.right, k);
    }
  }

  // ---------------------------------------------------------------------
  // Properties of the public operations

  /**
   * `insert` succeeds exactly when the key is absent; then the map gains
   * exactly `k -> v` and the counter grows by one. A duplicate leaves
   * everything as it was.
   */
  lemma InsertKeepsValid(m: AvlTree, k: Key, v: Value)
    requires Valid(m)
    ensures var (m', inserted) := Insert(m, k, v);
      && Valid(m')
      && (inserted <==> !Contains(m, k))
      && Get(m', k) == (if inserted then Some(v) else Get(m, k))
      && (forall j :: j != k ==> Get(m', j) == Get(m, j))
      && Size(m') == Size(m) + (if inserted then 1 else 0)
  {
    Insertion.InsertPreservesAvl(m.root, k, v);
    Insertion.InsertBst(m.root, k, v);
    Lookup.GetFindsStoredValue(m.root, k);
    var (root', inserted) := Insertion.Insert(m.root, k, v);
    if inserted {
      Lookup.GetFindsStoredValue(root', k);
      forall j | j != k
        ensures Get(Insert(m, k, v).0, j) == Get(m, j)
      {
        SameEntriesSameGet(root', m.root, j);
      }
    }
  }

  /**
   * With the decrement and the corrected two-children step, removal
   * succeeds exactly when the key is present, takes out exactly that key,
   * keeps every other entry, and keeps the tree valid.
   */
  lemma RemoveCountedKeepsValid(m: AvlTree, k: Key)
    requires Valid(m)
    ensures var (m', removed) := RemoveCounted(m, k);
      && Valid(m')
      && (removed <==> Contains(m, k))
      && !Contains(m', k)
      && (forall j :: j != k ==> Get(m', j) == Get(m, j))
      && Size(m') == Size(m) - (if removed then 1 else 0)
  {
    Removal.RemovePreservesAvl(m.root, k);
    Removal.RemoveBst(m.root, k);
    Lookup.GetFindsStoredValue(m.root, k);
    var (root', removed) := Removal.Remove(m.root, k);
    Lookup.GetFindsStoredValue(root', k);
    forall j | j != k
      ensures Lookup.Get(root', j) == Get(m, j)
    {
      SameEntriesSameGet(root', m.root, j);
    }
  }

  /** `remove` as written: removing a stored key leaves the counter one too high. */
  lemma RemoveLeavesCountStale(m: AvlTree, k: Key)
    requires Valid(m) && Contains(m, k)
    ensures var (m', removed) := Remove(m, k);
      removed && Size(m') == |Keys(m')| + 1 && !Valid(m')
  {
    Removal.RemoveBst(m.root, k);
    Lookup.GetFindsStoredValue(m.root, k);
  }

  /** `contains`, `get`, `operator[]` and `keys()` agree about which keys are stored. */
  lemma LookupsAgree(m: AvlTree, k: Key)
    requires Valid(m)
    ensures Contains(m, k) <==> Get(m, k).Some?
    ensures Contains(m, k) <==> k in Keys(m)
    ensures At(m, k).Success? <==> Contains(m, k)
    ensures At(m, k).Success? ==> Get(m, k) == Some(At(m, k).value)
    ensures forall v :: Get(m, k) == Some(v) <==> (k, v) in Pairs(m.root)
  {
    Lookup.GetFindsStoredValue(m.root, k);
    Traversal.KeysAreKeySet(m.root);
  }

  /** Writing through `operator[]` changes the value under `k` only, and keeps the tree valid. */
  lemma AssignAtKeepsValid(m: AvlTree, k: Key, v: Value)
    requires Valid(m)
    ensures AssignAt(m, k, v).Success? <==> Contains(m, k)
    ensures AssignAt(m, k, v).Success? ==>
      var m' := AssignAt(m, k, v).value;
      && Valid(m') && Keys(m') == Keys(m) && Size(m') == Size(m)
      && Get(m', k) == Some(v) && (forall j :: j != k ==> Get(m', j) == Get(m, j))
  {
    var r := Lookup.AssignAt(m.root, k, v);
    if r.Success? {
      Traversal.KeysAscending(m.root);
      Traversal.KeysAscending(r.value);
      AscendingUnique(Traversal.Keys(r.value), Traversal.Keys(m.root));
      Lookup.GetFindsStoredValue(m.root, k);
      Lookup.GetFindsStoredValue(r.value, k);
      Traversal.KeysAreKeySet(m.root);
    }
  }

  /**
   * `keys()` lists every stored key exactly once, in ascending order, and
   * `size()` equals both its length and the number of distinct stored keys.
   */
  lemma KeysListing(m: AvlTree)
    requires Valid(m)
    ensures Traversal.StrictlyAscending(Keys(m))
    ensures forall k :: k in Keys(m) <==> Contains(m, k)
    ensures Size(m) == |Keys(m)| == |KeySet(m.root)|
  {
    Traversal.KeysAscending(m.root);
    KeyCount(m.root);
    forall k
      ensures k in Keys(m) <==> Contains(m, k)
    {
      Lookup.GetFindsStoredValue(m.root, k);
    }
  }

  /** `getHeight()` is the number of hops from the root to its deepest leaf, -1 when empty. */
  lemma GetHeightIsDepth(m: AvlTree)
    requires Valid(m)
    ensures GetHeight(m) == Depth(m.root)
    ensures GetHeight(m) == -1 <==> Size(m) == 0
  {
    CachedHeightIsDepth(m.root);
  }

  /**
   * `findRange(lo, hi)` returns the values of exactly the keys `lo <= k <= hi`,
   * in ascending key order; nothing when the bounds are the wrong way round.
   */
  lemma FindRangeCorrect(m: AvlTree, lo: Key, hi: Key)
    requires Valid(m)
    ensures FindRange(m, lo, hi) == Traversal.ValuesInRange(Items(m.root), lo, hi)
    ensures Less(hi, lo) ==> FindRange(m, lo, hi) == []
  {
    Traversal.FindRangeMatchesFilter(m.root, lo, hi);
    if Less(hi, lo) {
      Traversal.FindRangeInvertedIsEmpty(m.root, lo, hi);
    }
  }

  /**
   * Inserting an absent key and then removing it (with the decrement and the
   * corrected two-children step) gives back the same keys and entries.
   */
  lemma InsertThenRemove(m: AvlTree, k: Key, v: Value)
    requires Valid(m) && !Contains(m, k)
    ensures var m1 := Insert(m, k, v).0;
      var m2 := RemoveCounted(m1, k).0;
      Keys(m2) == Keys(m) && Pairs(m2.root) == Pairs(m.root) && Size(m2) == Size(m)
  {
    Lookup.GetFindsStoredValue(m.root, k);
    Insertion.InsertBst(m.root, k, v);
    Insertion.InsertPreservesAvl(m.root, k, v);
    var t1 := Insertion.Insert(m.root, k, v).0;
    Removal.RemoveBst(t1, k);
    var t2 := Removal.Remove(t1, k).0;
    WithoutAbsentKey(m.root, k);
    assert WithoutKey(Pairs(m.root) + {(k, v)}, k) == WithoutKey(Pairs(m.root), k);
    Removal.RemovePreservesAvl(t1, k);
    Traversal.KeysAscending(m.root);
    Traversal.KeysAscending(t2);
    AscendingUnique(Traversal.Keys(t2), Traversal.Keys(m.root));
  }

  /**
   * A copy, made by construction or by assignment, has the source's keys,
   * values and counter, but its cached heights are all 0, so `getHeight()`
   * on a copy of a tree of two or more levels differs from the source's.
   */
  lemma CopyMatchesSource(m: AvlTree)
    requires Valid(m)
    ensures var c := CopyOf(m);
      && Keys(c) == Keys(m) && Size(c) == Size(m)
      && (forall k :: Get(c, k) == Get(m, k))
      && (forall lo, hi :: FindRange(c, lo, hi) == FindRange(m, lo, hi))
      && (GetHeight(m) >= 1 ==> GetHeight(c) == 0 && !Valid(c))
  {
    var c := CopyOf(m);
    CopyLookups(m);
    forall lo, hi
      ensures FindRange(c, lo, hi) == FindRange(m, lo, hi)
    {
      Traversal.FindRangeMatchesFilter(m.root, lo, hi);
      Traversal.FindRangeMatchesFilter(c.root, lo, hi);
    }
    if GetHeight(m) >= 1 {
      Copy.CloneBreaksHeights(m.root);
    }
  }
}
