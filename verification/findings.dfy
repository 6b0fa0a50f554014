/**
 * Concrete trees on which the code as written and the corrected model part
 * ways, and the documented insertion scenarios.
 */
module Findings {
  import opened KeyOrder
  import opened Wrappers
  import opened AvlNode
  import Insertion
  import Rebalance
  import Removal
  import Lookup
  import Traversal

  lemma KeysOfLeaf(k: Key, v: Value)
    ensures Traversal.Keys(NewNode(k, v)) == [k]
  {
  }

  /** The tree that inserting "d", "b", "e", "a", "c" into an empty tree builds (values 4, 2, 5, 1, 3). */
  function FiveKeys(): Tree {
    Node("d", 4, 2, Node("b", 2, 1, NewNode("a", 1), NewNode("c", 3)), NewNode("e", 5))
  }

  /** The comparisons the insertion scenarios rely on, for five ascending keys. */
  predicate Ascending5(a: Key, b: Key, c: Key, d: Key, e: Key) {
    Less(a, b) && Less(b, c) && Less(c, d) && Less(d, e)
  }

  lemma Ascending5Facts(a: Key, b: Key, c: Key, d: Key, e: Key)
    requires Ascending5(a, b, c, d, e)
    ensures Less(a, c) && Less(a, d) && Less(b, d) && Less(c, e)
    ensures !Less(b, a) && !Less(c, b) && !Less(d, c) && !Less(e, d)
    ensures !Less(d, a) && !Less(d, b) && !Less(c, a)
    ensures Less(a, e) && Less(b, e)
  {
    LessTransitive(a, b, c);
    LessTransitive(a, c, d);
    LessTransitive(b, c, d);
    LessTransitive(c, d, e);
    LessTransitive(a, d, e);
    LessTransitive(b, d, e);
    LessAsymmetric(a, b);
    LessAsymmetric(b, c);
    LessAsymmetric(c, d);
    LessAsymmetric(d, e);
    LessAsymmetric(a, d);
    LessAsymmetric(b, d);
    LessAsymmetric(a, c);
  }

  // One insertion step each: the key descends, and on the way back up the
  // heights are recomputed and, where a side is two higher, a rotation is made.

  lemma InsertBelowLeaf(k: Key, v: Value, x: Key, w: Value)
    requires Less(x, k)
    ensures Insertion.Insert(NewNode(k, v), x, w).0 == Node(k, v, 1, NewNode(x, w), Nil)
  {
    LessAsymmetric(x, k);
  }

  lemma InsertAboveLeaf(k: Key, v: Value, x: Key, w: Value)
    requires Less(k, x)
    ensures Insertion.Insert(NewNode(k, v), x, w).0 == Node(k, v, 1, Nil, NewNode(x, w))
  {
    LessIrreflexive(k);
  }

  lemma FillRight(k: Key, v: Value, l: Tree, x: Key, w: Value)
    requires Less(k, x) && l.Node? && l.height == 0
    ensures Insertion.Insert(Node(k, v, 1, l, Nil), x, w).0 == Node(k, v, 1, l, NewNode(x, w))
  {
    LessIrreflexive(k);
  }

  lemma FillLeft(k: Key, v: Value, r: Tree, x: Key, w: Value)
    requires Less(x, k) && r.Node? && r.height == 0
    ensures Insertion.Insert(Node(k, v, 1, Nil, r), x, w).0 == Node(k, v, 1, NewNode(x, w), r)
  {
    LessAsymmetric(x, k);
  }

  lemma MiddleFirstFourth(a: Key, b: Key, c: Key, d: Key, e: Key, va: Value, vb: Value, vd: Value, ve: Value)
    requires Ascending5(a, b, c, d, e)
    ensures Insertion.Insert(Node(d, vd, 1, NewNode(b, vb), NewNode(e, ve)), a, va).0
      == Node(d, vd, 2, Node(b, vb, 1, NewNode(a, va), Nil), NewNode(e, ve))
  {
    Ascending5Facts(a, b, c, d, e);
    InsertBelowLeaf(b, vb, a, va);
  }

  lemma MiddleFirstFifth(a: Key, b: Key, c: Key, d: Key, e: Key, va: Value, vb: Value, vc: Value, vd: Value, ve: Value)
    requires Ascending5(a, b, c, d, e)
    ensures Insertion.Insert(Node(d, vd, 2, Node(b, vb, 1, NewNode(a, va), Nil), NewNode(e, ve)), c, vc).0
      == Node(d, vd, 2, Node(b, vb, 1, NewNode(a, va), NewNode(c, vc)), NewNode(e, ve))
  {
    Ascending5Facts(a, b, c, d, e);
    FillRight(b, vb, NewNode(a, va), c, vc);
  }

  /** Inserting the middle, second, last, first and third of five ascending keys needs no rotation. */
  lemma InsertMiddleFirst(a: Key, b: Key, c: Key, d: Key, e: Key, va: Value, vb: Value, vc: Value, vd: Value, ve: Value)
    requires Ascending5(a, b, c, d, e)
    ensures var t1 := Insertion.Insert(Nil, d, vd).0;
      var t2 := Insertion.Insert(t1, b, vb).0;
      var t3 := Insertion.Insert(t2, e, ve).0;
      var t4 := Insertion.Insert(t3, a, va).0;
      Insertion.Insert(t4, c, vc).0 == Node(d, vd, 2, Node(b, vb, 1, NewNode(a, va), NewNode(c, vc)), NewNode(e, ve))
  {
    Ascending5Facts(a, b, c, d, e);
    assert Insertion.Insert(Nil, d, vd).0 == NewNode(d, vd);
    InsertBelowLeaf(d, vd, b, vb);
    FillRight(d, vd, NewNode(b, vb), e, ve);
    MiddleFirstFourth(a, b, c, d, e, va, vb, vd, ve);
    MiddleFirstFifth(a, b, c, d, e, va, vb, vc, vd, ve);
  }

  /** A third ascending key below a right-leaning pair: one left rotation. */
  lemma RotateThird(a: Key, b: Key, c: Key, va: Value, vb: Value, vc: Value)
    requires Less(a, b) && Less(b, c)
    ensures Insertion.Insert(Node(a, va, 1, Nil, NewNode(b, vb)), c, vc).0
      == Node(b, vb, 1, NewNode(a, va), NewNode(c, vc))
  {
    LessTransitive(a, b, c);
    LessIrreflexive(a);
    InsertAboveLeaf(b, vb, c, vc);
  }

  lemma AscendingFourth(a: Key, b: Key, c: Key, d: Key, e: Key, va: Value, vb: Value, vc: Value, vd: Value)
    requires Ascending5(a, b, c, d, e)
    ensures Insertion.Insert(Node(b, vb, 1, NewNode(a, va), NewNode(c, vc)), d, vd).0
      == Node(b, vb, 2, NewNode(a, va), Node(c, vc, 1, Nil, NewNode(d, vd)))
  {
    Ascending5Facts(a, b, c, d, e);
    LessIrreflexive(b);
    InsertAboveLeaf(c, vc, d, vd);
  }

  lemma AscendingFifth(a: Key, b: Key, c: Key, d: Key, e: Key, va: Value, vb: Value, vc: Value, vd: Value, ve: Value)
    requires Ascending5(a, b, c, d, e)
    ensures Insertion.Insert(Node(b, vb, 2, NewNode(a, va), Node(c, vc, 1, Nil, NewNode(d, vd))), e, ve).0
      == Node(b, vb, 2, NewNode(a, va), Node(d, vd, 1, NewNode(c, vc), NewNode(e, ve)))
  {
    Ascending5Facts(a, b, c, d, e);
    LessIrreflexive(b);
    RotateThird(c, d, e, vc, vd, ve);
  }

  /** Inserting five ascending keys in order: two single left rotations. */
  lemma InsertAscending(a: Key, b: Key, c: Key, d: Key, e: Key, va: Value, vb: Value, vc: Value, vd: Value, ve: Value)
    requires Ascending5(a, b, c, d, e)
    ensures var t1 := Insertion.Insert(Nil, a, va).0;
      var t2 := Insertion.Insert(t1, b, vb).0;
      var t3 := Insertion.Insert(t2, c, vc).0;
      var t4 := Insertion.Insert(t3, d, vd).0;
      Insertion.Insert(t4, e, ve).0 == Node(b, vb, 2, NewNode(a, va), Node(d, vd, 1, NewNode(c, vc), NewNode(e, ve)))
  {
    assert Insertion.Insert(Nil, a, va).0 == NewNode(a, va);
    InsertAboveLeaf(a, va, b, vb);
    RotateThird(a, b, c, va, vb, vc);
    AscendingFourth(a, b, c, d, e, va, vb, vc, vd);
    AscendingFifth(a, b, c, d, e, va, vb, vc, vd, ve);
  }

  lemma AscendingResultIsAvl(a: Key, b: Key, c: Key, d: Key, e: Key, va: Value, vb: Value, vc: Value, vd: Value, ve: Value)
    requires Ascending5(a, b, c, d, e)
    ensures IsAvl(Node(b, vb, 2, NewNode(a, va), Node(d, vd, 1, NewNode(c, vc), NewNode(e, ve))))
  {
    Ascending5Facts(a, b, c, d, e);
  }

  lemma FiveKeysIsBuiltByInsertion()
    ensures var t1 := Insertion.Insert(Nil, "d", 4).0;
      var t2 := Insertion.Insert(t1, "b", 2).0;
      var t3 := Insertion.Insert(t2, "e", 5).0;
      var t4 := Insertion.Insert(t3, "a", 1).0;
      Insertion.Insert(t4, "c", 3).0 == FiveKeys()
  {
    assert Ascending5("a", "b", "c", "d", "e");
    InsertMiddleFirst("a", "b", "c", "d", "e", 1, 2, 3, 4, 5);
  }

  lemma MiddleFirstResultIsAvl(a: Key, b: Key, c: Key, d: Key, e: Key, va: Value, vb: Value, vc: Value, vd: Value, ve: Value)
    requires Ascending5(a, b, c, d, e)
    ensures IsAvl(Node(d, vd, 2, Node(b, vb, 1, NewNode(a, va), NewNode(c, vc)), NewNode(e, ve)))
  {
    Ascending5Facts(a, b, c, d, e);
  }

  lemma FiveKeysIsAvl()
    ensures IsAvl(FiveKeys())
  {
    assert Ascending5("a", "b", "c", "d", "e");
    MiddleFirstResultIsAvl("a", "b", "c", "d", "e", 1, 2, 3, 4, 5);
  }

  /**
   * In the tree the middle-first insertions build, removing the last key
   * empties the right slot and one right rotation lifts the second key.
   */
  lemma RemoveLastOfFive(a: Key, b: Key, c: Key, d: Key, e: Key, va: Value, vb: Value, vc: Value, vd: Value, ve: Value)
    requires Ascending5(a, b, c, d, e)
    ensures Removal.Remove(Node(d, vd, 2, Node(b, vb, 1, NewNode(a, va), NewNode(c, vc)), NewNode(e, ve)), e).0
      == Node(b, vb, 2, NewNode(a, va), Node(d, vd, 1, NewNode(c, vc), Nil))
  {
    Ascending5Facts(a, b, c, d, e);
    LessIrreflexive(e);
    assert Removal.Remove(NewNode(e, ve), e) == (Nil, true);
    var d1 := Node(d, vd, 2, Node(b, vb, 1, NewNode(a, va), NewNode(c, vc)), Nil);
    assert UpdateHeight(d1) == d1;
    assert Rebalance.RotateRight(d1) == Node(b, vb, 2, NewNode(a, va), Node(d, vd, 1, NewNode(c, vc), Nil));
  }

  /**
   * As written, removing the root of that tree: the successor's removal
   * rotates the second key into the root slot, which is then overwritten
   * with the successor.
   */
  lemma RemoveRootOfFive(a: Key, b: Key, c: Key, d: Key, e: Key, va: Value, vb: Value, vc: Value, vd: Value, ve: Value)
    requires Ascending5(a, b, c, d, e)
    ensures Removal.RemoveRootAsWritten(Node(d, vd, 2, Node(b, vb, 1, NewNode(a, va), NewNode(c, vc)), NewNode(e, ve)))
      == Node(e, Removal.ThroughInt(ve), 2, NewNode(a, va), Node(d, vd, 1, NewNode(c, vc), Nil))
  {
    RemoveLastOfFive(a, b, c, d, e, va, vb, vc, vd, ve);
    assert Removal.MinItem(NewNode(e, ve)) == (e, ve);
    var r := Node(e, Removal.ThroughInt(ve), 2, NewNode(a, va), Node(d, vd, 1, NewNode(c, vc), Nil));
    assert Rebalance.Lean(r) == -1;
  }

  lemma KeysOfMisplaced(a: Key, c: Key, d: Key, e: Key, w: Value, va: Value, vc: Value, vd: Value)
    ensures Traversal.Keys(Node(e, w, 2, NewNode(a, va), Node(d, vd, 1, NewNode(c, vc), Nil))) == [a, e, c, d]
  {
    KeysOfLeaf(a, va);
    KeysOfLeaf(c, vc);
  }

  /** The tree `RemoveRootOfFive` leaves: the second key is gone and the successor sits above a smaller key. */
  lemma MisplacedIsNotSearchTree(a: Key, b: Key, c: Key, d: Key, e: Key, w: Value, va: Value, vc: Value, vd: Value)
    requires Ascending5(a, b, c, d, e)
    ensures var r := Node(e, w, 2, NewNode(a, va), Node(d, vd, 1, NewNode(c, vc), Nil));
      && Traversal.Keys(r) == [a, e, c, d]
      && !Traversal.StrictlyAscending(Traversal.Keys(r))
      && b !in KeySet(r) && d in KeySet(r)
      && !Bst(r)
  {
    Ascending5Facts(a, b, c, d, e);
    LessIrreflexive(b);
    KeysOfMisplaced(a, c, d, e, w, va, vc, vd);
    var r := Node(e, w, 2, NewNode(a, va), Node(d, vd, 1, NewNode(c, vc), Nil));
    assert KeySet(r) == {a, e, c, d};
    assert c in KeySet(r.right);
    LessAsymmetric(c, e);
    assert Traversal.Keys(r)[1] == e && Traversal.Keys(r)[2] == c;
  }

  /**
   * Removing the root "d" as written: the successor "e" is removed by a
   * search from the root, which rotates "b" up into the root slot, and then
   * "b" is overwritten with "e". "b" is lost, "d" survives, and the keys are
   * no longer in order.
   */
  lemma RootRemovalLosesKey()
    ensures Removal.RemoveRootAsWritten(FiveKeys()) == Misplaced()
    ensures var r := Misplaced();
      && Traversal.Keys(r) == ["a", "e", "c", "d"]
      && !Traversal.StrictlyAscending(Traversal.Keys(r))
      && "b" !in KeySet(r) && "d" in KeySet(r)
      && !Bst(r)
  {
    FiveKeysRootRemoved();
    assert Ascending5("a", "b", "c", "d", "e");
    MisplacedIsNotSearchTree("a", "b", "c", "d", "e", 5, 1, 3, 4);
  }

  /** What removing "d" from `FiveKeys()` leaves as written. */
  function Misplaced(): Tree {
    Node("e", 5, 2, NewNode("a", 1), Node("d", 4, 1, NewNode("c", 3), Nil))
  }

  lemma FiveKeysRootRemoved()
    ensures Removal.RemoveRootAsWritten(FiveKeys()) == Misplaced()
  {
    assert Ascending5("a", "b", "c", "d", "e");
    RemoveRootOfFive("a", "b", "c", "d", "e", 1, 2, 3, 4, 5);
    assert Removal.ThroughInt(5) == 5;
  }

  /** The corrected removal of "d" takes out exactly "d" and keeps the tree an AVL search tree. */
  lemma RootRemovalCorrected()
    ensures var r := Removal.RemoveNode(FiveKeys());
      && KeySet(r) == KeySet(FiveKeys()) - {"d"}
      && IsAvl(r)
  {
    var t := FiveKeys();
    FiveKeysIsAvl();
    Removal.RemoveBst(t, "d");
    Removal.RemovePreservesAvl(t, "d");
    assert Removal.Remove(t, "d").0 == Removal.RemoveNode(t);
  }

  /** A root with two children whose successor holds 2^32. */
  function WideValue(): Tree {
    Node("b", 1, 1, Node("a", 0, 0, Nil, Nil), Node("c", 0x1_0000_0000, 0, Nil, Nil))
  }

  /** Moving the successor's value through an `int` turns 2^32 into 0. */
  lemma TwoChildRemovalTruncatesValue()
    ensures Lookup.Get(Removal.RemoveRootAsWritten(WideValue()), "c") == Some(0)
  {
    assert Less("a", "b") && Less("b", "c");
    RemoveRootOfThree("a", "b", "c", 0, 1, 0x1_0000_0000);
    assert Removal.ThroughInt(0x1_0000_0000) == 0;
  }

  /** The corrected removal moves 2^32 unchanged. */
  lemma TwoChildRemovalKeepsValue()
    ensures Lookup.Get(Removal.RemoveNode(WideValue()), "c") == Some(0x1_0000_0000)
  {
    assert Less("a", "b") && Less("b", "c");
    RemoveRootOfThree("a", "b", "c", 0, 1, 0x1_0000_0000);
  }

  /**
   * Removing the root of a three-node tree: the successor moves up in both
   * versions, but as written its value passes through an `int`.
   */
  lemma RemoveRootOfThree(a: Key, b: Key, c: Key, va: Value, vb: Value, vc: Value)
    requires Less(a, b) && Less(b, c)
    ensures var t := Node(b, vb, 1, NewNode(a, va), NewNode(c, vc));
      && Removal.RemoveRootAsWritten(t) == Node(c, Removal.ThroughInt(vc), 1, NewNode(a, va), Nil)
      && Removal.RemoveNode(t) == Node(c, vc, 1, NewNode(a, va), Nil)
  {
    var t := Node(b, vb, 1, NewNode(a, va), NewNode(c, vc));
    assert Removal.MinItem(t.right) == (c, vc);
    LessAsymmetric(a, b);
    LessIrreflexive(b);
    assert Removal.Remove(NewNode(c, vc), c) == (Nil, true);
    assert Removal.Remove(t, c).0 == Node(b, vb, 1, NewNode(a, va), Nil);
  }

  /** Ascending "a" to "e" are rebalanced on the way into a tree of height 2 with "b" at the root. */
  lemma AscendingKeysHeightTwo()
    ensures var t1 := Insertion.Insert(Nil, "a", 1).0;
      var t2 := Insertion.Insert(t1, "b", 2).0;
      var t3 := Insertion.Insert(t2, "c", 3).0;
      var t4 := Insertion.Insert(t3, "d", 4).0;
      var t := Insertion.Insert(t4, "e", 5).0;
      t.Node? && t.key == "b" && Height(t) == 2 && IsAvl(t)
  {
    assert Ascending5("a", "b", "c", "d", "e");
    InsertAscending("a", "b", "c", "d", "e", 1, 2, 3, 4, 5);
    AscendingResultIsAvl("a", "b", "c", "d", "e", 1, 2, 3, 4, 5);
  }
}
