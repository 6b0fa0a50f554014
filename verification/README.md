# AVL tree map, modelled in Dafny

`AVLTree` is an ordered map from `std::string` keys to `size_t` values. It is
kept as an AVL tree: a binary search tree whose nodes cache their height,
where a null subtree counts as height -1. After every insertion or removal,
each node on the search path has its height recomputed and is rebalanced by
single or double rotations. The public object holds the root and a node
counter `numNodes`. It offers:

- `insert` and `remove`;
- the lookups `contains`, `get` and `operator[]`;
- the in-order walks `keys` and `findRange`;
- `size` and `getHeight`;
- deep copying by the copy constructor and `operator=`.

This project is a functional model of that class:

- A node pointer is an immutable `Tree` (`Nil` for a null pointer). Every
  operation that takes an `AVLNode*&` slot becomes a function that returns
  the new subtree root.
- The object is a record `AvlTree(root, numNodes)`.
- Contracts use four abstract views of a tree: the in-order entry sequence
  `Items`, the entry set `Pairs`, the key set `KeySet`, and the structural
  height `Depth`.
- Contracts also use three invariants: `Bst` (search order), `HeightsOk` (each
  cached height equals `1 + max` of its children's) and `Balanced` (the AVL
  bound).

Modules:

| file | module | models |
|---|---|---|
| key_order.dfy | `KeyOrder` | `std::string` ordering, as a strict total order |
| wrappers.dfy | `Wrappers` | `Option` (for `std::optional`) and `Result` (for the `operator[]` exception) |
| avl_node.dfy | `AvlNode` | the node, its helpers, the views and the invariants |
| rebalance.dfy | `Rebalance` | the rotations and `balanceNode` |
| insertion.dfy | `Insertion` | `addNode` |
| removal.dfy | `Removal` | the `remove` helper and `removeNode` |
| lookup.dfy | `Lookup` | `contains`, `get` and `getBrackets` |
| traversal.dfy | `Traversal` | `addKeys` and `addKeysRange` |
| copy.dfy | `Copy` | `cloneTree` |
| avl_map.dfy | `AvlMap` | the public `AVLTree` object |
| findings.dfy | `Findings` | concrete trees that show where the code goes wrong, and the documented insertion scenarios |

Content and order lemmas need only `Bst`. Height lemmas need only
`HeightsOk && Balanced`. Copies have every height set to 0, so the content
lemmas still apply to them.

Where the header and `AVLTree.cpp` disagree, the model follows `AVLTree.cpp`:

- `findRange` returns values, not keys.
- `getHeight()` returns a signed `int`, which is -1 for an empty tree.
- The node's height function is the static `AVLNode::getHeight(node)`.

## Model

| member | source | states |
|---|---|---|
| KeyOrder.LessIrreflexive | AVLTree.h:13 | no key sorts before itself under the string order used for keys |
| KeyOrder.LessAsymmetric | AVLTree.h:13 | two keys never sort before each other both ways |
| KeyOrder.LessTransitive | AVLTree.h:13 | the string order is transitive |
| KeyOrder.LessTotal | AVLTree.h:13 | any two distinct keys are ordered one way or the other, so every comparison in the search has a definite answer |
| KeyOrder.Less | AVLTree.h:13 | the string order: no key sorts before itself, and a proper prefix sorts before its extensions; LessIrreflexive, LessAsymmetric, LessTransitive and LessTotal make it a strict total order |
| AvlNode.NewNode | AVLTree.h:33-39 | a new node holds the given key and value, has height 0 and no children, and is by itself a valid AVL tree with one entry |
| AvlNode.NumChildren | AVLTree.cpp:10-17 | the count is at most 2, and it is 2 exactly when both children are present |
| AvlNode.IsLeaf | AVLTree.cpp:19-21 | a node is a leaf exactly when it has no children |
| AvlNode.Height | AVLTree.cpp:23-27 | the height is never below -1, and it is -1 exactly for a null subtree |
| AvlNode.UpdateHeight | AVLTree.cpp:29-33 | only the cached height changes; if the children's caches are correct, the node's cache becomes correct |
| AvlNode.CachedHeightIsDepth | AVLTree.h:30-31 | when caches are correct, a node's height is the number of hops to its deepest leaf |
| AvlNode.KeyCount | AVLTree.cpp:207-213 | in a search tree no key is stored twice: the number of entries equals the number of distinct keys |
| Rebalance.RotateRight | AVLTree.cpp:291-298 | the left child moves up and keeps its left subtree; the in-order entries are unchanged; heights are recomputed demoted node first, so correct caches below give correct caches |
| Rebalance.RotateLeft | AVLTree.cpp:300-307 | mirror of the right rotation: the right child moves up, entries and their order are unchanged, and caches stay correct |
| Rebalance.RotateRightPreservesBst | AVLTree.cpp:291-298 | a right rotation keeps the search order |
| Rebalance.RotateLeftPreservesBst | AVLTree.cpp:300-307 | a left rotation keeps the search order |
| Rebalance.Balance | AVLTree.cpp:279-289 | entries are unchanged; a node whose sides differ by at most one is left as it is; if the left side is 2+ higher, the left child moves up, or that child's right child when the left child leans right (double rotation); mirrored for the right side |
| Rebalance.BalancePreservesBst | AVLTree.cpp:279-289 | rebalancing keeps the search order |
| Rebalance.BalanceRestoresAvl | AVLTree.cpp:279-289 | a node with correct caches, balanced children and sides differing by at most 2 becomes balanced with correct caches, and at most one lower than before |
| Rebalance.LeftLeftCase | AVLTree.cpp:280-283 | a single right rotation rebalances a left-heavy node whose left child does not lean right |
| Rebalance.LeftRightCase | AVLTree.cpp:280-283 | a left-heavy node whose left child leans right is rebalanced by the double rotation and ends exactly one lower |
| Rebalance.RightRightCase | AVLTree.cpp:284-287 | a single left rotation rebalances a right-heavy node whose right child does not lean left |
| Rebalance.RightLeftCase | AVLTree.cpp:284-287 | a right-heavy node whose right child leans left is rebalanced by the double rotation and ends exactly one lower |
| Insertion.Insert | AVLTree.cpp:79-103 | the key set gains `k`; on success the entry set gains exactly `(k, v)` and there is one more node; a duplicate key leaves the subtree as it was |
| Insertion.InsertBst | AVLTree.cpp:79-103 | insertion keeps the search order, and succeeds exactly when the key was absent |
| Insertion.InsertAvl | AVLTree.cpp:79-103 | insertion keeps balance and correct caches, and raises the height by at most one |
| Insertion.InsertPreservesAvl | AVLTree.cpp:79-103 | an AVL search tree stays one after any insertion |
| Removal.MinItem | AVLTree.cpp:56-61 | following left links reaches an entry that is stored in the subtree |
| Removal.MinItemIsLeast | AVLTree.cpp:56-61 | in a search tree that entry has the least key, i.e. it is the in-order successor of the parent |
| Removal.Remove | AVLTree.cpp:104-119 | a failed removal changes nothing; success means the key was present; no key is added; at most one node disappears (corrected two-children case) |
| Removal.RemoveNode | AVLTree.cpp:35-77 | removing the node in a slot never adds a key and takes out at most one node (exactly its own key on a search tree: see RemoveNodeBst); corrected two-children case |
| Removal.RemoveBst | AVLTree.cpp:104-119 | on a search tree, removal succeeds exactly when the key is present; it takes out exactly that key and its entry, keeps every other entry, and keeps the search order (corrected two-children case; as written the order breaks, see Findings) |
| Removal.RemoveNodeBst | AVLTree.cpp:35-77 | for each of the three cases (leaf, one child, two children), the slot loses exactly its own key and entry and stays a search tree (corrected two-children case) |
| Removal.RebuildRightBst | AVLTree.cpp:110-118 | after removal from the right subtree, recomputing the height and rebalancing keeps search order and loses only the removed key |
| Removal.RebuildLeftBst | AVLTree.cpp:110-118 | the same after removal from the left subtree |
| Removal.SuccessorTakesOverBst | AVLTree.cpp:52-72 | in the corrected two-children case (successor removed from the right subtree), moving the successor's entry into the node keeps the search order and keeps every entry except the node's own |
| Removal.WithoutKeyOfNode | AVLTree.cpp:104-119 | on a search tree, taking a key out of a node's entries takes it out of the node itself or out of the one side that can hold it |
| Removal.MinRestored | AVLTree.cpp:56-67 | on a search tree, the successor's entry is the only one under its key, so taking that key out and putting the entry back restores the entries |
| Removal.RemoveAvl | AVLTree.cpp:104-119 | removal keeps balance and correct caches, and lowers the height by at most one (corrected two-children case) |
| Removal.RemoveNodeAvl | AVLTree.cpp:35-77 | removing the node in a slot keeps balance and correct caches, and lowers the height by at most one (corrected two-children case) |
| Removal.RemovePreservesAvl | AVLTree.cpp:104-119 | an AVL search tree stays one after any removal (corrected two-children case) |
| Removal.ThroughInt | AVLTree.cpp:62-67 | a value copied through `int` keeps its low 32 bits; values below 2^31 survive; values from 2^32 up to 2^32 + 2^31 lose 2^32 |
| Removal.RemoveRootAsWritten | AVLTree.cpp:52-72 | the as-written two-children removal at the root still yields a node and adds no key (see Findings for what it loses) |
| Lookup.Get | AVLTree.cpp:156-164 | any value returned is stored under the key |
| Lookup.Contains | AVLTree.cpp:142-150 | `contains` holds exactly when `get` finds a value |
| Lookup.At | AVLTree.cpp:170-178 | reading through `operator[]` succeeds exactly when `get` finds the key, and yields the same value; otherwise it fails with key-not-found |
| Lookup.AssignAt | AVLTree.cpp:166-178 | writing through `operator[]` succeeds exactly when the key is present; afterwards `get(k)` returns the new value, every other key reads as before, and keys, height, caches, balance and search order are unchanged |
| Lookup.GetFindsStoredValue | AVLTree.cpp:156-164 | on a search tree `get` finds exactly the stored keys, and returns the one value stored with the key |
| Traversal.Keys | AVLTree.cpp:207-213 | the listing has one key per entry, in in-order position |
| Traversal.KeysAreKeySet | AVLTree.cpp:207-213 | a key is listed exactly when it is stored |
| Traversal.KeysAscending | AVLTree.cpp:207-213 | on a search tree, keys are listed in strictly ascending order, each once |
| Traversal.FindRange | AVLTree.cpp:186-199 | the walk returns no more values than there are entries |
| Traversal.NothingInRange | AVLTree.cpp:194-197 | a subtree with no key inside the bounds contributes no value, so skipping it is sound |
| Traversal.BelowLowerBound | AVLTree.cpp:194-195 | at a search-tree node below `lo`, the whole left subtree is out of range, so walking only the right one loses nothing |
| Traversal.AboveUpperBound | AVLTree.cpp:196-197 | at a search-tree node above `hi`, the whole right subtree is out of range, so walking only the left one loses nothing |
| Traversal.FindRangeMatchesFilter | AVLTree.cpp:186-199 | on a search tree the pruned walk returns exactly the values whose keys are between the bounds (inclusive), in ascending key order |
| Traversal.FindRangeInvertedIsEmpty | AVLTree.cpp:180-199 | bounds given the wrong way round select nothing |
| Copy.Clone | AVLTree.cpp:243-249 | a clone has the source's shape, keys and values at every position, so the same entries in the same order and the same search order; every cached height is 0 |
| Copy.CloneKeepingHeights | AVLTree.cpp:243-249 | the corrected clone, which copies heights, is equal to its source |
| Copy.CloneBreaksHeights | AVLTree.cpp:243-249 | a clone of a tree two or more levels deep has wrong cached heights, and its root reports height 0 while the source's does not |
| AvlMap.Empty | AVLTree.cpp:223-226 | a new tree is valid, lists no keys and reports height -1 |
| AvlMap.Insert | AVLTree.cpp:123-132 | the counter grows by one exactly when a node is added; a duplicate leaves the object unchanged |
| AvlMap.Remove | AVLTree.cpp:134-136 | as written, the counter never changes; a failed removal leaves the object unchanged (corrected two-children case) |
| AvlMap.RemoveCounted | AVLTree.cpp:134-136 | with the counter corrected, removal decrements it when a node is removed; a failed removal changes nothing (corrected two-children case as well) |
| AvlMap.Contains | AVLTree.cpp:138-140 | `contains(k)` holds exactly when `get(k)` finds a value; on a valid tree, exactly when `k` is stored (LookupsAgree) |
| AvlMap.Get | AVLTree.cpp:152-154 | a value `get(k)` returns is the one stored under `k`; on a valid tree it returns one whenever `k` is stored (LookupsAgree) |
| AvlMap.At | AVLTree.cpp:166-168 | reading through `operator[]` succeeds exactly when the key is stored and then gives the value `get` finds; otherwise it is the key-not-found error (`std::invalid_argument` in the source) |
| AvlMap.AssignAt | AVLTree.cpp:166-168 | writing through `operator[]` succeeds exactly when the key is stored; it changes only that key's value and not the counter (AssignAtKeepsValid adds validity) |
| AvlMap.FindRange | AVLTree.cpp:180-184 | `findRange` returns at most one value per node (FindRangeCorrect gives exactly which) |
| AvlMap.Keys | AVLTree.cpp:201-205 | `keys()` lists the key of each node in in-order position (KeysListing adds ascending order and no repeats) |
| AvlMap.Size | AVLTree.cpp:215-217 | `size()` is the number of nodes whenever the object is valid (KeysListing relates it to `keys()`) |
| AvlMap.GetHeight | AVLTree.cpp:219-221 | `getHeight()` is at least -1, and -1 exactly for an empty tree (GetHeightIsDepth relates it to the depth) |
| AvlMap.CopyOf | AVLTree.cpp:228-232 | the copy lists the same keys and has the same counter and shape; every cached height is 0 |
| AvlMap.CopyKeepingHeights | AVLTree.cpp:228-232 | the corrected copy constructor lists the same keys, answers every `get` the same way and has the same counter and height as its source; it is valid whenever the source is |
| AvlMap.Assign | AVLTree.cpp:234-241 | after assignment the destination has the source's shape, keys and counter, with every cached height 0 as in the copy constructor, and answers every `get` like the source; nothing of its old contents remains |
| AvlMap.CopyLookups | AVLTree.cpp:228-249 | every lookup on a copy answers as on the source |
| AvlMap.CloneGet | AVLTree.cpp:243-249 | `get` follows the same path through a clone as through its source |
| AvlMap.InsertKeepsValid | AVLTree.cpp:123-132 | insertion keeps the tree valid and succeeds exactly when the key is absent; then the map gains exactly `k -> v`, every other key reads as before, and the size grows by one; a duplicate changes nothing |
| AvlMap.RemoveCountedKeepsValid | AVLTree.cpp:134-136 | removal with the counter decrement and the corrected two-children case keeps the tree valid and succeeds exactly when the key is present; the key is gone, every other key reads as before, and the size shrinks by one |
| AvlMap.RemoveLeavesCountStale | AVLTree.cpp:134-136 | as written, removing a stored key leaves `size()` one more than the number of keys, so the object is no longer valid |
| AvlMap.LookupsAgree | AVLTree.cpp:138-178 | on a valid tree, `contains`, `get`, `operator[]` and membership in `keys()` agree, and `get` returns the stored value |
| AvlMap.AssignAtKeepsValid | AVLTree.cpp:166-178 | writing through `operator[]` succeeds exactly when the key is present; it changes only that key's value, and the tree stays valid with the same keys and size |
| AvlMap.KeysListing | AVLTree.cpp:201-217 | `keys()` lists every stored key exactly once, in ascending order, and `size()` equals its length |
| AvlMap.GetHeightIsDepth | AVLTree.cpp:219-221 | on a valid tree, `getHeight()` is the number of hops from the root to its deepest leaf, and -1 exactly when the tree is empty |
| AvlMap.FindRangeCorrect | AVLTree.cpp:180-199 | `findRange(lo, hi)` returns the values of exactly the keys `lo <= k <= hi`, in ascending key order, and nothing when `hi < lo` |
| AvlMap.InsertThenRemove | AVLTree.cpp:123-136 | inserting an absent key and then removing it (with the counter decrement and the corrected two-children case) restores the keys, the entries and the size |
| AvlMap.CopyMatchesSource | AVLTree.cpp:228-249 | a copy answers every `get`, `keys()` and `findRange` like its source and has the same size; for a source of height 1 or more, the copy reports height 0 and is not valid |
| Findings.FiveKeysIsBuiltByInsertion | AVLTree.cpp:79-103 | inserting d, b, e, a, c into an empty tree builds the five-node tree used below (d at the root, height 2, no rotation) |
| Findings.InsertMiddleFirst | AVLTree.cpp:79-103 | the same shape, for any five ascending keys and any values |
| Findings.InsertAscending | AVLTree.cpp:79-103 | inserting five ascending keys in order makes two single left rotations and ends with the second key at the root, height 2 |
| Findings.AscendingKeysHeightTwo | AVLTree.cpp:79-103 | inserting "a" to "e" in order gives a valid AVL tree of height 2 with "b" at the root |
| Findings.RootRemovalLosesKey | AVLTree.cpp:52-72 | as written, removing "d" from that tree leaves the keys a, e, c, d: "b" is lost, "d" stays, "e" comes before "c", and the result is no longer a search tree |
| Findings.RemoveRootOfFive | AVLTree.cpp:52-72 | for any five ascending keys in that shape, the as-written removal of the root rotates the second key up and then overwrites it with the successor |
| Findings.MisplacedIsNotSearchTree | AVLTree.cpp:52-72 | the tree that removal leaves lists its keys out of order, has lost the second key and still holds the removed one |
| Findings.RootRemovalCorrected | AVLTree.cpp:35-77 | the corrected removal of "d" removes exactly "d" and leaves a valid AVL search tree |
| Findings.RemoveRootOfThree | AVLTree.cpp:52-72 | in a three-node tree, both versions move the successor up; as written, its value passes through `int` |
| Findings.TwoChildRemovalTruncatesValue | AVLTree.cpp:62-67 | as written, a successor value of 2^32 is stored as 0 |
| Findings.TwoChildRemovalKeepsValue | AVLTree.cpp:35-77 | the corrected removal moves the value 2^32 unchanged |

## Left out

- Printing (`operator<<`, `printOperator`): text output only.
- `clear`, the destructor and every `delete`: in a value model, memory needs no release.
- Sharing between a copy and its source: a value has no identity, so there is none by construction.
- Self-assignment in `operator=`: it releases the nodes and then clones from them. That is undefined behaviour; `AvlMap.Assign` models two distinct objects.
- The null check at the top of `removeNode`: its only caller passes a non-null slot, so `Removal.RemoveNode` requires a node.
- Running time and the O(log n) depth bound: there is no cost model.
- `numNodes` wrap-around at 2^64: the counter is a `nat`. Since `remove` never decrements it, it counts successful insertions rather than nodes, and reaching 2^64 would take 2^64 successful insertions.
- `addNode(AVLNode*)` in the header: it is declared but never defined.
- Key characters: keys are Dafny strings, ordered by character code, as `std::char_traits<char>` compares them (as `unsigned char`). Multi-byte encodings are not modelled.
- `operator[]`: throwing and returning a mutable reference are modelled as `Lookup.At` (read) and `Lookup.AssignAt` (write), each returning a `Result` that fails with `KeyNotFound`.
- Removal.Remove: the two-children case uses the corrected `RemoveNode`. The code as written is modelled only when the slot is the tree's root (`Removal.RemoveRootAsWritten`). At a deeper slot, the re-search from the root can rotate the slot's node elsewhere, and following that needs a model of pointer aliasing.
- Removal.RemoveRootAsWritten: states only that the result is a node and adds no key. What it loses is shown on concrete trees in `Findings`.
- Traversal.FindRange: the final `else` of `addKeysRange` (neither in range nor below `lo` nor above `hi`) cannot happen under a total order. It is kept as an empty result.

## Findings

| source | as written | input that shows it | evidently intended | confidence | as-written member | corrected member |
|---|---|---|---|---|---|---|
| AVLTree.cpp:52-72 | when the node has two children, the successor is removed by a new search from the root, and then whatever node occupies the slot is overwritten | insert d, b, e, a, c (values 4, 2, 5, 1, 3), then remove "d": the root rotates and "b" is overwritten with "e"; keys list a, e, c, d | remove the successor from the right subtree, copy it into the node, recompute the height and rebalance | not executed | Removal.RemoveRootAsWritten, Findings.RootRemovalLosesKey | Removal.RemoveNode, Findings.RootRemovalCorrected |
| AVLTree.cpp:63 | the successor's `size_t` value is held in an `int` before being stored back | a tree b=1 with children a=0 and c=2^32; remove "b": "c" then holds 0 | move the value unchanged | not executed | Removal.ThroughInt, Findings.TwoChildRemovalTruncatesValue | Removal.RemoveNode, Findings.TwoChildRemovalKeepsValue |
| AVLTree.cpp:134-136 | `remove` never decrements `numNodes` | insert one key, then remove it: `size()` is 1 with no keys | decrement on a successful removal, as `insert` increments | not executed | AvlMap.Remove, AvlMap.RemoveLeavesCountStale | AvlMap.RemoveCounted, AvlMap.RemoveCountedKeepsValid |
| AVLTree.cpp:243-249 | the clone builds each node with the constructor, which sets height 0, and never recomputes it | copy a tree of three nodes b, a, c: the copy's `getHeight()` is 0, not 1 | copy each node's height along with its key and value | not executed | Copy.Clone, Copy.CloneBreaksHeights | Copy.CloneKeepingHeights, AvlMap.CopyKeepingHeights |
