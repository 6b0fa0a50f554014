/**
 * Lookups: `contains`, `get` and `operator[]` (through `getBrackets`) all
 * walk the search path, going left when the node's key sorts after the one
 * sought and right otherwise.
 */
module Lookup {
  import opened KeyOrder
  import opened Wrappers
  import opened AvlNode

  /** What `operator[]` throws for an absent key. */
  datatype Error = KeyNotFound

  /** `get(k)`: the value stored under `k`, or `nullopt`. */
  function Get(t: Tree, k: Key): (r: Option<Value>)
    ensures r.Some? ==> (k, r.value) in Pairs(t)
  {
    match t
    case Nil => None
    case Node(key, value, _, l, r) =>
      if key == k then Some(value)
      else if Less(k, key) then Get(l, k)
      else Get(r, k)
  }

  /** `contains(k)`. */
  function Contains(t: Tree, k: Key): (b: bool)
    ensures b <==> Get(t, k).Some?
  {
    match t
    case Nil => false
    case Node(key, _, _, l, r) =>
      if key == k then true
      else if Less(k, key) then Contains(l, k)
      else Contains(r, k)
  }

  /** Reading through `operator[]`: the stored value, or `KeyNotFound`. */
  function At(t: Tree, k: Key): (r: Result<Value, Error>)
    ensures r.Success? <==> Get(t, k).Some?
    ensures r.Success? ==> r.value == Get(t, k).value
  {
    match t
    case Nil => Failure(KeyNotFound)
    case Node(key, value, _, l, r) =>
      if key == k then Success(value)
      else if Less(k, key) then At(l, k)
      else At(r, k)
  }

  /**
   * Writing through the reference `operator[]` returns: the value stored
   * under `k` is replaced; nothing else about the tree changes. `KeyNotFound`
   * when `k` is absent.
   */
  function AssignAt(t: Tree, k: Key, v: Value): (r: Result<Tree, Error>)
    ensures r.Success? <==> Get(t, k).Some?
    ensures r.Success? ==> Get(r.value, k) == Some(v)
    ensures r.Success? ==> forall j :: j != k ==> Get(r.value, j) == Get(t, j)
    ensures r.Success? ==> KeySet(r.value) == KeySet(t) && Height(r.value) == Height(t)
    ensures r.Success? ==> (HeightsOk(t) ==> HeightsOk(r.value)) && (Balanced(t) ==> Balanced(r.value))
    ensures r.Success? ==> (Bst(t) ==> Bst(r.value))
  {
    match t
    case Nil => Failure(KeyNotFound)
    case Node(key, _, _, l, r) =>
      if key == k then Success(t.(value := v))
      else if Less(k, key) then
        match AssignAt(l, k, v)
        case Failure(e) => Failure(e)
        case Success(l') => Success(t.(left := l'))
      else
        match AssignAt(r, k, v)
        case Failure(e) => Failure(e)
        case Success(r') => Success(t.(right := r'))
  }

  /**
   * On a search tree `get` finds exactly the stored keys, and returns the one
   * value stored with the key.
   */
  lemma {:induction false} GetFindsStoredValue(t: Tree, k: Key)
    requires Bst(t)
    ensures Get(t, k).Some? <==> k in KeySet(t)
    ensures forall v :: Get(t, k) == Some(v) <==> (k, v) in Pairs(t)
  {
    match t
    case Nil =>
    case Node(key, value, _, l, r) =>
      LessTotal(k, key);
      if key != k {
        if Less(k, key) {
          GetFindsStoredValue(l, k);
          if k in KeySet(r) {
            LessAsymmetric(k, key);
          }
        } else {
          GetFindsStoredValue(r, k);
          if k in KeySet(l) {
            LessAsymmetric(k, key);
          }
        }
      }
      PairKeysInKeySet(l);
      PairKeysInKeySet(r);
      forall v | (k, v) in Pairs(t)
        ensures Get(t, k) == Some(v)
      {
        PairsFunctional(t, k, v, Get(t, k).value);
      }
  }
}
