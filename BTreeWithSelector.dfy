/** The public ordered map: owns an optional root node, counts successful
    insertions, and rebuilds the whole tree every REBALANCE_EVERY_ADDS
    insertions so that its height returns to logarithmic. */
module BTreeWithSelector {
  import opened Outcomes
  import opened SortedPairs
  import opened BTreeNode

  /** Number of successful insertions between two automatic rebuilds. */
  const RebalanceEveryAdds: int := 5000

  class BTreeWithSelector<V> {
    /** The tree; `Nil` when the collection is empty. */
    var root: Tree<V>
    /** The scratch list a range query clears, fills and returns. */
    var valuesSelector: seq<V>
    /** Successful insertions since the last rebuild. */
    var adds: int

    /** Between calls the tree is a search tree and the insertion counter
        has not yet reached the rebuild threshold. */
    ghost predicate Valid()
      reads this
    {
      IsBST(root) && 0 <= adds < RebalanceEveryAdds
    }

    /** The stored pairs in ascending key order. */
    ghost function Contents(): seq<(int, V)>
      reads this
    {
      InOrder(root)
    }

    constructor ()
      ensures Valid()
      ensures root == Nil && Contents() == [] && adds == 0 && valuesSelector == []
    {
      root := Nil;
      valuesSelector := [];
      adds := 0;
    }

    /** Whether the key is stored; false on an empty collection. */
    method ContainsKey(key: int) returns (found: bool)
      requires Valid()
      ensures found <==> key in KeysOf(Contents())
    {
      KeySetIsInOrderKeys(root);
      if root.Nil? {
        found := false;
      } else {
        found := BTreeNode.ContainsKey(root, key);
      }
    }

    /** Lookup with the stored value: `value` is `Some(v)` exactly when the
        key is stored with v, and `None` (the default) otherwise. */
    method ContainsKeyWithValue(key: int) returns (found: bool, value: Option<V>)
      requires Valid()
      ensures found <==> key in KeysOf(Contents())
      ensures found <==> value.Some?
      ensures found ==> (key, value.value) in Contents()
    {
      KeySetIsInOrderKeys(root);
      value := None;
      if root.Nil? {
        found := false;
      } else {
        value := BTreeNode.ContainsKeyWithValue(root, key);
        found := value.Some?;
      }
    }

    /** Inserts (key, value). A duplicate key fails with DuplicateKey before
        anything changes. Otherwise the pair is inserted at its sorted
        position and the counter advances; when it reaches the threshold the
        tree is rebuilt and the counter restarts from zero. */
    method Add(key: int, value: V) returns (r: Outcome)
      requires Valid()
      modifies this
      ensures Valid()
      ensures r.Fail? <==> key in KeysOf(old(Contents()))
      ensures r.Fail? ==> r.error == DuplicateKey && root == old(root) && adds == old(adds)
      ensures r.Pass? ==> Contents() == InsertSorted(old(Contents()), key, value)
      ensures old(Contents()) == [] ==> r.Pass? && Contents() == [(key, value)]
      ensures r.Pass? ==> key in KeysOf(Contents()) && forall p :: p in old(Contents()) ==> p in Contents()
      ensures r.Pass? ==> adds == (old(adds) + 1) % RebalanceEveryAdds
      ensures r.Pass? && old(adds) + 1 == RebalanceEveryAdds ==> Height(root) <= Log2(|Contents()|) + 1
      ensures valuesSelector == old(valuesSelector)
    {
      CounterStep(adds);
      KeySetIsInOrderKeys(root);
      var newRoot;
      if root.Nil? {
        newRoot := Leaf(key, value);
      } else {
        var added := BTreeNode.Add(root, key, value);
        if added.Failure? {
          return Fail(added.error);
        }
        newRoot := added.value;
      }
      InsertionKeepsPairs(root, newRoot, key, value);
      root := newRoot;
      adds := adds + 1;
      if adds >= RebalanceEveryAdds {
        Rebalance();
        adds := 0;
      }
      r := Pass;
    }

    /** The visitor's (key, value) arguments, in the order it receives them:
        ascending key order; nothing on an empty collection. */
    method ForEach() returns (visited: seq<(int, V)>)
      requires Valid()
      ensures visited == Contents()
      ensures StrictlySorted(visited)
    {
      BSTIffSorted(root);
      visited := [];
      if root.Node? {
        visited := BTreeNode.ForEach(root);
      }
    }

    /** The values whose keys lie in [min, max) of the two arguments, in
        ascending key order, whichever order the arguments come in; the
        scratch list is cleared first, so it holds only this call's matches. */
    method GetValuesInRange(key1: int, key2: int) returns (values: seq<V>)
      requires Valid()
      modifies this
      ensures Valid()
      ensures values == valuesSelector
      ensures values == Values(Filter(Contents(), OrderedBounds(key1, key2).0, OrderedBounds(key1, key2).1))
      ensures values == Values(Filter(Contents(), OrderedBounds(key2, key1).0, OrderedBounds(key2, key1).1))
      ensures key1 == key2 || Contents() == [] ==> values == []
      ensures root == old(root) && adds == old(adds)
    {
      valuesSelector := [];
      var (minKey, maxKey) := OrderedBounds(key1, key2);
      OrderedBoundsSymmetric(key1, key2);
      FilterEmptyInterval(Contents(), key1);
      if root.Node? {
        valuesSelector := BTreeNode.GetValuesInRange(root, minKey, maxKey, valuesSelector);
      }
      values := valuesSelector;
    }

    /** The smallest stored key, or EmptyCollection. */
    method GetMinKey() returns (r: Result<int>)
      requires Valid()
      ensures r.Failure? <==> Contents() == []
      ensures r.Failure? ==> r.error == EmptyCollection
      ensures r.Success? ==> r.value in KeysOf(Contents()) && forall x :: x in KeysOf(Contents()) ==> r.value <= x
    {
      KeySetIsInOrderKeys(root);
      if root.Nil? {
        return Failure(EmptyCollection);
      }
      r := Success(BTreeNode.GetMinKey(root));
    }

    /** The largest stored key, or EmptyCollection. */
    method GetMaxKey() returns (r: Result<int>)
      requires Valid()
      ensures r.Failure? <==> Contents() == []
      ensures r.Failure? ==> r.error == EmptyCollection
      ensures r.Success? ==> r.value in KeysOf(Contents()) && forall x :: x in KeysOf(Contents()) ==> x <= r.value
    {
      KeySetIsInOrderKeys(root);
      if root.Nil? {
        return Failure(EmptyCollection);
      }
      r := Success(BTreeNode.GetMaxKey(root));
    }

    /** Rebuilds the tree: lists its pairs in order, then builds a new tree
        from that list by median split. The stored pairs and their order do
        not change; the new tree is a valid search tree that halves at every
        node, so it has at most floor(log2 n) + 1 levels. Nothing happens
        when the collection is empty. */
    method Rebalance()
      requires IsBST(root)
      modifies this
      ensures IsBST(root) && Contents() == old(Contents())
      ensures old(root).Nil? ==> root == old(root)
      ensures root.Node? ==> HalvesAtEveryNode(root) && Height(root) <= Log2(|Contents()|) + 1
      ensures adds == old(adds) && valuesSelector == old(valuesSelector)
    {
      if root.Nil? {
        return;
      }
      // The count only sizes the buffer that receives the pairs.
      var count := Count(root);
      var pairs := CopyAllPairsToTheList(root, []);
      BSTIffSorted(root);
      // The original hangs the two halves of the list below its middle pair
      // through child-setting helpers that the node type does not define;
      // the rebuild is made here with the node's sorted-list constructor.
      root := BuildFromSorted(pairs);
    }
  }

  /** Advancing the counter modulo the threshold resets it to zero exactly
      when it reaches the threshold. */
  lemma CounterStep(a: int)
    requires 0 <= a < RebalanceEveryAdds
    ensures (a + 1) % RebalanceEveryAdds == if a + 1 == RebalanceEveryAdds then 0 else a + 1
  {
  }

  /** A tree that lists the old pairs with (key, value) inserted in order
      holds the new key and every old pair. */
  lemma InsertionKeepsPairs<V>(oldRoot: Tree<V>, newRoot: Tree<V>, key: int, value: V)
    requires IsBST(oldRoot) && key !in KeySet(oldRoot)
    requires InOrder(newRoot) == InsertSorted(InOrder(oldRoot), key, value)
    ensures key in KeysOf(InOrder(newRoot))
    ensures forall p :: p in InOrder(oldRoot) ==> p in InOrder(newRoot)
  {
    BSTIffSorted(oldRoot);
    KeySetIsInOrderKeys(oldRoot);
    InsertSortedSpec(InOrder(oldRoot), key, value);
  }
}
