/** The recursive node structure of the container: an unbalanced binary
    search tree over integer keys with values of any type. A node owns its
    two children exclusively, so a subtree is a value; `Nil` stands for an
    absent (null) child. Each node operation requires a node (`t.Node?`),
    because in the original it is a method called on one; a null-conditional
    call on a child becomes a test of `Node?` on that child. */
module BTreeNode {
  import opened Outcomes
  import opened SortedPairs

  datatype Tree<V> = Nil | Node(left: Tree<V>, key: int, value: V, right: Tree<V>)

  /** The pairs of the tree in in-order (left, node, right) sequence. */
  ghost function InOrder<V>(t: Tree<V>): seq<(int, V)> {
    match t
    case Nil => []
    case Node(l, k, v, r) => InOrder(l) + [(k, v)] + InOrder(r)
  }

  /** The keys stored anywhere in the tree. */
  ghost function KeySet<V>(t: Tree<V>): set<int> {
    match t
    case Nil => {}
    case Node(l, k, _, r) => KeySet(l) + {k} + KeySet(r)
  }

  /** The search-tree invariant: every key in a left subtree is smaller than
      the node's key and every key in a right subtree is larger, at every node. */
  ghost predicate IsBST<V>(t: Tree<V>) {
    match t
    case Nil => true
    case Node(l, k, _, r) =>
      && IsBST(l) && IsBST(r)
      && (forall x :: x in KeySet(l) ==> x < k)
      && (forall x :: x in KeySet(r) ==> k < x)
  }

  /** The number of nodes on the longest root-to-leaf path. */
  ghost function Height<V>(t: Tree<V>): nat {
    match t
    case Nil => 0
    case Node(l, _, _, r) => 1 + Max(Height(l), Height(r))
  }

  function Max(a: nat, b: nat): nat {
    if a < b then b else a
  }

  /** At every node, each subtree holds at most half of the node's pairs:
      the shape the median split produces. */
  ghost predicate HalvesAtEveryNode<V>(t: Tree<V>) {
    match t
    case Nil => true
    case Node(l, _, _, r) =>
      && HalvesAtEveryNode(l) && HalvesAtEveryNode(r)
      && 2 * |InOrder(l)| <= |InOrder(t)| && 2 * |InOrder(r)| <= |InOrder(t)|
  }

  /** The floor of the binary logarithm (0 for 0 and 1). */
  function Log2(n: nat): nat {
    if n <= 1 then 0 else 1 + Log2(n / 2)
  }

  function Pow2(n: nat): nat {
    if n == 0 then 1 else 2 * Pow2(n - 1)
  }

  /** Log2(n) is the exponent of the largest power of two not above n. */
  lemma {:induction false} Log2Bounds(n: nat)
    requires n >= 1
    ensures Pow2(Log2(n)) <= n < Pow2(Log2(n) + 1)
  {
    if n > 1 {
      Log2Bounds(n / 2);
    }
  }

  lemma {:induction false} Log2Monotone(a: nat, b: nat)
    requires a <= b
    ensures Log2(a) <= Log2(b)
  {
    if a > 1 {
      Log2Monotone(a / 2, b / 2);
    }
  }

  /** A part holding at most half of n pairs gets one level less. */
  lemma HalfLog2(m: nat, n: nat)
    requires 1 <= m && 2 * m <= n
    ensures Log2(m) + 1 <= Log2(n)
  {
    Log2Monotone(m, n / 2);
  }

  /** A subtree of a node of n pairs, holding at most half of them and
      halving at every node, is at most floor(log2 n) high. */
  lemma {:induction false} HalvedChildHeight<V>(c: Tree<V>, n: nat)
    requires HalvesAtEveryNode(c) && 2 * |InOrder(c)| <= n
    ensures Height(c) <= Log2(n)
    decreases c, 1
  {
    if c.Node? {
      HalvedHeight(c);
      HalfLog2(|InOrder(c)|, n);
    }
  }

  /** A tree that halves at every node has logarithmic height:
      at most floor(log2 n) + 1 levels for n pairs. */
  lemma {:induction false} HalvedHeight<V>(t: Tree<V>)
    requires t.Node? && HalvesAtEveryNode(t)
    ensures Height(t) <= Log2(|InOrder(t)|) + 1
    decreases t, 0
  {
    var n := |InOrder(t)|;
    HalvedChildHeight(t.left, n);
    HalvedChildHeight(t.right, n);
  }

  // ---------------------------------------------------------------------
  // The tree as a sequence

  /** The key set is the set of keys along the in-order sequence. */
  lemma {:induction false} KeySetIsInOrderKeys<V>(t: Tree<V>)
    ensures KeySet(t) == KeysOf(InOrder(t))
  {
    match t
    case Nil =>
    case Node(l, k, v, r) =>
      KeySetIsInOrderKeys(l);
      KeySetIsInOrderKeys(r);
      KeysOfAppend(InOrder(l) + [(k, v)], InOrder(r));
      KeysOfAppend(InOrder(l), [(k, v)]);
      KeysOfSingleton((k, v));
  }

  /** A tree satisfies the search-tree invariant exactly when its in-order
      sequence is strictly sorted by key. */
  lemma {:induction false} BSTIffSorted<V>(t: Tree<V>)
    ensures IsBST(t) <==> StrictlySorted(InOrder(t))
  {
    match t
    case Nil =>
    case Node(l, k, v, r) =>
      BSTIffSorted(l);
      BSTIffSorted(r);
      KeySetIsInOrderKeys(l);
      KeySetIsInOrderKeys(r);
      SortedAround(InOrder(l), k, v, InOrder(r));
  }

  // ---------------------------------------------------------------------
  // Constructors

  /** A single-pair leaf with no children. */
  function Leaf<V>(key: int, value: V): (t: Tree<V>)
    ensures t.Node? && IsBST(t) && InOrder(t) == [(key, value)] && KeySet(t) == {key}
  {
    Node(Nil, key, value, Nil)
  }

  /** The middle of a range of n >= 1 positions lies inside it and leaves
      at most half of the positions on either side. */
  lemma MedianSplit(n: int, firstIndex: int, centerIndex: int, lastIndex: int)
    requires n == lastIndex - firstIndex + 1 >= 1 && centerIndex == n / 2 + firstIndex
    ensures firstIndex <= centerIndex <= lastIndex
    ensures 2 * (centerIndex - firstIndex) <= n && 2 * (lastIndex - centerIndex) <= n
  {
  }

  /** A node whose children list the pairs before and after position mid
      lists the whole range, and is a search tree when the pairs are
      strictly sorted. */
  lemma AssembleNode<V>(pairs: seq<(int, V)>, lo: int, mid: int, hi: int, t: Tree<V>)
    requires 0 <= lo <= mid < hi <= |pairs|
    requires t.Node? && t.key == pairs[mid].0 && t.value == pairs[mid].1
    requires InOrder(t.left) == pairs[lo..mid] && InOrder(t.right) == pairs[mid + 1..hi]
    ensures InOrder(t) == pairs[lo..hi]
    ensures StrictlySorted(pairs) ==> IsBST(t)
  {
    assert pairs[lo..hi] == pairs[lo..mid] + [pairs[mid]] + pairs[mid + 1..hi];
    if StrictlySorted(pairs) {
      SliceSorted(pairs, lo, hi);
      BSTIffSorted(t);
    }
  }

  /** The node built from the pairs lo..hi-1 around the middle position
      mid, with children built from the two sides, lists exactly those
      pairs, is a search tree and halves at every node. */
  lemma BuiltNode<V>(pairs: seq<(int, V)>, lo: int, mid: int, hi: int, left: Tree<V>, right: Tree<V>)
    requires StrictlySorted(pairs)
    requires 0 <= lo <= mid < hi <= |pairs|
    requires 2 * (mid - lo) <= hi - lo && 2 * (hi - mid - 1) <= hi - lo
    requires InOrder(left) == pairs[lo..mid] && InOrder(right) == pairs[mid + 1..hi]
    requires HalvesAtEveryNode(left) && HalvesAtEveryNode(right)
    ensures IsBST(Node(left, pairs[mid].0, pairs[mid].1, right))
    ensures InOrder(Node(left, pairs[mid].0, pairs[mid].1, right)) == pairs[lo..hi]
    ensures HalvesAtEveryNode(Node(left, pairs[mid].0, pairs[mid].1, right))
  {
    AssembleNode(pairs, lo, mid, hi, Node(left, pairs[mid].0, pairs[mid].1, right));
  }

  lemma SliceSorted<V>(s: seq<(int, V)>, lo: int, hi: int)
    requires StrictlySorted(s) && 0 <= lo <= hi <= |s|
    ensures StrictlySorted(s[lo..hi])
  {
    forall i, j | 0 <= i < j < hi - lo ensures s[lo..hi][i].0 < s[lo..hi][j].0 {
      assert s[lo..hi][i] == s[lo + i] && s[lo..hi][j] == s[lo + j];
    }
  }

  /** Builds a subtree from the pairs at positions firstIndex..lastIndex
      (inclusive), taking the middle one as the node and the two sides as
      the children. Only non-empty ranges are ever built. */
  method BuildRange<V>(pairs: seq<(int, V)>, firstIndex: int, lastIndex: int) returns (t: Tree<V>)
    requires StrictlySorted(pairs)
    requires 0 <= firstIndex <= lastIndex < |pairs|
    ensures t.Node? && IsBST(t)
    ensures InOrder(t) == pairs[firstIndex..lastIndex + 1]
    ensures HalvesAtEveryNode(t)
    decreases lastIndex - firstIndex
  {
    var localCount := lastIndex - firstIndex + 1;
    var localCenterIndex := localCount / 2 + firstIndex;
    MedianSplit(localCount, firstIndex, localCenterIndex, lastIndex);
    // An empty side lists no pairs.
    assert pairs[firstIndex..firstIndex] == [] && pairs[lastIndex + 1..lastIndex + 1] == [];
    var left, right := Nil, Nil;
    if localCenterIndex > firstIndex {
      left := BuildRange(pairs, firstIndex, localCenterIndex - 1);
    }
    if localCenterIndex < lastIndex {
      right := BuildRange(pairs, localCenterIndex + 1, lastIndex);
    }
    t := Node(left, pairs[localCenterIndex].0, pairs[localCenterIndex].1, right);
    BuiltNode(pairs, firstIndex, localCenterIndex, lastIndex + 1, left, right);
  }

  /** Builds a tree from a whole list of pairs, taking the middle one as the
      root. The list must be strictly sorted by key; the tree lists exactly
      the given pairs in order, halves at every node and so has at most
      floor(log2 n) + 1 levels for n pairs. */
  method BuildFromSorted<V>(pairs: seq<(int, V)>) returns (t: Tree<V>)
    requires |pairs| > 0 && StrictlySorted(pairs)
    ensures t.Node? && IsBST(t)
    ensures InOrder(t) == pairs
    ensures HalvesAtEveryNode(t)
    ensures Height(t) <= Log2(|pairs|) + 1
  {
    var centerIndex := |pairs| / 2;
    MedianSplit(|pairs|, 0, centerIndex, |pairs| - 1);
    // An empty side lists no pairs.
    assert pairs[0..0] == [] && pairs[|pairs|..|pairs|] == [];
    var left, right := Nil, Nil;
    if centerIndex > 0 {
      left := BuildRange(pairs, 0, centerIndex - 1);
    }
    var lastIndex := |pairs| - 1;
    if centerIndex < lastIndex {
      right := BuildRange(pairs, centerIndex + 1, lastIndex);
    }
    t := Node(left, pairs[centerIndex].0, pairs[centerIndex].1, right);
    BuiltNode(pairs, 0, centerIndex, |pairs|, left, right);
    assert pairs[0..|pairs|] == pairs;
    HalvedHeight(t);
  }

  // ---------------------------------------------------------------------
  // Insertion

  /** Inserts (key, value) below this node: descends by comparison and
      hangs a new leaf in the first empty child slot; fails with
      DuplicateKey, changing nothing, when the key is met on the way. */
  method Add<V>(t: Tree<V>, key: int, value: V) returns (r: Result<Tree<V>>)
    requires t.Node? && IsBST(t)
    ensures r.Failure? <==> key in KeySet(t)
    ensures r.Failure? ==> r.error == DuplicateKey
    ensures r.Success? ==> && r.value.Node? && IsBST(r.value)
                           && KeySet(r.value) == KeySet(t) + {key}
                           && InOrder(r.value) == InsertSorted(InOrder(t), key, value)
    decreases t
  {
    if key == t.key {
      return Failure(DuplicateKey);
    }
    if key < t.key {
      var newLeft;
      if t.left.Nil? {
        newLeft := Leaf(key, value);
      } else {
        var added := Add(t.left, key, value);
        if added.Failure? {
          return Failure(added.error);
        }
        newLeft := added.value;
      }
      r := Success(t.(left := newLeft));
      AddedOnLeft(t, key, value, newLeft);
    } else {
      var newRight;
      if t.right.Nil? {
        newRight := Leaf(key, value);
      } else {
        var added := Add(t.right, key, value);
        if added.Failure? {
          return Failure(added.error);
        }
        newRight := added.value;
      }
      r := Success(t.(right := newRight));
      AddedOnRight(t, key, value, newRight);
    }
  }

  /** Replacing the left child by that child with (key, value) inserted
      inserts (key, value) into the whole node. */
  lemma AddedOnLeft<V>(t: Tree<V>, key: int, value: V, newLeft: Tree<V>)
    requires t.Node? && IsBST(t) && key < t.key && key !in KeySet(t.left)
    requires IsBST(newLeft) && KeySet(newLeft) == KeySet(t.left) + {key}
    requires InOrder(newLeft) == InsertSorted(InOrder(t.left), key, value)
    ensures key !in KeySet(t)
    ensures IsBST(t.(left := newLeft)) && KeySet(t.(left := newLeft)) == KeySet(t) + {key}
    ensures InOrder(t.(left := newLeft)) == InsertSorted(InOrder(t), key, value)
  {
    InOrderOnLeft(t, key, value, newLeft);
  }

  lemma InOrderOnLeft<V>(t: Tree<V>, key: int, value: V, newLeft: Tree<V>)
    requires t.Node? && key < t.key
    requires InOrder(newLeft) == InsertSorted(InOrder(t.left), key, value)
    ensures InOrder(t.(left := newLeft)) == InsertSorted(InOrder(t), key, value)
  {
    var tail := [(t.key, t.value)] + InOrder(t.right);
    assert InOrder(t) == InOrder(t.left) + tail;
    InsertSortedBeforeSuffix(InOrder(t.left), tail, key, value);
    assert InOrder(t.(left := newLeft)) == InOrder(newLeft) + tail;
  }

  /** Replacing the right child by that child with (key, value) inserted
      inserts (key, value) into the whole node. */
  lemma AddedOnRight<V>(t: Tree<V>, key: int, value: V, newRight: Tree<V>)
    requires t.Node? && IsBST(t) && t.key < key && key !in KeySet(t.right)
    requires IsBST(newRight) && KeySet(newRight) == KeySet(t.right) + {key}
    requires InOrder(newRight) == InsertSorted(InOrder(t.right), key, value)
    ensures key !in KeySet(t)
    ensures IsBST(t.(right := newRight)) && KeySet(t.(right := newRight)) == KeySet(t) + {key}
    ensures InOrder(t.(right := newRight)) == InsertSorted(InOrder(t), key, value)
  {
    InOrderOnRight(t, key, value, newRight);
  }

  lemma InOrderOnRight<V>(t: Tree<V>, key: int, value: V, newRight: Tree<V>)
    requires t.Node? && IsBST(t) && t.key < key
    requires InOrder(newRight) == InsertSorted(InOrder(t.right), key, value)
    ensures InOrder(t.(right := newRight)) == InsertSorted(InOrder(t), key, value)
  {
    var head := InOrder(t.left) + [(t.key, t.value)];
    KeySetIsInOrderKeys(t.left);
    KeysOfAppend(InOrder(t.left), [(t.key, t.value)]);
    KeysOfSingleton((t.key, t.value));
    assert InOrder(t) == head + InOrder(t.right);
    InsertSortedAfterPrefix(head, InOrder(t.right), key, value);
    assert InOrder(t.(right := newRight)) == head + InOrder(newRight);
  }

  // ---------------------------------------------------------------------
  // Lookup

  /** Whether the key is stored: descends left or right by comparison. */
  function ContainsKey<V>(t: Tree<V>, key: int): (found: bool)
    requires t.Node?
    ensures found ==> key in KeySet(t)
    ensures IsBST(t) ==> (found <==> key in KeySet(t))
    decreases t
  {
    if t.key == key then true
    else if key < t.key then (if t.left.Nil? then false else ContainsKey(t.left, key))
    else (if t.right.Nil? then false else ContainsKey(t.right, key))
  }

  /** Lookup that also yields the stored value: `Some(v)` for "true with
      value v", `None` for "false with the default value". */
  function ContainsKeyWithValue<V>(t: Tree<V>, key: int): (r: Option<V>)
    requires t.Node?
    ensures r.Some? ==> (key, r.value) in InOrder(t)
    ensures IsBST(t) ==> (r.Some? <==> key in KeySet(t))
    decreases t
  {
    if t.key == key then Some(t.value)
    else if key < t.key then (if t.left.Nil? then None else ContainsKeyWithValue(t.left, key))
    else (if t.right.Nil? then None else ContainsKeyWithValue(t.right, key))
  }

  /** Both lookups follow the same path and agree on every tree; in a valid
      tree the value found is the one paired with the key. */
  lemma {:induction false} LookupsAgree<V>(t: Tree<V>, key: int)
    requires t.Node?
    ensures ContainsKeyWithValue(t, key).Some? == ContainsKey(t, key)
    ensures IsBST(t) ==> forall v :: (key, v) in InOrder(t) ==> ContainsKeyWithValue(t, key) == Some(v)
    decreases t
  {
    if t.key != key {
      if key < t.key && t.left.Node? {
        LookupsAgree(t.left, key);
      } else if key > t.key && t.right.Node? {
        LookupsAgree(t.right, key);
      }
    }
    if IsBST(t) {
      forall v | (key, v) in InOrder(t) ensures ContainsKeyWithValue(t, key) == Some(v) {
        BSTIffSorted(t);
        KeySetIsInOrderKeys(t);
        var i :| 0 <= i < |InOrder(t)| && InOrder(t)[i] == (key, v);
        assert key in KeysOf(InOrder(t));
        var w := ContainsKeyWithValue(t, key).value;
        SortedKeyDeterminesValue(InOrder(t), key, v, w);
      }
    }
  }

  // ---------------------------------------------------------------------
  // Range scan

  /** Appends to `acc` the values of the pairs with minKey <= key < maxKey,
      in ascending key order; skips a subtree only when no key in it can
      lie in the range. */
  method GetValuesInRange<V>(t: Tree<V>, minKey: int, maxKey: int, acc: seq<V>) returns (out: seq<V>)
    requires t.Node? && IsBST(t)
    ensures out == acc + Values(Filter(InOrder(t), minKey, maxKey))
    decreases t
  {
    var l, k, v, r := t.left, t.key, t.value, t.right;
    ghost var fromLeft := Values(Filter(InOrder(l), minKey, maxKey));
    ghost var fromNode: seq<V> := if minKey <= k < maxKey then [v] else [];
    ghost var fromRight := Values(Filter(InOrder(r), minKey, maxKey));
    RangeOfNode(t, minKey, maxKey);
    out := acc;
    if minKey < k && l.Node? {
      out := GetValuesInRange(l, minKey, maxKey, out);
    }
    assert out == acc + fromLeft;
    if minKey <= k && k < maxKey {
      out := out + [v];
    }
    assert out == acc + fromLeft + fromNode;
    if maxKey > k && r.Node? {
      out := GetValuesInRange(r, minKey, maxKey, out);
    }
    assert out == acc + fromLeft + fromNode + fromRight;
    AppendAssoc(acc, fromLeft, fromNode, fromRight);
  }

  /** Regroups a four-part concatenation; stated as a lemma so the solver
      proves it apart from the method's context. */
  lemma AppendAssoc<T>(a: seq<T>, b: seq<T>, c: seq<T>, d: seq<T>)
    ensures a + b + c + d == a + (b + c + d)
  {
  }

  /** The range values of a node split into those of its left subtree, its
      own pair and its right subtree; in a valid tree a subtree pruned by
      the comparisons above contributes nothing. */
  lemma RangeOfNode<V>(t: Tree<V>, minKey: int, maxKey: int)
    requires t.Node? && IsBST(t)
    ensures Values(Filter(InOrder(t), minKey, maxKey))
         == Values(Filter(InOrder(t.left), minKey, maxKey))
          + (if minKey <= t.key < maxKey then [t.value] else [])
          + Values(Filter(InOrder(t.right), minKey, maxKey))
    ensures !(minKey < t.key) ==> Filter(InOrder(t.left), minKey, maxKey) == []
    ensures !(maxKey > t.key) ==> Filter(InOrder(t.right), minKey, maxKey) == []
  {
    var l, k, v, r := t.left, t.key, t.value, t.right;
    KeySetIsInOrderKeys(l);
    KeySetIsInOrderKeys(r);
    if !(minKey < k) {
      FilterOutside(InOrder(l), minKey, maxKey);
    }
    if !(maxKey > k) {
      FilterOutside(InOrder(r), minKey, maxKey);
    }
    FilterAppend(InOrder(l) + [(k, v)], InOrder(r), minKey, maxKey);
    FilterAppend(InOrder(l), [(k, v)], minKey, maxKey);
    var fl, fk, fr := Filter(InOrder(l), minKey, maxKey), Filter([(k, v)], minKey, maxKey), Filter(InOrder(r), minKey, maxKey);
    assert Values(fk) == if minKey <= k < maxKey then [v] else [];
    ValuesAppend(fl + fk, fr);
    ValuesAppend(fl, fk);
  }

  // ---------------------------------------------------------------------
  // Minimum and maximum

  /** The key reached by always descending left: the first in-order key,
      which in a valid tree is the smallest key. */
  function GetMinKey<V>(t: Tree<V>): (k: int)
    requires t.Node?
    ensures k == InOrder(t)[0].0
    ensures k in KeySet(t)
    ensures IsBST(t) ==> forall x :: x in KeySet(t) ==> k <= x
    decreases t
  {
    if t.left.Node? then GetMinKey(t.left) else t.key
  }

  /** The key reached by always descending right: the last in-order key,
      which in a valid tree is the largest key. */
  function GetMaxKey<V>(t: Tree<V>): (k: int)
    requires t.Node?
    ensures k == InOrder(t)[|InOrder(t)| - 1].0
    ensures k in KeySet(t)
    ensures IsBST(t) ==> forall x :: x in KeySet(t) ==> x <= k
    decreases t
  {
    if t.right.Node? then GetMaxKey(t.right) else t.key
  }

  // ---------------------------------------------------------------------
  // Traversals

  /** Visits every pair, left subtree first; the result is the sequence of
      (key, value) arguments the visitor receives. */
  method ForEach<V>(t: Tree<V>) returns (visited: seq<(int, V)>)
    requires t.Node?
    ensures visited == InOrder(t)
    ensures IsBST(t) ==> StrictlySorted(visited)
    decreases t
  {
    visited := [];
    if t.left.Node? {
      visited := ForEach(t.left);
    }
    visited := visited + [(t.key, t.value)];
    if t.right.Node? {
      var rest := ForEach(t.right);
      visited := visited + rest;
    }
    BSTIffSorted(t);
  }

  /** The number of nodes in the tree. */
  function Count<V>(t: Tree<V>): (n: nat)
    requires t.Node?
    ensures n == |InOrder(t)| && n >= 1
    decreases t
  {
    1 + (if t.left.Node? then Count(t.left) else 0)
      + (if t.right.Node? then Count(t.right) else 0)
  }

  /** Appends every pair to `pairs` in in-order sequence; from a valid tree
      the appended part is strictly sorted by key and has Count(t) entries. */
  method CopyAllPairsToTheList<V>(t: Tree<V>, pairs: seq<(int, V)>) returns (out: seq<(int, V)>)
    requires t.Node?
    ensures out == pairs + InOrder(t)
    ensures |out| == |pairs| + Count(t)
    ensures IsBST(t) ==> StrictlySorted(out[|pairs|..])
    decreases t
  {
    out := pairs;
    if t.left.Node? {
      out := CopyAllPairsToTheList(t.left, out);
    }
    out := out + [(t.key, t.value)];
    if t.right.Node? {
      out := CopyAllPairsToTheList(t.right, out);
    }
    assert out[|pairs|..] == InOrder(t);
    BSTIffSorted(t);
  }
}
