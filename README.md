# Trees: binary search tree map with periodic rebuild

A Dafny model of the ordered key → value container in `Trees/BTree`. Despite
its name, the container is a plain, unbalanced binary search tree, not a
multi-way B-tree:

- Every node holds one key, one value and at most two children.
- Insertion hangs a new leaf in the first empty child slot and rejects
  duplicate keys.
- The collection wrapper counts successful insertions. Every 5000 of them it
  lists all pairs in order and rebuilds the tree by median split, which brings
  the height back to logarithmic.

The model has three modules and one shared error type:

- `Outcomes` holds the two failures (`DuplicateKey`, `EmptyCollection`) and
  the `Option`/`Result`/`Outcome` wrappers that stand for exceptions and for
  `out TValue?` parameters.
- `SortedPairs` holds the reference definitions the tree is specified
  against. These are sequences of (key, value) pairs that are strictly sorted
  by key (`StrictlySorted`), insertion at the sorted position
  (`InsertSorted`), the half-open range filter `[lo, hi)` (`Filter`) and the
  normalisation of range arguments (`OrderedBounds`).
- `BTreeNode` models the node class.
  - The tree is the datatype `Tree = Nil | Node(left, key, value, right)`,
    where `Nil` is a null child link.
  - A node owns its children exclusively, so a subtree is a value. The
    operations that change or fill something in the original return the new
    tree or list: `Add`, both constructors, `GetValuesInRange`, `ForEach` and
    `CopyAllPairsToTheList`.
  - The read-only recursions are functions: both `ContainsKey` overloads,
    `GetMinKey`, `GetMaxKey` and `Count`.
  - Each node operation requires `t.Node?`, because in the original it is a
    method called on a node.
  - The specification of every operation uses the in-order sequence
    `InOrder(t)`. The search-tree invariant `IsBST` holds exactly when that
    sequence is strictly sorted (`BSTIffSorted`).
- `BTreeWithSelector` models the wrapper as a class `BTreeWithSelector` with
  the source's fields:
  - `root`, the tree or `Nil`;
  - `valuesSelector`, the reused range-query buffer;
  - `adds`, the insertion counter.

  `RebalanceEveryAdds` is the constant 5000. `Valid()` states the invariant
  kept between calls: the tree is a search tree and
  `0 <= adds < RebalanceEveryAdds`.

Height is stated through `HalvesAtEveryNode`: at every node, each subtree
holds at most half of the node's pairs. The median split produces exactly
this shape, and `HalvedHeight` proves that such a tree has at most
floor(log2 n) + 1 levels for n pairs.

The median split at index `Count / 2` gives at most floor(log2 n) + 1
levels, which is ceiling(log2 (n + 1)); two pairs already need two levels.

## Model

| member | source | states |
|---|---|---|
| `BTreeNode.Leaf` | Trees/BTree/BTreeNode.cs:13-17 | a new leaf is a search tree holding exactly the one pair |
| `BTreeNode.BuildFromSorted` | Trees/BTree/BTreeNode.cs:20-36 | from a non-empty, strictly key-sorted list, the built tree is a search tree whose in-order sequence is the list itself, that halves at every node, and that has at most floor(log2 n) + 1 levels |
| `BTreeNode.BuildRange` | Trees/BTree/BTreeNode.cs:39-54 | the subtree built from positions firstIndex..lastIndex lists exactly that slice in order, is a search tree and halves at every node; it accepts only non-empty ranges within the list, so every recursive call is on a non-empty sub-range |
| `BTreeNode.MedianSplit` | Trees/BTree/BTreeNode.cs:41-42 | the local centre index lies in [firstIndex, lastIndex] and leaves at most half of the range on either side |
| `BTreeNode.HalvedHeight` | Trees/BTree/BTreeNode.cs:20-54 | a tree that halves at every node, which is the shape of the median split, has at most floor(log2 n) + 1 levels for n pairs |
| `BTreeNode.Add` | Trees/BTree/BTreeNode.cs:57-86 | fails with DuplicateKey exactly when the key is already anywhere in the tree; otherwise the result is a search tree whose key set is the old one plus the key and whose in-order sequence is the old one with the pair inserted at its sorted position |
| `BTreeNode.AddedOnLeft` | Trees/BTree/BTreeNode.cs:64-74 | inserting into the left child, for a key below the node's, inserts into the whole node and keeps the search-tree invariant |
| `BTreeNode.AddedOnRight` | Trees/BTree/BTreeNode.cs:75-85 | inserting into the right child, for a key above the node's, inserts into the whole node and keeps the search-tree invariant |
| `BTreeNode.ContainsKey` | Trees/BTree/BTreeNode.cs:89-100 | true only for stored keys; on a search tree, true exactly when the key is stored |
| `BTreeNode.ContainsKeyWithValue` | Trees/BTree/BTreeNode.cs:103-116 | a found value is paired with the key in the tree; on a search tree, a value is found exactly when the key is stored (None, the default, otherwise) |
| `BTreeNode.LookupsAgree` | Trees/BTree/BTreeNode.cs:89-116 | both overloads answer the same on every tree; on a search tree, the value found is the one stored with the key |
| `BTreeNode.GetValuesInRange` | Trees/BTree/BTreeNode.cs:119-133 | appends to the accumulator, keeping its earlier contents, exactly the values of the in-order pairs with minKey <= key < maxKey, in ascending key order |
| `BTreeNode.RangeOfNode` | Trees/BTree/BTreeNode.cs:121-132 | a node's range values are its left subtree's, its own if in range, then its right subtree's; a subtree skipped by the `minKey < key` or `maxKey > key` test holds no key in range |
| `BTreeNode.GetMinKey` | Trees/BTree/BTreeNode.cs:136-143 | the first key of the in-order sequence, a stored key, and on a search tree the smallest one |
| `BTreeNode.GetMaxKey` | Trees/BTree/BTreeNode.cs:146-153 | the last key of the in-order sequence, a stored key, and on a search tree the largest one |
| `BTreeNode.ForEach` | Trees/BTree/BTreeNode.cs:156-161 | the visitor receives exactly the in-order pairs, which are in strictly ascending key order on a search tree |
| `BTreeNode.Count` | Trees/BTree/BTreeNode.cs:163-175 | the number of pairs in the tree, at least one |
| `BTreeNode.CopyAllPairsToTheList` | Trees/BTree/BTreeNode.cs:177-182 | appends exactly the in-order sequence, Count() entries, strictly sorted on a search tree, leaving the list's earlier entries in place |
| `BTreeNode.BSTIffSorted` | Trees/BTree/BTreeNode.cs:156-161 | the search-tree invariant holds exactly when the in-order traversal is strictly sorted by key |
| `BTreeNode.KeySetIsInOrderKeys` | Trees/BTree/BTreeNode.cs:156-161 | the keys stored in the tree are the keys along its in-order traversal |
| `SortedPairs.InsertSortedSpec` | Trees/BTree/BTreeNode.cs:57-86 | inserting a fresh key into a strictly sorted sequence keeps it strictly sorted, adds exactly that key and that pair, and keeps every old pair |
| `SortedPairs.InsertSortedAt` | Trees/BTree/BTreeNode.cs:57-86 | the inserted pair lands between the smaller and the larger keys, with everything else in its old order |
| `SortedPairs.SortedAround` | Trees/BTree/BTreeNode.cs:64-85 | a sequence split around one pair is strictly sorted exactly when both sides are, the left keys are smaller than the pair's and the right keys larger |
| `SortedPairs.SortedKeyDeterminesValue` | Trees/BTree/BTreeNode.cs:103-116 | in a strictly sorted sequence a key is paired with one value only |
| `SortedPairs.FilterSpec` | Trees/BTree/BTreeNode.cs:119-133 | a pair is selected exactly when it is stored and its key lies in [lo, hi); a sorted input gives a sorted selection whose keys are stored keys |
| `SortedPairs.FilterEmptyInterval` | Trees/BTree/BTreeWithSelector.cs:53-66 | the interval [k, k) selects nothing |
| `SortedPairs.OrderedBounds` | Trees/BTree/BTreeWithSelector.cs:56-57 | the normalised bounds are the two arguments, lesser first |
| `SortedPairs.OrderedBoundsSymmetric` | Trees/BTree/BTreeWithSelector.cs:56-57 | the normalised bounds do not depend on the order of the arguments |
| `BTreeWithSelector.BTreeWithSelector.constructor` | Trees/BTree/BTreeWithSelector.cs:9-12 | a new collection is empty and valid, with the counter at zero and an empty buffer |
| `BTreeWithSelector.BTreeWithSelector.ContainsKey` | Trees/BTree/BTreeWithSelector.cs:14-17 | true exactly when the key is stored; false on an empty collection |
| `BTreeWithSelector.BTreeWithSelector.ContainsKeyWithValue` | Trees/BTree/BTreeWithSelector.cs:20-24 | found exactly when the key is stored, and then with the value stored with it; otherwise None |
| `BTreeWithSelector.BTreeWithSelector.Add` | Trees/BTree/BTreeWithSelector.cs:27-44 | fails with DuplicateKey exactly when the key is stored, and then leaves the tree and the counter unchanged; otherwise the contents are the old ones with the pair inserted in order, the key is stored, and every old pair is kept; an empty collection becomes the single pair; the counter advances modulo 5000, and the insertion that brings it to 5000 leaves a tree of logarithmic height; the collection stays valid |
| `BTreeWithSelector.CounterStep` | Trees/BTree/BTreeWithSelector.cs:38-43 | advancing the counter resets it to zero exactly when it reaches the threshold |
| `BTreeWithSelector.InsertionKeepsPairs` | Trees/BTree/BTreeWithSelector.cs:27-36 | after an insertion of a fresh key, that key is stored and every earlier pair is still present |
| `BTreeWithSelector.BTreeWithSelector.ForEach` | Trees/BTree/BTreeWithSelector.cs:47-50 | the visitor receives the stored pairs in strictly ascending key order, and nothing on an empty collection |
| `BTreeWithSelector.BTreeWithSelector.GetValuesInRange` | Trees/BTree/BTreeWithSelector.cs:53-66 | the returned list is the buffer, cleared and then filled with exactly the values whose keys lie in [min(k1, k2), max(k1, k2)), in ascending key order; the result is the same with the arguments swapped, and empty when k1 == k2 or the collection is empty; tree and counter unchanged |
| `BTreeWithSelector.BTreeWithSelector.GetMinKey` | Trees/BTree/BTreeWithSelector.cs:69-77 | fails with EmptyCollection exactly when the collection is empty; otherwise returns the smallest stored key |
| `BTreeWithSelector.BTreeWithSelector.GetMaxKey` | Trees/BTree/BTreeWithSelector.cs:80-88 | fails with EmptyCollection exactly when the collection is empty; otherwise returns the largest stored key |
| `BTreeWithSelector.BTreeWithSelector.Rebalance` | Trees/BTree/BTreeWithSelector.cs:91-109 | does nothing on an empty collection; otherwise keeps the in-order (key, value) sequence identical and leaves a search tree that halves at every node and has at most floor(log2 n) + 1 levels; counter and buffer unchanged |

## Left out

- In-place update of child links. `BTreeNode.Add` returns the new tree
  instead of assigning `_left`/`_right`. A node's children are owned
  exclusively and never shared, so no aliasing is lost. The original
  detects a duplicate before it assigns any link, so a failed insertion
  changes nothing. The model returns `Failure` and leaves the input tree
  untouched.
- `ForEach` callbacks. An arbitrary `Action<TKey, TValue>` is foreign code,
  so both `ForEach` members return the sequence of (key, value) arguments the
  visitor would receive, in order.
- Generic numeric keys. `INumber<TKey>` is used only for `==`, `<`, `<=` and
  `>`, so keys are `int`. Values are any type `V`.
- Exception message texts. The two exceptions are the outcomes
  `DuplicateKey` and `EmptyCollection`.
- `BTreeNode.BuildFromSorted`: requires a non-empty, strictly sorted list.
  - On an empty list the original fails at the first index read.
  - On an unsorted list it silently builds a tree that breaks the search
    invariant. The model does not describe that tree.
- `BTreeWithSelector.BTreeWithSelector.Rebalance`: the literal body in
  Trees/BTree/BTreeWithSelector.cs:99-108 does not compile against the node
  class, for two reasons:
  - it passes a list of nodes where a list of pairs is expected;
  - it calls `SetLeftChildren`/`SetRightChildren`, which the node class does
    not define.

  The model lists the pairs with `CopyAllPairsToTheList` and rebuilds the
  tree with the sorted-list constructor. It states content preservation and
  the height bound, but not which pair becomes the root. The original picks
  the middle as `lastIndex >> 1`, while the constructor uses `Count / 2`, and
  these differ for even sizes.
- Aliasing of the returned range-query list. The original returns the shared
  `_valuesSelector` list itself, so a later call overwrites what an earlier
  caller holds. The model states only what each call leaves in the buffer
  and returns.
- The `IBTreeCollection` interface. It has signatures only, and the class's
  methods give the same operation set.
- Recursion depth, stack limits and running time.
