/** Reference definitions over sequences of (key, value) pairs: the
    ordering invariant, insertion at the sorted position, and the
    half-open range filter. The tree operations are specified by these. */
module SortedPairs {

  /** Keys strictly ascend along the sequence (so no key occurs twice). */
  ghost predicate StrictlySorted<V>(s: seq<(int, V)>) {
    forall i, j :: 0 <= i < j < |s| ==> s[i].0 < s[j].0
  }

  /** The set of keys occurring in the sequence. */
  ghost function KeysOf<V>(s: seq<(int, V)>): set<int> {
    set i | 0 <= i < |s| :: s[i].0
  }

  lemma KeysOfAppend<V>(a: seq<(int, V)>, b: seq<(int, V)>)
    ensures KeysOf(a + b) == KeysOf(a) + KeysOf(b)
  {
    forall x | x in KeysOf(a + b) ensures x in KeysOf(a) + KeysOf(b) {
      var i :| 0 <= i < |a + b| && (a + b)[i].0 == x;
      if i < |a| {
        assert a[i].0 == x;
      } else {
        assert b[i - |a|].0 == x;
      }
    }
    forall x | x in KeysOf(a) + KeysOf(b) ensures x in KeysOf(a + b) {
      if x in KeysOf(a) {
        var i :| 0 <= i < |a| && a[i].0 == x;
        assert (a + b)[i].0 == x;
      } else {
        var j :| 0 <= j < |b| && b[j].0 == x;
        assert (a + b)[|a| + j].0 == x;
      }
    }
  }

  lemma KeysOfSingleton<V>(p: (int, V))
    ensures KeysOf([p]) == {p.0}
  {
    assert [p][0].0 == p.0;
  }

  /** A sequence split around one pair is strictly sorted exactly when both
      parts are, everything before the pair has a smaller key and everything
      after it a larger one: the binary-search-tree condition at one node. */
  lemma SortedAround<V>(a: seq<(int, V)>, k: int, v: V, b: seq<(int, V)>)
    ensures StrictlySorted(a + [(k, v)] + b) <==>
              && StrictlySorted(a) && StrictlySorted(b)
              && (forall x :: x in KeysOf(a) ==> x < k)
              && (forall x :: x in KeysOf(b) ==> k < x)
  {
    if StrictlySorted(a + [(k, v)] + b) {
      SortedAroundSplit(a, k, v, b);
    }
    if && StrictlySorted(a) && StrictlySorted(b)
       && (forall x :: x in KeysOf(a) ==> x < k)
       && (forall x :: x in KeysOf(b) ==> k < x)
    {
      SortedAroundJoin(a, k, v, b);
    }
  }

  lemma SortedAroundSplit<V>(a: seq<(int, V)>, k: int, v: V, b: seq<(int, V)>)
    requires StrictlySorted(a + [(k, v)] + b)
    ensures StrictlySorted(a) && StrictlySorted(b)
    ensures forall x :: x in KeysOf(a) ==> x < k
    ensures forall x :: x in KeysOf(b) ==> k < x
  {
    var s := a + [(k, v)] + b;
    forall x | x in KeysOf(a) ensures x < k {
      var i :| 0 <= i < |a| && a[i].0 == x;
      assert s[i] == a[i] && s[|a|] == (k, v);
    }
    forall x | x in KeysOf(b) ensures k < x {
      var j :| 0 <= j < |b| && b[j].0 == x;
      assert s[|a| + 1 + j] == b[j] && s[|a|] == (k, v);
    }
    forall i, j | 0 <= i < j < |a| ensures a[i].0 < a[j].0 {
      assert s[i] == a[i] && s[j] == a[j];
    }
    forall i, j | 0 <= i < j < |b| ensures b[i].0 < b[j].0 {
      assert s[|a| + 1 + i] == b[i] && s[|a| + 1 + j] == b[j];
    }
  }

  lemma SortedAroundJoin<V>(a: seq<(int, V)>, k: int, v: V, b: seq<(int, V)>)
    requires StrictlySorted(a) && StrictlySorted(b)
    requires forall x :: x in KeysOf(a) ==> x < k
    requires forall x :: x in KeysOf(b) ==> k < x
    ensures StrictlySorted(a + [(k, v)] + b)
  {
    var s := a + [(k, v)] + b;
    forall i, j | 0 <= i < j < |s| ensures s[i].0 < s[j].0 {
      if i < |a| {
        assert s[i] == a[i] && a[i].0 in KeysOf(a);
        if j < |a| {
          assert s[j] == a[j];
        } else if j > |a| {
          assert s[j] == b[j - |a| - 1] && b[j - |a| - 1].0 in KeysOf(b);
        }
      } else if i > |a| {
        assert s[i] == b[i - |a| - 1] && s[j] == b[j - |a| - 1];
      } else {
        assert s[j] == b[j - |a| - 1] && b[j - |a| - 1].0 in KeysOf(b);
      }
    }
  }

  /** Inserts (key, value) before the first pair whose key is larger. */
  ghost function InsertSorted<V>(s: seq<(int, V)>, key: int, value: V): (r: seq<(int, V)>)
    ensures |r| == |s| + 1
  {
    if s == [] || key < s[0].0 then [(key, value)] + s
    else [s[0]] + InsertSorted(s[1..], key, value)
  }

  /** Inserting a fresh key into a strictly sorted sequence keeps it
      strictly sorted, adds exactly that key and that pair, and keeps
      every pair that was there. */
  lemma InsertSortedSpec<V>(s: seq<(int, V)>, key: int, value: V)
    requires StrictlySorted(s) && key !in KeysOf(s)
    ensures StrictlySorted(InsertSorted(s, key, value))
    ensures KeysOf(InsertSorted(s, key, value)) == KeysOf(s) + {key}
    ensures multiset(InsertSorted(s, key, value)) == multiset(s) + multiset{(key, value)}
    ensures (key, value) in InsertSorted(s, key, value)
    ensures forall p :: p in s ==> p in InsertSorted(s, key, value)
  {
    InsertSortedKeys(s, key, value);
    InsertSortedMultiset(s, key, value);
    InsertSortedSorted(s, key, value);
    var r := InsertSorted(s, key, value);
    assert (key, value) in multiset(r);
    forall p | p in s ensures p in r {
      assert p in multiset(r);
    }
  }

  lemma {:induction false} InsertSortedKeys<V>(s: seq<(int, V)>, key: int, value: V)
    ensures KeysOf(InsertSorted(s, key, value)) == KeysOf(s) + {key}
  {
    KeysOfSingleton((key, value));
    if s == [] || key < s[0].0 {
      KeysOfAppend([(key, value)], s);
    } else {
      assert s == [s[0]] + s[1..];
      KeysOfAppend([s[0]], s[1..]);
      KeysOfSingleton(s[0]);
      InsertSortedKeys(s[1..], key, value);
      KeysOfAppend([s[0]], InsertSorted(s[1..], key, value));
    }
  }

  lemma {:induction false} InsertSortedMultiset<V>(s: seq<(int, V)>, key: int, value: V)
    ensures multiset(InsertSorted(s, key, value)) == multiset(s) + multiset{(key, value)}
  {
    if s == [] || key < s[0].0 {
    } else {
      assert s == [s[0]] + s[1..];
      InsertSortedMultiset(s[1..], key, value);
    }
  }

  lemma StrictlySortedTail<V>(s: seq<(int, V)>)
    requires StrictlySorted(s) && s != []
    ensures StrictlySorted(s[1..])
    ensures forall x :: x in KeysOf(s[1..]) ==> s[0].0 < x
  {
    forall i, j | 0 <= i < j < |s[1..]| ensures s[1..][i].0 < s[1..][j].0 {
      assert s[i + 1].0 < s[j + 1].0;
    }
    forall x | x in KeysOf(s[1..]) ensures s[0].0 < x {
      var j :| 0 <= j < |s[1..]| && s[1..][j].0 == x;
      assert s[0].0 < s[j + 1].0;
    }
  }

  lemma {:induction false} InsertSortedSorted<V>(s: seq<(int, V)>, key: int, value: V)
    requires StrictlySorted(s) && key !in KeysOf(s)
    ensures StrictlySorted(InsertSorted(s, key, value))
  {
    if s == [] || key < s[0].0 {
      SortedCons((key, value), s);
    } else {
      var rest := InsertSorted(s[1..], key, value);
      assert s[0].0 in KeysOf(s);
      StrictlySortedTail(s);
      InsertSortedKeys(s[1..], key, value);
      InsertSortedSorted(s[1..], key, value);
      assert rest[0].0 in KeysOf(rest);
      SortedCons(s[0], rest);
    }
  }

  /** A pair whose key is below the first key of a strictly sorted sequence
      extends it at the front. */
  lemma SortedCons<V>(p: (int, V), s: seq<(int, V)>)
    requires StrictlySorted(s) && (s == [] || p.0 < s[0].0)
    ensures StrictlySorted([p] + s)
  {
    forall i, j | 0 <= i < j < |[p] + s| ensures ([p] + s)[i].0 < ([p] + s)[j].0 {
      if i == 0 && j > 1 {
        assert s[0].0 < s[j - 1].0;
      }
    }
  }

  /** Insertion puts the pair at the position that separates the smaller
      keys from the larger ones. */
  lemma {:induction false} InsertSortedAt<V>(s: seq<(int, V)>, i: int, key: int, value: V)
    requires 0 <= i <= |s|
    requires forall j :: 0 <= j < i ==> s[j].0 < key
    requires i < |s| ==> key < s[i].0
    ensures InsertSorted(s, key, value) == s[..i] + [(key, value)] + s[i..]
  {
    if i == 0 {
      assert s[..0] == [] && s[0..] == s;
    } else {
      InsertSortedAt(s[1..], i - 1, key, value);
      assert s[1..][..i - 1] == s[1..i] && s[1..][i - 1..] == s[i..];
      assert s[..i] == [s[0]] + s[1..i];
    }
  }

  /** In a strictly sorted sequence a key is paired with one value only. */
  lemma SortedKeyDeterminesValue<V>(s: seq<(int, V)>, key: int, v: V, w: V)
    requires StrictlySorted(s) && (key, v) in s && (key, w) in s
    ensures v == w
  {
    var i :| 0 <= i < |s| && s[i] == (key, v);
    var j :| 0 <= j < |s| && s[j] == (key, w);
    if i < j {
      assert s[i].0 < s[j].0;
    } else if j < i {
      assert s[j].0 < s[i].0;
    }
  }

  /** Inserting into a concatenation whose right part starts above the key
      only changes the left part. */
  lemma {:induction false} InsertSortedBeforeSuffix<V>(a: seq<(int, V)>, b: seq<(int, V)>, key: int, value: V)
    requires b != [] && key < b[0].0
    ensures InsertSorted(a + b, key, value) == InsertSorted(a, key, value) + b
  {
    if a == [] {
      assert a + b == b;
    } else if key < a[0].0 {
    } else {
      assert (a + b)[1..] == a[1..] + b;
      InsertSortedBeforeSuffix(a[1..], b, key, value);
    }
  }

  /** Inserting into a concatenation whose left part lies wholly below the
      key only changes the right part. */
  lemma {:induction false} InsertSortedAfterPrefix<V>(a: seq<(int, V)>, b: seq<(int, V)>, key: int, value: V)
    requires forall x :: x in KeysOf(a) ==> x < key
    ensures InsertSorted(a + b, key, value) == a + InsertSorted(b, key, value)
  {
    if a == [] {
      assert a + b == b;
    } else {
      assert a[0].0 in KeysOf(a);
      assert (a + b)[1..] == a[1..] + b;
      assert a == [a[0]] + a[1..];
      KeysOfAppend([a[0]], a[1..]);
      InsertSortedAfterPrefix(a[1..], b, key, value);
    }
  }

  /** The pairs whose key lies in the half-open interval [lo, hi), in their
      original order. */
  ghost function Filter<V>(s: seq<(int, V)>, lo: int, hi: int): seq<(int, V)> {
    if s == [] then []
    else (if lo <= s[0].0 < hi then [s[0]] else []) + Filter(s[1..], lo, hi)
  }

  /** The values of the pairs, in order. */
  ghost function Values<V>(s: seq<(int, V)>): (r: seq<V>)
    ensures |r| == |s|
    ensures forall i :: 0 <= i < |s| ==> r[i] == s[i].1
  {
    if s == [] then [] else [s[0].1] + Values(s[1..])
  }

  lemma {:induction false} ValuesAppend<V>(a: seq<(int, V)>, b: seq<(int, V)>)
    ensures Values(a + b) == Values(a) + Values(b)
  {
    if a == [] {
      assert a + b == b;
    } else {
      assert (a + b)[1..] == a[1..] + b;
      ValuesAppend(a[1..], b);
    }
  }

  lemma {:induction false} FilterAppend<V>(a: seq<(int, V)>, b: seq<(int, V)>, lo: int, hi: int)
    ensures Filter(a + b, lo, hi) == Filter(a, lo, hi) + Filter(b, lo, hi)
  {
    if a == [] {
      assert a + b == b;
    } else {
      assert (a + b)[1..] == a[1..] + b;
      FilterAppend(a[1..], b, lo, hi);
    }
  }

  /** A pair is kept by the filter exactly when it occurs in the sequence
      and its key lies in [lo, hi); a strictly sorted sequence filters to a
      strictly sorted one, so the kept pairs come in ascending key order. */
  lemma FilterSpec<V>(s: seq<(int, V)>, lo: int, hi: int)
    ensures forall p :: p in Filter(s, lo, hi) <==> p in s && lo <= p.0 < hi
    ensures StrictlySorted(s) ==> StrictlySorted(Filter(s, lo, hi))
    ensures KeysOf(Filter(s, lo, hi)) <= KeysOf(s)
  {
    FilterMembers(s, lo, hi);
    if StrictlySorted(s) {
      FilterSorted(s, lo, hi);
    }
    forall x | x in KeysOf(Filter(s, lo, hi)) ensures x in KeysOf(s) {
      var f := Filter(s, lo, hi);
      var i :| 0 <= i < |f| && f[i].0 == x;
      assert f[i] in s;
    }
  }

  lemma {:induction false} FilterMembers<V>(s: seq<(int, V)>, lo: int, hi: int)
    ensures forall p :: p in Filter(s, lo, hi) <==> p in s && lo <= p.0 < hi
  {
    if s != [] {
      FilterMembers(s[1..], lo, hi);
      assert s == [s[0]] + s[1..];
    }
  }

  lemma {:induction false} FilterSorted<V>(s: seq<(int, V)>, lo: int, hi: int)
    requires StrictlySorted(s)
    ensures StrictlySorted(Filter(s, lo, hi))
  {
    if s != [] {
      StrictlySortedTail(s);
      FilterSorted(s[1..], lo, hi);
      var rest := Filter(s[1..], lo, hi);
      if lo <= s[0].0 < hi {
        forall x | x in KeysOf(rest) ensures s[0].0 < x {
          var j :| 0 <= j < |rest| && rest[j].0 == x;
          FilterMembers(s[1..], lo, hi);
          assert rest[j] in s[1..];
          var i :| 0 <= i < |s[1..]| && s[1..][i] == rest[j];
          assert x in KeysOf(s[1..]);
        }
        var none: seq<(int, V)> := [];
        assert Filter(s, lo, hi) == none + [s[0]] + rest;
        assert KeysOf(none) == {};
        SortedAround(none, s[0].0, s[0].1, rest);
      }
    }
  }

  /** Nothing survives the filter when no key lies in [lo, hi). */
  lemma {:induction false} FilterOutside<V>(s: seq<(int, V)>, lo: int, hi: int)
    requires forall x :: x in KeysOf(s) ==> x < lo || hi <= x
    ensures Filter(s, lo, hi) == []
  {
    if s != [] {
      assert s[0].0 in KeysOf(s);
      assert s == [s[0]] + s[1..];
      KeysOfAppend([s[0]], s[1..]);
      FilterOutside(s[1..], lo, hi);
    }
  }

  /** The interval [k, k) is empty, so nothing is selected. */
  lemma {:induction false} FilterEmptyInterval<V>(s: seq<(int, V)>, k: int)
    ensures Filter(s, k, k) == []
  {
    if s != [] {
      FilterEmptyInterval(s[1..], k);
    }
  }

  /** Orders two range arguments into (lesser, greater). */
  function OrderedBounds(key1: int, key2: int): (r: (int, int))
    ensures r.0 <= r.1
    ensures (r.0 == key1 && r.1 == key2) || (r.0 == key2 && r.1 == key1)
  {
    var minKey := if key1 < key2 then key1 else key2;
    var maxKey := if key1 > key2 then key1 else key2;
    (minKey, maxKey)
  }

  /** The normalised range does not depend on the order of its arguments. */
  lemma OrderedBoundsSymmetric(key1: int, key2: int)
    ensures OrderedBounds(key1, key2) == OrderedBounds(key2, key1)
  {
  }
}
