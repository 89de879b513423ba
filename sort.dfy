/**
 * sort.SliceStable as mess.go uses it: every comparator there orders
 * chunks by an integer key (`less(i, j)` is `key(i) < key(j)`), and a
 * stable sort by such a comparator has exactly one result, the one built
 * here by insertion. The lemmas give the three facts callers rely on:
 * the result is ordered by key, it is a permutation of the input, and
 * chunks with equal keys keep their input order.
 */
module StableSort {
  import opened ChunkLayout

  type Key = Chunk -> int

  predicate SortedBy(s: seq<Chunk>, key: Key) {
    forall i, j | 0 <= i < j < |s| :: key(s[i]) <= key(s[j])
  }

  /** Inserts `x` after every chunk of `s` whose key is not larger than its own. */
  function Insert(x: Chunk, s: seq<Chunk>, key: Key): (r: seq<Chunk>)
    ensures |r| == |s| + 1
    ensures multiset(r) == multiset(s) + multiset{x}
  {
    if |s| == 0 then [x]
    else if key(s[|s| - 1]) <= key(x) then s + [x]
    else
      assert s == s[..|s| - 1] + [s[|s| - 1]];
      Insert(x, s[..|s| - 1], key) + [s[|s| - 1]]
  }

  /** The stable sort of `s` by `key`: each chunk in turn inserted into the sorted prefix. */
  function SortByKey(s: seq<Chunk>, key: Key): (r: seq<Chunk>)
    ensures |r| == |s|
    ensures multiset(r) == multiset(s)
  {
    if |s| == 0 then []
    else
      assert s == s[..|s| - 1] + [s[|s| - 1]];
      Insert(s[|s| - 1], SortByKey(s[..|s| - 1], key), key)
  }

  /** The chunks of `s` whose key is `k`, in order. */
  function WithKey(s: seq<Chunk>, key: Key, k: int): (r: seq<Chunk>)
    ensures |r| <= |s|
  {
    if |s| == 0 then []
    else WithKey(s[..|s| - 1], key, k) + (if key(s[|s| - 1]) == k then [s[|s| - 1]] else [])
  }

  lemma {:induction false} InsertSorted(x: Chunk, s: seq<Chunk>, key: Key)
    requires SortedBy(s, key)
    ensures SortedBy(Insert(x, s, key), key)
    decreases |s|
  {
    if s != [] && key(s[|s| - 1]) > key(x) {
      var init := s[..|s| - 1];
      var last := s[|s| - 1];
      var t := Insert(x, init, key);
      InsertSorted(x, init, key);
      forall i | 0 <= i < |t|
        ensures key(t[i]) <= key(last)
      {
        assert t[i] in multiset(t);
        if t[i] != x {
          assert t[i] in multiset(init);
          var j :| 0 <= j < |init| && init[j] == t[i];
          assert s[j] == t[i];
        }
      }
    }
  }

  /** The sort orders by key. */
  lemma {:induction false} SortByKeySorted(s: seq<Chunk>, key: Key)
    ensures SortedBy(SortByKey(s, key), key)
    decreases |s|
  {
    if s != [] {
      SortByKeySorted(s[..|s| - 1], key);
      InsertSorted(s[|s| - 1], SortByKey(s[..|s| - 1], key), key);
    }
  }

  lemma {:induction false} InsertWithKey(x: Chunk, s: seq<Chunk>, key: Key, k: int)
    ensures WithKey(Insert(x, s, key), key, k) == WithKey(s, key, k) + (if key(x) == k then [x] else [])
    decreases |s|
  {
    var xs: seq<Chunk> := if key(x) == k then [x] else [];
    if s == [] {
      assert ([] + [x])[..0] == [];
    } else if key(s[|s| - 1]) <= key(x) {
      assert (s + [x])[..|s|] == s;
    } else {
      var init := s[..|s| - 1];
      var last := s[|s| - 1];
      var ls: seq<Chunk> := if key(last) == k then [last] else [];
      var t := Insert(x, init, key);
      assert Insert(x, s, key) == t + [last];
      assert (t + [last])[..|t|] == t;
      assert WithKey(t + [last], key, k) == WithKey(t, key, k) + ls;
      InsertWithKey(x, init, key, k);
      var w := WithKey(init, key, k);
      assert WithKey(s, key, k) == w + ls;
      if xs == [] {
        assert w + xs == w && (w + ls) + xs == w + ls;
      } else {
        assert ls == [];
        assert (w + xs) + ls == w + xs && w + ls == w;
      }
    }
  }

  /** The sort is stable: the chunks of any one key keep their input order. */
  lemma {:induction false} SortByKeyStable(s: seq<Chunk>, key: Key, k: int)
    ensures WithKey(SortByKey(s, key), key, k) == WithKey(s, key, k)
    decreases |s|
  {
    if s != [] {
      SortByKeyStable(s[..|s| - 1], key, k);
      InsertWithKey(s[|s| - 1], SortByKey(s[..|s| - 1], key), key, k);
    }
  }
}
