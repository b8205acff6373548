/**
 * A stable sort by an integer key. The appointment code sorts with
 * `Array.prototype.sort` and a comparator `key(a) - key(b)`; that sort is
 * stable, so it is modelled here as insertion sort, which inserts each
 * element after every earlier element whose key is not larger.
 */
module Sorting {

  /** Keys never decrease along `s`. */
  predicate SortedBy<T>(s: seq<T>, key: T -> int) {
    forall i, j :: 0 <= i < j < |s| ==> key(s[i]) <= key(s[j])
  }

  /** Inserts `x` into `sorted` after every element whose key is at most `key(x)`. */
  function Insert<T>(sorted: seq<T>, x: T, key: T -> int): (r: seq<T>)
    ensures |r| == |sorted| + 1
  {
    if |sorted| == 0 || key(sorted[|sorted| - 1]) <= key(x) then sorted + [x]
    else Insert(sorted[..|sorted| - 1], x, key) + [sorted[|sorted| - 1]]
  }

  /** Stable sort of `s` by ascending `key`. */
  function SortBy<T>(s: seq<T>, key: T -> int): (r: seq<T>)
    ensures |r| == |s|
  {
    if |s| == 0 then [] else Insert(SortBy(s[..|s| - 1], key), s[|s| - 1], key)
  }

  /** The elements of `s` whose key is `v`, in their order in `s`. */
  function WithKey<T>(s: seq<T>, key: T -> int, v: int): seq<T> {
    if |s| == 0 then []
    else WithKey(s[..|s| - 1], key, v) + (if key(s[|s| - 1]) == v then [s[|s| - 1]] else [])
  }

  lemma {:induction false} InsertPermutes<T>(sorted: seq<T>, x: T, key: T -> int)
    ensures multiset(Insert(sorted, x, key)) == multiset(sorted) + multiset{x}
  {
    if |sorted| == 0 || key(sorted[|sorted| - 1]) <= key(x) {
    } else {
      var init, last := sorted[..|sorted| - 1], sorted[|sorted| - 1];
      InsertPermutes(init, x, key);
      assert sorted == init + [last];
    }
  }

  lemma {:induction false} InsertSorted<T>(sorted: seq<T>, x: T, key: T -> int)
    requires SortedBy(sorted, key)
    ensures SortedBy(Insert(sorted, x, key), key)
  {
    if |sorted| == 0 || key(sorted[|sorted| - 1]) <= key(x) {
    } else {
      var init, last := sorted[..|sorted| - 1], sorted[|sorted| - 1];
      InsertSorted(init, x, key);
      InsertPermutes(init, x, key);
      var r := Insert(init, x, key);
      forall i | 0 <= i < |r| ensures key(r[i]) <= key(last) {
        assert r[i] in multiset(r);
        assert r[i] in multiset(init) || r[i] == x;
      }
    }
  }

  /** Inserting `x` adds it after every element with the same key and leaves the rest in order. */
  lemma {:induction false} InsertStable<T>(sorted: seq<T>, x: T, key: T -> int, v: int)
    ensures WithKey(Insert(sorted, x, key), key, v)
         == WithKey(sorted, key, v) + (if key(x) == v then [x] else [])
  {
    if |sorted| == 0 || key(sorted[|sorted| - 1]) <= key(x) {
      assert (sorted + [x])[..|sorted|] == sorted;
    } else {
      var init, last := sorted[..|sorted| - 1], sorted[|sorted| - 1];
      InsertStable(init, x, key, v);
      var r := Insert(init, x, key);
      assert (r + [last])[..|r|] == r;
    }
  }

  /** SortBy returns a permutation of its input. */
  lemma {:induction false} SortByPermutes<T>(s: seq<T>, key: T -> int)
    ensures multiset(SortBy(s, key)) == multiset(s)
  {
    if |s| > 0 {
      var init, last := s[..|s| - 1], s[|s| - 1];
      SortByPermutes(init, key);
      InsertPermutes(SortBy(init, key), last, key);
      assert s == init + [last];
    }
  }

  /** SortBy returns its input ordered by ascending key. */
  lemma {:induction false} SortBySorted<T>(s: seq<T>, key: T -> int)
    ensures SortedBy(SortBy(s, key), key)
  {
    if |s| > 0 {
      SortBySorted(s[..|s| - 1], key);
      InsertSorted(SortBy(s[..|s| - 1], key), s[|s| - 1], key);
    }
  }

  /** SortBy is stable: elements sharing a key keep their input order. */
  lemma {:induction false} SortByStable<T>(s: seq<T>, key: T -> int, v: int)
    ensures WithKey(SortBy(s, key), key, v) == WithKey(s, key, v)
  {
    if |s| > 0 {
      SortByStable(s[..|s| - 1], key, v);
      InsertStable(SortBy(s[..|s| - 1], key), s[|s| - 1], key, v);
    }
  }

  /** Sorting an already sorted sequence changes nothing. */
  lemma {:induction false} SortByOfSorted<T>(s: seq<T>, key: T -> int)
    requires SortedBy(s, key)
    ensures SortBy(s, key) == s
  {
    if |s| > 0 {
      var init := s[..|s| - 1];
      assert SortedBy(init, key);
      SortByOfSorted(init, key);
      assert s == init + [s[|s| - 1]];
    }
  }

  /** Sorting twice is sorting once. */
  lemma SortByIdempotent<T>(s: seq<T>, key: T -> int)
    ensures SortBy(SortBy(s, key), key) == SortBy(s, key)
  {
    SortBySorted(s, key);
    SortByOfSorted(SortBy(s, key), key);
  }
}
