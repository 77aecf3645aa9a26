/**
 * Python's `sorted(xs, key=...)` on integer keys: a stable sort, so elements with equal
 * keys keep their input order. `sorted(..., reverse=True)` is also stable, so it is the
 * same sort on the negated key.
 */
module Sorting {

  ghost predicate SortedBy<T>(s: seq<T>, key: T -> int) {
    forall i, j :: 0 <= i < j < |s| ==> key(s[i]) <= key(s[j])
  }

  /** The elements of `s` whose key is `k`, in the order of `s`. */
  function WithKey<T>(s: seq<T>, key: T -> int, k: int): seq<T> {
    if s == [] then [] else (if key(s[0]) == k then [s[0]] else []) + WithKey(s[1..], key, k)
  }

  /** Picking the elements with one key distributes over concatenation. */
  lemma {:induction false} WithKeyAppend<T>(a: seq<T>, b: seq<T>, key: T -> int, k: int)
    ensures WithKey(a + b, key, k) == WithKey(a, key, k) + WithKey(b, key, k)
  {
    if a != [] {
      assert (a + b)[0] == a[0] && (a + b)[1..] == a[1..] + b;
      WithKeyAppend(a[1..], b, key, k);
    } else {
      assert a + b == b;
    }
  }

  /** Inserts `x` before the first element whose key is not smaller than its own. */
  function Insert<T>(x: T, s: seq<T>, key: T -> int): seq<T> {
    if s == [] || key(x) <= key(s[0]) then [x] + s else [s[0]] + Insert(x, s[1..], key)
  }

  lemma {:induction false} InsertPermutes<T>(x: T, s: seq<T>, key: T -> int)
    ensures multiset(Insert(x, s, key)) == multiset{x} + multiset(s)
  {
    if s != [] && key(x) > key(s[0]) {
      InsertPermutes(x, s[1..], key);
      assert s == [s[0]] + s[1..];
    }
  }

  lemma {:induction false} InsertSorted<T>(x: T, s: seq<T>, key: T -> int)
    requires SortedBy(s, key)
    ensures SortedBy(Insert(x, s, key), key)
  {
    if s != [] && key(x) > key(s[0]) {
      InsertSorted(x, s[1..], key);
      var r := Insert(x, s, key);
      assert r == [s[0]] + Insert(x, s[1..], key);
      InsertPermutes(x, s[1..], key);
      forall j | 0 < j < |r| ensures key(s[0]) <= key(r[j]) {
        assert r[j] in multiset(Insert(x, s[1..], key));
        assert r[j] == x || r[j] in s[1..];
      }
    }
  }

  lemma {:induction false} InsertWithKey<T>(x: T, s: seq<T>, key: T -> int, k: int)
    ensures WithKey(Insert(x, s, key), key, k) == (if key(x) == k then [x] else []) + WithKey(s, key, k)
  {
    if s == [] || key(x) <= key(s[0]) {
      assert ([x] + s)[1..] == s;
    } else {
      var r := Insert(x, s, key);
      var cx := if key(x) == k then [x] else [];
      var c0 := if key(s[0]) == k then [s[0]] else [];
      assert r[0] == s[0] && r[1..] == Insert(x, s[1..], key);
      InsertWithKey(x, s[1..], key, k);
      assert WithKey(r, key, k) == c0 + (cx + WithKey(s[1..], key, k));
      assert cx == [] || c0 == [];
    }
  }

  /** `sorted(s, key=key)`. */
  function StableSort<T>(s: seq<T>, key: T -> int): seq<T> {
    if s == [] then [] else Insert(s[0], StableSort(s[1..], key), key)
  }

  lemma SortSingle<T>(x: T, key: T -> int)
    ensures StableSort([x], key) == [x]
  {
    assert [x][1..] == [];
  }

  /** The sort is a permutation of its input. */
  lemma {:induction false} StableSortPermutes<T>(s: seq<T>, key: T -> int)
    ensures multiset(StableSort(s, key)) == multiset(s)
  {
    if s != [] {
      StableSortPermutes(s[1..], key);
      InsertPermutes(s[0], StableSort(s[1..], key), key);
      assert s == [s[0]] + s[1..];
    }
  }

  /** The sort orders by key, and elements with equal keys keep their input order. */
  lemma {:induction false} StableSortCorrect<T>(s: seq<T>, key: T -> int)
    ensures SortedBy(StableSort(s, key), key)
    ensures forall k :: WithKey(StableSort(s, key), key, k) == WithKey(s, key, k)
  {
    if s != [] {
      StableSortCorrect(s[1..], key);
      InsertSorted(s[0], StableSort(s[1..], key), key);
      forall k ensures WithKey(StableSort(s, key), key, k) == WithKey(s, key, k) {
        InsertWithKey(s[0], StableSort(s[1..], key), key, k);
      }
    }
  }
}
