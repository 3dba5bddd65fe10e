/**
 * `Array.prototype.sort` with a numeric comparator `(a, b) => key(a) - key(b)`.
 * The language requires that sort to be stable, so the model is a stable
 * insertion sort: an element is placed after every element whose key is not
 * larger than its own.
 */
module Sorting {

  /** `s` is ascending by `key`. */
  ghost predicate SortedBy<T>(s: seq<T>, key: T -> int)
  {
    forall i, j :: 0 <= i < j < |s| ==> key(s[i]) <= key(s[j])
  }

  /** The elements of `s` whose key is `v`, in their order in `s`. */
  function WithKey<T>(s: seq<T>, key: T -> int, v: int): seq<T>
  {
    if s == [] then [] else (if key(s[0]) == v then [s[0]] else []) + WithKey(s[1..], key, v)
  }

  /** Places `x` into `s` after every leading element whose key is at most `key(x)`. */
  function Insert<T>(s: seq<T>, x: T, key: T -> int): (r: seq<T>)
    ensures |r| == |s| + 1
  {
    if s == [] then [x]
    else if key(x) < key(s[0]) then [x] + s
    else [s[0]] + Insert(s[1..], x, key)
  }

  /** Putting an element no larger than the head in front of an ascending sequence keeps it ascending. */
  lemma SortedCons<T>(y: T, t: seq<T>, key: T -> int)
    requires SortedBy(t, key)
    requires t != [] ==> key(y) <= key(t[0])
    ensures SortedBy([y] + t, key)
  {
    var r := [y] + t;
    forall i, j | 0 <= i < j < |r|
      ensures key(r[i]) <= key(r[j])
    {
      assert r[j] == t[j - 1];
      if i > 0 {
        assert r[i] == t[i - 1];
      } else if j > 1 {
        assert key(t[0]) <= key(t[j - 1]);
      }
    }
  }

  /** Insertion adds exactly `x`, and puts either `x` or the old head first. */
  lemma {:induction false} InsertAddsElement<T>(s: seq<T>, x: T, key: T -> int)
    ensures multiset(Insert(s, x, key)) == multiset(s) + multiset{x}
    ensures Insert(s, x, key)[0] == x || Insert(s, x, key)[0] == s[0]
  {
    if s != [] && key(x) >= key(s[0]) {
      var tail := Insert(s[1..], x, key);
      assert Insert(s, x, key) == [s[0]] + tail;
      InsertAddsElement(s[1..], x, key);
      assert s == [s[0]] + s[1..];
    }
  }

  /** Inserting into an ascending sequence keeps it ascending. */
  lemma {:induction false} InsertIsSorted<T>(s: seq<T>, x: T, key: T -> int)
    requires SortedBy(s, key)
    ensures SortedBy(Insert(s, x, key), key)
  {
    if s == [] {
      assert Insert(s, x, key) == [x];
    } else if key(x) < key(s[0]) {
      assert Insert(s, x, key) == [x] + s;
      SortedCons(x, s, key);
    } else {
      var tail := Insert(s[1..], x, key);
      assert Insert(s, x, key) == [s[0]] + tail;
      InsertIsSorted(s[1..], x, key);
      InsertAddsElement(s[1..], x, key);
      assert tail[0] == x || tail[0] == s[1];
      SortedCons(s[0], tail, key);
    }
  }

  /** Sorts `s` ascending by `key`, keeping elements with equal keys in their original order. */
  function SortBy<T>(s: seq<T>, key: T -> int): (r: seq<T>)
    ensures SortedBy(r, key)
    ensures multiset(r) == multiset(s)
    ensures |r| == |s|
  {
    if s == [] then []
    else
      var prefix, last := s[..|s| - 1], s[|s| - 1];
      assert s == prefix + [last];
      InsertIsSorted(SortBy(prefix, key), last, key);
      InsertAddsElement(SortBy(prefix, key), last, key);
      Insert(SortBy(prefix, key), last, key)
  }

  lemma {:induction false} WithKeyAppend<T>(a: seq<T>, b: seq<T>, key: T -> int, v: int)
    ensures WithKey(a + b, key, v) == WithKey(a, key, v) + WithKey(b, key, v)
  {
    if a != [] {
      assert (a + b)[1..] == a[1..] + b;
      WithKeyAppend(a[1..], b, key, v);
    } else {
      assert a + b == b;
    }
  }

  /** In an ascending sequence whose first key exceeds `v`, nothing has key `v`. */
  lemma {:induction false} WithKeyAbove<T>(s: seq<T>, key: T -> int, v: int)
    requires SortedBy(s, key)
    requires s != [] ==> v < key(s[0])
    ensures WithKey(s, key, v) == []
  {
    if |s| > 1 {
      WithKeyAbove(s[1..], key, v);
    }
  }

  /** Inserting `x` appends it to the elements that share its key, and leaves the others alone. */
  lemma {:induction false} InsertIsStable<T>(s: seq<T>, x: T, key: T -> int, v: int)
    requires SortedBy(s, key)
    ensures WithKey(Insert(s, x, key), key, v) == WithKey(s, key, v) + (if key(x) == v then [x] else [])
  {
    var own := if key(x) == v then [x] else [];
    if s == [] {
      assert Insert(s, x, key) == [x];
      assert WithKey([x], key, v) == own + WithKey([], key, v);
    } else if key(x) < key(s[0]) {
      var r := [x] + s;
      assert Insert(s, x, key) == r;
      assert r[1..] == s;
      assert WithKey(r, key, v) == own + WithKey(s, key, v);
      if key(x) == v {
        WithKeyAbove(s, key, v);
      }
    } else {
      var tail := Insert(s[1..], x, key);
      var r := [s[0]] + tail;
      var head := if key(s[0]) == v then [s[0]] else [];
      assert Insert(s, x, key) == r;
      assert r[1..] == tail;
      assert WithKey(r, key, v) == head + WithKey(tail, key, v);
      assert WithKey(s, key, v) == head + WithKey(s[1..], key, v);
      InsertIsStable(s[1..], x, key, v);
    }
  }

  /**
   * Stability: for every key value, the elements carrying it come out of the
   * sort in the order they went in.
   */
  lemma {:induction false} SortByIsStable<T>(s: seq<T>, key: T -> int, v: int)
    ensures WithKey(SortBy(s, key), key, v) == WithKey(s, key, v)
  {
    if s != [] {
      var prefix, last := s[..|s| - 1], s[|s| - 1];
      assert s == prefix + [last];
      SortByIsStable(prefix, key, v);
      InsertIsStable(SortBy(prefix, key), last, key, v);
      WithKeyAppend(prefix, [last], key, v);
      assert [last][1..] == [];
    }
  }
}
