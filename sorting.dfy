/**
 * A stable sort by an integer key: the reference for the library sort the
 * shift reconstruction calls. Stability matters there: two substitutions
 * for one side at the same second are applied in their original order.
 */
module Sorting {

  predicate SortedBy<T>(s: seq<T>, key: T -> int)
  {
    forall i, j :: 0 <= i < j < |s| ==> key(s[i]) <= key(s[j])
  }

  /** The elements of `s` whose key is `k`, in their order in `s`. */
  function WithKey<T>(s: seq<T>, key: T -> int, k: int): seq<T>
  {
    if s == [] then []
    else (if key(s[0]) == k then [s[0]] else []) + WithKey(s[1..], key, k)
  }

  /** `x` placed after every element whose key does not exceed its own. */
  function Insert<T>(x: T, s: seq<T>, key: T -> int): seq<T>
  {
    if s == [] then [x]
    else if key(x) < key(s[0]) then [x] + s
    else [s[0]] + Insert(x, s[1..], key)
  }

  /**
   * Sorted by key, a permutation of the input, and stable: the elements that
   * share a key keep their relative order.
   */
  function SortBy<T>(s: seq<T>, key: T -> int): (r: seq<T>)
    ensures SortedBy(r, key)
    ensures multiset(r) == multiset(s)
    ensures forall k :: WithKey(r, key, k) == WithKey(s, key, k)
  {
    if s == [] then []
    else
      var init, last := s[..|s| - 1], s[|s| - 1];
      var sortedInit := SortBy(init, key);
      InsertKeepsOrder(last, sortedInit, key);
      assert s == init + [last];
      forall k ensures WithKey(Insert(last, sortedInit, key), key, k) == WithKey(s, key, k) {
        WithKeyAppend(init, [last], key, k);
        InsertWithKey(last, sortedInit, key, k);
      }
      Insert(last, sortedInit, key)
  }

  lemma {:induction false} InsertKeepsOrder<T>(x: T, s: seq<T>, key: T -> int)
    requires SortedBy(s, key)
    ensures SortedBy(Insert(x, s, key), key)
    ensures multiset(Insert(x, s, key)) == multiset(s) + multiset{x}
  {
    InsertPermutes(x, s, key);
    if s != [] && key(x) >= key(s[0]) {
      var tail := s[1..];
      assert SortedBy(tail, key);
      InsertKeepsOrder(x, tail, key);
      InsertBounded(x, tail, key, key(s[0]));
      ConsSorted(s[0], Insert(x, tail, key), key);
    }
  }

  /** Inserting an element no smaller than `b` among elements no smaller than `b`. */
  lemma {:induction false} InsertBounded<T>(x: T, s: seq<T>, key: T -> int, b: int)
    requires forall i :: 0 <= i < |s| ==> b <= key(s[i])
    requires b <= key(x)
    ensures forall i :: 0 <= i < |Insert(x, s, key)| ==> b <= key(Insert(x, s, key)[i])
  {
    if s != [] && key(x) >= key(s[0]) {
      var tail := s[1..];
      InsertBounded(x, tail, key, b);
      var r := Insert(x, tail, key);
      forall i | 0 <= i < |[s[0]] + r| ensures b <= key(([s[0]] + r)[i]) {
        if i > 0 {
          assert ([s[0]] + r)[i] == r[i - 1];
        }
      }
    }
  }

  lemma ConsSorted<T>(y: T, r: seq<T>, key: T -> int)
    requires SortedBy(r, key)
    requires forall j :: 0 <= j < |r| ==> key(y) <= key(r[j])
    ensures SortedBy([y] + r, key)
  {
    var whole := [y] + r;
    forall i, j | 0 <= i < j < |whole| ensures key(whole[i]) <= key(whole[j]) {
      assert whole[j] == r[j - 1];
      if i > 0 {
        assert whole[i] == r[i - 1];
      }
    }
  }

  lemma {:induction false} InsertPermutes<T>(x: T, s: seq<T>, key: T -> int)
    ensures multiset(Insert(x, s, key)) == multiset(s) + multiset{x}
  {
    if s != [] && key(x) >= key(s[0]) {
      InsertPermutes(x, s[1..], key);
      assert s == [s[0]] + s[1..];
    }
  }

  lemma {:induction false} WithKeyAppend<T>(a: seq<T>, b: seq<T>, key: T -> int, k: int)
    ensures WithKey(a + b, key, k) == WithKey(a, key, k) + WithKey(b, key, k)
  {
    if a == [] {
      assert a + b == b;
    } else {
      WithKeyAppend(a[1..], b, key, k);
      assert a + b == [a[0]] + (a[1..] + b);
      assert a == [a[0]] + a[1..];
      WithKeyCons(a[0], a[1..] + b, key, k);
      WithKeyCons(a[0], a[1..], key, k);
    }
  }

  lemma {:induction false} WithKeyNone<T>(s: seq<T>, key: T -> int, k: int)
    requires forall i :: 0 <= i < |s| ==> key(s[i]) != k
    ensures WithKey(s, key, k) == []
  {
    if s != [] {
      WithKeyNone(s[1..], key, k);
    }
  }

  /** Inserting `x` adds it at the end of the elements that share its key. */
  lemma {:induction false} InsertWithKey<T>(x: T, s: seq<T>, key: T -> int, k: int)
    requires SortedBy(s, key)
    ensures WithKey(Insert(x, s, key), key, k) ==
            WithKey(s, key, k) + (if key(x) == k then [x] else [])
  {
    if s == [] {
      WithKeySingle(x, key, k);
      assert Insert(x, s, key) == [x];
    } else if key(x) < key(s[0]) {
      InsertBeforeAll(x, s, key, k);
    } else {
      var tail := s[1..];
      assert SortedBy(tail, key);
      InsertWithKey(x, tail, key, k);
      WithKeyCons(s[0], tail, key, k);
      WithKeyCons(s[0], Insert(x, tail, key), key, k);
      assert s == [s[0]] + tail;
    }
  }

  lemma WithKeySingle<T>(x: T, key: T -> int, k: int)
    ensures WithKey([x], key, k) == if key(x) == k then [x] else []
  {
    assert [x][1..] == [];
  }

  lemma WithKeyCons<T>(x: T, s: seq<T>, key: T -> int, k: int)
    ensures WithKey([x] + s, key, k) == (if key(x) == k then [x] else []) + WithKey(s, key, k)
  {
    assert ([x] + s)[0] == x && ([x] + s)[1..] == s;
  }

  /** `x` goes in front when its key is below every key of the sorted `s`. */
  lemma InsertBeforeAll<T>(x: T, s: seq<T>, key: T -> int, k: int)
    requires SortedBy(s, key) && s != [] && key(x) < key(s[0])
    ensures WithKey(Insert(x, s, key), key, k) ==
            WithKey(s, key, k) + (if key(x) == k then [x] else [])
  {
    WithKeyCons(x, s, key, k);
    if key(x) == k {
      WithKeyNone(s, key, k);
    }
  }
}
