/** Stable sorting by an integer key, the way `Array.prototype.sort` orders
    a list under a comparator `(a, b) => key(a) - key(b)`: ascending keys,
    and elements with equal keys in their original relative order. */
module Sorting {
  predicate SortedBy<T>(s: seq<T>, key: T -> int) {
    forall i, j :: 0 <= i < j < |s| ==> key(s[i]) <= key(s[j])
  }

  /** The elements of `s` whose key is `k`, in order. */
  function WithKey<T>(s: seq<T>, key: T -> int, k: int): seq<T> {
    if |s| == 0 then []
    else (if key(s[0]) == k then [s[0]] else []) + WithKey(s[1..], key, k)
  }

  lemma WithKeyCons<T>(x: T, s: seq<T>, key: T -> int, k: int)
    ensures WithKey([x] + s, key, k) == (if key(x) == k then [x] else []) + WithKey(s, key, k)
  {
    assert ([x] + s)[1..] == s;
  }

  /** `x` placed before the first element whose key is not smaller. */
  function InsertBy<T>(x: T, s: seq<T>, key: T -> int): (r: seq<T>)
    requires SortedBy(s, key)
    ensures SortedBy(r, key)
    ensures multiset(r) == multiset(s) + multiset{x}
    ensures |r| == |s| + 1
  {
    if |s| == 0 then [x]
    else if key(x) <= key(s[0]) then
      assert forall j :: 1 <= j < |s| + 1 ==> ([x] + s)[j] == s[j - 1];
      [x] + s
    else
      var rest := InsertBy(x, s[1..], key);
      InsertAboveHead(x, s, rest, key);
      [s[0]] + rest
  }

  /** `x` inserted below the head of `s` leaves the head in front. */
  lemma InsertAboveHead<T>(x: T, s: seq<T>, rest: seq<T>, key: T -> int)
    requires |s| > 0 && SortedBy(s, key) && key(s[0]) < key(x)
    requires SortedBy(rest, key) && multiset(rest) == multiset(s[1..]) + multiset{x}
    ensures SortedBy([s[0]] + rest, key)
    ensures multiset([s[0]] + rest) == multiset(s) + multiset{x}
  {
    forall j | 0 <= j < |rest| ensures key(s[0]) <= key(rest[j]) {
      assert rest[j] in multiset(rest);
      if rest[j] != x {
        assert rest[j] in multiset(s[1..]);
        var i :| 0 <= i < |s[1..]| && s[1..][i] == rest[j];
        assert s[i + 1] == rest[j];
      }
    }
    var r := [s[0]] + rest;
    forall i, j | 0 <= i < j < |r| ensures key(r[i]) <= key(r[j]) {
      assert r[j] == rest[j - 1];
      if i > 0 {
        assert r[i] == rest[i - 1];
      }
    }
    assert s == [s[0]] + s[1..];
  }

  /** Inserting puts `x` ahead of every element with the same key. */
  lemma {:induction false} InsertByWithKey<T>(x: T, s: seq<T>, key: T -> int, k: int)
    requires SortedBy(s, key)
    ensures WithKey(InsertBy(x, s, key), key, k) == (if key(x) == k then [x] else []) + WithKey(s, key, k)
    decreases |s|
  {
    if |s| == 0 {
      WithKeyCons(x, [], key, k);
      assert [x] + [] == [x];
    } else if key(x) <= key(s[0]) {
      WithKeyCons(x, s, key, k);
    } else {
      var rest := InsertBy(x, s[1..], key);
      assert InsertBy(x, s, key) == [s[0]] + rest;
      InsertByWithKey(x, s[1..], key, k);
      WithKeyBelowHead(x, s, rest, key, k);
    }
  }

  /** The head of `s` stays ahead of `x` among the elements with key `k`. */
  lemma WithKeyBelowHead<T>(x: T, s: seq<T>, rest: seq<T>, key: T -> int, k: int)
    requires |s| > 0 && key(s[0]) < key(x)
    requires WithKey(rest, key, k) == (if key(x) == k then [x] else []) + WithKey(s[1..], key, k)
    ensures WithKey([s[0]] + rest, key, k) == (if key(x) == k then [x] else []) + WithKey(s, key, k)
  {
    WithKeyCons(s[0], rest, key, k);
    WithKeyCons(s[0], s[1..], key, k);
    assert [s[0]] + s[1..] == s;
    if key(s[0]) == k {
      assert key(x) != k;
    }
  }

  /** Insertion sort: stable, ascending by `key`. */
  function SortBy<T>(s: seq<T>, key: T -> int): (r: seq<T>)
    ensures SortedBy(r, key)
    ensures multiset(r) == multiset(s) && |r| == |s|
  {
    if |s| == 0 then []
    else
      assert s == [s[0]] + s[1..];
      InsertBy(s[0], SortBy(s[1..], key), key)
  }

  /** Stability: for every key, the elements with that key come out in the
      order they went in. */
  lemma {:induction false} SortByIsStable<T>(s: seq<T>, key: T -> int, k: int)
    ensures WithKey(SortBy(s, key), key, k) == WithKey(s, key, k)
    decreases |s|
  {
    if |s| > 0 {
      SortByIsStable(s[1..], key, k);
      InsertByWithKey(s[0], SortBy(s[1..], key), key, k);
      WithKeyCons(s[0], s[1..], key, k);
      assert s == [s[0]] + s[1..];
    }
  }

  /** Sorting two elements swaps them exactly when the second has the
      smaller key. */
  lemma SortTwo<T>(x: T, y: T, key: T -> int)
    ensures SortBy([x, y], key) == if key(y) < key(x) then [y, x] else [x, y]
  {
    assert [x, y][1..] == [y];
    assert [y][1..] == [];
    assert SortBy([y], key) == [y];
    if key(y) < key(x) {
      assert [y][1..] == [];
    }
  }
}
