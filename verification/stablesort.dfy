/** `Array.prototype.sort` with the comparator `(a, b) => key(b) - key(a)`: ECMAScript
    requires the sort to be stable, so the result is the one permutation that orders by
    descending key and keeps elements with equal keys in their original order. It is
    computed here by insertion, which builds exactly that permutation. */
module StableSort {

  ghost predicate SortedDesc<T>(s: seq<T>, key: T -> int) {
    forall i, j :: 0 <= i < j < |s| ==> key(s[i]) >= key(s[j])
  }

  /** `x` placed before the first element whose key is not larger; `x` comes from
      before all of `s` in the original order, so it goes ahead of equal keys. */
  function Insert<T(==)>(x: T, s: seq<T>, key: T -> int): (r: seq<T>)
    ensures |r| == |s| + 1
    ensures multiset(r) == multiset([x] + s)
    ensures r[0] == if s == [] || key(x) >= key(s[0]) then x else s[0]
  {
    if s == [] || key(x) >= key(s[0]) then [x] + s
    else
      var rest := Insert(x, s[1..], key);
      assert s == [s[0]] + s[1..];
      assert multiset([s[0]] + rest) == multiset([s[0]]) + multiset(rest);
      [s[0]] + rest
  }

  /** Inserting into a list sorted by descending key keeps it sorted. */
  lemma {:induction false} InsertKeepsSorted<T>(x: T, s: seq<T>, key: T -> int)
    requires SortedDesc(s, key)
    ensures SortedDesc(Insert(x, s, key), key)
  {
    var r := Insert(x, s, key);
    if s == [] || key(x) >= key(s[0]) {
      assert r == [x] + s;
      forall i, j | 0 <= i < j < |r| ensures key(r[i]) >= key(r[j]) {
        if i > 0 {
          assert r[i] == s[i - 1] && r[j] == s[j - 1];
        } else {
          assert r[j] == s[j - 1];
        }
      }
    } else {
      var rest := Insert(x, s[1..], key);
      assert SortedDesc(s[1..], key) by {
        forall i, j | 0 <= i < j < |s[1..]| ensures key(s[1..][i]) >= key(s[1..][j]) {
          assert s[1..][i] == s[i + 1] && s[1..][j] == s[j + 1];
        }
      }
      InsertKeepsSorted(x, s[1..], key);
      assert r == [s[0]] + rest;
      assert key(s[0]) >= key(rest[0]) by {
        if s[1..] == [] || key(x) >= key(s[1..][0]) {
          assert rest[0] == x;
        } else {
          assert rest[0] == s[1];
        }
      }
      forall i, j | 0 <= i < j < |r| ensures key(r[i]) >= key(r[j]) {
        assert r[j] == rest[j - 1];
        if i > 0 {
          assert r[i] == rest[i - 1];
        } else if j > 1 {
          assert key(rest[0]) >= key(rest[j - 1]);
        }
      }
    }
  }

  function SortDescending<T(==)>(s: seq<T>, key: T -> int): (r: seq<T>)
    ensures |r| == |s|
    ensures multiset(r) == multiset(s)
    ensures SortedDesc(r, key)
  {
    if s == [] then []
    else
      assert s == [s[0]] + s[1..];
      var rest := SortDescending(s[1..], key);
      InsertKeepsSorted(s[0], rest, key);
      Insert(s[0], rest, key)
  }

  /** The elements of `s` whose key is `v`, in order. */
  function WithKey<T>(s: seq<T>, key: T -> int, v: int): seq<T> {
    if s == [] then []
    else (if key(s[0]) == v then [s[0]] else []) + WithKey(s[1..], key, v)
  }

  lemma {:induction false} WithKeyAppend<T>(a: seq<T>, b: seq<T>, key: T -> int, v: int)
    ensures WithKey(a + b, key, v) == WithKey(a, key, v) + WithKey(b, key, v)
  {
    if a == [] {
      assert a + b == b;
    } else {
      var c := a + b;
      assert c[0] == a[0];
      assert c[1..] == a[1..] + b;
      WithKeyAppend(a[1..], b, key, v);
      assert WithKey(c, key, v) == (if key(a[0]) == v then [a[0]] else []) + WithKey(c[1..], key, v);
    }
  }

  lemma {:induction false} InsertWithKey<T>(x: T, s: seq<T>, key: T -> int, v: int)
    ensures WithKey(Insert(x, s, key), key, v) ==
      (if key(x) == v then [x] else []) + WithKey(s, key, v)
  {
    var r := Insert(x, s, key);
    if s == [] || key(x) >= key(s[0]) {
      assert r[0] == x && r[1..] == s;
    } else {
      var rest := Insert(x, s[1..], key);
      InsertWithKey(x, s[1..], key, v);
      assert r[0] == s[0] && r[1..] == rest;
      assert WithKey(r, key, v) == (if key(s[0]) == v then [s[0]] else []) + WithKey(rest, key, v);
      assert WithKey(s, key, v) == (if key(s[0]) == v then [s[0]] else []) + WithKey(s[1..], key, v);
    }
  }

  /** Stability: for every key, the elements with that key keep their relative order. */
  lemma {:induction false} SortIsStable<T>(s: seq<T>, key: T -> int, v: int)
    ensures WithKey(SortDescending(s, key), key, v) == WithKey(s, key, v)
  {
    if s != [] {
      SortIsStable(s[1..], key, v);
      InsertWithKey(s[0], SortDescending(s[1..], key), key, v);
    }
  }

  /** The first index holding a largest key. */
  function FirstMaxIndex<T>(s: seq<T>, key: T -> int): (i: nat)
    requires s != []
    ensures i < |s|
    ensures forall j :: 0 <= j < |s| ==> key(s[j]) <= key(s[i])
    ensures forall j :: 0 <= j < i ==> key(s[j]) < key(s[i])
  {
    if |s| == 1 then 0
    else
      var i := FirstMaxIndex(s[1..], key);
      if key(s[0]) >= key(s[1..][i]) then 0 else i + 1
  }

  /** The head of the stable descending sort is the first element with the largest key. */
  lemma {:induction false} SortHeadIsFirstMax<T>(s: seq<T>, key: T -> int)
    requires s != []
    ensures SortDescending(s, key)[0] == s[FirstMaxIndex(s, key)]
  {
    if |s| > 1 {
      SortHeadIsFirstMax(s[1..], key);
    }
  }

  /** The first `m` elements of the sort take elements with equal keys in their
      original order. */
  lemma TopOfSortIsStable<T>(s: seq<T>, key: T -> int, m: nat, v: int)
    requires m <= |s|
    ensures WithKey(SortDescending(s, key)[..m], key, v) <= WithKey(s, key, v)
  {
    var sorted := SortDescending(s, key);
    assert sorted == sorted[..m] + sorted[m..];
    WithKeyAppend(sorted[..m], sorted[m..], key, v);
    SortIsStable(s, key, v);
  }
}
