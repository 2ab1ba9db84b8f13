/** Python's sorted(s, key=f) for a natural-number key: a stable sort. It is
    written as an insertion sort and proved to return the one arrangement of s
    that is ordered by key and keeps the input order among equal keys. */
module StableSort {

  predicate Sorted<T>(s: seq<T>, key: T -> nat) {
    forall i, j :: 0 <= i < j < |s| ==> key(s[i]) <= key(s[j])
  }

  /** The elements of s whose key is k, in their order in s. */
  function WithKey<T>(s: seq<T>, key: T -> nat, k: nat): (r: seq<T>) {
    if s == [] then []
    else (if key(s[0]) == k then [s[0]] else []) + WithKey(s[1..], key, k)
  }

  /** Insert x before the first element whose key is not smaller than x's. */
  function Insert<T>(x: T, t: seq<T>, key: T -> nat): (r: seq<T>)
    ensures |r| == |t| + 1
  {
    if t == [] then [x]
    else if key(x) <= key(t[0]) then [x] + t
    else [t[0]] + Insert(x, t[1..], key)
  }

  function SortBy<T>(s: seq<T>, key: T -> nat): (r: seq<T>)
    ensures |r| == |s|
  {
    if s == [] then [] else Insert(s[0], SortBy(s[1..], key), key)
  }

  lemma {:induction false} InsertPermutes<T>(x: T, t: seq<T>, key: T -> nat)
    ensures multiset(Insert(x, t, key)) == multiset{x} + multiset(t)
  {
    if t != [] && key(x) > key(t[0]) {
      InsertPermutes(x, t[1..], key);
      assert t == [t[0]] + t[1..];
    }
  }

  /** Every element of t that is not x has a key at least t[0]'s. */
  lemma HeadIsLeast<T>(x: T, t: seq<T>, key: T -> nat, y: T)
    requires t != [] && Sorted(t, key)
    requires y in multiset{x} + multiset(t[1..]) && y != x
    ensures key(t[0]) <= key(y)
  {
    assert y in multiset(t[1..]);
    var m :| 0 <= m < |t[1..]| && t[1..][m] == y;
    assert t[m + 1] == y;
  }

  /** Putting an element no larger than every element in front keeps a list sorted. */
  lemma ConsSorted<T>(y: T, t: seq<T>, key: T -> nat)
    requires Sorted(t, key)
    requires forall j :: 0 <= j < |t| ==> key(y) <= key(t[j])
    ensures Sorted([y] + t, key)
  {
    var r := [y] + t;
    forall i, j | 0 <= i < j < |r| ensures key(r[i]) <= key(r[j]) {
      assert r[j] == t[j - 1];
      if i > 0 {
        assert r[i] == t[i - 1];
      }
    }
  }

  lemma {:induction false} InsertSorted<T>(x: T, t: seq<T>, key: T -> nat)
    requires Sorted(t, key)
    ensures Sorted(Insert(x, t, key), key)
  {
    if t != [] {
      if key(x) <= key(t[0]) {
        ConsSorted(x, t, key);
      } else {
        var tail := Insert(x, t[1..], key);
        SortedTail(t, key);
        InsertSorted(x, t[1..], key);
        InsertPermutes(x, t[1..], key);
        forall j | 0 <= j < |tail| ensures key(t[0]) <= key(tail[j]) {
          assert tail[j] in multiset(tail);
          if tail[j] != x {
            HeadIsLeast(x, t, key, tail[j]);
          }
        }
        ConsSorted(t[0], tail, key);
      }
    }
  }

  /** SortBy rearranges its input: nothing is added or dropped. */
  lemma {:induction false} SortByPermutes<T>(s: seq<T>, key: T -> nat)
    ensures multiset(SortBy(s, key)) == multiset(s)
  {
    if s != [] {
      SortByPermutes(s[1..], key);
      InsertPermutes(s[0], SortBy(s[1..], key), key);
      assert s == [s[0]] + s[1..];
    }
  }

  /** SortBy orders by non-decreasing key. */
  lemma {:induction false} SortBySorted<T>(s: seq<T>, key: T -> nat)
    ensures Sorted(SortBy(s, key), key)
  {
    if s != [] {
      SortBySorted(s[1..], key);
      InsertSorted(s[0], SortBy(s[1..], key), key);
    }
  }

  lemma WithKeyCons<T>(x: T, t: seq<T>, key: T -> nat, k: nat)
    ensures WithKey([x] + t, key, k) == (if key(x) == k then [x] else []) + WithKey(t, key, k)
  {
    assert ([x] + t)[1..] == t;
  }

  lemma {:induction false} InsertWithKey<T>(x: T, t: seq<T>, key: T -> nat, k: nat)
    ensures WithKey(Insert(x, t, key), key, k) == (if key(x) == k then [x] else []) + WithKey(t, key, k)
  {
    if t == [] {
      assert Insert(x, t, key) == [x] + [];
      WithKeyCons(x, [], key, k);
    } else if key(x) <= key(t[0]) {
      WithKeyCons(x, t, key, k);
    } else {
      var ex: seq<T> := if key(x) == k then [x] else [];
      var e0: seq<T> := if key(t[0]) == k then [t[0]] else [];
      InsertWithKey(x, t[1..], key, k);
      WithKeyCons(t[0], Insert(x, t[1..], key), key, k);
      WithKeyCons(t[0], t[1..], key, k);
      assert t == [t[0]] + t[1..];
      assert e0 == [] || ex == [];
      assert e0 + ex == ex + e0;
      calc {
        WithKey(Insert(x, t, key), key, k);
        e0 + WithKey(Insert(x, t[1..], key), key, k);
        e0 + (ex + WithKey(t[1..], key, k));
        (ex + e0) + WithKey(t[1..], key, k);
        ex + WithKey(t, key, k);
      }
    }
  }

  /** Stability: elements with equal keys keep their input order. */
  lemma {:induction false} SortByStable<T>(s: seq<T>, key: T -> nat, k: nat)
    ensures WithKey(SortBy(s, key), key, k) == WithKey(s, key, k)
  {
    if s != [] {
      SortByStable(s[1..], key, k);
      InsertWithKey(s[0], SortBy(s[1..], key), key, k);
    }
  }

  lemma {:induction false} WithKeyMembers<T>(s: seq<T>, key: T -> nat, k: nat, y: T)
    ensures y in WithKey(s, key, k) <==> y in s && key(y) == k
  {
    if s != [] {
      WithKeyMembers(s[1..], key, k, y);
      assert s == [s[0]] + s[1..];
    }
  }

  /** If b holds an element with key k and b is sorted, b's first key is at most k. */
  lemma FirstKeyAtMost<T>(b: seq<T>, key: T -> nat, k: nat)
    requires Sorted(b, key) && WithKey(b, key, k) != []
    ensures b != [] && key(b[0]) <= k
  {
    var y := WithKey(b, key, k)[0];
    WithKeyMembers(b, key, k, y);
    var i :| 0 <= i < |b| && b[i] == y;
  }

  lemma SortedTail<T>(s: seq<T>, key: T -> nat)
    requires s != [] && Sorted(s, key)
    ensures Sorted(s[1..], key)
  {
    forall i, j | 0 <= i < j < |s[1..]| ensures key(s[1..][i]) <= key(s[1..][j]) {
      assert s[1..][i] == s[i + 1] && s[1..][j] == s[j + 1];
    }
  }

  /** Two sorted arrangements that agree on every key class are equal. */
  lemma {:induction false} StableArrangementUnique<T>(a: seq<T>, b: seq<T>, key: T -> nat)
    requires Sorted(a, key) && Sorted(b, key)
    requires forall k: nat :: WithKey(a, key, k) == WithKey(b, key, k)
    ensures a == b
    decreases |a|
  {
    if a != [] {
      WithKeyCons(a[0], a[1..], key, key(a[0]));
      assert a == [a[0]] + a[1..];
      FirstKeyAtMost(b, key, key(a[0]));
      WithKeyCons(b[0], b[1..], key, key(b[0]));
      assert b == [b[0]] + b[1..];
      FirstKeyAtMost(a, key, key(b[0]));
      var k0 := key(a[0]);
      assert k0 == key(b[0]);
      assert WithKey(a, key, k0) == WithKey(b, key, k0);
      assert WithKey(a, key, k0)[0] == a[0];
      assert a[0] == b[0];
      forall k: nat ensures WithKey(a[1..], key, k) == WithKey(b[1..], key, k) {
        assert WithKey(a, key, k) == WithKey(b, key, k);
        WithKeyCons(a[0], a[1..], key, k);
        WithKeyCons(b[0], b[1..], key, k);
        var e: seq<T> := if key(a[0]) == k then [a[0]] else [];
        assert (e + WithKey(a[1..], key, k))[|e|..] == WithKey(a[1..], key, k);
        assert (e + WithKey(b[1..], key, k))[|e|..] == WithKey(b[1..], key, k);
      }
      SortedTail(a, key);
      SortedTail(b, key);
      StableArrangementUnique(a[1..], b[1..], key);
    } else if b != [] {
      WithKeyCons(b[0], b[1..], key, key(b[0]));
      assert b == [b[0]] + b[1..];
      FirstKeyAtMost(a, key, key(b[0]));
    }
  }

  /** SortBy(s, key) is the only arrangement of s that is sorted by key and
      keeps input order among equal keys, so it is the result of a stable sort. */
  lemma SortByIsTheStableSort<T>(s: seq<T>, key: T -> nat, r: seq<T>)
    requires Sorted(r, key)
    requires forall k: nat :: WithKey(r, key, k) == WithKey(s, key, k)
    ensures r == SortBy(s, key)
  {
    SortBySorted(s, key);
    forall k: nat ensures WithKey(r, key, k) == WithKey(SortBy(s, key), key, k) {
      SortByStable(s, key, k);
    }
    StableArrangementUnique(r, SortBy(s, key), key);
  }
}
