/**
 * A stable sort by an integer key, standing for `Array.prototype.sort` with a
 * comparator `(a, b) => key(a) - key(b)`. The language guarantees that sort
 * is stable, and a stable sort by a given key has exactly one possible
 * output, so an insertion sort describes it faithfully.
 */
module StableSort {

  /** `s` is ordered by non-decreasing key. */
  ghost predicate SortedBy<T>(s: seq<T>, key: T -> int)
  {
    forall i, j :: 0 <= i < j < |s| ==> key(s[i]) <= key(s[j])
  }

  /** The elements of `s` whose key is `k`, in their order in `s`. */
  function WithKey<T>(s: seq<T>, key: T -> int, k: int): (r: seq<T>)
    ensures |r| <= |s|
  {
    if s == [] then []
    else (if key(s[0]) == k then [s[0]] else []) + WithKey(s[1..], key, k)
  }

  /**
   * Inserts `x`, which stood before every element of `t` in the input,
   * ahead of the first element whose key is not smaller than its own.
   */
  function Insert<T>(x: T, t: seq<T>, key: T -> int): (r: seq<T>)
    ensures multiset(r) == multiset(t) + multiset{x}
    ensures |r| == |t| + 1
  {
    if t == [] || key(x) <= key(t[0]) then [x] + t
    else
      assert t == [t[0]] + t[1..];
      [t[0]] + Insert(x, t[1..], key)
  }

  /** `s` sorted by ascending key, ties kept in input order. */
  function SortBy<T>(s: seq<T>, key: T -> int): (r: seq<T>)
    ensures multiset(r) == multiset(s)
    ensures |r| == |s|
  {
    if s == [] then []
    else
      assert s == [s[0]] + s[1..];
      Insert(s[0], SortBy(s[1..], key), key)
  }

  /** The first `n` elements of `s`, or all of `s` when it is shorter (`slice(0, n)`). */
  function Take<T>(s: seq<T>, n: nat): (r: seq<T>)
    ensures |r| == if |s| < n then |s| else n
    ensures forall i :: 0 <= i < |r| ==> r[i] == s[i]
  {
    if |s| <= n then s else s[..n]
  }

  lemma {:induction false} InsertKeepsOrder<T>(x: T, t: seq<T>, key: T -> int)
    requires SortedBy(t, key)
    ensures SortedBy(Insert(x, t, key), key)
  {
    if t != [] && key(x) > key(t[0]) {
      var rest := Insert(x, t[1..], key);
      InsertKeepsOrder(x, t[1..], key);
      forall y | y in rest
        ensures key(t[0]) <= key(y)
      {
        assert y in multiset(rest);
        if y != x {
          assert y in t[1..];
        }
      }
    }
  }

  /** The sort puts its input in ascending key order. */
  lemma {:induction false} SortByIsSorted<T>(s: seq<T>, key: T -> int)
    ensures SortedBy(SortBy(s, key), key)
  {
    if s != [] {
      SortByIsSorted(s[1..], key);
      InsertKeepsOrder(s[0], SortBy(s[1..], key), key);
    }
  }

  lemma {:induction false} WithKeyOfInsert<T>(x: T, t: seq<T>, key: T -> int, k: int)
    ensures WithKey(Insert(x, t, key), key, k)
         == (if key(x) == k then [x] else []) + WithKey(t, key, k)
  {
    if t == [] || key(x) <= key(t[0]) {
      assert ([x] + t)[1..] == t;
    } else {
      var rest := Insert(x, t[1..], key);
      WithKeyOfInsert(x, t[1..], key, k);
      assert ([t[0]] + rest)[1..] == rest;
    }
  }

  /**
   * Stability: for every key value, the elements carrying it come out in the
   * order in which they went in.
   */
  lemma {:induction false} SortByIsStable<T>(s: seq<T>, key: T -> int, k: int)
    ensures WithKey(SortBy(s, key), key, k) == WithKey(s, key, k)
  {
    if s != [] {
      SortByIsStable(s[1..], key, k);
      WithKeyOfInsert(s[0], SortBy(s[1..], key), key, k);
    }
  }

  /** Keeping a prefix of a sequence keeps a prefix of each key's elements. */
  lemma {:induction false} WithKeyOfPrefix<T>(s: seq<T>, n: nat, key: T -> int, k: int)
    requires n <= |s|
    ensures WithKey(s[..n], key, k) <= WithKey(s, key, k)
  {
    if n > 0 {
      WithKeyOfPrefix(s[1..], n - 1, key, k);
      assert s[..n][1..] == s[1..][..n - 1];
    }
  }

  /**
   * The first `n` of a sorted sequence are its smallest: nothing left out
   * has a smaller key than anything kept.
   */
  lemma TakeOfSortedIsSmallest<T>(t: seq<T>, n: nat, key: T -> int, y: T)
    requires SortedBy(t, key)
    requires y in t && y !in Take(t, n)
    ensures forall i :: 0 <= i < |Take(t, n)| ==> key(Take(t, n)[i]) <= key(y)
  {
    var j :| 0 <= j < |t| && t[j] == y;
    assert j >= |Take(t, n)|;
  }
}
