/**
 A stable sort of a sequence by a real-valued key, and the facts that pin it down:
 the result is ordered by key, is a permutation of the input, and keeps the input
 order of every group of elements that share a key. Together these determine the
 result uniquely, so the insertion sort defined here yields exactly what any other
 stable sort (such as Python's `list.sort`) yields.
 */
module StableSort {

  /** Applies `f` to every element of `s`. */
  function Map<T, U>(f: T -> U, s: seq<T>): (r: seq<U>)
    ensures |r| == |s|
    ensures forall i :: 0 <= i < |s| ==> r[i] == f(s[i])
  {
    if s == [] then [] else [f(s[0])] + Map(f, s[1..])
  }

  /** `s` is in non-decreasing order of `key`. */
  predicate SortedBy<T>(s: seq<T>, key: T -> real)
  {
    forall i, j :: 0 <= i < j < |s| ==> key(s[i]) <= key(s[j])
  }

  /** The elements of `s` whose key is `k`, in the order they have in `s`. */
  function WithKey<T>(s: seq<T>, key: T -> real, k: real): seq<T>
  {
    if s == [] then []
    else (if key(s[0]) == k then [s[0]] else []) + WithKey(s[1..], key, k)
  }

  /** Every group of equal-key elements of `r` and of `s` is the same sequence. */
  ghost predicate SameTies<T>(r: seq<T>, s: seq<T>, key: T -> real)
  {
    forall k :: WithKey(r, key, k) == WithKey(s, key, k)
  }

  /** Puts `x` in front of the first element of `s` whose key is not below its own. */
  function Insert<T>(x: T, s: seq<T>, key: T -> real): seq<T>
  {
    if s == [] || key(x) <= key(s[0]) then [x] + s
    else [s[0]] + Insert(x, s[1..], key)
  }

  lemma {:induction false} InsertSorted<T>(x: T, s: seq<T>, key: T -> real)
    requires SortedBy(s, key)
    ensures SortedBy(Insert(x, s, key), key)
  {
    if s == [] || key(x) <= key(s[0]) {
    } else {
      var t := Insert(x, s[1..], key);
      InsertSorted(x, s[1..], key);
      InsertCount(x, s[1..], key);
      // every element of `t` is `x` or comes from `s[1..]`, so it is not below `s[0]`
      forall j | 0 <= j < |t| ensures key(s[0]) <= key(t[j]) {
        assert t[j] in multiset(t);
        if t[j] != x {
          assert t[j] in multiset(s[1..]);
          var q :| 0 <= q < |s[1..]| && s[1..][q] == t[j];
          assert s[q + 1] == t[j];
        }
      }
    }
  }

  lemma WithKeyCons<T>(y: T, s: seq<T>, key: T -> real, k: real)
    ensures WithKey([y] + s, key, k) == (if key(y) == k then [y] else []) + WithKey(s, key, k)
  {
    assert ([y] + s)[1..] == s;
  }

  /** Inserting `x` adds it in front of its own key group and leaves every other group alone. */
  lemma {:induction false} InsertWithKey<T>(x: T, s: seq<T>, key: T -> real)
    ensures forall k :: WithKey(Insert(x, s, key), key, k)
                        == (if key(x) == k then [x] else []) + WithKey(s, key, k)
  {
    if s == [] || key(x) <= key(s[0]) {
      forall k ensures WithKey([x] + s, key, k) == (if key(x) == k then [x] else []) + WithKey(s, key, k) {
        WithKeyCons(x, s, key, k);
      }
    } else {
      var t := Insert(x, s[1..], key);
      InsertWithKey(x, s[1..], key);
      assert s == [s[0]] + s[1..];
      forall k ensures WithKey([s[0]] + t, key, k) == (if key(x) == k then [x] else []) + WithKey(s, key, k) {
        var xs := if key(x) == k then [x] else [];
        var ys := if key(s[0]) == k then [s[0]] else [];
        WithKeyCons(s[0], t, key, k);
        WithKeyCons(s[0], s[1..], key, k);
        assert WithKey(t, key, k) == xs + WithKey(s[1..], key, k);
        // `s[0]` sorts strictly before `x`, so at most one of them has key `k`
        assert xs == [] || ys == [];
        assert ys + (xs + WithKey(s[1..], key, k)) == xs + (ys + WithKey(s[1..], key, k));
      }
    }
  }

  /** Stable insertion sort: each element is inserted in front of the equal-key elements after it. */
  function SortBy<T>(s: seq<T>, key: T -> real): (r: seq<T>)
    ensures |r| == |s|
    ensures SortedBy(r, key)
    ensures multiset(r) == multiset(s)
    ensures SameTies(r, s, key)
  {
    if s == [] then []
    else
      var t := SortBy(s[1..], key);
      InsertSorted(s[0], t, key);
      InsertCount(s[0], t, key);
      InsertWithKey(s[0], t, key);
      assert s == [s[0]] + s[1..];
      assert SameTies(Insert(s[0], t, key), s, key) by {
        forall k ensures WithKey(Insert(s[0], t, key), key, k) == WithKey(s, key, k) {
          assert WithKey(t, key, k) == WithKey(s[1..], key, k);
        }
      }
      Insert(s[0], t, key)
  }

  lemma {:induction false} WithKeyMembers<T>(s: seq<T>, key: T -> real, k: real)
    ensures forall x :: x in WithKey(s, key, k) ==> x in s && key(x) == k
  {
    if s != [] {
      WithKeyMembers(s[1..], key, k);
    }
  }

  lemma HeadKeyGroup<T>(s: seq<T>, key: T -> real)
    ensures s != [] ==> WithKey(s, key, key(s[0])) != []
  {
  }

  lemma SortedHeadIsLeast<T>(s: seq<T>, key: T -> real, x: T)
    requires SortedBy(s, key)
    requires x in s
    ensures key(s[0]) <= key(x)
  {
  }

  /**
   Two sequences that are both ordered by key and have the same key groups are
   equal: sortedness plus stability leave no freedom in the result.
   */
  lemma {:induction false} SortedSameTiesUnique<T>(r: seq<T>, s: seq<T>, key: T -> real)
    requires SortedBy(r, key) && SortedBy(s, key)
    requires SameTies(r, s, key)
    ensures r == s
    decreases |r| + |s|
  {
    if r == [] && s == [] {
    } else if r == [] || s == [] {
      // the first element of the non-empty one has a non-empty key group in it only
      HeadKeyGroup(r, key);
      HeadKeyGroup(s, key);
      assert false;
    } else {
      var m := key(r[0]);
      WithKeyMembers(s, key, m);
      WithKeyMembers(r, key, key(s[0]));
      assert r[0] in WithKey(s, key, m);
      SortedHeadIsLeast(s, key, r[0]);
      assert s[0] in WithKey(r, key, key(s[0]));
      SortedHeadIsLeast(r, key, s[0]);
      assert key(s[0]) == m;
      assert WithKey(r, key, m) == WithKey(s, key, m);
      assert WithKey(r, key, m) == [r[0]] + WithKey(r[1..], key, m);
      assert WithKey(s, key, m) == [s[0]] + WithKey(s[1..], key, m);
      assert r[0] == WithKey(r, key, m)[0] == WithKey(s, key, m)[0] == s[0];
      assert SameTies(r[1..], s[1..], key) by {
        forall k ensures WithKey(r[1..], key, k) == WithKey(s[1..], key, k) {
          var head := if m == k then [r[0]] else [];
          assert WithKey(r, key, k) == WithKey(s, key, k);
          assert WithKey(r, key, k) == head + WithKey(r[1..], key, k);
          assert WithKey(s, key, k) == head + WithKey(s[1..], key, k);
          assert WithKey(r[1..], key, k) == WithKey(r, key, k)[|head|..];
          assert WithKey(s[1..], key, k) == WithKey(s, key, k)[|head|..];
        }
      }
      SortedSameTiesUnique(r[1..], s[1..], key);
      assert r == [r[0]] + r[1..];
      assert s == [s[0]] + s[1..];
    }
  }

  /** Any sequence that is ordered by key and keeps the key groups of `s` is `SortBy(s, key)`. */
  lemma StableSortIsUnique<T>(s: seq<T>, r: seq<T>, key: T -> real)
    requires SortedBy(r, key)
    requires SameTies(r, s, key)
    ensures r == SortBy(s, key)
  {
    var t := SortBy(s, key);
    assert SameTies(r, t, key) by {
      forall k ensures WithKey(r, key, k) == WithKey(t, key, k) {
        assert WithKey(r, key, k) == WithKey(s, key, k);
      }
    }
    SortedSameTiesUnique(r, t, key);
  }

  /** The key group of a prefix is a prefix of the key group of the whole. */
  lemma {:induction false} WithKeyOfPrefix<T>(s: seq<T>, n: nat, key: T -> real, k: real)
    requires n <= |s|
    ensures WithKey(s[..n], key, k) <= WithKey(s, key, k)
  {
    if n > 0 {
      assert s[..n][1..] == s[1..][..n - 1];
      WithKeyOfPrefix(s[1..], n - 1, key, k);
    }
  }

  /** Sorting commutes with a map `f` whose key agrees with the original key. */
  lemma {:induction false} SortByMap<T, U>(s: seq<T>, f: T -> U, keyT: T -> real, keyU: U -> real)
    requires forall x :: keyT(x) == keyU(f(x))
    ensures Map(f, SortBy(s, keyT)) == SortBy(Map(f, s), keyU)
  {
    if s != [] {
      var t := SortBy(s[1..], keyT);
      SortByMap(s[1..], f, keyT, keyU);
      assert Map(f, s)[1..] == Map(f, s[1..]);
      InsertMap(s[0], t, f, keyT, keyU);
    }
  }

  lemma {:induction false} InsertMap<T, U>(x: T, s: seq<T>, f: T -> U, keyT: T -> real, keyU: U -> real)
    requires forall x :: keyT(x) == keyU(f(x))
    ensures Map(f, Insert(x, s, keyT)) == Insert(f(x), Map(f, s), keyU)
  {
    if s == [] || keyT(x) <= keyT(s[0]) {
      assert Map(f, [x] + s) == [f(x)] + Map(f, s);
    } else {
      InsertMap(x, s[1..], f, keyT, keyU);
      assert Map(f, s)[1..] == Map(f, s[1..]);
      assert Map(f, [s[0]] + Insert(x, s[1..], keyT)) == [f(s[0])] + Map(f, Insert(x, s[1..], keyT));
    }
  }

  /** Ranks strictly increase along `s`. */
  predicate StrictlyRanked<T>(s: seq<T>, rank: T -> int)
  {
    forall i, j :: 0 <= i < j < |s| ==> rank(s[i]) < rank(s[j])
  }

  /** Ranks are pairwise distinct, and increase along every run of equal keys. */
  predicate TiesRanked<T>(s: seq<T>, key: T -> real, rank: T -> int)
  {
    forall i, j :: 0 <= i < j < |s| ==>
      rank(s[i]) != rank(s[j]) && (key(s[i]) == key(s[j]) ==> rank(s[i]) < rank(s[j]))
  }

  lemma {:induction false} InsertTiesRanked<T>(x: T, s: seq<T>, key: T -> real, rank: T -> int)
    requires TiesRanked(s, key, rank)
    requires forall y :: y in s ==> rank(x) < rank(y)
    ensures TiesRanked(Insert(x, s, key), key, rank)
  {
    if s == [] || key(x) <= key(s[0]) {
    } else {
      var t := Insert(x, s[1..], key);
      assert TiesRanked(s[1..], key, rank);
      InsertTiesRanked(x, s[1..], key, rank);
      InsertElements(x, s[1..], key);
      var r := [s[0]] + t;
      forall i, j | 0 <= i < j < |r|
        ensures rank(r[i]) != rank(r[j]) && (key(r[i]) == key(r[j]) ==> rank(r[i]) < rank(r[j]))
      {
        if i == 0 {
          assert r[j] == t[j - 1] && t[j - 1] in t;
          if t[j - 1] != x {
            assert t[j - 1] in s[1..];
            var q :| 0 <= q < |s[1..]| && s[1..][q] == t[j - 1];
            assert s[q + 1] == r[j];
          }
        }
      }
    }
  }

  lemma InsertElements<T>(x: T, s: seq<T>, key: T -> real)
    ensures forall y :: y in Insert(x, s, key) ==> y == x || y in s
  {
    InsertCount(x, s, key);
    forall y | y in Insert(x, s, key) ensures y == x || y in s {
      assert y in multiset(Insert(x, s, key));
    }
  }

  lemma {:induction false} InsertCount<T>(x: T, s: seq<T>, key: T -> real)
    ensures |Insert(x, s, key)| == |s| + 1
    ensures multiset(Insert(x, s, key)) == multiset{x} + multiset(s)
  {
    if s == [] || key(x) <= key(s[0]) {
    } else {
      InsertCount(x, s[1..], key);
      assert s == [s[0]] + s[1..];
    }
  }

  /**
   Stability stated with ranks: if ranks strictly increase along the input (for
   instance, each element carries its input position), then in the sorted result
   ranks are distinct and increase within every group of equal keys.
   */
  lemma {:induction false} SortByKeepsRankedTies<T>(s: seq<T>, key: T -> real, rank: T -> int)
    requires StrictlyRanked(s, rank)
    ensures TiesRanked(SortBy(s, key), key, rank)
  {
    if s != [] {
      var t := SortBy(s[1..], key);
      SortByKeepsRankedTies(s[1..], key, rank);
      forall y | y in t ensures rank(s[0]) < rank(y) {
        assert y in multiset(s[1..]);
        var q :| 0 <= q < |s[1..]| && s[1..][q] == y;
        assert s[q + 1] == y;
      }
      InsertTiesRanked(s[0], t, key, rank);
    }
  }
}
