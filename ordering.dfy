/**
  Orders and sorting shared by the store, the listing and the scheduler.

  Keys are integer sequences compared lexicographically: this is how Python
  compares tuples and strings (by code point) and how SQLite's BINARY
  collation compares text. `SortBy` is a stable insertion sort on such keys;
  it stands for SQLite's ORDER BY and for Python's `list.sort(key=...)`.
*/
module Ordering {

  /** Lexicographic "less than or equal"; a proper prefix comes first. */
  predicate LexLe(a: seq<int>, b: seq<int>)
    decreases |a|
  {
    if a == [] then true
    else if b == [] then false
    else a[0] < b[0] || (a[0] == b[0] && LexLe(a[1..], b[1..]))
  }

  lemma {:induction false} LexLeReflexive(a: seq<int>)
    ensures LexLe(a, a)
    decreases |a|
  {
    if a != [] { LexLeReflexive(a[1..]); }
  }

  lemma {:induction false} LexLeTotal(a: seq<int>, b: seq<int>)
    ensures LexLe(a, b) || LexLe(b, a)
    decreases |a|
  {
    if a != [] && b != [] && a[0] == b[0] { LexLeTotal(a[1..], b[1..]); }
  }

  lemma {:induction false} LexLeTransitive(a: seq<int>, b: seq<int>, c: seq<int>)
    requires LexLe(a, b) && LexLe(b, c)
    ensures LexLe(a, c)
    decreases |a|
  {
    if a != [] && b != [] && c != [] && a[0] == b[0] && b[0] == c[0] {
      LexLeTransitive(a[1..], b[1..], c[1..]);
    }
  }

  lemma {:induction false} LexLeAntisymmetric(a: seq<int>, b: seq<int>)
    requires LexLe(a, b) && LexLe(b, a)
    ensures a == b
    decreases |a|
  {
    if a != [] {
      LexLeAntisymmetric(a[1..], b[1..]);
      assert a == [a[0]] + a[1..] && b == [b[0]] + b[1..];
    }
  }

  /** `s` is in non-decreasing key order. */
  predicate Sorted<T>(s: seq<T>, key: T -> seq<int>)
  {
    forall i, j :: 0 <= i < j < |s| ==> LexLe(key(s[i]), key(s[j]))
  }

  /** Places `x` in front of the first element whose key is not below its own. */
  function Insert<T>(x: T, r: seq<T>, key: T -> seq<int>): (q: seq<T>)
    ensures multiset(q) == multiset{x} + multiset(r)
  {
    if r == [] || LexLe(key(x), key(r[0])) then [x] + r
    else
      assert r == [r[0]] + r[1..];
      [r[0]] + Insert(x, r[1..], key)
  }

  /** Stable insertion sort by `key`. */
  function SortBy<T>(s: seq<T>, key: T -> seq<int>): (r: seq<T>)
    ensures multiset(r) == multiset(s)
  {
    if s == [] then []
    else
      assert s == [s[0]] + s[1..];
      Insert(s[0], SortBy(s[1..], key), key)
  }

  lemma {:induction false} InsertSorted<T>(x: T, r: seq<T>, key: T -> seq<int>)
    requires Sorted(r, key)
    ensures Sorted(Insert(x, r, key), key)
    decreases |r|
  {
    var q := Insert(x, r, key);
    if r == [] {
    } else if LexLe(key(x), key(r[0])) {
      forall i, j | 0 <= i < j < |q| ensures LexLe(key(q[i]), key(q[j])) {
        if i == 0 && j > 1 { LexLeTransitive(key(x), key(r[0]), key(r[j - 1])); }
      }
    } else {
      var q' := Insert(x, r[1..], key);
      InsertSorted(x, r[1..], key);
      LexLeTotal(key(x), key(r[0]));
      forall j | 0 <= j < |q'| ensures LexLe(key(r[0]), key(q'[j])) {
        assert q'[j] in multiset(q');
        if q'[j] != x {
          assert q'[j] in r[1..];
          var k :| 0 <= k < |r[1..]| && r[1..][k] == q'[j];
          assert r[k + 1] == q'[j];
        }
      }
      assert q == [r[0]] + q';
    }
  }

  lemma {:induction false} SortBySorted<T>(s: seq<T>, key: T -> seq<int>)
    ensures Sorted(SortBy(s, key), key)
    decreases |s|
  {
    if s != [] {
      SortBySorted(s[1..], key);
      InsertSorted(s[0], SortBy(s[1..], key), key);
    }
  }

  /** The elements of `s` whose key is `k`, in their order in `s`. */
  function KeyClass<T>(s: seq<T>, key: T -> seq<int>, k: seq<int>): seq<T>
  {
    if s == [] then []
    else (if key(s[0]) == k then [s[0]] else []) + KeyClass(s[1..], key, k)
  }

  lemma {:induction false} InsertKeyClass<T>(x: T, r: seq<T>, key: T -> seq<int>, k: seq<int>)
    ensures KeyClass(Insert(x, r, key), key, k)
         == (if key(x) == k then [x] else []) + KeyClass(r, key, k)
    decreases |r|
  {
    var q := Insert(x, r, key);
    if r == [] || LexLe(key(x), key(r[0])) {
      assert q[1..] == r;
    } else {
      LexLeReflexive(key(x));
      assert key(r[0]) != key(x);
      InsertKeyClass(x, r[1..], key, k);
      assert q[1..] == Insert(x, r[1..], key);
    }
  }

  /** Stability: for every key, the elements carrying it keep their relative order. */
  lemma {:induction false} SortByStable<T>(s: seq<T>, key: T -> seq<int>, k: seq<int>)
    ensures KeyClass(SortBy(s, key), key, k) == KeyClass(s, key, k)
    decreases |s|
  {
    if s != [] {
      SortByStable(s[1..], key, k);
      InsertKeyClass(s[0], SortBy(s[1..], key), key, k);
    }
  }

  /** `s` is strictly increasing in `rank` (for rows: ascending ids). */
  predicate RankIncreasing<T>(s: seq<T>, rank: T -> int)
  {
    forall i, j :: 0 <= i < j < |s| ==> rank(s[i]) < rank(s[j])
  }

  /** `i` comes strictly before `j` in the order "key, then rank". */
  predicate KeyThenRankBefore<T>(x: T, y: T, key: T -> seq<int>, rank: T -> int)
  {
    (LexLe(key(x), key(y)) && key(x) != key(y)) || (key(x) == key(y) && rank(x) < rank(y))
  }

  predicate SortedKeyThenRank<T>(s: seq<T>, key: T -> seq<int>, rank: T -> int)
  {
    forall i, j :: 0 <= i < j < |s| ==> KeyThenRankBefore(s[i], s[j], key, rank)
  }

  lemma {:induction false} InsertKeyThenRank<T>(x: T, r: seq<T>, key: T -> seq<int>, rank: T -> int)
    requires SortedKeyThenRank(r, key, rank)
    requires forall y :: y in r ==> rank(x) < rank(y)
    ensures SortedKeyThenRank(Insert(x, r, key), key, rank)
    decreases |r|
  {
    var q := Insert(x, r, key);
    if r == [] {
    } else if LexLe(key(x), key(r[0])) {
      forall j | 1 <= j < |q| ensures KeyThenRankBefore(x, q[j], key, rank) {
        assert q[j] == r[j - 1];
        if j > 1 {
          assert KeyThenRankBefore(r[0], r[j - 1], key, rank);
          LexLeReflexive(key(r[0]));
          LexLeTransitive(key(x), key(r[0]), key(r[j - 1]));
          if key(x) == key(r[j - 1]) {
            LexLeAntisymmetric(key(x), key(r[0]));
          }
        }
      }
      assert q == [x] + r;
    } else {
      var q' := Insert(x, r[1..], key);
      forall y | y in r[1..] ensures rank(x) < rank(y) { assert y in r; }
      InsertKeyThenRank(x, r[1..], key, rank);
      LexLeTotal(key(x), key(r[0]));
      LexLeReflexive(key(x));
      forall j | 0 <= j < |q'| ensures KeyThenRankBefore(r[0], q'[j], key, rank) {
        assert q'[j] in multiset(q');
        if q'[j] != x {
          assert q'[j] in r[1..];
          var m :| 0 <= m < |r[1..]| && r[1..][m] == q'[j];
          assert r[m + 1] == q'[j];
        }
      }
      assert q == [r[0]] + q';
    }
  }

  /** Sorting a rank-increasing sequence stably by `key` orders it by key, then rank. */
  lemma {:induction false} SortByKeyThenRank<T>(s: seq<T>, key: T -> seq<int>, rank: T -> int)
    requires RankIncreasing(s, rank)
    ensures SortedKeyThenRank(SortBy(s, key), key, rank)
    decreases |s|
  {
    if s != [] {
      SortByKeyThenRank(s[1..], key, rank);
      var r := SortBy(s[1..], key);
      forall y | y in r ensures rank(s[0]) < rank(y) {
        assert y in multiset(r);
        var m :| 0 <= m < |s[1..]| && s[1..][m] == y;
        assert s[m + 1] == y;
      }
      InsertKeyThenRank(s[0], r, key, rank);
    }
  }

  /** The head of a key-sorted sequence has the least key. */
  lemma SortedHeadLeast<T>(a: seq<T>, key: T -> seq<int>, x: T)
    requires Sorted(a, key) && x in a
    ensures LexLe(key(a[0]), key(x))
  {
    var i :| 0 <= i < |a| && a[i] == x;
    if i == 0 { LexLeReflexive(key(x)); }
  }

  lemma MultisetTail<T>(a: seq<T>, b: seq<T>)
    requires a != [] && b != [] && a[0] == b[0] && multiset(a) == multiset(b)
    ensures multiset(a[1..]) == multiset(b[1..])
  {
    var x := a[0];
    assert a == [x] + a[1..] && b == [x] + b[1..];
    assert multiset(a) == multiset{x} + multiset(a[1..]);
    assert multiset(b) == multiset{x} + multiset(b[1..]);
    assert multiset(a[1..]) == multiset(a) - multiset{x};
    assert multiset(b[1..]) == multiset(b) - multiset{x};
  }

  /** Two key-sorted permutations of each other are equal when the key identifies elements. */
  lemma {:induction false} SortedUnique<T>(a: seq<T>, b: seq<T>, key: T -> seq<int>)
    requires Sorted(a, key) && Sorted(b, key) && multiset(a) == multiset(b)
    requires forall x, y :: key(x) == key(y) ==> x == y
    ensures a == b
    decreases |a|
  {
    if a == [] {
      assert |b| == |multiset(b)| == 0;
    } else {
      assert |b| == |multiset(b)| == |a|;
      assert a[0] in multiset(b) && b[0] in multiset(a);
      SortedHeadLeast(b, key, a[0]);
      SortedHeadLeast(a, key, b[0]);
      LexLeAntisymmetric(key(a[0]), key(b[0]));
      assert a[0] == b[0];
      MultisetTail(a, b);
      assert Sorted(a[1..], key) && Sorted(b[1..], key);
      SortedUnique(a[1..], b[1..], key);
      assert a == [a[0]] + a[1..] && b == [b[0]] + b[1..];
    }
  }
}
