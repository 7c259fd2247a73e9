/** Order-preserving filtering and the stable sort that ECMAScript 2019 and
    later require of `Array.prototype.sort`, for a comparator of the form
    `(a, b) => key(a) - key(b)` over integer keys. */
module Seqs {

  /** `s.filter(p)`: the elements satisfying `p`, in their original order. */
  function Filter<T>(s: seq<T>, p: T -> bool): (r: seq<T>)
    ensures |r| <= |s|
    ensures forall i :: 0 <= i < |r| ==> p(r[i])
    ensures forall i :: 0 <= i < |r| ==> r[i] in s
    ensures forall i :: 0 <= i < |s| && p(s[i]) ==> s[i] in r
    ensures multiset(r) <= multiset(s)
  {
    if s == [] then []
    else
      assert s == [s[0]] + s[1..];
      (if p(s[0]) then [s[0]] else []) + Filter(s[1..], p)
  }

  lemma {:induction false} FilterAppend<T>(a: seq<T>, b: seq<T>, p: T -> bool)
    ensures Filter(a + b, p) == Filter(a, p) + Filter(b, p)
  {
    if a == [] {
      assert a + b == b;
    } else {
      assert (a + b)[0] == a[0] && (a + b)[1..] == a[1..] + b;
      FilterAppend(a[1..], b, p);
    }
  }

  /** Sequences with the same multiset have the same members. */
  lemma SameMembers<T>(a: seq<T>, b: seq<T>)
    requires multiset(a) == multiset(b)
    ensures forall i :: 0 <= i < |a| ==> a[i] in b
    ensures forall i :: 0 <= i < |b| ==> b[i] in a
  {
    forall i | 0 <= i < |a| ensures a[i] in b {
      assert a[i] in multiset(a);
    }
    forall i | 0 <= i < |b| ensures b[i] in a {
      assert b[i] in multiset(b);
    }
  }

  /** `a` is `b` with some elements left out, the rest in their order. */
  predicate Subsequence<T(==)>(a: seq<T>, b: seq<T>)
    decreases |b|
  {
    if a == [] then true
    else if b == [] then false
    else (a[0] == b[0] && Subsequence(a[1..], b[1..])) || Subsequence(a, b[1..])
  }

  /** Leaving elements out of a duplicate-free sequence keeps it duplicate-free. */
  lemma {:induction false} SubsequenceOfDistinct<T>(a: seq<T>, b: seq<T>)
    requires Subsequence(a, b)
    requires forall i, j :: 0 <= i < j < |b| ==> b[i] != b[j]
    ensures forall i, j :: 0 <= i < j < |a| ==> a[i] != a[j]
    ensures forall i :: 0 <= i < |a| ==> a[i] in b
    decreases |b|
  {
    if a != [] {
      assert b != [];
      if a[0] == b[0] && Subsequence(a[1..], b[1..]) {
        SubsequenceOfDistinct(a[1..], b[1..]);
        forall j | 0 < j < |a| ensures a[0] != a[j] {
          assert a[j] == a[1..][j - 1];
          var k :| 0 <= k < |b[1..]| && b[1..][k] == a[j];
          assert b[k + 1] == a[j];
        }
        forall i | 0 <= i < |a| ensures a[i] in b {
          if i > 0 {
            assert a[i] == a[1..][i - 1];
          }
        }
      } else {
        SubsequenceOfDistinct(a, b[1..]);
      }
    }
  }

  predicate SortedBy<T>(s: seq<T>, key: T -> int) {
    forall i, j :: 0 <= i < j < |s| ==> key(s[i]) <= key(s[j])
  }

  /** The elements of `s` whose key is `k`, in their order in `s`. Two
      sequences with the same key classes agree on the relative order of
      every pair of elements with equal keys. */
  function KeyClass<T>(s: seq<T>, key: T -> int, k: int): seq<T> {
    if s == [] then []
    else (if key(s[0]) == k then [s[0]] else []) + KeyClass(s[1..], key, k)
  }

  /** `r` is what a stable sort of `s` by ascending `key` produces. */
  ghost predicate IsStableSortOf<T>(r: seq<T>, s: seq<T>, key: T -> int) {
    && SortedBy(r, key)
    && multiset(r) == multiset(s)
    && forall k :: KeyClass(r, key, k) == KeyClass(s, key, k)
  }

  /** Inserts `x` into sorted `t` after every element whose key is not larger. */
  function Insert<T>(t: seq<T>, x: T, key: T -> int): (r: seq<T>)
    ensures |r| == |t| + 1
    ensures multiset(r) == multiset(t) + multiset{x}
  {
    if t == [] then [x]
    else if key(x) < key(t[0]) then [x] + t
    else
      assert t == [t[0]] + t[1..];
      [t[0]] + Insert(t[1..], x, key)
  }

  /** A lower bound on the keys of `t` and of `x` bounds the keys after insertion. */
  lemma {:induction false} InsertAbove<T>(t: seq<T>, x: T, key: T -> int, b: int)
    requires forall i :: 0 <= i < |t| ==> b <= key(t[i])
    requires b <= key(x)
    ensures forall i :: 0 <= i < |t| + 1 ==> b <= key(Insert(t, x, key)[i])
  {
    if t != [] && key(t[0]) <= key(x) {
      InsertAbove(t[1..], x, key, b);
    }
  }

  /** Insertion keeps a sorted sequence sorted. */
  lemma {:induction false} InsertSorted<T>(t: seq<T>, x: T, key: T -> int)
    requires SortedBy(t, key)
    ensures SortedBy(Insert(t, x, key), key)
  {
    if t != [] && key(t[0]) <= key(x) {
      InsertSorted(t[1..], x, key);
      InsertAbove(t[1..], x, key, key(t[0]));
    }
  }

  /** Stable insertion sort by ascending `key`. */
  function SortBy<T>(s: seq<T>, key: T -> int): (r: seq<T>)
    ensures |r| == |s|
    ensures multiset(r) == multiset(s)
    ensures SortedBy(r, key)
  {
    if s == [] then []
    else
      assert s == s[..|s| - 1] + [s[|s| - 1]];
      InsertSorted(SortBy(s[..|s| - 1], key), s[|s| - 1], key);
      Insert(SortBy(s[..|s| - 1], key), s[|s| - 1], key)
  }

  lemma {:induction false} KeyClassAppend<T>(a: seq<T>, b: seq<T>, key: T -> int, k: int)
    ensures KeyClass(a + b, key, k) == KeyClass(a, key, k) + KeyClass(b, key, k)
  {
    if a == [] {
      assert a + b == b;
    } else {
      assert (a + b)[0] == a[0] && (a + b)[1..] == a[1..] + b;
      KeyClassAppend(a[1..], b, key, k);
      var c := if key(a[0]) == k then [a[0]] else [];
      assert KeyClass(a + b, key, k) == c + (KeyClass(a[1..], key, k) + KeyClass(b, key, k));
      assert KeyClass(a, key, k) == c + KeyClass(a[1..], key, k);
    }
  }

  lemma {:induction false} KeyClassAbove<T>(t: seq<T>, key: T -> int, k: int)
    requires forall i :: 0 <= i < |t| ==> key(t[i]) > k
    ensures KeyClass(t, key, k) == []
  {
    if t != [] {
      KeyClassAbove(t[1..], key, k);
    }
  }

  lemma KeyClassCons<T>(s: seq<T>, key: T -> int, k: int)
    requires s != []
    ensures KeyClass(s, key, k) == (if key(s[0]) == k then [s[0]] else []) + KeyClass(s[1..], key, k)
  {
  }

  /** Inserting `x` appends it to the end of its key class. */
  lemma {:induction false} KeyClassInsert<T>(t: seq<T>, x: T, key: T -> int, k: int)
    requires SortedBy(t, key)
    ensures KeyClass(Insert(t, x, key), key, k)
         == KeyClass(t, key, k) + (if key(x) == k then [x] else [])
  {
    if t == [] {
      assert Insert(t, x, key) == [x];
      KeyClassCons([x], key, k);
      assert [x][1..] == [];
    } else if key(x) < key(t[0]) {
      KeyClassInsertFront(t, x, key, k);
    } else {
      KeyClassInsert(t[1..], x, key, k);
      KeyClassInsertLater(t, x, key, k);
    }
  }

  lemma KeyClassInsertFront<T>(t: seq<T>, x: T, key: T -> int, k: int)
    requires SortedBy(t, key)
    requires t != [] && key(x) < key(t[0])
    ensures KeyClass(Insert(t, x, key), key, k)
         == KeyClass(t, key, k) + (if key(x) == k then [x] else [])
  {
    var r := [x] + t;
    assert Insert(t, x, key) == r;
    assert r[0] == x && r[1..] == t;
    KeyClassCons(r, key, k);
    if key(x) == k {
      KeyClassAbove(t, key, k);
    }
  }

  lemma KeyClassInsertLater<T>(t: seq<T>, x: T, key: T -> int, k: int)
    requires t != [] && key(t[0]) <= key(x)
    requires KeyClass(Insert(t[1..], x, key), key, k)
          == KeyClass(t[1..], key, k) + (if key(x) == k then [x] else [])
    ensures KeyClass(Insert(t, x, key), key, k)
         == KeyClass(t, key, k) + (if key(x) == k then [x] else [])
  {
    assert Insert(t, x, key) == [t[0]] + Insert(t[1..], x, key);
    assert t == [t[0]] + t[1..];
    KeyClassUnderHead(t[0], Insert(t[1..], x, key), t[1..], key, k, if key(x) == k then [x] else []);
  }

  /** Putting the same head on two sequences keeps a key-class relation between them. */
  lemma KeyClassUnderHead<T>(h: T, a: seq<T>, b: seq<T>, key: T -> int, k: int, extra: seq<T>)
    requires KeyClass(a, key, k) == KeyClass(b, key, k) + extra
    ensures KeyClass([h] + a, key, k) == KeyClass([h] + b, key, k) + extra
  {
    assert ([h] + a)[0] == h && ([h] + a)[1..] == a;
    assert ([h] + b)[0] == h && ([h] + b)[1..] == b;
    var c := if key(h) == k then [h] else [];
    assert KeyClass([h] + a, key, k) == c + KeyClass(a, key, k);
    assert KeyClass([h] + b, key, k) == c + KeyClass(b, key, k);
    assert c + (KeyClass(b, key, k) + extra) == (c + KeyClass(b, key, k)) + extra;
  }

  lemma {:induction false} SortByIsStable<T>(s: seq<T>, key: T -> int)
    ensures IsStableSortOf(SortBy(s, key), s, key)
  {
    forall k ensures KeyClass(SortBy(s, key), key, k) == KeyClass(s, key, k) {
      SortByKeyClass(s, key, k);
    }
  }

  lemma {:induction false} SortByKeyClass<T>(s: seq<T>, key: T -> int, k: int)
    ensures KeyClass(SortBy(s, key), key, k) == KeyClass(s, key, k)
  {
    if s != [] {
      var init, last := s[..|s| - 1], s[|s| - 1];
      assert s == init + [last];
      SortByKeyClass(init, key, k);
      KeyClassInsert(SortBy(init, key), last, key, k);
      KeyClassAppend(init, [last], key, k);
      assert KeyClass([last], key, k) == (if key(last) == k then [last] else []) by {
        assert [last][1..] == [];
      }
    }
  }

  /** A stable sort is determined by its input: any two stable sorts of the
      same sequence by the same key are equal. Hence every conforming
      `Array.prototype.sort` returns exactly `SortBy`. */
  lemma {:induction false} StableSortUnique<T>(r1: seq<T>, r2: seq<T>, s: seq<T>, key: T -> int)
    requires IsStableSortOf(r1, s, key)
    requires IsStableSortOf(r2, s, key)
    ensures r1 == r2
  {
    StableSortsAgree(r1, r2, key);
  }

  lemma {:induction false} StableSortsAgree<T>(r1: seq<T>, r2: seq<T>, key: T -> int)
    requires SortedBy(r1, key) && SortedBy(r2, key)
    requires multiset(r1) == multiset(r2)
    requires forall k :: KeyClass(r1, key, k) == KeyClass(r2, key, k)
    ensures r1 == r2
    decreases |r1|
  {
    if r1 == [] {
      assert |multiset(r2)| == 0;
    } else {
      assert |r2| == |multiset(r2)| == |multiset(r1)| == |r1|;
      SameHead(r1, r2, key);
      MultisetTail(r1, r2);
      forall k ensures KeyClass(r1[1..], key, k) == KeyClass(r2[1..], key, k) {
        SameTailClass(r1, r2, key, k);
      }
      StableSortsAgree(r1[1..], r2[1..], key);
    }
  }

  lemma MultisetTail<T>(r1: seq<T>, r2: seq<T>)
    requires r1 != [] && r2 != [] && r1[0] == r2[0]
    requires multiset(r1) == multiset(r2)
    ensures multiset(r1[1..]) == multiset(r2[1..])
  {
    assert r1 == [r1[0]] + r1[1..] && r2 == [r2[0]] + r2[1..];
    forall y ensures multiset(r1[1..])[y] == multiset(r2[1..])[y] {
      assert multiset(r1)[y] == multiset([r1[0]])[y] + multiset(r1[1..])[y];
      assert multiset(r2)[y] == multiset([r2[0]])[y] + multiset(r2[1..])[y];
    }
  }

  lemma SameHead<T>(r1: seq<T>, r2: seq<T>, key: T -> int)
    requires r1 != [] && r2 != []
    requires SortedBy(r1, key) && SortedBy(r2, key)
    requires multiset(r1) == multiset(r2)
    requires forall k :: KeyClass(r1, key, k) == KeyClass(r2, key, k)
    ensures r1[0] == r2[0]
  {
    var x, y := r1[0], r2[0];
    assert y in multiset(r1);
    assert x in multiset(r2);
    var m := key(x);
    assert key(y) == m by {
      var i :| 0 <= i < |r1| && r1[i] == y;
      var j :| 0 <= j < |r2| && r2[j] == x;
      assert key(x) <= key(y);
      assert key(y) <= key(x);
    }
    KeyClassCons(r1, key, m);
    KeyClassCons(r2, key, m);
    var a1, a2 := KeyClass(r1[1..], key, m), KeyClass(r2[1..], key, m);
    assert KeyClass(r1, key, m) == [x] + a1;
    assert KeyClass(r2, key, m) == [y] + a2;
    assert ([x] + a1)[0] == x && ([y] + a2)[0] == y;
  }

  lemma SameTailClass<T>(r1: seq<T>, r2: seq<T>, key: T -> int, k: int)
    requires r1 != [] && r2 != [] && r1[0] == r2[0]
    requires KeyClass(r1, key, k) == KeyClass(r2, key, k)
    ensures KeyClass(r1[1..], key, k) == KeyClass(r2[1..], key, k)
  {
    var c := if key(r1[0]) == k then [r1[0]] else [];
    KeyClassCons(r1, key, k);
    KeyClassCons(r2, key, k);
    assert KeyClass(r1[1..], key, k) == (c + KeyClass(r1[1..], key, k))[|c|..];
    assert KeyClass(r2[1..], key, k) == (c + KeyClass(r2[1..], key, k))[|c|..];
  }
}
