/** A stable sort in descending order of an integer key: Python's
    `sorted(xs, key=k, reverse=True)` and `xs.sort(key=k, reverse=True)`.
    Both keep elements with equal keys in their original order. */
module StableSort {

  /** The elements of s whose key is k, in their order in s. */
  function Filter<T>(s: seq<T>, key: T -> int, k: int): (r: seq<T>)
    ensures |r| <= |s|
  {
    if s == [] then []
    else (if key(s[0]) == k then [s[0]] else []) + Filter(s[1..], key, k)
  }

  /** Filter keeps exactly the elements with key k. */
  lemma {:induction false} FilterHas<T>(s: seq<T>, key: T -> int, k: int, x: T)
    ensures x in Filter(s, key, k) <==> x in s && key(x) == k
  {
    if s != [] {
      FilterHas(s[1..], key, k, x);
      assert s == [s[0]] + s[1..];
    }
  }

  /** Keys never grow from left to right. */
  ghost predicate NonIncreasing<T>(s: seq<T>, key: T -> int) {
    forall i, j :: 0 <= i < j < |s| ==> key(s[i]) >= key(s[j])
  }

  /** r keeps, for every key value, the elements of s with that key in the
      order they have in s: what a stable sort promises. */
  ghost predicate Stable<T>(r: seq<T>, s: seq<T>, key: T -> int) {
    forall k :: Filter(r, key, k) == Filter(s, key, k)
  }

  /** Puts x in front of the first element of the sorted s whose key is not
      larger than x's. */
  function Insert<T>(x: T, s: seq<T>, key: T -> int): (r: seq<T>)
    ensures |r| == |s| + 1
    ensures multiset(r) == multiset(s) + multiset{x}
  {
    if s == [] || key(x) >= key(s[0]) then [x] + s
    else
      assert s == [s[0]] + s[1..];
      [s[0]] + Insert(x, s[1..], key)
  }

  /** Inserting into a sorted sequence keeps it sorted. */
  lemma {:induction false} InsertSorted<T>(x: T, s: seq<T>, key: T -> int)
    requires NonIncreasing(s, key)
    ensures NonIncreasing(Insert(x, s, key), key)
  {
    if s == [] || key(x) >= key(s[0]) {
    } else {
      var rest := Insert(x, s[1..], key);
      InsertSorted(x, s[1..], key);
      forall j | 0 <= j < |rest| ensures key(rest[j]) <= key(s[0]) {
        assert rest[j] in multiset(rest);
        if rest[j] != x {
          assert rest[j] in multiset(s[1..]);
          var p :| 0 <= p < |s[1..]| && s[1..][p] == rest[j];
          assert s[p + 1] == rest[j];
        }
      }
      var r := [s[0]] + rest;
      forall i, j | 0 <= i < j < |r| ensures key(r[i]) >= key(r[j]) {
        if i > 0 {
          assert r[i] == rest[i - 1] && r[j] == rest[j - 1];
        } else {
          assert r[j] == rest[j - 1];
        }
      }
    }
  }

  /** Insertion sort, largest key first: a permutation of s in
      non-increasing key order. */
  function SortDesc<T>(s: seq<T>, key: T -> int): (r: seq<T>)
    ensures |r| == |s|
    ensures multiset(r) == multiset(s)
    ensures NonIncreasing(r, key)
  {
    if s == [] then []
    else
      assert s == [s[0]] + s[1..];
      InsertSorted(s[0], SortDesc(s[1..], key), key);
      Insert(s[0], SortDesc(s[1..], key), key)
  }

  /** Filter of a sequence with a new head. */
  lemma FilterCons<T>(x: T, s: seq<T>, key: T -> int, k: int)
    ensures Filter([x] + s, key, k) == (if key(x) == k then [x] else []) + Filter(s, key, k)
  {
    assert ([x] + s)[1..] == s;
  }

  /** Insertion puts x in front of the elements of s that share its key. */
  lemma {:induction false} InsertStable<T>(x: T, s: seq<T>, key: T -> int, k: int)
    requires NonIncreasing(s, key)
    ensures Filter(Insert(x, s, key), key, k) == Filter([x] + s, key, k)
  {
    if s == [] || key(x) >= key(s[0]) {
    } else {
      var rest := s[1..];
      assert s == [s[0]] + rest;
      InsertStable(x, rest, key, k);
      FilterCons(s[0], Insert(x, rest, key), key, k);
      FilterCons(x, rest, key, k);
      FilterCons(x, s, key, k);
      FilterCons(s[0], rest, key, k);
    }
  }

  /** The insertion sort is stable. */
  lemma {:induction false} SortDescStable<T>(s: seq<T>, key: T -> int)
    ensures Stable(SortDesc(s, key), s, key)
  {
    if s != [] {
      SortDescStable(s[1..], key);
      assert s == [s[0]] + s[1..];
      forall k ensures Filter(SortDesc(s, key), key, k) == Filter(s, key, k) {
        InsertStable(s[0], SortDesc(s[1..], key), key, k);
        FilterCons(s[0], SortDesc(s[1..], key), key, k);
        FilterCons(s[0], s[1..], key, k);
      }
    }
  }

  /** In a non-increasing b holding an element of key(a[0]), b's head has a
      key at least as large. */
  lemma HeadKeyBound<T>(a: seq<T>, b: seq<T>, key: T -> int)
    requires a != [] && NonIncreasing(b, key)
    requires Filter(a, key, key(a[0])) == Filter(b, key, key(a[0]))
    ensures b != [] && key(a[0]) <= key(b[0])
  {
    FilterHas(a, key, key(a[0]), a[0]);
    FilterHas(b, key, key(a[0]), a[0]);
    assert a[0] in a;
    var j :| 0 <= j < |b| && b[j] == a[0];
    if j > 0 {
      assert key(b[0]) >= key(b[j]);
    }
  }

  /** Sequences with the same head and the same elements per key have tails
      with the same elements per key. */
  lemma {:induction false} TailFilters<T>(a: seq<T>, b: seq<T>, key: T -> int)
    requires a != [] && b != [] && a[0] == b[0]
    requires forall k :: Filter(a, key, k) == Filter(b, key, k)
    ensures forall k :: Filter(a[1..], key, k) == Filter(b[1..], key, k)
  {
    forall k ensures Filter(a[1..], key, k) == Filter(b[1..], key, k) {
      var fa, fb := Filter(a, key, k), Filter(b, key, k);
      assert fa == fb;
      if key(a[0]) == k {
        assert fa == [a[0]] + Filter(a[1..], key, k);
        assert fb == [a[0]] + Filter(b[1..], key, k);
        assert Filter(a[1..], key, k) == fa[1..];
        assert Filter(b[1..], key, k) == fb[1..];
      } else {
        assert fa == Filter(a[1..], key, k);
        assert fb == Filter(b[1..], key, k);
      }
    }
  }

  /** Two non-increasing sequences that agree on every key's elements, in
      order, are equal. */
  lemma {:induction false} SortedStableEqual<T>(a: seq<T>, b: seq<T>, key: T -> int)
    requires NonIncreasing(a, key) && NonIncreasing(b, key)
    requires forall k :: Filter(a, key, k) == Filter(b, key, k)
    ensures a == b
    decreases |a|
  {
    if a != [] {
      HeadKeyBound(a, b, key);
      HeadKeyBound(b, a, key);
    } else if b != [] {
      HeadKeyBound(b, a, key);
    }
    if a != [] {
      var k := key(a[0]);
      assert Filter(a, key, k) == [a[0]] + Filter(a[1..], key, k);
      assert Filter(b, key, k) == [b[0]] + Filter(b[1..], key, k);
      assert a[0] == Filter(a, key, k)[0];
      TailFilters(a, b, key);
      SortedStableEqual(a[1..], b[1..], key);
      assert a == [a[0]] + a[1..] && b == [b[0]] + b[1..];
    }
  }

  /** Every stable arrangement of s in non-increasing key order is the one
      SortDesc computes: which stable algorithm Python uses does not matter. */
  lemma StableSortIsUnique<T>(s: seq<T>, r: seq<T>, key: T -> int)
    requires NonIncreasing(r, key) && Stable(r, s, key)
    ensures r == SortDesc(s, key)
  {
    SortDescStable(s, key);
    SortedStableEqual(r, SortDesc(s, key), key);
  }

  /** Cutting a sequence keeps, for every key, a prefix of its elements. */
  lemma {:induction false} FilterPrefix<T>(s: seq<T>, n: nat, key: T -> int, k: int)
    requires n <= |s|
    ensures Filter(s[..n], key, k) <= Filter(s, key, k)
  {
    if n > 0 {
      assert s[..n] == [s[0]] + s[1..][..n - 1];
      assert s == [s[0]] + s[1..];
      FilterPrefix(s[1..], n - 1, key, k);
      FilterCons(s[0], s[1..][..n - 1], key, k);
      FilterCons(s[0], s[1..], key, k);
    }
  }
}
