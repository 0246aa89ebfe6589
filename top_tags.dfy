/** The top-10 selection of `process_csv` (app.py line 109):
    `sorted(tag_counts.items(), key=lambda x: x[1], reverse=True)[:10]`. */
module TopTags {
  import opened Tables
  import opened Records
  import opened StableSort
  import opened TagCounting

  /** How many tags the report keeps. */
  const TopCount := 10

  /** `tag_counts.items()`: the (tag, count) pairs in key insertion order. */
  function Items(t: Tally): (items: seq<TagCount>)
    requires forall k :: k in t.keys ==> k in t.counts
    ensures |items| == |t.keys|
    ensures forall i :: 0 <= i < |items| ==> items[i] == TagCount(t.keys[i], t.counts[t.keys[i]])
  {
    seq(|t.keys|, i requires 0 <= i < |t.keys| => TagCount(t.keys[i], t.counts[t.keys[i]]))
  }

  /** The first n elements of the stable descending sort come from the
      input and hold, for every count, a prefix of the input's pairs with
      that count. */
  lemma PrefixOfSorted(items: seq<TagCount>, n: nat)
    requires n <= |items|
    ensures multiset(SortDesc(items, CountKey)[..n]) <= multiset(items)
    ensures forall c :: Filter(SortDesc(items, CountKey)[..n], CountKey, c) <= Filter(items, CountKey, c)
  {
    var sorted := SortDesc(items, CountKey);
    PrefixMultiset(sorted, n);
    forall c ensures Filter(sorted[..n], CountKey, c) <= Filter(items, CountKey, c) {
      SortedFilter(items, c);
      FilterPrefix(sorted, n, CountKey, c);
    }
  }

  /** A prefix holds no element more often than the whole. */
  lemma PrefixMultiset<T>(s: seq<T>, n: nat)
    requires n <= |s|
    ensures multiset(s[..n]) <= multiset(s)
  {
    assert s == s[..n] + s[n..];
  }

  /** Sorting keeps the pairs of each count in their order. */
  lemma SortedFilter(items: seq<TagCount>, c: int)
    ensures Filter(SortDesc(items, CountKey), CountKey, c) == Filter(items, CountKey, c)
  {
    SortDescStable(items, CountKey);
  }

  /** The pairs with the ten largest counts, largest first; equal counts
      keep the order of `items`. */
  function SelectTop(items: seq<TagCount>): (top: seq<TagCount>)
    ensures |top| == Min(TopCount, |items|)
    ensures NonIncreasing(top, CountKey)
  {
    SortDesc(items, CountKey)[..Min(TopCount, |items|)]
  }

  /** A pair left out has a count no larger than any selected pair's. */
  lemma LeftOutNotLarger(items: seq<TagCount>, x: TagCount, i: nat)
    requires x in items && x !in SelectTop(items) && i < |SelectTop(items)|
    ensures x.count <= SelectTop(items)[i].count
  {
    var sorted := SortDesc(items, CountKey);
    var top := SelectTop(items);
    assert top == sorted[..|top|];
    assert x in multiset(sorted);
    var q :| 0 <= q < |sorted| && sorted[q] == x;
    assert forall k :: 0 <= k < |top| ==> sorted[k] in top;
    assert q >= |top|;
    assert sorted[i] == top[i];
  }

  /** Two elements of s with key k stand in the same order in Filter(s). */
  lemma {:induction false} FilterKeepsPositions<T>(s: seq<T>, key: T -> int, k: int, i: nat, j: nat)
    requires i < j < |s| && key(s[i]) == k && key(s[j]) == k
    ensures exists a, b :: 0 <= a < b < |Filter(s, key, k)| && Filter(s, key, k)[a] == s[i] && Filter(s, key, k)[b] == s[j]
  {
    var f, f' := Filter(s, key, k), Filter(s[1..], key, k);
    if i == 0 {
      assert f == [s[0]] + f';
      assert s[j] == s[1..][j - 1];
      FilterHas(s[1..], key, k, s[j]);
      var b :| 0 <= b < |f'| && f'[b] == s[j];
      assert f[0] == s[0] && f[b + 1] == s[j];
    } else {
      assert s[1..][i - 1] == s[i] && s[1..][j - 1] == s[j];
      FilterKeepsPositions(s[1..], key, k, i - 1, j - 1);
      var a, b :| 0 <= a < b < |f'| && f'[a] == s[i] && f'[b] == s[j];
      if key(s[0]) == k {
        assert f == [s[0]] + f';
        assert f[a + 1] == s[i] && f[b + 1] == s[j];
      } else {
        assert f == [] + f';
        assert 0 <= a < b < |f| && f[a] == s[i] && f[b] == s[j];
      }
    }
  }

  /** Two positions of Filter(s) come from two positions of s in the same order. */
  lemma {:induction false} FilterFromPositions<T>(s: seq<T>, key: T -> int, k: int, a: nat, b: nat)
    requires a < b < |Filter(s, key, k)|
    ensures exists p, q :: 0 <= p < q < |s| && s[p] == Filter(s, key, k)[a] && s[q] == Filter(s, key, k)[b]
  {
    var f, f' := Filter(s, key, k), Filter(s[1..], key, k);
    if key(s[0]) == k {
      assert f == [s[0]] + f';
      if a == 0 {
        FilterHas(s[1..], key, k, f'[b - 1]);
        assert f[b] == f'[b - 1] && f'[b - 1] in s[1..];
        var q :| 0 <= q < |s[1..]| && s[1..][q] == f'[b - 1];
        assert s[0] == f[0] && s[q + 1] == f[b];
      } else {
        FilterFromPositions(s[1..], key, k, a - 1, b - 1);
        var p, q :| 0 <= p < q < |s[1..]| && s[1..][p] == f'[a - 1] && s[1..][q] == f'[b - 1];
        assert s[p + 1] == f[a] && s[q + 1] == f[b];
      }
    } else {
      assert f == f';
      FilterFromPositions(s[1..], key, k, a, b);
      var p, q :| 0 <= p < q < |s[1..]| && s[1..][p] == f'[a] && s[1..][q] == f'[b];
      assert s[p + 1] == f[a] && s[q + 1] == f[b];
    }
  }

  /** Two selected pairs of equal count stand in `items` in the order they
      are selected. */
  lemma SelectedTiePositions(items: seq<TagCount>, i: nat, j: nat) returns (p: nat, q: nat)
    requires i < j < |SelectTop(items)| && SelectTop(items)[i].count == SelectTop(items)[j].count
    ensures p < q < |items| && items[p] == SelectTop(items)[i] && items[q] == SelectTop(items)[j]
  {
    var top := SelectTop(items);
    var c := top[i].count;
    var ft, fi := Filter(top, CountKey, c), Filter(items, CountKey, c);
    FilterKeepsPositions(top, CountKey, c, i, j);
    PrefixOfSorted(items, |top|);
    var a, b :| 0 <= a < b < |ft| && ft[a] == top[i] && ft[b] == top[j];
    assert fi[a] == ft[a] && fi[b] == ft[b];
    FilterFromPositions(items, CountKey, c, a, b);
    p, q :| 0 <= p < q < |items| && items[p] == fi[a] && items[q] == fi[b];
  }

  /** Among the pairs of one count, the selected ones are a prefix of those
      in `items`, so a pair left out stands after all of them. */
  lemma SelectedComeFirst(items: seq<TagCount>, c: int, x: TagCount)
    requires x !in SelectTop(items)
    ensures Filter(SelectTop(items), CountKey, c) <= Filter(items, CountKey, c)
    ensures forall b :: 0 <= b < |Filter(items, CountKey, c)| && Filter(items, CountKey, c)[b] == x ==>
      b >= |Filter(SelectTop(items), CountKey, c)|
  {
    var top := SelectTop(items);
    var ft, fi := Filter(top, CountKey, c), Filter(items, CountKey, c);
    PrefixOfSorted(items, |top|);
    forall k | 0 <= k < |ft| ensures fi[k] != x {
      FilterHas(top, CountKey, c, ft[k]);
    }
  }

  /** A pair left out at a selected pair's count stands after it in `items`. */
  lemma LeftOutTiePosition(items: seq<TagCount>, i: nat, x: TagCount) returns (p: nat, q: nat)
    requires i < |SelectTop(items)| && x in items && x !in SelectTop(items) && x.count == SelectTop(items)[i].count
    ensures p < q < |items| && items[p] == SelectTop(items)[i] && items[q] == x
  {
    var top := SelectTop(items);
    var c := top[i].count;
    var ft, fi := Filter(top, CountKey, c), Filter(items, CountKey, c);
    FilterHas(top, CountKey, c, top[i]);
    FilterHas(items, CountKey, c, x);
    var a :| 0 <= a < |ft| && ft[a] == top[i];
    var b :| 0 <= b < |fi| && fi[b] == x;
    SelectedComeFirst(items, c, x);
    FilterFromPositions(items, CountKey, c, a, b);
    p, q :| 0 <= p < q < |items| && items[p] == fi[a] && items[q] == fi[b];
  }

  /** Among pairs of equal count, the selected ones come first in `items`,
      and in the order they have there. */
  lemma SelectTopKeepsTies(items: seq<TagCount>)
    ensures forall i, j :: 0 <= i < j < |SelectTop(items)| && SelectTop(items)[i].count == SelectTop(items)[j].count ==>
      exists p, q :: 0 <= p < q < |items| && items[p] == SelectTop(items)[i] && items[q] == SelectTop(items)[j]
    ensures forall i, x :: 0 <= i < |SelectTop(items)| && x in items && x !in SelectTop(items) && x.count == SelectTop(items)[i].count ==>
      exists p, q :: 0 <= p < q < |items| && items[p] == SelectTop(items)[i] && items[q] == x
  {
    var top := SelectTop(items);
    forall i, j | 0 <= i < j < |top| && top[i].count == top[j].count
      ensures exists p, q :: 0 <= p < q < |items| && items[p] == top[i] && items[q] == top[j]
    {
      var p, q := SelectedTiePositions(items, i, j);
    }
    forall i, x | 0 <= i < |top| && x in items && x !in top && x.count == top[i].count
      ensures exists p, q :: 0 <= p < q < |items| && items[p] == top[i] && items[q] == x
    {
      var p, q := LeftOutTiePosition(items, i, x);
    }
  }

  /** The items of a consistent tally are its distinct tags with their counts. */
  lemma ItemsOfTally(t: Tally)
    requires WellFormed(t)
    ensures |Items(t)| == |t.counts|
    ensures Distinct(Items(t))
    ensures forall x: TagCount :: x in Items(t) <==> x.tag in t.counts && x.count == t.counts[x.tag]
  {
    var items := Items(t);
    DistinctCardinality(t.keys);
    assert (set k | k in t.keys) == t.counts.Keys;
    forall p, q | 0 <= p < q < |items| ensures items[p] != items[q] {
      assert items[p].tag == t.keys[p] && items[q].tag == t.keys[q];
    }
    forall x: TagCount | x.tag in t.counts && x.count == t.counts[x.tag] ensures x in items {
      var p :| 0 <= p < |t.keys| && t.keys[p] == x.tag;
      assert items[p] == x;
    }
  }

  /** The selection holds min(10, number of distinct tags) pairs, each a tag
      of the tally with its own count. */
  lemma SelectTopFromTally(t: Tally)
    requires WellFormed(t)
    ensures |SelectTop(Items(t))| == Min(TopCount, |t.counts|)
    ensures forall i :: 0 <= i < |SelectTop(Items(t))| ==>
      SelectTop(Items(t))[i].tag in t.counts && SelectTop(Items(t))[i].count == t.counts[SelectTop(Items(t))[i].tag]
  {
    var items := Items(t);
    var top := SelectTop(items);
    ItemsOfTally(t);
    PrefixOfSorted(items, |top|);
    forall i | 0 <= i < |top| ensures top[i].tag in t.counts && top[i].count == t.counts[top[i].tag] {
      assert top[i] in multiset(top);
      assert top[i] in items;
    }
  }

  /** No tag is selected twice. */
  lemma SelectTopDistinct(t: Tally)
    requires WellFormed(t)
    ensures Distinct(Tags(SelectTop(Items(t))))
  {
    var items := Items(t);
    var top := SelectTop(items);
    assert Distinct(top) by {
      ItemsOfTally(t);
      PrefixOfSorted(items, |top|);
      DistinctMultiset(items);
      assert forall x :: multiset(top)[x] <= multiset(items)[x];
      DistinctMultiset(top);
    }
    SelectTopFromTally(t);
    forall i, j | 0 <= i < j < |top| ensures Tags(top)[i] != Tags(top)[j] {
      assert top[i] != top[j];
    }
  }

  /** No tag left out of the selection has a larger count than a selected one. */
  lemma SelectTopIsTop(t: Tally)
    requires WellFormed(t)
    ensures forall tag :: tag in t.counts && tag !in Tags(SelectTop(Items(t))) ==>
      forall i :: 0 <= i < |SelectTop(Items(t))| ==> t.counts[tag] <= SelectTop(Items(t))[i].count
  {
    var items := Items(t);
    var top := SelectTop(items);
    forall tag, i | tag in t.counts && tag !in Tags(top) && 0 <= i < |top|
      ensures t.counts[tag] <= top[i].count
    {
      var x := TagCount(tag, t.counts[tag]);
      assert x in items by {
        ItemsOfTally(t);
      }
      assert x !in top by {
        forall k | 0 <= k < |top| ensures top[k] != x {
          assert Tags(top)[k] == top[k].tag;
        }
      }
      LeftOutNotLarger(items, x, i);
    }
  }
}
