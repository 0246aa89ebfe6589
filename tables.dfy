/** Small facts about sequences of keys and maps of counts, shared by the tag
    tally (a dictionary of counts) and the per-year tables. */
module Tables {

  function Min(a: int, b: int): int {
    if a <= b then a else b
  }

  /** No element occurs twice: the key order of a dictionary. */
  ghost predicate Distinct<T>(s: seq<T>) {
    forall i, j :: 0 <= i < j < |s| ==> s[i] != s[j]
  }

  /** The sum of m's values, taken over `keys` in order (a dictionary's
      `sum(d.values())` when `keys` is its insertion order). */
  function SumOver(keys: seq<string>, m: map<string, nat>): nat
    requires forall k :: k in keys ==> k in m
  {
    if keys == [] then 0
    else SumOver(keys[..|keys| - 1], m) + m[keys[|keys| - 1]]
  }

  /** SumOver only looks at the entries of its keys. */
  lemma {:induction false} SumOverAgree(keys: seq<string>, m1: map<string, nat>, m2: map<string, nat>)
    requires forall k :: k in keys ==> k in m1 && k in m2 && m1[k] == m2[k]
    ensures SumOver(keys, m1) == SumOver(keys, m2)
  {
    if keys != [] {
      SumOverAgree(keys[..|keys| - 1], m1, m2);
    }
  }

  /** Incrementing the count of one listed key adds one to the sum. */
  lemma {:induction false} SumOverIncrement(keys: seq<string>, m: map<string, nat>, k: string)
    requires forall x :: x in keys ==> x in m
    requires Distinct(keys) && k in keys
    ensures SumOver(keys, m[k := m[k] + 1]) == SumOver(keys, m) + 1
  {
    var init, last := keys[..|keys| - 1], keys[|keys| - 1];
    if last == k {
      assert k !in init by {
        forall i | 0 <= i < |init| ensures init[i] != k {
          assert init[i] == keys[i];
        }
      }
      SumOverAgree(init, m, m[k := m[k] + 1]);
    } else {
      assert k in init by {
        var i :| 0 <= i < |keys| && keys[i] == k;
        assert init[i] == k;
      }
      SumOverIncrement(init, m, k);
    }
  }

  /** A sum of naturals is zero exactly when every summand is. */
  lemma {:induction false} SumOverZero(keys: seq<string>, m: map<string, nat>)
    requires forall k :: k in keys ==> k in m
    ensures SumOver(keys, m) == 0 <==> forall k :: k in keys ==> m[k] == 0
  {
    if keys != [] {
      var init := keys[..|keys| - 1];
      SumOverZero(init, m);
      assert keys == init + [keys[|keys| - 1]];
    }
  }

  /** A duplicate-free sequence has as many distinct elements as positions. */
  lemma {:induction false} DistinctCardinality<T>(s: seq<T>)
    requires Distinct(s)
    ensures |set x | x in s| == |s|
  {
    if s != [] {
      var init, last := s[..|s| - 1], s[|s| - 1];
      DistinctCardinality(init);
      assert last !in init by {
        forall i | 0 <= i < |init| ensures init[i] != last {
          assert init[i] == s[i];
        }
      }
      assert (set x | x in s) == (set x | x in init) + {last} by {
        assert s == init + [last];
      }
    }
  }

  /** Distinctness is a property of the multiset of elements. */
  lemma {:induction false} DistinctMultiset<T>(s: seq<T>)
    ensures Distinct(s) <==> forall x :: multiset(s)[x] <= 1
  {
    if s == [] {
    } else {
      var init, last := s[..|s| - 1], s[|s| - 1];
      assert s == init + [last];
      DistinctMultiset(init);
      if Distinct(s) {
        assert last !in init by {
          forall i | 0 <= i < |init| ensures init[i] != last {
            assert init[i] == s[i];
          }
        }
      }
      if forall x :: multiset(s)[x] <= 1 {
        assert forall x :: multiset(init)[x] <= 1 by {
          forall x ensures multiset(init)[x] <= 1 {
            assert multiset(s)[x] == multiset(init)[x] + multiset([last])[x];
          }
        }
        forall i, j | 0 <= i < j < |s| ensures s[i] != s[j] {
          if j < |s| - 1 {
            assert s[i] == init[i] && s[j] == init[j];
          } else {
            assert s[i] in init by { assert init[i] == s[i]; }
            assert multiset(s)[last] == multiset(init)[last] + 1;
          }
        }
      }
    }
  }

  /** A permutation of a duplicate-free sequence is duplicate-free. */
  lemma DistinctPermutation<T>(a: seq<T>, b: seq<T>)
    requires Distinct(a) && multiset(a) == multiset(b)
    ensures Distinct(b)
  {
    DistinctMultiset(a);
    DistinctMultiset(b);
  }
}
