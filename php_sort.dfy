/**
  `ksort` on an array with string keys: the keys are put in ascending
  order of PHP's binary string comparison and every key keeps its value.
  PHP's own sort is a hybrid insertion/quick sort; with distinct keys
  every correct sort produces the same order, so an insertion sort
  stands for it here.
 */
module PhpSort {
  import opened PhpStrings
  import opened PhpArrays

  /** Each key sorts strictly before every later key. */
  predicate StrictlyAscending(ks: seq<Key>)
  {
    forall i, j :: 0 <= i < j < |ks| ==> Strcmp(ks[i], ks[j]) < 0
  }

  /** Places k in front of the first key it does not sort after. */
  function Insert(k: Key, sorted: seq<Key>): (r: seq<Key>)
    ensures multiset(r) == multiset(sorted) + multiset{k}
    decreases |sorted|
  {
    if sorted == [] then [k]
    else if Strcmp(k, sorted[0]) <= 0 then [k] + sorted
    else
      assert sorted == [sorted[0]] + sorted[1..];
      [sorted[0]] + Insert(k, sorted[1..])
  }

  function KeySort(ks: seq<Key>): (r: seq<Key>)
    ensures multiset(r) == multiset(ks)
    decreases |ks|
  {
    if ks == [] then []
    else
      assert ks == [ks[0]] + ks[1..];
      Insert(ks[0], KeySort(ks[1..]))
  }

  lemma {:induction false} InsertAscending(k: Key, s: seq<Key>)
    requires StrictlyAscending(s) && k !in s
    ensures StrictlyAscending(Insert(k, s))
    decreases |s|
  {
    if s == [] {
    } else if Strcmp(k, s[0]) <= 0 {
      AscendingCons(k, s);
    } else {
      var tail := s[1..];
      AscendingTail(s);
      InsertAscending(k, tail);
      StrcmpAntisymmetric(k, s[0]);
      var ins := Insert(k, tail);
      forall y | y in ins ensures Strcmp(s[0], y) < 0 {
        assert y in multiset(ins);
        if y != k {
          assert y in multiset(tail);
          HeadBeforeTail(s, y);
        }
      }
      AscendingConsAll(s[0], ins);
    }
  }

  lemma AscendingTail(s: seq<Key>)
    requires StrictlyAscending(s) && s != []
    ensures StrictlyAscending(s[1..])
  {
    var tail := s[1..];
    forall i, j | 0 <= i < j < |tail| ensures Strcmp(tail[i], tail[j]) < 0 {
      assert tail[i] == s[i + 1] && tail[j] == s[j + 1];
    }
  }

  lemma HeadBeforeTail(s: seq<Key>, y: Key)
    requires StrictlyAscending(s) && s != [] && y in s[1..]
    ensures Strcmp(s[0], y) < 0
  {
    var j :| 0 <= j < |s[1..]| && s[1..][j] == y;
    assert s[j + 1] == y;
  }

  /** A key that sorts before the first of an ascending list can go in front. */
  lemma AscendingCons(k: Key, s: seq<Key>)
    requires StrictlyAscending(s) && s != [] && k != s[0] && Strcmp(k, s[0]) <= 0
    ensures StrictlyAscending([k] + s)
  {
    forall y | y in s ensures Strcmp(k, y) < 0 {
      if y != s[0] {
        var j :| 0 <= j < |s| && s[j] == y;
        StrcmpTransitive(k, s[0], y);
      }
    }
    AscendingConsAll(k, s);
  }

  /** A key that sorts before every key of an ascending list can go in front. */
  lemma AscendingConsAll(k: Key, s: seq<Key>)
    requires StrictlyAscending(s)
    requires forall y :: y in s ==> Strcmp(k, y) < 0
    ensures StrictlyAscending([k] + s)
  {
    var r := [k] + s;
    forall i, j | 0 <= i < j < |r| ensures Strcmp(r[i], r[j]) < 0 {
      assert r[j] == s[j - 1];
      if i > 0 {
        assert r[i] == s[i - 1];
      } else {
        assert s[j - 1] in s;
      }
    }
  }

  lemma HeadNotInTail(ks: seq<Key>)
    requires Distinct(ks) && ks != []
    ensures ks[0] !in ks[1..]
  {
  }

  /** Sorting keys without repeats yields them in strictly ascending order. */
  lemma {:induction false} KeySortAscending(ks: seq<Key>)
    requires Distinct(ks)
    ensures StrictlyAscending(KeySort(ks))
    decreases |ks|
  {
    if ks != [] {
      var tail := ks[1..];
      assert Distinct(tail) by {
        forall i, j | 0 <= i < j < |tail| ensures tail[i] != tail[j] {
          assert tail[i] == ks[i + 1] && tail[j] == ks[j + 1];
        }
      }
      KeySortAscending(tail);
      assert ks[0] !in KeySort(tail) by {
        HeadNotInTail(ks);
        assert ks[0] !in multiset(tail);
        assert ks[0] !in multiset(KeySort(tail));
      }
      InsertAscending(ks[0], KeySort(tail));
    }
  }

  /** `ksort($a)`: the same entries, keys in strictly ascending order. */
  function KSort(a: Assoc): (r: Assoc)
    requires a.WellFormed()
    ensures r.WellFormed()
    ensures r.vals == a.vals
    ensures StrictlyAscending(r.keys)
    ensures multiset(r.keys) == multiset(a.keys)
  {
    var sorted := KeySort(a.keys);
    KeySortAscending(a.keys);
    assert forall k :: k in sorted <==> k in a.keys by {
      forall k ensures k in sorted <==> k in a.keys {
        assert k in sorted <==> k in multiset(sorted);
        assert k in a.keys <==> k in multiset(a.keys);
      }
    }
    Assoc(sorted, a.vals)
  }
}
