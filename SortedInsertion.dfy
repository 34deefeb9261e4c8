/**
 * The leaf step of `_insert_non_full` appends the new entry and re-sorts the
 * list by key.  On a list that is already strictly sorted and does not hold
 * the new key, every sort yields the same list, and that list is `Insertion`.
 */
module SortedInsertion {
  import opened Lexicographic
  import opened NodeModel

  /** Inserting a key not yet present into a strictly sorted list keeps it strictly sorted. */
  lemma {:induction false} InsertionSorted(keys: seq<Entry>, e: Entry)
    requires SortedKeys(keys)
    requires forall j :: 0 <= j < |keys| ==> keys[j].key != e.key
    ensures SortedKeys(Insertion(keys, e))
    decreases keys
  {
    if keys == [] {
    } else if Less(e.key, keys[0].key) {
      forall j | 0 < j < |keys|
        ensures Less(e.key, keys[j].key)
      {
        LessTransitive(e.key, keys[0].key, keys[j].key);
      }
    } else {
      var rest := Insertion(keys[1..], e);
      InsertionSorted(keys[1..], e);
      LessTotal(e.key, keys[0].key);
      forall j | 0 <= j < |rest|
        ensures Less(keys[0].key, rest[j].key)
      {
        assert rest[j] in multiset(rest);
        if rest[j] != e {
          assert rest[j] in multiset(keys[1..]);
          var m :| 0 <= m < |keys[1..]| && keys[1..][m] == rest[j];
          assert keys[m + 1] == rest[j];
        }
      }
    }
  }

  /** Two strictly sorted lists with the same elements start alike. */
  lemma SortedSameFirst(a: seq<Entry>, b: seq<Entry>)
    requires SortedKeys(a) && SortedKeys(b) && multiset(a) == multiset(b) && a != []
    ensures b != [] && a[0] == b[0]
  {
    assert a[0] in multiset(b);
    var k :| 0 <= k < |b| && b[k] == a[0];
    assert b[0] in multiset(a);
    var m :| 0 <= m < |a| && a[m] == b[0];
    if k > 0 && m > 0 {
      LessAsymmetric(b[0].key, a[0].key);
    } else if k > 0 {
      LessIrreflexive(a[0].key);
    }
  }

  /** A strictly sorted list is determined by its elements. */
  lemma {:induction false} SortedUnique(a: seq<Entry>, b: seq<Entry>)
    requires SortedKeys(a) && SortedKeys(b) && multiset(a) == multiset(b)
    ensures a == b
    decreases a
  {
    if a == [] {
      assert |b| == |multiset(b)| == 0;
    } else {
      SortedSameFirst(a, b);
      var a', b' := a[1..], b[1..];
      assert a == [a[0]] + a' && b == [b[0]] + b';
      assert multiset(a') == multiset(b') by {
        assert multiset(a) == multiset([a[0]]) + multiset(a');
        assert multiset(b) == multiset([b[0]]) + multiset(b');
        forall x ensures multiset(a')[x] == multiset(b')[x] {
          assert multiset(a)[x] == multiset([a[0]])[x] + multiset(a')[x];
          assert multiset(b)[x] == multiset([b[0]])[x] + multiset(b')[x];
        }
      }
      SortedUnique(a', b');
    }
  }

  /** Whatever sort is applied to `keys + [e]`, the outcome is `Insertion(keys, e)`. */
  lemma AppendThenSortIsInsertion(keys: seq<Entry>, e: Entry, sorted: seq<Entry>)
    requires SortedKeys(keys)
    requires forall j :: 0 <= j < |keys| ==> keys[j].key != e.key
    requires SortedKeys(sorted) && multiset(sorted) == multiset(keys + [e])
    ensures sorted == Insertion(keys, e)
  {
    InsertionSorted(keys, e);
    SortedUnique(sorted, Insertion(keys, e));
  }
}
