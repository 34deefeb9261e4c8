/**
 * What `_split_child` does to a parent whose child at `index` holds exactly
 * `2t-1` keys: the halves it produces, and the invariants and contents it keeps.
 */
module SplitLemmas {
  import opened Lexicographic
  import opened NodeModel

  /** The parent gains the median at `index` and the new sibling at `index + 1`;
      the old child keeps the lower `t-1` keys (and `t` children), the sibling
      gets the upper `t-1` keys (and `t` children); nothing is lost or added. */
  lemma SplitChildHalves(p: Node, index: nat, t: nat)
    requires t >= 1 && Shaped(p) && index < |p.children|
    requires |p.children[index].keys| == 2 * t - 1
    ensures index <= |p.keys|
    ensures !p.children[index].isLeaf ==> |p.children[index].children| == 2 * t
    ensures
      var full := p.children[index];
      var r := SplitChild(p, index, t);
      var left, right := r.children[index], r.children[index + 1];
      && left == LowerHalf(full, t) && right == UpperHalf(full, t)
      && r.keys == p.keys[..index] + [full.keys[t - 1]] + p.keys[index..]
      && r.children == p.children[..index] + [left, right] + p.children[index + 1..]
      && r.isLeaf == p.isLeaf
      && left.isLeaf == right.isLeaf == full.isLeaf
      && |left.keys| == |right.keys| == t - 1
      && left.keys + [full.keys[t - 1]] + right.keys == full.keys
      && (full.isLeaf ==> left.children == right.children == [])
      && (!full.isLeaf ==> |left.children| == |right.children| == t
                           && left.children + right.children == full.children)
  {
    var full := p.children[index];
    assert Shaped(full);
    var r := SplitChild(p, index, t);
    assert r.children == p.children[..index] + [r.children[index], r.children[index + 1]] + p.children[index + 1..];
    assert full.keys[..t - 1] + [full.keys[t - 1]] + full.keys[t..2 * t - 1] == full.keys;
    if !full.isLeaf {
      assert full.children[..t] + full.children[t..2 * t] == full.children;
    }
  }

  /** Both halves of a full node keep the size bounds of its descendants. */
  lemma HalvesSized(full: Node, t: nat)
    requires t >= 1 && Shaped(full) && Sized(full, t) && |full.keys| == 2 * t - 1
    ensures !full.isLeaf ==> |full.children| == 2 * t
    ensures Sized(LowerHalf(full, t), t) && Sized(UpperHalf(full, t), t)
  {
    var left, right := LowerHalf(full, t), UpperHalf(full, t);
    forall i | 0 <= i < |left.children|
      ensures left.children[i] == full.children[i]
    {
    }
    forall i | 0 <= i < |right.children|
      ensures right.children[i] == full.children[t + i]
    {
    }
  }

  /** Splitting a full child of a parent with room keeps every node within its size bounds. */
  lemma SplitChildSized(p: Node, index: nat, t: nat)
    requires t >= 1 && Shaped(p) && Sized(p, t) && |p.keys| < 2 * t - 1
    requires index < |p.children| && |p.children[index].keys| == 2 * t - 1
    ensures index <= |p.keys|
    ensures !p.children[index].isLeaf ==> |p.children[index].children| == 2 * t
    ensures Sized(SplitChild(p, index, t), t)
  {
    SplitChildHalves(p, index, t);
    HalvesSized(p.children[index], t);
    var r := SplitChild(p, index, t);
    forall i | 0 <= i < |r.children|
      ensures t - 1 <= |r.children[i].keys| && Sized(r.children[i], t)
    {
      if i < index {
        assert r.children[i] == p.children[i];
      } else if index + 1 < i {
        assert r.children[i] == p.children[i - 1];
      }
    }
  }

  /** The half a split leaves in place lies between the old lower bound and the median. */
  lemma LowerHalfOrdered(full: Node, t: nat, lo: Option<string>, hi: Option<string>)
    requires t >= 1 && Shaped(full) && Ordered(full, lo, hi) && |full.keys| == 2 * t - 1
    ensures !full.isLeaf ==> |full.children| == 2 * t
    ensures Ordered(LowerHalf(full, t), lo, Some(full.keys[t - 1].key))
  {
    var m := Some(full.keys[t - 1].key);
    var left := LowerHalf(full, t);
    forall i | 0 <= i < |left.keys|
      ensures Within(lo, left.keys[i].key, m)
    {
      assert left.keys[i] == full.keys[i];
    }
    forall i | 0 <= i < |left.children|
      ensures Ordered(left.children[i], LowerBound(left, lo, i), UpperBound(left, m, i))
    {
      assert left.children[i] == full.children[i];
      assert LowerBound(left, lo, i) == LowerBound(full, lo, i);
      assert UpperBound(left, m, i) == UpperBound(full, hi, i);
    }
  }

  /** The new sibling lies between the median and the old upper bound. */
  lemma UpperHalfOrdered(full: Node, t: nat, lo: Option<string>, hi: Option<string>)
    requires t >= 1 && Shaped(full) && Ordered(full, lo, hi) && |full.keys| == 2 * t - 1
    ensures !full.isLeaf ==> |full.children| == 2 * t
    ensures Ordered(UpperHalf(full, t), Some(full.keys[t - 1].key), hi)
  {
    var m := Some(full.keys[t - 1].key);
    var right := UpperHalf(full, t);
    forall i | 0 <= i < |right.keys|
      ensures Within(m, right.keys[i].key, hi)
    {
      assert right.keys[i] == full.keys[t + i];
    }
    forall i, j | 0 <= i < j < |right.keys|
      ensures Less(right.keys[i].key, right.keys[j].key)
    {
      assert right.keys[i] == full.keys[t + i] && right.keys[j] == full.keys[t + j];
    }
    forall i | 0 <= i < |right.children|
      ensures Ordered(right.children[i], LowerBound(right, m, i), UpperBound(right, hi, i))
    {
      assert right.children[i] == full.children[t + i];
      assert LowerBound(right, m, i) == LowerBound(full, lo, t + i);
      assert UpperBound(right, hi, i) == UpperBound(full, hi, t + i);
    }
  }

  /** A key that lies between the separators around position `index` can be put
      there: the keys stay sorted and within the node's bounds. */
  lemma InsertAtSorted(p: Node, index: nat, m: Entry, lo: Option<string>, hi: Option<string>)
    requires SortedKeys(p.keys) && forall i :: 0 <= i < |p.keys| ==> Within(lo, p.keys[i].key, hi)
    requires index <= |p.keys| && Within(LowerBound(p, lo, index), m.key, UpperBound(p, hi, index))
    ensures SortedKeys(InsertAt(p.keys, index, m))
    ensures forall i :: 0 <= i < |p.keys| + 1 ==> Within(lo, InsertAt(p.keys, index, m)[i].key, hi)
  {
    var ks := InsertAt(p.keys, index, m);
    forall j | 0 <= j < index
      ensures Less(p.keys[j].key, m.key)
    {
      if j < index - 1 {
        LessTransitive(p.keys[j].key, p.keys[index - 1].key, m.key);
      }
    }
    forall j | index <= j < |p.keys|
      ensures Less(m.key, p.keys[j].key)
    {
      if index < j {
        LessTransitive(m.key, p.keys[index].key, p.keys[j].key);
      }
    }
    assert Within(lo, m.key, hi) by {
      if 0 < index && lo.Some? {
        LessTransitive(lo.value, p.keys[index - 1].key, m.key);
      }
      if index < |p.keys| && hi.Some? {
        LessTransitive(m.key, p.keys[index].key, hi.value);
      }
    }
    forall i, j | 0 <= i < j < |ks|
      ensures Less(ks[i].key, ks[j].key)
    {
      if i < index < j {
        LessTransitive(p.keys[i].key, m.key, p.keys[j - 1].key);
      }
    }
  }

  /** Splitting keeps the search-tree property: the median lies between the
      separators around the old child, and every grandchild keeps its bounds. */
  lemma SplitChildOrdered(p: Node, index: nat, t: nat, lo: Option<string>, hi: Option<string>)
    requires t >= 1 && Shaped(p) && Ordered(p, lo, hi)
    requires index < |p.children| && |p.children[index].keys| == 2 * t - 1
    ensures index <= |p.keys|
    ensures !p.children[index].isLeaf ==> |p.children[index].children| == 2 * t
    ensures Ordered(SplitChild(p, index, t), lo, hi)
  {
    SplitChildHalves(p, index, t);
    var full := p.children[index];
    var flo, fhi := LowerBound(p, lo, index), UpperBound(p, hi, index);
    assert Ordered(full, flo, fhi);
    var m := full.keys[t - 1];
    assert Within(flo, m.key, fhi);
    InsertAtSorted(p, index, m, lo, hi);
    LowerHalfOrdered(full, t, flo, fhi);
    UpperHalfOrdered(full, t, flo, fhi);
    var r := SplitChild(p, index, t);
    forall i | 0 <= i < |r.children|
      ensures Ordered(r.children[i], LowerBound(r, lo, i), UpperBound(r, hi, i))
    {
      if i < index {
        assert r.children[i] == p.children[i];
        assert LowerBound(r, lo, i) == LowerBound(p, lo, i);
        assert UpperBound(r, hi, i) == UpperBound(p, hi, i);
      } else if index + 1 < i {
        assert r.children[i] == p.children[i - 1];
        assert LowerBound(r, lo, i) == LowerBound(p, lo, i - 1);
        assert UpperBound(r, hi, i) == UpperBound(p, hi, i - 1);
      } else if i == index {
        assert LowerBound(r, lo, i) == flo;
      } else {
        assert UpperBound(r, hi, i) == fhi;
      }
    }
  }

  /** The two halves and the median hold exactly the entries of the full node. */
  lemma HalvesEntries(full: Node, t: nat)
    requires t >= 1 && Shaped(full) && |full.keys| == 2 * t - 1
    ensures !full.isLeaf ==> |full.children| == 2 * t
    ensures Entries(full) == Entries(LowerHalf(full, t)) + {full.keys[t - 1]} + Entries(UpperHalf(full, t))
  {
    var left, right := LowerHalf(full, t), UpperHalf(full, t);
    var m := full.keys[t - 1];
    assert full.keys == left.keys + [m] + right.keys;
    ElementsSplit(full.keys, left.keys, m, right.keys);
    HalvesChildEntries(full, t);
    assert Entries(full) == (set e | e in full.keys) + ChildEntries(full.children);
    assert Entries(left) == (set e | e in left.keys) + ChildEntries(left.children);
    assert Entries(right) == (set e | e in right.keys) + ChildEntries(right.children);
  }

  /** The two halves share out the children of the full node between them. */
  lemma HalvesChildEntries(full: Node, t: nat)
    requires t >= 1 && Shaped(full) && |full.keys| == 2 * t - 1
    ensures !full.isLeaf ==> |full.children| == 2 * t
    ensures ChildEntries(full.children)
         == ChildEntries(LowerHalf(full, t).children) + ChildEntries(UpperHalf(full, t).children)
  {
    var left, right := LowerHalf(full, t), UpperHalf(full, t);
    if full.isLeaf {
      assert full.children == left.children == right.children == [];
    } else {
      assert full.children == left.children + right.children;
      ChildEntriesAppend(left.children, right.children);
    }
  }

  lemma ElementsSplit(ks: seq<Entry>, a: seq<Entry>, m: Entry, b: seq<Entry>)
    requires ks == a + [m] + b
    ensures (set e | e in ks) == (set e | e in a) + {m} + (set e | e in b)
  {
    forall x
      ensures x in ks <==> x in a || x == m || x in b
    {
      if x in ks {
        var i :| 0 <= i < |ks| && ks[i] == x;
        if i < |a| {
          assert a[i] == x;
        } else if |a| < i {
          assert b[i - |a| - 1] == x;
        }
      }
    }
  }

  lemma ElementsInsertAt(ks: seq<Entry>, index: nat, m: Entry)
    requires index <= |ks|
    ensures (set e | e in InsertAt(ks, index, m)) == (set e | e in ks) + {m}
  {
    assert InsertAt(ks, index, m) == ks[..index] + [m] + ks[index..];
    assert ks == ks[..index] + ks[index..];
  }

  lemma ChildEntriesSplice(before: seq<Node>, left: Node, right: Node, after: seq<Node>)
    ensures ChildEntries(before + [left, right] + after)
         == ChildEntries(before) + Entries(left) + Entries(right) + ChildEntries(after)
  {
    ChildEntriesAppend(before + [left, right], after);
    ChildEntriesAppend(before, [left, right]);
    assert [left, right][1..] == [right];
    assert ChildEntries([right]) == Entries(right) + ChildEntries([]);
  }

  /** Splitting moves entries between nodes but neither loses nor adds any. */
  lemma SplitChildEntries(p: Node, index: nat, t: nat)
    requires t >= 1 && Shaped(p) && index < |p.children|
    requires |p.children[index].keys| == 2 * t - 1
    ensures index <= |p.keys|
    ensures !p.children[index].isLeaf ==> |p.children[index].children| == 2 * t
    ensures Entries(SplitChild(p, index, t)) == Entries(p)
  {
    SplitChildHalves(p, index, t);
    var full := p.children[index];
    var m := full.keys[t - 1];
    var r := SplitChild(p, index, t);
    var left, right := LowerHalf(full, t), UpperHalf(full, t);
    var before, after := p.children[..index], p.children[index + 1..];
    HalvesEntries(full, t);
    ChildEntriesSplice(before, left, right, after);
    ChildEntriesAround(p.children, index);
    ElementsInsertAt(p.keys, index, m);
  }
}
