/**
 * What `_insert_non_full` and `insert` do to a B-tree: they add exactly the
 * new entry, keep the keys sorted and every node within `2t-1` keys, and keep
 * all leaves at one depth, growing the tree by one level exactly when the root
 * was full.
 */
module InsertLemmas {
  import opened Lexicographic
  import opened NodeModel
  import opened SortedInsertion
  import opened SplitLemmas

  /** The leaf step adds exactly the new entry. */
  lemma InsertionElements(keys: seq<Entry>, e: Entry)
    ensures (set x | x in Insertion(keys, e)) == (set x | x in keys) + {e}
  {
    var ks := Insertion(keys, e);
    forall x
      ensures x in ks <==> x in keys || x == e
    {
      assert x in ks <==> x in multiset(ks);
      assert x in keys <==> x in multiset(keys);
    }
  }

  /** Replacing child `j` by a node holding one more entry adds that entry to the parent. */
  lemma ReplaceChildEntries(p: Node, j: nat, c: Node, e: Entry)
    requires j < |p.children| && Entries(c) == Entries(p.children[j]) + {e}
    ensures Entries(Node(p.isLeaf, p.keys, p.children[j := c])) == Entries(p) + {e}
  {
    var cs := p.children[j := c];
    ChildEntriesAround(p.children, j);
    ChildEntriesAround(cs, j);
    assert cs[..j] == p.children[..j] && cs[j + 1..] == p.children[j + 1..];
  }

  lemma KeySetMonotone(a: Node, b: Node)
    requires Entries(a) <= Entries(b)
    ensures KeySet(a) <= KeySet(b)
  {
  }

  /** One step of `_insert_non_full` on an internal node: it finds the child
      for the key, splits that child first when it is full and then moves right
      of the median when the key is greater, and recurses into the chosen child. */
  lemma DescentStep(n: Node, e: Entry, t: nat, h: nat) returns (p: Node, j: nat)
    requires t >= 1 && Shaped(n) && Balanced(n, h) && !n.isLeaf
    ensures Shaped(p) && Balanced(p, h) && !p.isLeaf && j < |p.children|
    ensures ChildIndex(n.keys, e.key) < |n.children| && Shaped(n.children[ChildIndex(n.keys, e.key)])
    ensures
      var i := ChildIndex(n.keys, e.key);
      if |n.children[i].keys| == 2 * t - 1 then
        && p == SplitChild(n, i, t)
        && j == (if Less(p.keys[i].key, e.key) then i + 1 else i)
      else
        p == n && j == i
    ensures InsertNonFull(n, e, t, h)
         == Node(p.isLeaf, p.keys, p.children[j := InsertNonFull(p.children[j], e, t, h - 1)])
  {
    var i := ChildIndex(n.keys, e.key);
    p, j := n, i;
    if |n.children[i].keys| == 2 * t - 1 {
      SplitChildShape(n, i, t, h);
      p := SplitChild(n, i, t);
      j := if Less(p.keys[i].key, e.key) then i + 1 else i;
    }
  }

  /** `_insert_non_full` adds exactly the new entry to what the subtree holds. */
  lemma {:induction false} InsertNonFullEntries(n: Node, e: Entry, t: nat, h: nat)
    requires t >= 1 && Shaped(n) && Balanced(n, h)
    ensures Entries(InsertNonFull(n, e, t, h)) == Entries(n) + {e}
    decreases h
  {
    if n.isLeaf {
      InsertionElements(n.keys, e);
    } else {
      var p, j := DescentStep(n, e, t, h);
      var i := ChildIndex(n.keys, e.key);
      if |n.children[i].keys| == 2 * t - 1 {
        SplitChildEntries(n, i, t);
      }
      InsertNonFullEntries(p.children[j], e, t, h - 1);
      ReplaceChildEntries(p, j, InsertNonFull(p.children[j], e, t, h - 1), e);
    }
  }

  /** Called on a node with room, `_insert_non_full` leaves no node with more
      than `2t-1` keys and no non-root node with fewer than `t-1`. */
  lemma {:induction false} InsertNonFullSized(n: Node, e: Entry, t: nat, h: nat)
    requires t >= 1 && Shaped(n) && Balanced(n, h) && Sized(n, t) && |n.keys| < 2 * t - 1
    ensures Sized(InsertNonFull(n, e, t, h), t)
    decreases h
  {
    if !n.isLeaf {
      var p, j := DescentHasRoom(n, e, t, h);
      InsertNonFullSized(p.children[j], e, t, h - 1);
    }
  }

  /** The descent of `_insert_non_full` from a node with room only ever enters
      a child with room: a full child is split first, and either half then
      holds `t-1` keys. */
  lemma DescentHasRoom(n: Node, e: Entry, t: nat, h: nat) returns (p: Node, j: nat)
    requires t >= 1 && Shaped(n) && Balanced(n, h) && Sized(n, t) && |n.keys| < 2 * t - 1 && !n.isLeaf
    ensures Shaped(p) && Balanced(p, h) && Sized(p, t) && j < |p.children|
    ensures |p.children[j].keys| < 2 * t - 1
    ensures InsertNonFull(n, e, t, h)
         == Node(p.isLeaf, p.keys, p.children[j := InsertNonFull(p.children[j], e, t, h - 1)])
  {
    p, j := DescentStep(n, e, t, h);
    var i := ChildIndex(n.keys, e.key);
    if |n.children[i].keys| == 2 * t - 1 {
      SplitChildSized(n, i, t);
      SplitChildHalves(n, i, t);
      assert |p.children[j].keys| == t - 1;
    }
  }

  /** Without a split, the child `_insert_non_full` descends into lies between
      the separators around it. */
  lemma ChildIndexWithin(n: Node, k: string, lo: Option<string>, hi: Option<string>)
    requires Within(lo, k, hi) && forall x :: 0 <= x < |n.keys| ==> n.keys[x].key != k
    ensures
      var i := ChildIndex(n.keys, k);
      Within(LowerBound(n, lo, i), k, UpperBound(n, hi, i))
  {
    var i := ChildIndex(n.keys, k);
    if 0 < i {
      LessTotal(k, n.keys[i - 1].key);
    }
  }

  /** After splitting child `i`, comparing with the median moves the descent to
      the half whose separators enclose the key. */
  lemma SplitDescentWithin(n: Node, i: nat, t: nat, k: string, lo: Option<string>, hi: Option<string>)
    requires t >= 1 && Shaped(n) && i < |n.children| && |n.children[i].keys| == 2 * t - 1
    requires Within(LowerBound(n, lo, i), k, UpperBound(n, hi, i))
    requires k != n.children[i].keys[t - 1].key
    ensures i <= |n.keys|
    ensures !n.children[i].isLeaf ==> |n.children[i].children| == 2 * t
    ensures
      var p := SplitChild(n, i, t);
      var j := if Less(p.keys[i].key, k) then i + 1 else i;
      j < |p.children| && Within(LowerBound(p, lo, j), k, UpperBound(p, hi, j))
  {
    SplitChildHalves(n, i, t);
    var p := SplitChild(n, i, t);
    var m := n.children[i].keys[t - 1].key;
    assert p.keys[i].key == m;
    LessTotal(k, m);
    if Less(m, k) {
      assert i < |n.keys| ==> p.keys[i + 1] == n.keys[i];
      assert UpperBound(p, hi, i + 1) == UpperBound(n, hi, i);
    } else {
      assert 0 < i ==> p.keys[i - 1] == n.keys[i - 1];
      assert LowerBound(p, lo, i) == LowerBound(n, lo, i);
    }
  }

  /** The descent picks the child whose separators enclose the new key. */
  lemma DescentWithin(n: Node, e: Entry, t: nat, h: nat, lo: Option<string>, hi: Option<string>)
    returns (p: Node, j: nat)
    requires t >= 1 && Shaped(n) && Balanced(n, h) && Ordered(n, lo, hi) && !n.isLeaf
    requires Within(lo, e.key, hi) && e.key !in KeySet(n)
    ensures Shaped(p) && Balanced(p, h) && Ordered(p, lo, hi) && Entries(p) == Entries(n)
    ensures j < |p.children| && Within(LowerBound(p, lo, j), e.key, UpperBound(p, hi, j))
    ensures InsertNonFull(n, e, t, h)
         == Node(p.isLeaf, p.keys, p.children[j := InsertNonFull(p.children[j], e, t, h - 1)])
  {
    p, j := DescentStep(n, e, t, h);
    var i := ChildIndex(n.keys, e.key);
    forall x | 0 <= x < |n.keys|
      ensures n.keys[x].key != e.key
    {
      assert n.keys[x] in Entries(n);
    }
    ChildIndexWithin(n, e.key, lo, hi);
    if |n.children[i].keys| == 2 * t - 1 {
      SplitChildOrdered(n, i, t, lo, hi);
      SplitChildEntries(n, i, t);
      var full := n.children[i];
      ChildEntriesHas(n.children, i);
      assert full.keys[t - 1] in Entries(full);
      SplitDescentWithin(n, i, t, e.key, lo, hi);
    }
  }

  /** `_insert_non_full` keeps the search-tree property when the new key is
      absent and lies within the subtree's bounds. */
  lemma {:induction false} InsertNonFullOrdered(n: Node, e: Entry, t: nat, h: nat, lo: Option<string>, hi: Option<string>)
    requires t >= 1 && Shaped(n) && Balanced(n, h) && Ordered(n, lo, hi)
    requires Within(lo, e.key, hi) && e.key !in KeySet(n)
    ensures Ordered(InsertNonFull(n, e, t, h), lo, hi)
    decreases h
  {
    if n.isLeaf {
      LeafInsertOrdered(n, e, lo, hi);
    } else {
      var p, j := DescentWithin(n, e, t, h, lo, hi);
      var child := p.children[j];
      ChildEntriesHas(p.children, j);
      KeySetMonotone(child, p);
      InsertNonFullOrdered(child, e, t, h - 1, LowerBound(p, lo, j), UpperBound(p, hi, j));
      var r := InsertNonFull(n, e, t, h);
      forall i | 0 <= i < |r.children|
        ensures Ordered(r.children[i], LowerBound(r, lo, i), UpperBound(r, hi, i))
      {
        assert LowerBound(r, lo, i) == LowerBound(p, lo, i) && UpperBound(r, hi, i) == UpperBound(p, hi, i);
      }
    }
  }

  /** At a leaf, the sorted insertion of a new key between the bounds keeps the
      keys sorted and between the bounds. */
  lemma LeafInsertOrdered(n: Node, e: Entry, lo: Option<string>, hi: Option<string>)
    requires n.isLeaf && Shaped(n) && Ordered(n, lo, hi)
    requires Within(lo, e.key, hi) && e.key !in KeySet(n)
    ensures Ordered(Node(true, Insertion(n.keys, e), n.children), lo, hi)
  {
    forall j | 0 <= j < |n.keys|
      ensures n.keys[j].key != e.key
    {
      assert n.keys[j] in Entries(n);
    }
    InsertionSorted(n.keys, e);
    var ks := Insertion(n.keys, e);
    forall j | 0 <= j < |ks|
      ensures Within(lo, ks[j].key, hi)
    {
      assert ks[j] in multiset(ks);
      if ks[j] != e {
        assert ks[j] in multiset(n.keys);
      }
    }
  }

  /** Every path from a balanced node to a leaf has the length `Height` measures. */
  lemma {:induction false} BalancedHeight(n: Node, h: nat)
    requires Shaped(n) && Balanced(n, h)
    ensures Height(n) == h
    decreases n
  {
    if !n.isLeaf {
      BalancedHeight(n.children[0], h - 1);
    }
  }

  /** `_insert_non_full` on a root with room keeps a B-tree a B-tree and adds exactly the new entry. */
  lemma InsertNonFullKeepsBTree(n: Node, e: Entry, t: nat, h: nat)
    requires t >= 2 && Shaped(n) && Balanced(n, h) && Sized(n, t) && Ordered(n, None, None)
    requires |n.keys| < 2 * t - 1 && e.key !in KeySet(n)
    ensures IsBTree(InsertNonFull(n, e, t, h), t)
    ensures Entries(InsertNonFull(n, e, t, h)) == Entries(n) + {e}
  {
    InsertNonFullSized(n, e, t, h);
    InsertNonFullOrdered(n, e, t, h, None, None);
    InsertNonFullEntries(n, e, t, h);
    BalancedHeight(InsertNonFull(n, e, t, h), h);
  }

  /** Putting a full root under a new root and splitting it there keeps the
      shape and makes every leaf one level deeper. */
  lemma GrowShape(root: Node, t: nat)
    requires t >= 1 && Shaped(root) && Balanced(root, Height(root)) && |root.keys| == 2 * t - 1
    ensures Shaped(Grow(root)) && |Grow(root).children[0].keys| == 2 * t - 1
    ensures !root.isLeaf ==> |root.children| == 2 * t
    ensures Shaped(SplitChild(Grow(root), 0, t)) && Balanced(SplitChild(Grow(root), 0, t), Height(root) + 1)
  {
    var h := Height(root);
    GrowBalanced(root, h);
    SplitChildShape(Grow(root), 0, t, h + 1);
  }

  /** A new root whose only child is a well-shaped tree of height `h` is a
      well-shaped tree of height `h + 1`. */
  lemma GrowBalanced(root: Node, h: nat)
    requires Shaped(root) && Balanced(root, h)
    ensures Shaped(Grow(root)) && Balanced(Grow(root), h + 1)
  {
    var g := Grow(root);
    assert g.children == [root];
  }

  /** When the root is full, `insert` first puts it under a fresh root and
      splits it there; the result is a B-tree one level taller whose root has room. */
  lemma GrowAndSplit(root: Node, t: nat)
    requires IsBTree(root, t) && |root.keys| == 2 * t - 1
    ensures
      var s := SplitChild(Grow(root), 0, t);
      && Shaped(s) && Balanced(s, Height(root) + 1) && Sized(s, t) && Ordered(s, None, None)
      && |s.keys| == 1 && |s.children| == 2 && !s.isLeaf
      && |s.children[0].keys| == |s.children[1].keys| == t - 1
      && Entries(s) == Entries(root)
  {
    var h := Height(root);
    var g := Grow(root);
    assert Balanced(g, h + 1) && Sized(g, t) && Ordered(g, None, None);
    GrowEntries(root);
    SplitChildShape(g, 0, t, h + 1);
    SplitChildSized(g, 0, t);
    SplitChildOrdered(g, 0, t, None, None);
    SplitChildEntries(g, 0, t);
    SplitChildHalves(g, 0, t);
  }

  /** `insert` of a new key keeps a B-tree a B-tree and adds exactly the new entry. */
  lemma InsertKeepsBTree(root: Node, e: Entry, t: nat)
    requires IsBTree(root, t) && e.key !in KeySet(root)
    ensures IsBTree(Insert(root, e, t), t)
    ensures Entries(Insert(root, e, t)) == Entries(root) + {e}
  {
    var h := Height(root);
    if |root.keys| == 2 * t - 1 {
      GrowAndSplit(root, t);
      var s := SplitChild(Grow(root), 0, t);
      KeySetMonotone(s, root);
      InsertNonFullKeepsBTree(s, e, t, h + 1);
    } else {
      InsertNonFullKeepsBTree(root, e, t, h);
    }
  }

  /** `insert` grows the tree in height exactly when the root is full; the new
      root then holds one key and two children, and every leaf is one level deeper. */
  lemma InsertHeight(root: Node, e: Entry, t: nat)
    requires IsBTree(root, t)
    ensures
      var r := Insert(root, e, t);
      if |root.keys| == 2 * t - 1 then
        && !r.isLeaf && |r.keys| == 1 && |r.children| == 2
        && Height(r) == Height(root) + 1 && Balanced(r, Height(root) + 1)
      else
        Height(r) == Height(root) && Balanced(r, Height(root))
  {
    var h := Height(root);
    var r := Insert(root, e, t);
    if |root.keys| == 2 * t - 1 {
      GrowAndSplit(root, t);
      var s := SplitChild(Grow(root), 0, t);
      var p, j := DescentStep(s, e, t, h + 1);
      BalancedHeight(r, h + 1);
    } else {
      BalancedHeight(r, h);
    }
  }
}
