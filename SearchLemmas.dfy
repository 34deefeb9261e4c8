/**
 * What `_search` finds.  On a tree with the search-tree property it returns
 * `Some(v)` exactly for the entries the tree holds and `None` exactly for the
 * keys it does not hold; after `insert` of a new key it finds the new entry and
 * answers every other key as before.
 */
module SearchLemmas {
  import opened Lexicographic
  import opened NodeModel
  import opened InsertLemmas

  /** Every entry of a subtree lies between the bounds its ancestors impose. */
  lemma {:induction false} OrderedWithin(n: Node, lo: Option<string>, hi: Option<string>, x: Entry)
    requires Ordered(n, lo, hi) && x in Entries(n)
    ensures Within(lo, x.key, hi)
    decreases n
  {
    if x !in n.keys {
      var c := ChildEntriesWitness(n.children, x);
      OrderedWithin(n.children[c], LowerBound(n, lo, c), UpperBound(n, hi, c), x);
      if 0 < c <= |n.keys| && lo.Some? {
        LessTransitive(lo.value, n.keys[c - 1].key, x.key);
      }
      if c < |n.keys| && hi.Some? {
        LessTransitive(x.key, n.keys[c].key, hi.value);
      }
    }
  }

  /** A key held in a node's own list lies in none of its subtrees. */
  lemma KeyNotInChild(n: Node, lo: Option<string>, hi: Option<string>, m: nat, c: nat, y: Entry)
    requires Shaped(n) && Ordered(n, lo, hi)
    requires m < |n.keys| && c < |n.children| && y in Entries(n.children[c])
    ensures y.key != n.keys[m].key
  {
    var k := n.keys[m].key;
    OrderedWithin(n.children[c], LowerBound(n, lo, c), UpperBound(n, hi, c), y);
    if y.key == k {
      if c <= m {
        if c < m {
          LessAsymmetric(n.keys[c].key, k);
        } else {
          LessIrreflexive(k);
        }
      } else {
        if c - 1 > m {
          LessAsymmetric(k, n.keys[c - 1].key);
        } else {
          LessIrreflexive(k);
        }
      }
    }
  }

  /** Two different subtrees of a node share no key. */
  lemma ChildrenApart(n: Node, lo: Option<string>, hi: Option<string>, c1: nat, c2: nat, x: Entry, y: Entry)
    requires Shaped(n) && Ordered(n, lo, hi)
    requires c1 < c2 < |n.children| && x in Entries(n.children[c1]) && y in Entries(n.children[c2])
    ensures x.key != y.key
  {
    OrderedWithin(n.children[c1], LowerBound(n, lo, c1), UpperBound(n, hi, c1), x);
    OrderedWithin(n.children[c2], LowerBound(n, lo, c2), UpperBound(n, hi, c2), y);
    if x.key == y.key {
      var k := x.key;
      if c1 < c2 - 1 {
        LessTransitive(k, n.keys[c1].key, n.keys[c2 - 1].key);
        LessAsymmetric(k, n.keys[c2 - 1].key);
      } else {
        LessAsymmetric(k, n.keys[c1].key);
      }
    }
  }

  /** The search-tree property makes keys unique: a tree holds at most one
      entry per key. */
  lemma {:induction false} UniqueKeys(n: Node, lo: Option<string>, hi: Option<string>, x: Entry, y: Entry)
    requires Shaped(n) && Ordered(n, lo, hi)
    requires x in Entries(n) && y in Entries(n) && x.key == y.key
    ensures x == y
    decreases n
  {
    if x in n.keys && y in n.keys {
      var m1 :| 0 <= m1 < |n.keys| && n.keys[m1] == x;
      var m2 :| 0 <= m2 < |n.keys| && n.keys[m2] == y;
      if m1 != m2 {
        LessIrreflexive(x.key);
      }
    } else if x in n.keys {
      var m :| 0 <= m < |n.keys| && n.keys[m] == x;
      var c := ChildEntriesWitness(n.children, y);
      KeyNotInChild(n, lo, hi, m, c, y);
    } else if y in n.keys {
      var m :| 0 <= m < |n.keys| && n.keys[m] == y;
      var c := ChildEntriesWitness(n.children, x);
      KeyNotInChild(n, lo, hi, m, c, x);
    } else {
      var c1 := ChildEntriesWitness(n.children, x);
      var c2 := ChildEntriesWitness(n.children, y);
      if c1 < c2 {
        ChildrenApart(n, lo, hi, c1, c2, x, y);
      } else if c2 < c1 {
        ChildrenApart(n, lo, hi, c2, c1, y, x);
      } else {
        UniqueKeys(n.children[c1], LowerBound(n, lo, c1), UpperBound(n, hi, c1), x, y);
      }
    }
  }

  /** The only subtree that can hold `k` is the one `_search` descends into. */
  lemma DescentIsOnlyPlace(n: Node, lo: Option<string>, hi: Option<string>, c: nat, x: Entry)
    requires Shaped(n) && Ordered(n, lo, hi)
    requires c < |n.children| && x in Entries(n.children[c])
    ensures c == FirstNotLess(n.keys, x.key)
  {
    var k := x.key;
    var i := FirstNotLess(n.keys, k);
    OrderedWithin(n.children[c], LowerBound(n, lo, c), UpperBound(n, hi, c), x);
    if c < i {
      LessAsymmetric(n.keys[c].key, k);
    } else if c > i {
      if c - 1 > i {
        LessTransitive(n.keys[i].key, n.keys[c - 1].key, k);
      }
    }
  }

  /** `_search` finds every key the tree holds. */
  lemma {:induction false} SearchFinds(n: Node, lo: Option<string>, hi: Option<string>, x: Entry)
    requires Shaped(n) && Ordered(n, lo, hi) && x in Entries(n)
    ensures Search(n, x.key).Some?
    decreases n
  {
    var k := x.key;
    var i := FirstNotLess(n.keys, k);
    if !(i < |n.keys| && n.keys[i].key == k) {
      if x in n.keys {
        var m :| 0 <= m < |n.keys| && n.keys[m] == x;
        if m < i {
          LessIrreflexive(k);
        }
      } else {
        var c := ChildEntriesWitness(n.children, x);
        DescentIsOnlyPlace(n, lo, hi, c, x);
        SearchFinds(n.children[c], LowerBound(n, lo, c), UpperBound(n, hi, c), x);
      }
    }
  }

  /** On a B-tree, `_search(root, k)` returns `v` exactly when the tree holds
      `(k, v)`, and `None` exactly when it holds no entry for `k`. */
  lemma SearchCorrect(n: Node, t: nat, k: string, v: string)
    requires IsBTree(n, t)
    ensures Search(n, k) == Some(v) <==> Entry(k, v) in Entries(n)
    ensures Search(n, k) == None <==> k !in KeySet(n)
  {
    if Entry(k, v) in Entries(n) {
      SearchFinds(n, None, None, Entry(k, v));
      UniqueKeys(n, None, None, Entry(k, v), Entry(k, Search(n, k).value));
    }
    if k in KeySet(n) {
      var x :| x in Entries(n) && x.key == k;
      SearchFinds(n, None, None, x);
    }
  }

  /** A fresh tree, a single empty leaf, is a B-tree in which `search` finds nothing. */
  lemma EmptyTree(t: nat, k: string)
    requires t >= 2
    ensures IsBTree(EmptyLeaf(), t) && Entries(EmptyLeaf()) == {}
    ensures Search(EmptyLeaf(), k) == None
  {
  }

  /** After `insert(k, v)` of a key not yet present, `search(k)` returns `v`
      and `search` of any other key returns what it returned before. */
  lemma SearchAfterInsert(root: Node, e: Entry, t: nat, k: string)
    requires IsBTree(root, t) && e.key !in KeySet(root)
    ensures IsBTree(Insert(root, e, t), t)
    ensures Search(Insert(root, e, t), k) == if k == e.key then Some(e.value) else Search(root, k)
  {
    InsertKeepsBTree(root, e, t);
    var r := Insert(root, e, t);
    if k == e.key {
      SearchCorrect(r, t, k, e.value);
    } else {
      match Search(root, k)
      case None =>
        SearchCorrect(root, t, k, "");
        SearchCorrect(r, t, k, "");
      case Some(v) =>
        SearchCorrect(root, t, k, v);
        SearchCorrect(r, t, k, v);
    }
  }
}
