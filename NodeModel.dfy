/**
 * The B-tree of BTree.py as values.  A `Node` is one `BTreeNode` (its
 * `is_leaf` flag, its sorted `keys` list of `(file_name, location)` pairs and
 * its `children` list); the functions below are `_search`, `_split_child`,
 * `_insert_non_full` and `insert` on such values.  The classes in BTree.dfy
 * run the same steps on heap objects and are proved to follow these functions.
 */
module NodeModel {
  import opened Lexicographic

  datatype Option<T> = None | Some(value: T)

  /** One `(file_name, location)` tuple. */
  datatype Entry = Entry(key: string, value: string)

  datatype Node = Node(isLeaf: bool, keys: seq<Entry>, children: seq<Node>)

  /** `BTreeNode(is_leaf=True)`: the root of a fresh tree. */
  function EmptyLeaf(): (r: Node)
    ensures r.isLeaf && Shaped(r) && Entries(r) == {}
  {
    Node(true, [], [])
  }

  /** Python's `list.insert(i, x)` for `i <= len(list)`. */
  function InsertAt<T>(s: seq<T>, i: nat, x: T): (r: seq<T>)
    requires i <= |s|
    ensures |r| == |s| + 1 && r[i] == x
    ensures forall j :: 0 <= j < i ==> r[j] == s[j]
    ensures forall j :: i < j < |r| ==> r[j] == s[j - 1]
  {
    s[..i] + [x] + s[i..]
  }

  // ---------------------------------------------------------------------------
  // Invariants of a B-tree of minimum degree t

  /** A leaf has no children; an internal node has one more child than keys. */
  ghost predicate Shaped(n: Node) {
    && (n.isLeaf ==> n.children == [])
    && (!n.isLeaf ==> |n.children| == |n.keys| + 1)
    && forall i :: 0 <= i < |n.children| ==> Shaped(n.children[i])
  }

  /** Every leaf lies `h` levels below `n`. */
  ghost predicate Balanced(n: Node, h: nat) {
    if n.isLeaf then h == 0
    else h > 0 && forall i :: 0 <= i < |n.children| ==> Balanced(n.children[i], h - 1)
  }

  /** The number of levels below `n`, measured along the leftmost path. */
  function Height(n: Node): nat {
    if n.isLeaf || n.children == [] then 0 else 1 + Height(n.children[0])
  }

  /** No node holds more than `2t-1` keys, and every node below `n` holds at least `t-1`. */
  ghost predicate Sized(n: Node, t: nat) {
    && |n.keys| <= 2 * t - 1
    && forall i :: 0 <= i < |n.children| ==> t - 1 <= |n.children[i].keys| && Sized(n.children[i], t)
  }

  /** Keys strictly ascending in the string order. */
  ghost predicate SortedKeys(s: seq<Entry>) {
    forall i, j :: 0 <= i < j < |s| ==> Less(s[i].key, s[j].key)
  }

  /** `k` lies strictly between the optional bounds. */
  predicate Within(lo: Option<string>, k: string, hi: Option<string>) {
    && (lo.Some? ==> Less(lo.value, k))
    && (hi.Some? ==> Less(k, hi.value))
  }

  /** The separator to the left of child `i`, or the node's own lower bound. */
  function LowerBound(n: Node, lo: Option<string>, i: nat): Option<string> {
    if 0 < i <= |n.keys| then Some(n.keys[i - 1].key) else lo
  }

  /** The separator to the right of child `i`, or the node's own upper bound. */
  function UpperBound(n: Node, hi: Option<string>, i: nat): Option<string> {
    if i < |n.keys| then Some(n.keys[i].key) else hi
  }

  /** The search-tree property: the keys of every node are sorted and lie between
      the bounds its ancestors impose; child `i` lies between separators `i-1` and `i`. */
  ghost predicate Ordered(n: Node, lo: Option<string>, hi: Option<string>) {
    && SortedKeys(n.keys)
    && (forall i :: 0 <= i < |n.keys| ==> Within(lo, n.keys[i].key, hi))
    && forall i :: 0 <= i < |n.children| ==>
         Ordered(n.children[i], LowerBound(n, lo, i), UpperBound(n, hi, i))
  }

  /** The invariant BTree.py keeps between calls, for a root `n`. */
  ghost predicate IsBTree(n: Node, t: nat) {
    && t >= 2
    && Shaped(n)
    && Balanced(n, Height(n))
    && Sized(n, t)
    && Ordered(n, None, None)
  }

  // ---------------------------------------------------------------------------
  // What a tree stores

  /** The set of `(file_name, location)` entries held anywhere in the tree. */
  ghost function Entries(n: Node): set<Entry>
    decreases n
  {
    (set e | e in n.keys) + ChildEntries(n.children)
  }

  ghost function ChildEntries(cs: seq<Node>): set<Entry>
    decreases cs
  {
    if cs == [] then {} else Entries(cs[0]) + ChildEntries(cs[1..])
  }

  ghost function KeySet(n: Node): set<string> {
    set e | e in Entries(n) :: e.key
  }

  // ---------------------------------------------------------------------------
  // Operations

  /** `keys.append(e)` followed by `keys.sort(key=lambda x: x[0])` on a list
      already sorted by key: since the sort is stable, `e` lands after every
      entry whose key is not greater than its own. */
  function Insertion(keys: seq<Entry>, e: Entry): (r: seq<Entry>)
    ensures |r| == |keys| + 1
    ensures multiset(r) == multiset(keys) + multiset{e}
  {
    if keys == [] then [e]
    else if Less(e.key, keys[0].key) then [e] + keys
    else
      assert keys == [keys[0]] + keys[1..];
      [keys[0]] + Insertion(keys[1..], e)
  }

  /** The scan of `_search`: the first index whose key is not less than `k`. */
  function FirstNotLess(keys: seq<Entry>, k: string): (i: nat)
    ensures i <= |keys|
    ensures forall j :: 0 <= j < i ==> Less(keys[j].key, k)
    ensures i < |keys| ==> !Less(keys[i].key, k)
  {
    if keys == [] || !Less(keys[0].key, k) then 0
    else 1 + FirstNotLess(keys[1..], k)
  }

  /** The right-to-left scan of `_insert_non_full` followed by `i += 1`: one
      past the last index whose key is not greater than `k`. */
  function ChildIndex(keys: seq<Entry>, k: string): (i: nat)
    ensures i <= |keys|
    ensures forall j :: i <= j < |keys| ==> Less(k, keys[j].key)
    ensures 0 < i ==> !Less(k, keys[i - 1].key)
  {
    if keys == [] || !Less(k, keys[|keys| - 1].key) then |keys|
    else ChildIndex(keys[..|keys| - 1], k)
  }

  /** `_search(node, file_name)`. */
  function Search(n: Node, k: string): (r: Option<string>)
    requires Shaped(n)
    ensures r.Some? ==> Entry(k, r.value) in Entries(n)
    decreases n
  {
    var i := FirstNotLess(n.keys, k);
    if i < |n.keys| && n.keys[i].key == k then Some(n.keys[i].value)
    else if n.isLeaf then None
    else
      var r := Search(n.children[i], k);
      ChildEntriesHas(n.children, i);
      r
  }

  /** What `_split_child` leaves in the full child: `keys[0:t-1]` and, when it
      is internal, `children[0:t]`. */
  function LowerHalf(full: Node, t: nat): (r: Node)
    requires t >= 1 && |full.keys| == 2 * t - 1
    requires !full.isLeaf ==> |full.children| == 2 * t
    ensures r.isLeaf == full.isLeaf && |r.keys| == t - 1
    ensures !full.isLeaf ==> |r.children| == t
  {
    Node(full.isLeaf, full.keys[..t - 1], if full.isLeaf then full.children else full.children[..t])
  }

  /** The new sibling `_split_child` makes: same `is_leaf`, `keys[t:2t-1]` and,
      when internal, `children[t:2t]`. */
  function UpperHalf(full: Node, t: nat): (r: Node)
    requires t >= 1 && |full.keys| == 2 * t - 1
    requires !full.isLeaf ==> |full.children| == 2 * t
    ensures r.isLeaf == full.isLeaf && |r.keys| == t - 1
    ensures full.isLeaf ==> r.children == []
    ensures !full.isLeaf ==> |r.children| == t
  {
    Node(full.isLeaf, full.keys[t..2 * t - 1], if full.isLeaf then [] else full.children[t..2 * t])
  }

  /** `_split_child(parent, index)`: the median of the full child moves up into
      the parent at `index`, the child keeps the lower half and a new sibling,
      inserted at `index + 1`, takes the upper half. */
  function SplitChild(p: Node, index: nat, t: nat): (r: Node)
    requires t >= 1 && index < |p.children| && index <= |p.keys|
    requires |p.children[index].keys| == 2 * t - 1
    requires !p.children[index].isLeaf ==> |p.children[index].children| == 2 * t
    ensures r.isLeaf == p.isLeaf
    ensures |r.keys| == |p.keys| + 1
    ensures |r.children| == |p.children| + 1
  {
    var full := p.children[index];
    Node(p.isLeaf, InsertAt(p.keys, index, full.keys[t - 1]),
         InsertAt(p.children[index := LowerHalf(full, t)], index + 1, UpperHalf(full, t)))
  }

  /** `_insert_non_full(node, file_name, location)`.  The ghost `h` is the
      height of `node`; it bounds the recursion. */
  function InsertNonFull(n: Node, e: Entry, t: nat, ghost h: nat): (r: Node)
    requires t >= 1 && Shaped(n) && Balanced(n, h)
    ensures Shaped(r) && Balanced(r, h) && r.isLeaf == n.isLeaf
    ensures |n.keys| <= |r.keys| <= |n.keys| + 1
    decreases h
  {
    if n.isLeaf then
      Node(true, Insertion(n.keys, e), n.children)
    else
      var i := ChildIndex(n.keys, e.key);
      assert i < |n.children|;
      if |n.children[i].keys| == 2 * t - 1 then
        SplitChildShape(n, i, t, h);
        var split := SplitChild(n, i, t);
        var j := if Less(split.keys[i].key, e.key) then i + 1 else i;
        ChildShape(split, j, h);
        var child := InsertNonFull(split.children[j], e, t, h - 1);
        ReplaceChildShape(split, j, child, h);
        Node(split.isLeaf, split.keys, split.children[j := child])
      else
        ChildShape(n, i, h);
        var child := InsertNonFull(n.children[i], e, t, h - 1);
        ReplaceChildShape(n, i, child, h);
        Node(n.isLeaf, n.keys, n.children[i := child])
  }

  /** The root that `BTreeNode(is_leaf=False)` with the old root appended as its
      only child becomes in `insert`. */
  function Grow(root: Node): (r: Node)
    ensures !r.isLeaf && r.keys == [] && r.children == [root]
  {
    Node(false, [], [root])
  }

  /** The grown root holds exactly the entries of the old root. */
  lemma GrowEntries(root: Node)
    ensures Entries(Grow(root)) == Entries(root)
  {
    assert ChildEntries([root]) == Entries(root) + ChildEntries([]);
  }

  /** `insert(file_name, location)`: grow the tree by one level when the root is
      full, then insert from the root down. */
  function Insert(root: Node, e: Entry, t: nat): (r: Node)
    requires t >= 1 && Shaped(root) && Balanced(root, Height(root))
    ensures Shaped(r)
  {
    var h := Height(root);
    if |root.keys| == 2 * t - 1 then
      SplitChildShape(Grow(root), 0, t, h + 1);
      var split := SplitChild(Grow(root), 0, t);
      InsertNonFull(split, e, t, h + 1)
    else
      InsertNonFull(root, e, t, h)
  }

  // ---------------------------------------------------------------------------
  // Facts the operations above rely on

  /** Splitting a full child keeps the parent well shaped and balanced. */
  lemma SplitChildShape(p: Node, index: nat, t: nat, h: nat)
    requires t >= 1 && Shaped(p) && Balanced(p, h)
    requires index < |p.children| && |p.children[index].keys| == 2 * t - 1
    ensures index <= |p.keys|
    ensures !p.children[index].isLeaf ==> |p.children[index].children| == 2 * t
    ensures Shaped(SplitChild(p, index, t)) && Balanced(SplitChild(p, index, t), h)
  {
    var full := p.children[index];
    assert Shaped(full) && Balanced(full, h - 1);
    var r := SplitChild(p, index, t);
    var left, right := r.children[index], r.children[index + 1];
    assert Shaped(left) && Balanced(left, h - 1) by {
      forall i | 0 <= i < |left.children|
        ensures left.children[i] == full.children[i]
      {
      }
    }
    assert Shaped(right) && Balanced(right, h - 1) by {
      forall i | 0 <= i < |right.children|
        ensures right.children[i] == full.children[t + i]
      {
      }
    }
    forall i | 0 <= i < |r.children|
      ensures Shaped(r.children[i]) && Balanced(r.children[i], h - 1)
    {
      if i < index {
        assert r.children[i] == p.children[i];
      } else if index + 1 < i {
        assert r.children[i] == p.children[i - 1];
      }
    }
  }

  /** A child of a well-shaped internal node lies one level lower. */
  lemma ChildShape(p: Node, j: nat, h: nat)
    requires Shaped(p) && Balanced(p, h) && !p.isLeaf && j < |p.children|
    ensures h >= 1 && Shaped(p.children[j]) && Balanced(p.children[j], h - 1)
  {
  }

  /** Replacing one child of an internal node by a well-shaped node of the same height keeps the shape. */
  lemma ReplaceChildShape(p: Node, j: nat, c: Node, h: nat)
    requires Shaped(p) && Balanced(p, h) && !p.isLeaf && j < |p.children|
    requires h >= 1 && Shaped(c) && Balanced(c, h - 1)
    ensures Shaped(Node(p.isLeaf, p.keys, p.children[j := c]))
    ensures Balanced(Node(p.isLeaf, p.keys, p.children[j := c]), h)
  {
    var r := Node(p.isLeaf, p.keys, p.children[j := c]);
    forall i | 0 <= i < |r.children|
      ensures Shaped(r.children[i]) && Balanced(r.children[i], h - 1)
    {
      if i != j {
        assert r.children[i] == p.children[i];
      }
    }
  }

  /** Every child's entries are entries of the children list. */
  lemma {:induction false} ChildEntriesHas(cs: seq<Node>, i: nat)
    requires i < |cs|
    ensures Entries(cs[i]) <= ChildEntries(cs)
  {
    if i > 0 {
      ChildEntriesHas(cs[1..], i - 1);
    }
  }

  /** The entries of a concatenation of children lists are the union of both. */
  lemma {:induction false} ChildEntriesAppend(a: seq<Node>, b: seq<Node>)
    ensures ChildEntries(a + b) == ChildEntries(a) + ChildEntries(b)
    decreases a
  {
    if a == [] {
      assert a + b == b;
    } else {
      assert (a + b)[0] == a[0] && (a + b)[1..] == a[1..] + b;
      ChildEntriesAppend(a[1..], b);
    }
  }

  /** An entry of a children list is an entry of one of the children. */
  lemma {:induction false} ChildEntriesWitness(cs: seq<Node>, e: Entry) returns (i: nat)
    requires e in ChildEntries(cs)
    ensures i < |cs| && e in Entries(cs[i])
    decreases cs
  {
    if e in Entries(cs[0]) {
      i := 0;
    } else {
      i := ChildEntriesWitness(cs[1..], e);
      i := i + 1;
    }
  }

  /** The entries of a children list, seen around its child `i`. */
  lemma ChildEntriesAround(cs: seq<Node>, i: nat)
    requires i < |cs|
    ensures ChildEntries(cs) == ChildEntries(cs[..i]) + Entries(cs[i]) + ChildEntries(cs[i + 1..])
  {
    assert cs == cs[..i] + ([cs[i]] + cs[i + 1..]);
    ChildEntriesAppend(cs[..i], [cs[i]] + cs[i + 1..]);
    assert ([cs[i]] + cs[i + 1..])[1..] == cs[i + 1..];
  }
}
