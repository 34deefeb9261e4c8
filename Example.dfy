/**
 * The example usage at the end of BTree.py, and the smallest case in which
 * `insert` grows the tree, worked out on the model.
 */
module Example {
  import opened Lexicographic
  import opened NodeModel
  import opened BTreeImpl

  /** `BTree(t=3)`, three inserts, then `search("file2.txt")`: the location
      stored for that file comes back. */
  method Driver() returns (location: Option<string>)
    ensures location == Some("/path/to/file2.txt")
  {
    var btree := Fill();
    location := btree.Search("file2.txt");
    assert Entry("file2.txt", "/path/to/file2.txt") in Entries(btree.root.Model);
  }

  /** The three inserts of the driver, after which the tree holds exactly the three entries. */
  method Fill() returns (btree: BTree)
    ensures btree.Valid() && btree.t == 3
    ensures Entries(btree.root.Model) == {Entry("file1.txt", "/path/to/file1.txt"),
      Entry("file2.txt", "/path/to/file2.txt"), Entry("file3.txt", "/path/to/file3.txt")}
  {
    var f1, f2, f3 := Entry("file1.txt", "/path/to/file1.txt"), Entry("file2.txt", "/path/to/file2.txt"),
                      Entry("file3.txt", "/path/to/file3.txt");
    btree := new BTree(3);
    Add(btree, f1, {});
    Add(btree, f2, {f1});
    Add(btree, f3, {f1, f2});
  }

  /** One `insert` of the driver into a tree holding `s`. */
  method Add(btree: BTree, e: Entry, ghost s: set<Entry>)
    requires btree.Valid() && Entries(btree.root.Model) == s
    requires forall x :: x in s ==> x.key != e.key
    modifies btree.Repr
    ensures btree.Valid() && fresh(btree.Repr - old(btree.Repr))
    ensures Entries(btree.root.Model) == s + {e}
  {
    AbsentKey(btree.root.Model, s, e.key);
    btree.Insert(e.key, e.value);
  }

  /** A key carried by none of a tree's entries is not among its keys. */
  lemma AbsentKey(n: Node, s: set<Entry>, k: string)
    requires Entries(n) == s && forall e :: e in s ==> e.key != k
    ensures k !in KeySet(n)
  {
  }

  /** With `t = 2` a node holds at most three keys.  Inserting "a", "b", "c"
      fills the root leaf; inserting "d" puts a new root above it, splits the
      old root around "b" and adds "d" to the right half. */
  lemma GrowthScenario()
    ensures
      var a, b, c, d := Entry("a", "1"), Entry("b", "2"), Entry("c", "3"), Entry("d", "4");
      var r3 := Insert(Insert(Insert(EmptyLeaf(), a, 2), b, 2), c, 2);
      && IsBTree(r3, 2) && r3 == Node(true, [a, b, c], [])
      && Insert(r3, d, 2) == Node(false, [b], [Node(true, [a], []), Node(true, [c, d], [])])
  {
    var a, b, c, d := Entry("a", "1"), Entry("b", "2"), Entry("c", "3"), Entry("d", "4");
    FillLeaf(a, b, c);
    var r3 := Node(true, [a, b, c], []);
    FullLeafIsBTree(r3);
    GrowFourth(r3, d);
  }

  /** The leaf "a", "b", "c" is a B-tree of minimum degree 2. */
  lemma FullLeafIsBTree(r3: Node)
    requires r3 == Node(true, [Entry("a", "1"), Entry("b", "2"), Entry("c", "3")], [])
    ensures IsBTree(r3, 2)
  {
    assert Less("a", "b") && Less("a", "c") && Less("b", "c");
    assert SortedKeys(r3.keys);
  }

  /** The first three inserts of the scenario fill the root leaf in order. */
  lemma FillLeaf(a: Entry, b: Entry, c: Entry)
    requires a == Entry("a", "1") && b == Entry("b", "2") && c == Entry("c", "3")
    ensures Insert(Insert(Insert(EmptyLeaf(), a, 2), b, 2), c, 2) == Node(true, [a, b, c], [])
  {
    LeafRootInsert([], a, 2);
    assert Insertion([a], b) == [a, b];
    LeafRootInsert([a], b, 2);
    assert Insertion([a, b], c) == [a] + Insertion([b], c) == [a, b, c];
    LeafRootInsert([a, b], c, 2);
  }

  /** `insert` into a root leaf with room: the entry goes into its sorted place. */
  lemma LeafRootInsert(keys: seq<Entry>, e: Entry, t: nat)
    requires t >= 1 && |keys| != 2 * t - 1
    ensures Insert(Node(true, keys, []), e, t) == Node(true, Insertion(keys, e), [])
  {
  }

  /** The fourth insert of the scenario, into the full root leaf "a", "b", "c". */
  lemma GrowFourth(r3: Node, d: Entry)
    requires r3 == Node(true, [Entry("a", "1"), Entry("b", "2"), Entry("c", "3")], [])
    requires d == Entry("d", "4")
    ensures Insert(r3, d, 2)
         == Node(false, [r3.keys[1]], [Node(true, [r3.keys[0]], []), Node(true, [r3.keys[2], d], [])])
  {
    var left, right := Node(true, [r3.keys[0]], []), Node(true, [r3.keys[2]], []);
    assert LowerHalf(r3, 2) == left;
    assert UpperHalf(r3, 2) == right;
    var s := SplitChild(Grow(r3), 0, 2);
    assert s.keys == [r3.keys[1]];
    assert s.children == [left, right];
    assert s == Node(false, [r3.keys[1]], [left, right]);
    assert Shaped(s) && Balanced(s, 1);
    assert Insert(r3, d, 2) == InsertNonFull(s, d, 2, 1);
    assert ChildIndex(s.keys, d.key) == 1;
    assert Insertion([r3.keys[2]], d) == [r3.keys[2], d];
  }
}
