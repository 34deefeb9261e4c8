# B-tree index of file names (BTree.py) in Dafny

`BTree.py` keeps an in-memory B-tree of minimum degree `t`. It maps file
names (string keys) to locations (string values), stored as
`(file_name, location)` tuples in each node's sorted `keys` list. The tree
has two operations:

- `search`: descend from the root, stopping at the first key that is not
  less than the target.
- `insert`: grow the tree by one level when the root is full, then
  `_insert_non_full`. That method splits every full child with
  `_split_child` before descending into it.

The model has two layers.

- **Values** (`NodeModel`): `datatype Node(isLeaf, keys, children)` with the
  functions `Search`, `SplitChild`, `InsertNonFull` and `Insert`. They follow
  the Python methods branch by branch. All B-tree reasoning is done on these
  values: sortedness and the search-tree ordering (`Ordered`), the size bounds
  `t-1 .. 2t-1` (`Sized`), children count = keys count + 1 (`Shaped`), equal
  leaf depth (`Balanced`), and the stored entries (`Entries`).
- **Heap** (`BTreeImpl`): class `BTreeNode` has the fields `isLeaf`, `keys`
  and `children`, plus a ghost `Model` and an ownership set `Repr`. Class
  `BTree` has `root` and `t`. Its methods change the node objects in place,
  in the same steps as the Python code: the `while` scans, `list.insert` on
  the parent, slices assigned to the two halves, and reassignment of `root`.
  Each method is proved to leave behind exactly the value that the matching
  `NodeModel` function computes. So every property proved of those functions
  also holds of the objects.

Python compares keys with `<`, `>` and `==` on `str`, which is lexicographic
order by code point. `Lexicographic.Less` writes this order out, and the
module proves it is a strict total order. Dafny's own `<` on strings means
"proper prefix", so it is not used for keys.

Facts about the code that the model makes precise:

- `_split_child` gives the new sibling `keys[t:2t-1]`, which is `t-1`
  entries.
- With `t = 2` and keys inserted in ascending order, the fourth insert
  leaves 1 entry in the left leaf and 2 in the right one
  (`Example.GrowthScenario`).
- The code has no duplicate-key policy. The model makes "the key is not
  already in the tree" a precondition of `insert`, and does not add a
  reject or overwrite rule.

## Model

| member | source | states |
|---|---|---|
| `Lexicographic.LessIsLexicographic` | BTree.py:19 | `Less`, the model of Python's `<` and `>` on `str` (`a > b` is `Less(b, a)`; also used at BTree.py:54 and 61), holds exactly when `a` is a proper prefix of `b` or the first differing character of `a` is smaller |
| `Lexicographic.LessTransitive` | BTree.py:19 | the key order is transitive |
| `Lexicographic.LessTotal` | BTree.py:23 | two keys are equal or one is less than the other, so the equality test after the scan decides the match |
| `Lexicographic.LessIrreflexive` | BTree.py:19 | no key is less than itself |
| `Lexicographic.LessAsymmetric` | BTree.py:54 | `a < b` and `b < a` never both hold |
| `NodeModel.InsertAt` | BTree.py:74-75 | `list.insert(i, x)`: one longer, `x` at `i`, the elements before `i` kept, those after it shifted right by one |
| `NodeModel.FirstNotLess` | BTree.py:17-20 | the index `_search` stops at: every earlier key is less than the target, and the key at the index (if any) is not |
| `NodeModel.ChildIndex` | BTree.py:53-56 | the child `_insert_non_full` picks: every key from that index on is greater than the new key, and the key before it is not |
| `NodeModel.Insertion` | BTree.py:49-50 | the leaf list after append-and-sort has one more element, and its multiset is the old one plus the new entry |
| `NodeModel.Search` | BTree.py:16-31 | `_search` answers `Some(v)` only for an entry `(k, v)` that the subtree holds |
| `NodeModel.InsertNonFull` | BTree.py:46-65 | `_insert_non_full` keeps the shape and the leaf depth, keeps `is_leaf`, and adds at most one key to the node itself |
| `NodeModel.Insert` | BTree.py:33-44 | `insert` leaves a tree whose internal nodes have one more child than keys |
| `NodeModel.EmptyLeaf` | BTree.py:2-5 | the root `BTree(t)` starts with, `BTreeNode(is_leaf=True)` with empty lists: a well-shaped leaf holding no entry |
| `NodeModel.Grow` | BTree.py:38-39 | `BTreeNode(is_leaf=False)` with the old root appended: an internal node with no keys whose only child is the old root |
| `NodeModel.GrowEntries` | BTree.py:38-40 | the grown root holds exactly the entries of the old root |
| `NodeModel.LowerHalf` | BTree.py:79-84 | what the full child keeps: the same `is_leaf`, `t-1` keys and, when internal, `t` children |
| `NodeModel.UpperHalf` | BTree.py:71-83 | the new sibling: the full child's `is_leaf`, `t-1` keys, `t` children when internal and none at a leaf |
| `NodeModel.SplitChild` | BTree.py:67-84 | the parent keeps `is_leaf` and gains exactly one key and one child (the slices each part receives are stated in `SplitLemmas.SplitChildHalves`) |
| `NodeModel.SplitChildShape` | BTree.py:67-84 | splitting a full child keeps children count = keys count + 1 everywhere, and keeps every leaf at the same depth |
| `NodeModel.ChildShape` | BTree.py:31 | the child a descent enters is well shaped and one level lower |
| `NodeModel.ReplaceChildShape` | BTree.py:65 | replacing the child that received the entry by a node of the same height keeps the parent balanced |
| `SortedInsertion.InsertionSorted` | BTree.py:48-50 | inserting a new key into a strictly sorted leaf keeps it strictly sorted |
| `SortedInsertion.SortedUnique` | BTree.py:50 | two strictly sorted lists with the same elements are equal |
| `SortedInsertion.AppendThenSortIsInsertion` | BTree.py:49-50 | every sorted permutation of `keys + [e]` equals `Insertion(keys, e)`, so the model's positional insert is what `append` then `sort` produces |
| `SplitLemmas.SplitChildHalves` | BTree.py:67-84 | the parent gains the median `keys[t-1]` at `index` and the new node at `index+1`; the old child keeps `keys[0:t-1]` (and `children[0:t]`) and the new one gets `keys[t:2t-1]` (and `children[t:2t]`); both halves have `t-1` keys, `left ++ [median] ++ right` is the old key list, and the new node copies `is_leaf` |
| `SplitLemmas.HalvesSized` | BTree.py:78-84 | both halves of a full node respect the size bounds below them |
| `SplitLemmas.SplitChildSized` | BTree.py:67-84 | splitting the full child of a parent with room leaves every node with at most `2t-1` keys and every non-root node with at least `t-1` |
| `SplitLemmas.LowerHalfOrdered` | BTree.py:79 | the half kept in place lies below the median |
| `SplitLemmas.UpperHalfOrdered` | BTree.py:78 | the new sibling lies above the median |
| `SplitLemmas.InsertAtSorted` | BTree.py:74 | a key that lies between the separators around `index` can be inserted at `index` while keeping the parent's keys sorted |
| `SplitLemmas.SplitChildOrdered` | BTree.py:67-84 | splitting keeps the search-tree ordering |
| `SplitLemmas.HalvesEntries` | BTree.py:77-84 | the two halves and the median together hold exactly the entries of the full node |
| `SplitLemmas.SplitChildEntries` | BTree.py:67-84 | a split neither loses nor adds an entry |
| `InsertLemmas.InsertionElements` | BTree.py:49-50 | the leaf step adds exactly the new entry to the set of entries |
| `InsertLemmas.DescentStep` | BTree.py:52-65 | on an internal node, `_insert_non_full` splits the chosen child first when it is full, moves to `i+1` when the key is greater than the promoted median, and recurses into that child |
| `InsertLemmas.DescentHasRoom` | BTree.py:58-65 | starting from a node with room, the recursion only enters a child with fewer than `2t-1` keys |
| `InsertLemmas.InsertNonFullEntries` | BTree.py:46-65 | `_insert_non_full` adds exactly the new entry to what the subtree holds |
| `InsertLemmas.InsertNonFullSized` | BTree.py:46-65 | called on a node with room, `_insert_non_full` leaves no node with more than `2t-1` keys |
| `InsertLemmas.ChildIndexWithin` | BTree.py:53-56 | the child picked by the right-to-left scan lies between the separators that enclose the new key |
| `InsertLemmas.SplitDescentWithin` | BTree.py:61-62 | after a split, comparing with the promoted key picks the half whose bounds enclose the new key |
| `InsertLemmas.DescentWithin` | BTree.py:52-65 | the descent keeps the ordering and the entries, and enters the child whose bounds enclose the key |
| `InsertLemmas.InsertNonFullOrdered` | BTree.py:46-65 | inserting a new key keeps the search-tree ordering, and keeps leaf keys sorted |
| `InsertLemmas.BalancedHeight` | BTree.py:36-42 | in a balanced tree every leaf lies at the depth measured along the leftmost path |
| `InsertLemmas.InsertNonFullKeepsBTree` | BTree.py:44 | `_insert_non_full` on a root with room keeps every B-tree invariant and adds exactly the entry |
| `InsertLemmas.GrowShape` | BTree.py:38-41 | putting the full root under a new root and splitting it there keeps the shape, and makes every leaf one level deeper |
| `InsertLemmas.GrowAndSplit` | BTree.py:36-41 | after growing, the new root has one key and two children of `t-1` keys each; it is a B-tree one level taller, holding the same entries |
| `InsertLemmas.InsertKeepsBTree` | BTree.py:33-44 | `insert` of a new key keeps every B-tree invariant, and the tree then holds exactly the old entries plus the new one |
| `InsertLemmas.InsertHeight` | BTree.py:36-44 | `insert` grows the tree by exactly one level when the root was full (the new root then has one key and two children), and keeps the height otherwise |
| `SearchLemmas.OrderedWithin` | BTree.py:30-31 | every entry of a subtree lies between the bounds its ancestors impose |
| `SearchLemmas.KeyNotInChild` | BTree.py:23-24 | a key held by a node does not occur in any of its subtrees |
| `SearchLemmas.ChildrenApart` | BTree.py:30-31 | two different subtrees of a node share no key |
| `SearchLemmas.UniqueKeys` | BTree.py:23-24 | the ordering makes keys unique: a tree holds at most one entry per key |
| `SearchLemmas.DescentIsOnlyPlace` | BTree.py:30-31 | the child `_search` descends into is the only subtree that can hold the key |
| `SearchLemmas.SearchFinds` | BTree.py:16-31 | `_search` finds every key the tree holds |
| `SearchLemmas.SearchCorrect` | BTree.py:12-31 | on a B-tree, `search(k)` is `Some(v)` exactly when `(k, v)` is stored, and `None` exactly when `k` is not stored |
| `SearchLemmas.EmptyTree` | BTree.py:8-10 | the fresh tree, a single empty leaf, is a B-tree with no entries, and `search` returns `None` for every key |
| `SearchLemmas.SearchAfterInsert` | BTree.py:33-44 | after `insert(k, v)` of a new key, `search(k)` is `v` and every other key answers as before |
| `BTreeImpl.BTreeNode.constructor` | BTree.py:2-5 | `BTreeNode(is_leaf)` has no keys and no children |
| `BTreeImpl.BTree.constructor` | BTree.py:8-10 | `BTree(t)` with `t >= 2` has an empty leaf root, holds nothing, and `search` finds nothing |
| `BTreeImpl.BTree.Search` | BTree.py:12-14 | `search(k)` returns `Some(v)` exactly for a stored `(k, v)`, and `None` exactly for an absent key |
| `BTreeImpl.BTree.SearchNode` | BTree.py:16-31 | the `while` scan and the recursive descent of `_search` compute `NodeModel.Search`, and change nothing |
| `BTreeImpl.BTree.Insert` | BTree.py:33-44 | `insert` of a key not yet stored keeps the tree a B-tree, adds exactly the entry, and makes `search` return the new value for that key and the old answer for every other key |
| `BTreeImpl.BTree.InsertFromRoot` | BTree.py:35-44 | the two branches of `insert` compute `NodeModel.Insert` on the root's value |
| `BTreeImpl.BTree.InsertNonFullAtRoot` | BTree.py:42-44 | `_insert_non_full` on the root keeps the root object and the tree's ownership |
| `BTreeImpl.BTree.SplitRoot` | BTree.py:37-41 | when the root is full, the new root is the old one grown and split, one level taller |
| `BTreeImpl.BTree.GrowRoot` | BTree.py:38-40 | a fresh internal node with the old root as its only child becomes the root |
| `BTreeImpl.BTree.InsertNonFull` | BTree.py:46-65 | `_insert_non_full` on the objects computes `NodeModel.InsertNonFull` and only allocates new nodes |
| `BTreeImpl.BTree.InsertBelow` | BTree.py:51-65 | the internal-node branch: scan, split if full, descend |
| `BTreeImpl.BTree.SplitAndDescend` | BTree.py:58-65 | once the scan has picked child `i`, the node becomes the value with that child split when full, and the entry goes into the child the comparison with the promoted key picks |
| `BTreeImpl.BTree.SplitIfFull` | BTree.py:58-62 | a full chosen child is split, and the index moves right when the key is greater than the promoted one |
| `BTreeImpl.BTree.InsertIntoLeaf` | BTree.py:48-50 | the leaf's keys become `Insertion(keys, e)` |
| `BTreeImpl.BTree.Descend` | BTree.py:64-65 | the recursive call replaces child `i`'s value by the inserted one and leaves the other children alone |
| `BTreeImpl.BTree.SplitChild` | BTree.py:67-84 | `_split_child` on the objects computes `NodeModel.SplitChild` on the parent's value |
| `BTreeImpl.BTree.Attach` | BTree.py:74-75 | `parent.keys.insert(index, median)` and `parent.children.insert(index + 1, new_child)` |
| `BTreeImpl.BTree.Divide` | BTree.py:77-84 | after the halves are assigned, the parent is a valid tree of objects again |
| `BTreeImpl.BTree.Halve` | BTree.py:77-84 | the full child keeps the lower half, the new node gets the upper half, and the two own disjoint objects |
| `BTreeImpl.BTree.MoveUpper` | BTree.py:78-83 | the new node gets `keys[t:2t-1]` and, when internal, `children[t:2t]` |
| `BTreeImpl.BTree.KeepLower` | BTree.py:79-84 | the full child keeps `keys[0:t-1]` and, when internal, `children[0:t]` |
| `BTreeImpl.ScanFromRight` | BTree.py:53-56 | the right-to-left `while` scan, followed by `i += 1`, returns `ChildIndex` |
| `Example.Driver` | BTree.py:86-94 | `BTree(t=3)`, three inserts, then `search("file2.txt")` returns `"/path/to/file2.txt"` |
| `Example.GrowthScenario` | BTree.py:36-42 | with `t = 2`, inserting "a", "b", "c" fills the root leaf in order; inserting "d" gives a root holding "b" over the leaves ["a"] and ["c", "d"] |

## Left out

- Printing in the example driver (BTree.py:94) is left out; `Example.Driver` returns the location it would print.
- The minimum degree is not checked by the code (BTree.py:8-10). `t >= 2` is a precondition of the `BTree` constructor.
- The default arguments `is_leaf=True` and `t=3` are not modelled; callers pass both.
- A second `insert` of a key already in the tree would store a duplicate (BTree.py:48-50). `BTreeImpl.BTree.Insert` requires the key to be absent, because the code has no reject or overwrite policy to model.
- The leaf's `append` followed by `list.sort` (Timsort) is modelled as inserting at the sorted position. `SortedInsertion.AppendThenSortIsInsertion` shows that every sort of that list gives this result.
- Python `list` objects are modelled as Dafny sequences that each method reassigns. No list is shared between nodes, so in-place list mutation and reassignment cannot be told apart.
- A Python `str` can hold lone surrogate code points (file names decoded with `surrogateescape` do); Dafny's `char` holds only Unicode scalar values, so such keys cannot be represented. Code-point order is still a strict total order on the keys that can be, so no proved property depends on this.
- Garbage collection of unreachable nodes and the cost of list slicing are not modelled.
- Deletion, traversal, range scans and persistence are not in the code and are not modelled.
