/**
 * The classes of BTree.py on the heap.  A `BTreeNode` owns the nodes below it
 * (its `Repr`); its ghost `Model` is the `NodeModel.Node` value it stands for.
 * The methods of `BTree` run the steps of `_search`, `_split_child`,
 * `_insert_non_full` and `insert`, changing the node objects in place, and are
 * proved to leave behind exactly the value the matching `NodeModel` function
 * computes, so every fact proved about those functions holds of the objects.
 */
module BTreeImpl {
  import opened Lexicographic
  import opened NodeModel
  import SplitLemmas
  import InsertLemmas
  import SearchLemmas

  class BTreeNode {
    var isLeaf: bool
    var keys: seq<Entry>
    var children: seq<BTreeNode>

    ghost var Model: Node
    ghost var Repr: set<object>

    /** This node and the nodes below it form a tree of distinct objects that
        stands for `Model`. */
    ghost predicate Valid()
      reads this, Repr
      decreases Repr
    {
      && this in Repr
      && Model.isLeaf == isLeaf && Model.keys == keys && |Model.children| == |children|
      && (forall i :: 0 <= i < |children| ==>
            && children[i] in Repr && children[i].Repr <= Repr && this !in children[i].Repr
            && children[i].Valid() && children[i].Model == Model.children[i])
      && (forall i, j :: 0 <= i < j < |children| ==> children[i].Repr !! children[j].Repr)
    }

    /** `BTreeNode(is_leaf)`: no keys and no children. */
    constructor (isLeaf: bool)
      ensures Valid() && fresh(Repr) && Repr == {this}
      ensures Model == Node(isLeaf, [], [])
      ensures this.isLeaf == isLeaf && keys == [] && children == []
    {
      this.isLeaf := isLeaf;
      keys := [];
      children := [];
      Model := Node(isLeaf, [], []);
      Repr := {this};
    }
  }

  class BTree {
    /** The minimum degree: every node but the root holds between `t-1` and `2t-1` keys. */
    const t: nat
    var root: BTreeNode
    ghost var Repr: set<object>

    ghost predicate Valid()
      reads this, Repr
    {
      && this in Repr && root in Repr && root.Repr <= Repr && this !in root.Repr
      && root.Valid() && IsBTree(root.Model, t)
    }

    /** `BTree(t)`: a single empty leaf as the root. */
    constructor (t: nat)
      requires t >= 2
      ensures Valid() && fresh(Repr) && this.t == t
      ensures root.Model == EmptyLeaf() && Entries(root.Model) == {}
      ensures forall k :: NodeModel.Search(root.Model, k) == None
    {
      this.t := t;
      root := new BTreeNode(true);
      new;
      Repr := {this} + root.Repr;
    }

    /** `search(file_name)`: the location stored for `k`, if any. */
    method Search(k: string) returns (r: Option<string>)
      requires Valid()
      ensures r == NodeModel.Search(root.Model, k)
      ensures forall v :: r == Some(v) <==> Entry(k, v) in Entries(root.Model)
      ensures r == None <==> k !in KeySet(root.Model)
    {
      r := SearchNode(root, k);
      forall v
        ensures r == Some(v) <==> Entry(k, v) in Entries(root.Model)
      {
        SearchLemmas.SearchCorrect(root.Model, t, k, v);
      }
      SearchLemmas.SearchCorrect(root.Model, t, k, "");
    }

    /** `_search(node, file_name)`: scan for the first key not less than `k`,
        answer on an exact match, give up at a leaf, descend otherwise. */
    method SearchNode(node: BTreeNode, k: string) returns (r: Option<string>)
      requires node.Valid() && Shaped(node.Model)
      ensures r == NodeModel.Search(node.Model, k)
      decreases node.Repr
    {
      var i := 0;
      while i < |node.keys| && Less(node.keys[i].key, k)
        invariant 0 <= i <= |node.keys|
        invariant forall j :: 0 <= j < i ==> Less(node.keys[j].key, k)
      {
        i := i + 1;
      }
      assert i == FirstNotLess(node.keys, k);
      if i < |node.keys| && node.keys[i].key == k {
        return Some(node.keys[i].value);
      }
      if node.isLeaf {
        return None;
      }
      r := SearchNode(node.children[i], k);
    }

    /** `insert(file_name, location)` of a key the tree does not hold yet: a
        full root first gets a new, empty root above it and is split; then
        the entry goes in from the root down.  The tree stays a B-tree, gains
        exactly the new entry, and `search` finds it while answering every
        other key as before. */
    method Insert(k: string, v: string)
      requires Valid() && k !in KeySet(root.Model)
      modifies Repr
      ensures Valid() && fresh(Repr - old(Repr))
      ensures root.Model == NodeModel.Insert(old(root.Model), Entry(k, v), t)
      ensures Entries(root.Model) == old(Entries(root.Model)) + {Entry(k, v)}
      ensures forall k' :: NodeModel.Search(root.Model, k')
                        == if k' == k then Some(v) else NodeModel.Search(old(root.Model), k')
    {
      ghost var m := root.Model;
      InsertLemmas.InsertKeepsBTree(m, Entry(k, v), t);
      forall k'
        ensures NodeModel.Search(NodeModel.Insert(m, Entry(k, v), t), k')
             == if k' == k then Some(v) else NodeModel.Search(m, k')
      {
        SearchLemmas.SearchAfterInsert(m, Entry(k, v), t, k');
      }
      InsertFromRoot(k, v);
    }

    /** The steps of `insert`: grow the tree when the root is full, then
        `_insert_non_full` from the root. */
    method InsertFromRoot(k: string, v: string)
      requires t >= 1 && this in Repr && root in Repr && root.Repr <= Repr && this !in root.Repr
      requires root.Valid() && Shaped(root.Model) && Balanced(root.Model, Height(root.Model))
      modifies Repr
      ensures this in Repr && root in Repr && root.Repr <= Repr && this !in root.Repr && root.Valid()
      ensures root.Model == NodeModel.Insert(old(root.Model), Entry(k, v), t)
      ensures old(Repr) <= Repr && fresh(Repr - old(Repr))
    {
      ghost var m := root.Model;
      ghost var h := Height(m);
      InsertUnfolds(m, Entry(k, v), t);
      if |root.keys| == 2 * t - 1 {
        var _ := SplitRoot();
        h := h + 1;
      }
      ghost var grown := Repr;
      label Grown:
      InsertNonFullAtRoot(root, k, v, h);
      assert forall o :: o in Repr - grown ==> !old@Grown(allocated(o));
    }

    /** `_insert_non_full` called on the root, after which the tree owns
        whatever the call allocated. */
    method InsertNonFullAtRoot(node: BTreeNode, k: string, v: string, ghost h: nat)
      requires t >= 1 && node == root && this in Repr && root.Repr <= Repr && this !in root.Repr
      requires root.Valid() && Shaped(root.Model) && Balanced(root.Model, h)
      modifies Repr
      ensures root == old(root) && this in Repr && root.Repr <= Repr && this !in root.Repr && root.Valid()
      ensures root.Model == NodeModel.InsertNonFull(old(root.Model), Entry(k, v), t, h)
      ensures old(Repr) <= Repr && fresh(Repr - old(Repr))
    {
      InsertNonFull(node, k, v, h);
      label Inserted:
      Repr := Repr + node.Repr;
      NodeKept@Inserted(node);
    }

    /** Growing the tree: a new root above the full one, which is then split. */
    method SplitRoot() returns (newNode: BTreeNode)
      requires t >= 1 && this in Repr && root in Repr && root.Repr <= Repr && this !in root.Repr
      requires root.Valid() && Shaped(root.Model) && Balanced(root.Model, Height(root.Model))
      requires |root.Model.keys| == 2 * t - 1
      modifies this, root.Repr
      ensures newNode == root && this !in newNode.Repr && newNode.Valid()
      ensures newNode.Model == NodeModel.SplitChild(Grow(old(root.Model)), 0, t)
      ensures Shaped(newNode.Model) && Balanced(newNode.Model, Height(old(root.Model)) + 1)
      ensures Repr == old(Repr) + newNode.Repr && fresh(newNode.Repr - old(Repr))
    {
      ghost var m := root.Model;
      newNode := GrowRoot();
      ghost var grown := newNode.Repr;
      label Grown:
      InsertLemmas.GrowShape(m, t);
      SplitChild(newNode, 0);
      assert forall o :: o in newNode.Repr - grown ==> !old@Grown(allocated(o));
      label Split:
      Repr := Repr + newNode.Repr;
      NodeKept@Split(newNode);
    }

    /** The first half of growing the tree: `BTreeNode(is_leaf=False)` with
        the old root appended as its only child becomes the root. */
    method GrowRoot() returns (newNode: BTreeNode)
      requires this in Repr && root in Repr && root.Repr <= Repr && this !in root.Repr && root.Valid()
      modifies this
      ensures newNode == root && fresh(newNode) && newNode.Model == Grow(old(root.Model))
      ensures newNode.Valid() && newNode.Repr == {newNode} + old(root.Repr)
      ensures this !in newNode.Repr && Repr == old(Repr) + {newNode}
    {
      newNode := new BTreeNode(false);
      newNode.children := newNode.children + [root];
      newNode.Model := Grow(root.Model);
      newNode.Repr := newNode.Repr + root.Repr;
      ParentValid(newNode);
      root := newNode;
      Repr := Repr + {newNode};
    }

    /** `_insert_non_full(node, file_name, location)`: at a leaf the entry is
        appended and the keys re-sorted; above, the right-to-left scan picks
        the child, a full child is split first, and the entry goes down. */
    method InsertNonFull(node: BTreeNode, k: string, v: string, ghost h: nat)
      requires t >= 1 && node.Valid() && Shaped(node.Model) && Balanced(node.Model, h)
      modifies node.Repr
      ensures node.Valid()
      ensures node.Model == NodeModel.InsertNonFull(old(node.Model), Entry(k, v), t, h)
      ensures old(node.Repr) <= node.Repr && fresh(node.Repr - old(node.Repr))
      decreases h, 3
    {
      if node.isLeaf {
        InsertIntoLeaf(node, Entry(k, v));
      } else {
        InsertBelow(node, k, v, h);
      }
    }

    /** `_insert_non_full` at an internal node: the scan picks the child, a
        full child is split first, and the entry goes down into the chosen one. */
    method InsertBelow(node: BTreeNode, k: string, v: string, ghost h: nat)
      requires t >= 1 && node.Valid() && Shaped(node.Model) && Balanced(node.Model, h) && !node.isLeaf
      modifies node.Repr
      ensures node.Valid()
      ensures node.Model == NodeModel.InsertNonFull(old(node.Model), Entry(k, v), t, h)
      ensures old(node.Repr) <= node.Repr && fresh(node.Repr - old(node.Repr))
      decreases h, 2
    {
      var i := ScanFromRight(node.keys, k);
      ghost var p, j := InsertLemmas.DescentStep(node.Model, Entry(k, v), t, h);
      SplitAndDescend(node, i, k, v, h, p, j);
    }

    /** The rest of `_insert_non_full` once the scan has picked child `i`: the
        node becomes `p` (child `i` split when it was full) and the entry goes
        down into child `j`, the values `InsertLemmas.DescentStep` gives. */
    method SplitAndDescend(node: BTreeNode, i: nat, k: string, v: string, ghost h: nat, ghost p: Node, ghost j: nat)
      requires t >= 1 && node.Valid() && Shaped(node.Model) && !node.isLeaf
      requires i == ChildIndex(node.keys, k) && i < |node.Model.children| && Shaped(node.Model.children[i])
      requires if |node.Model.children[i].keys| == 2 * t - 1 then
        && p == NodeModel.SplitChild(node.Model, i, t)
        && j == (if Less(p.keys[i].key, k) then i + 1 else i)
        else p == node.Model && j == i
      requires Shaped(p) && Balanced(p, h) && !p.isLeaf && j < |p.children|
      modifies node.Repr
      ensures h >= 1 && Shaped(p.children[j]) && Balanced(p.children[j], h - 1)
      ensures node.Valid()
      ensures node.Model == Node(p.isLeaf, p.keys, p.children[j := NodeModel.InsertNonFull(p.children[j], Entry(k, v), t, h - 1)])
      ensures old(node.Repr) <= node.Repr && fresh(node.Repr - old(node.Repr))
      decreases h, 1
    {
      var c := SplitIfFull(node, i, k, p, j);
      ghost var split := node.Repr;
      label Mid:
      Descend(node, c, k, v, h);
      assert forall o :: o in node.Repr - split ==> !old@Mid(allocated(o));
    }

    /** The middle of `_insert_non_full`: a full child `i` is split, and the
        entry then goes right of the median when its key is greater.  The node
        ends up as `p` and the chosen child is `j`, the values
        `InsertLemmas.DescentStep` gives. */
    method SplitIfFull(node: BTreeNode, i: nat, k: string, ghost p: Node, ghost j: nat) returns (c: nat)
      requires t >= 1 && node.Valid() && Shaped(node.Model) && !node.isLeaf
      requires i == ChildIndex(node.keys, k) && i < |node.Model.children| && Shaped(node.Model.children[i])
      requires if |node.Model.children[i].keys| == 2 * t - 1 then
        && p == NodeModel.SplitChild(node.Model, i, t)
        && j == (if Less(p.keys[i].key, k) then i + 1 else i)
        else p == node.Model && j == i
      modifies node.Repr
      ensures node.Valid() && node.Model == p && c == j
      ensures old(node.Repr) <= node.Repr && fresh(node.Repr - old(node.Repr))
    {
      c := i;
      if |node.children[i].keys| == 2 * t - 1 {
        SplitChild(node, i);
        if Less(node.keys[i].key, k) {
          c := i + 1;
        }
      }
    }

    /** The leaf step of `_insert_non_full`: `keys.append(e)` followed by
        `keys.sort(key=lambda x: x[0])`, whose result on a key list already
        sorted is `Insertion` (see `SortedInsertion.AppendThenSortIsInsertion`). */
    method InsertIntoLeaf(node: BTreeNode, e: Entry)
      requires node.Valid() && Shaped(node.Model) && node.isLeaf
      modifies node
      ensures node.Valid() && node.Repr == old(node.Repr)
      ensures node.Model == Node(true, Insertion(old(node.keys), e), [])
    {
      node.keys := Insertion(node.keys, e);
      node.Model := Node(true, node.keys, []);
    }

    /** The recursive call of `_insert_non_full` into child `i`, after which
        the node stands for its old value with that child replaced. */
    method Descend(node: BTreeNode, i: nat, k: string, v: string, ghost h: nat)
      requires t >= 1 && node.Valid() && Shaped(node.Model) && Balanced(node.Model, h)
      requires !node.isLeaf && i < |node.children|
      modifies node.Repr
      ensures h >= 1 && i < |old(node.Model).children|
      ensures Shaped(old(node.Model).children[i]) && Balanced(old(node.Model).children[i], h - 1)
      ensures node.Valid()
      ensures node.Model == Node(old(node.Model).isLeaf, old(node.Model).keys,
        old(node.Model).children[i := NodeModel.InsertNonFull(old(node.Model).children[i], Entry(k, v), t, h - 1)])
      ensures old(node.Repr) <= node.Repr && fresh(node.Repr - old(node.Repr))
      decreases h, 0
    {
      var child := node.children[i];
      ghost var nm, siblings := node.Model, node.children;
      ghost var R := DescendSetup(node, i, h);
      InsertNonFull(child, k, v, h - 1);
      node.Model := Node(nm.isLeaf, nm.keys, nm.children[i := child.Model]);
      node.Repr := node.Repr + child.Repr;
      ChildReplacedValid(node, i, siblings, nm, child, R);
    }

    /** `_split_child(parent, index)` on a child holding `2t-1` keys: the median
        goes up into `parent` at `index`, a new sibling at `index + 1` takes the
        upper keys (and children), the child keeps the lower ones. */
    method SplitChild(parent: BTreeNode, index: nat)
      requires t >= 1 && parent.Valid() && Shaped(parent.Model)
      requires index < |parent.Model.children| && |parent.Model.children[index].keys| == 2 * t - 1
      modifies parent.Repr
      ensures index <= |old(parent.Model).keys|
      ensures !old(parent.Model).children[index].isLeaf ==> |old(parent.Model).children[index].children| == 2 * t
      ensures parent.Valid()
      ensures parent.Model == NodeModel.SplitChild(old(parent.Model), index, t)
      ensures old(parent.Repr) <= parent.Repr && fresh(parent.Repr - old(parent.Repr))
    {
      var full := parent.children[index];
      ghost var pm, siblings := parent.Model, parent.children;
      ghost var R := SplitSetup(parent, index, t);
      var newChild := new BTreeNode(full.isLeaf);
      Attach(parent, index, full.keys[t - 1], newChild, NodeModel.SplitChild(pm, index, t));
      NodeKept(full);
      Divide(parent, index, full, newChild, pm, siblings, R);
    }

    /** The rest of `_split_child`, once the parent holds the median and the
        new sibling: the sibling takes the upper half of the full child, which
        keeps the lower half, and the parent is whole again. */
    method Divide(parent: BTreeNode, index: nat, full: BTreeNode, newChild: BTreeNode,
                  ghost pm: Node, ghost siblings: seq<BTreeNode>, ghost R: set<object>)
      requires t >= 1 && Shaped(pm) && index < |siblings| == |pm.children| && siblings[index] == full
      requires |pm.children[index].keys| == 2 * t - 1
      requires full.Valid() && full.Model == pm.children[index] && Shaped(full.Model) && full in full.Repr
      requires !full.isLeaf ==> |full.children| == 2 * t
      requires parent.children == InsertAt(siblings, index + 1, newChild)
      requires parent in parent.Repr && parent.isLeaf == pm.isLeaf
      requires parent.Model == NodeModel.SplitChild(pm, index, t)
      requires parent.keys == InsertAt(pm.keys, index, pm.children[index].keys[t - 1])
      requires forall j :: 0 <= j < |siblings| && j != index ==>
        siblings[j].Valid() && siblings[j].Model == pm.children[j] && siblings[j].Repr <= R
      requires forall i, j :: 0 <= i < j < |siblings| && i != index && j != index ==> siblings[i].Repr !! siblings[j].Repr
      requires R + full.Repr + {newChild} <= parent.Repr && parent !in R + full.Repr + {newChild}
      requires R !! full.Repr && newChild !in R + full.Repr
      requires newChild.Repr == {newChild} && newChild.isLeaf == full.isLeaf && newChild.children == []
      modifies full, newChild
      ensures parent.Valid()
    {
      Halve(full, newChild);
      SplitParentValid(parent, index, siblings, pm, full, newChild, R, t);
    }

    /** The two list insertions on the parent; the parent now stands for
        `model` and owns the new sibling too. */
    method Attach(parent: BTreeNode, index: nat, median: Entry, newChild: BTreeNode, ghost model: Node)
      requires index <= |parent.keys| && index < |parent.children|
      modifies parent
      ensures parent.keys == InsertAt(old(parent.keys), index, median)
      ensures parent.children == InsertAt(old(parent.children), index + 1, newChild)
      ensures parent.isLeaf == old(parent.isLeaf) && parent.Model == model
      ensures parent.Repr == old(parent.Repr) + {newChild}
    {
      parent.keys := InsertAt(parent.keys, index, median);
      parent.children := InsertAt(parent.children, index + 1, newChild);
      parent.Model := model;
      parent.Repr := parent.Repr + {newChild};
    }

    /** `_split_child` on the full child alone: the new sibling takes the upper
        half, the full child keeps the lower half, and they own disjoint parts
        of what the full child owned. */
    method Halve(full: BTreeNode, newChild: BTreeNode)
      requires t >= 1 && full.Valid() && Shaped(full.Model) && |full.keys| == 2 * t - 1
      requires newChild.Repr == {newChild} && newChild !in full.Repr
      requires newChild.isLeaf == full.isLeaf && newChild.children == []
      modifies full, newChild
      ensures full.Valid() && full.Model == LowerHalf(old(full.Model), t)
      ensures newChild.Valid() && newChild.Model == UpperHalf(old(full.Model), t)
      ensures full.Repr <= old(full.Repr) && newChild.Repr <= old(full.Repr) - {full} + {newChild}
      ensures full.Repr !! newChild.Repr
    {
      ghost var lowR, upR := SplitRepr(full, t);
      MoveUpper(full, newChild, upR);
      label Moved:
      KeepLower(full, lowR);
      NodeKept@Moved(newChild);
    }

    /** The new sibling takes `keys[t:2t-1]` and, when internal, `children[t:2t]`. */
    method MoveUpper(full: BTreeNode, newChild: BTreeNode, ghost upR: set<object>)
      requires t >= 1 && full.Valid() && Shaped(full.Model) && |full.keys| == 2 * t - 1
      requires newChild.Repr == {newChild} && newChild !in full.Repr
      requires newChild.isLeaf == full.isLeaf && newChild.children == []
      requires !full.isLeaf ==> |full.children| == 2 * t
      requires upR <= full.Repr - {full}
      requires !full.isLeaf ==> forall i :: t <= i < 2 * t ==> full.children[i] in upR && full.children[i].Repr <= upR
      modifies newChild
      ensures newChild.Valid() && newChild.Model == UpperHalf(full.Model, t)
      ensures newChild.Repr == {newChild} + upR
    {
      newChild.keys := full.keys[t..2 * t - 1];
      if !full.isLeaf {
        newChild.children := full.children[t..2 * t];
      }
      newChild.Model := UpperHalf(full.Model, t);
      newChild.Repr := {newChild} + upR;
      assert forall i :: 0 <= i < |newChild.children| ==> newChild.children[i] == full.children[t + i];
    }

    /** The full child keeps `keys[0:t-1]` and, when internal, `children[0:t]`. */
    method KeepLower(full: BTreeNode, ghost lowR: set<object>)
      requires t >= 1 && full.Valid() && Shaped(full.Model) && |full.keys| == 2 * t - 1
      requires !full.isLeaf ==> |full.children| == 2 * t
      requires lowR <= full.Repr - {full}
      requires !full.isLeaf ==> forall i :: 0 <= i < t ==> full.children[i] in lowR && full.children[i].Repr <= lowR
      modifies full
      ensures full.Valid() && full.Model == LowerHalf(old(full.Model), t)
      ensures full.Repr == {full} + lowR
    {
      ghost var fm := full.Model;
      full.keys := full.keys[..t - 1];
      if !full.isLeaf {
        full.children := full.children[..t];
      }
      full.Model := LowerHalf(fm, t);
      full.Repr := {full} + lowR;
    }
  }

  /** The scan of `_insert_non_full`: step left from the last key while `k`
      is smaller, then one to the right. */
  method ScanFromRight(keys: seq<Entry>, k: string) returns (i: nat)
    ensures i == ChildIndex(keys, k)
  {
    var j := |keys| - 1;
    while j >= 0 && Less(k, keys[j].key)
      invariant -1 <= j < |keys|
      invariant forall m :: j < m < |keys| ==> Less(k, keys[m].key)
    {
      j := j - 1;
    }
    i := j + 1;
  }

  /** The two cases of `insert`, as the pure model takes them. */
  lemma InsertUnfolds(m: Node, e: Entry, t: nat)
    requires t >= 1 && Shaped(m) && Balanced(m, Height(m))
    ensures |m.keys| == 2 * t - 1 ==>
      && Shaped(SplitChild(Grow(m), 0, t)) && Balanced(SplitChild(Grow(m), 0, t), Height(m) + 1)
      && NodeModel.Insert(m, e, t) == InsertNonFull(SplitChild(Grow(m), 0, t), e, t, Height(m) + 1)
    ensures |m.keys| != 2 * t - 1 ==> NodeModel.Insert(m, e, t) == InsertNonFull(m, e, t, Height(m))
  {
    if |m.keys| == 2 * t - 1 {
      InsertLemmas.GrowShape(m, t);
    }
  }

  /** Before descending into child `i`: the objects the node owns besides
      itself and that child, which hold every other child. */
  lemma DescendSetup(node: BTreeNode, i: nat, h: nat) returns (R: set<object>)
    requires node.Valid() && Shaped(node.Model) && Balanced(node.Model, h)
    requires !node.isLeaf && i < |node.children|
    ensures h >= 1
    ensures node.children[i].Valid() && node.children[i].Model == node.Model.children[i]
    ensures Shaped(node.children[i].Model) && Balanced(node.children[i].Model, h - 1)
    ensures node.children[i] in node.children[i].Repr && node.children[i].Repr <= node.Repr
    ensures node !in node.children[i].Repr
    ensures R == node.Repr - {node} - node.children[i].Repr
    ensures forall j :: 0 <= j < |node.children| && j != i ==>
      node.children[j].Valid() && node.children[j].Model == node.Model.children[j]
      && node.children[j].Repr <= R
  {
    var child := node.children[i];
    assert Shaped(child.Model) && Balanced(child.Model, h - 1);
    R := node.Repr - {node} - child.Repr;
    forall j | 0 <= j < |node.children| && j != i
      ensures node.children[j].Repr <= R
    {
      assert node.children[j].Repr !! child.Repr by {
        if j < i {} else {}
      }
    }
  }

  /** After the recursive call: the other children are as they were, the
      child at `i` is valid again, and the node stands for its old value with
      that child replaced. */
  lemma ChildReplacedValid(node: BTreeNode, i: nat, siblings: seq<BTreeNode>, nm: Node,
                           child: BTreeNode, R: set<object>)
    requires i < |siblings| == |nm.children| && siblings[i] == child
    requires node.children == siblings && node.isLeaf == nm.isLeaf && node.keys == nm.keys
    requires node in node.Repr && node.Model == Node(nm.isLeaf, nm.keys, nm.children[i := child.Model])
    requires forall j :: 0 <= j < |siblings| && j != i ==>
      siblings[j].Valid() && siblings[j].Model == nm.children[j] && siblings[j].Repr <= R
    requires forall a, b :: 0 <= a < b < |siblings| && a != i && b != i ==> siblings[a].Repr !! siblings[b].Repr
    requires R + child.Repr <= node.Repr && node !in R + child.Repr && R !! child.Repr
    requires child.Valid()
    ensures node.Valid()
  {
    ParentValid(node);
  }

  /** A node none of whose objects changed is still valid and stands for the same value. */
  twostate lemma NodeKept(n: BTreeNode)
    requires old(n.Valid()) && unchanged(old(n.Repr))
    ensures n.Valid() && n.Repr == old(n.Repr) && n.Model == old(n.Model)
  {
  }

  /** The parent after `_split_child`: the siblings it had, the shrunk child
      and the new sibling are valid, own disjoint objects and stand for the
      children of the split model. */
  lemma SplitParentValid(parent: BTreeNode, index: nat, siblings: seq<BTreeNode>, pm: Node,
                         full: BTreeNode, newChild: BTreeNode, R: set<object>, t: nat)
    requires t >= 1 && Shaped(pm) && index < |siblings| == |pm.children| && siblings[index] == full
    requires |pm.children[index].keys| == 2 * t - 1
    requires !pm.children[index].isLeaf ==> |pm.children[index].children| == 2 * t
    requires parent.children == InsertAt(siblings, index + 1, newChild)
    requires parent in parent.Repr && parent.isLeaf == pm.isLeaf
    requires parent.Model == NodeModel.SplitChild(pm, index, t)
    requires parent.keys == InsertAt(pm.keys, index, pm.children[index].keys[t - 1])
    requires forall j :: 0 <= j < |siblings| && j != index ==>
      siblings[j].Valid() && siblings[j].Model == pm.children[j] && siblings[j].Repr <= R
    requires forall i, j :: 0 <= i < j < |siblings| && i != index && j != index ==> siblings[i].Repr !! siblings[j].Repr
    requires R + full.Repr + newChild.Repr <= parent.Repr && parent !in R + full.Repr + newChild.Repr
    requires R !! full.Repr && R !! newChild.Repr && full.Repr !! newChild.Repr
    requires full.Valid() && full.Model == LowerHalf(pm.children[index], t)
    requires newChild.Valid() && newChild.Model == UpperHalf(pm.children[index], t)
    ensures parent.Valid()
  {
    SplitLemmas.SplitChildHalves(pm, index, t);
    forall i | 0 <= i < |parent.children|
      ensures parent.children[i] in parent.Repr && parent.children[i].Repr <= parent.Repr
      ensures parent !in parent.children[i].Repr
      ensures parent.children[i].Valid() && parent.children[i].Model == parent.Model.children[i]
    {
      if i < index {
        assert parent.children[i] == siblings[i];
      } else if index + 1 < i {
        assert parent.children[i] == siblings[i - 1];
      }
    }
    forall i, j | 0 <= i < j < |parent.children|
      ensures parent.children[i].Repr !! parent.children[j].Repr
    {
      if j < index {
        assert parent.children[i] == siblings[i] && parent.children[j] == siblings[j];
      } else if index + 1 < i {
        assert parent.children[i] == siblings[i - 1] && parent.children[j] == siblings[j - 1];
      } else if i < index && index + 1 < j {
        assert parent.children[i] == siblings[i] && parent.children[j] == siblings[j - 1];
      }
    }
    ParentValid(parent);
  }

  /** A parent whose children are valid, inside its `Repr`, apart from it and
      from each other, and stand for its model's children, is valid. */
  lemma ParentValid(parent: BTreeNode)
    requires parent in parent.Repr
    requires parent.Model.isLeaf == parent.isLeaf && parent.Model.keys == parent.keys
    requires |parent.Model.children| == |parent.children|
    requires forall i :: 0 <= i < |parent.children| ==>
      && parent.children[i] in parent.Repr && parent.children[i].Repr <= parent.Repr
      && parent !in parent.children[i].Repr
      && parent.children[i].Valid() && parent.children[i].Model == parent.Model.children[i]
    requires forall i, j :: 0 <= i < j < |parent.children| ==> parent.children[i].Repr !! parent.children[j].Repr
    ensures parent.Valid()
  {
  }

  /** Before a split: the objects the parent owns besides itself and the full
      child, which hold every other child. */
  lemma SplitSetup(parent: BTreeNode, index: nat, t: nat) returns (R: set<object>)
    requires t >= 1 && parent.Valid() && Shaped(parent.Model)
    requires index < |parent.Model.children| && |parent.Model.children[index].keys| == 2 * t - 1
    ensures index <= |parent.keys| && index < |parent.children|
    ensures var full := parent.children[index];
      && full.Valid() && Shaped(full.Model) && |full.keys| == 2 * t - 1
      && full.Model == parent.Model.children[index] && full in full.Repr
      && full.Repr <= parent.Repr && parent !in full.Repr
      && R == parent.Repr - {parent} - full.Repr
      && (!full.isLeaf ==> |full.children| == 2 * t)
    ensures forall j :: 0 <= j < |parent.children| && j != index ==>
      parent.children[j].Valid() && parent.children[j].Model == parent.Model.children[j]
      && parent.children[j].Repr <= R
  {
    var full := parent.children[index];
    assert Shaped(full.Model);
    R := parent.Repr - {parent} - full.Repr;
    forall j | 0 <= j < |parent.children| && j != index
      ensures parent.children[j].Repr <= R
    {
      assert parent.children[j].Repr !! full.Repr by {
        if j < index {} else {}
      }
    }
  }

  /** The objects below children `a` to `b - 1` of a valid node: owned by
      the node, covering each of those children and apart from every other child. */
  lemma ChildrenRepr(n: BTreeNode, a: nat, b: nat) returns (S: set<object>)
    requires n.Valid() && a <= b <= |n.children|
    ensures S <= n.Repr - {n}
    ensures forall i :: a <= i < b ==> n.children[i] in S && n.children[i].Repr <= S
    ensures forall j :: 0 <= j < |n.children| && !(a <= j < b) ==> S !! n.children[j].Repr
  {
    var cs := n.children;
    S := set i, o | a <= i < b && o in cs[i].Repr :: o;
    forall i | 0 <= i < |cs|
      ensures cs[i] in cs[i].Repr && cs[i].Repr <= n.Repr - {n}
    {
    }
    forall j, o | 0 <= j < |cs| && !(a <= j < b) && o in S
      ensures o !in cs[j].Repr
    {
      var i :| a <= i < b && o in cs[i].Repr;
      assert cs[i].Repr !! cs[j].Repr by {
        if i < j {} else {}
      }
    }
  }

  /** The objects below the lower and the upper half of a full node: disjoint,
      owned by the node, and each covering its own children. */
  lemma SplitRepr(full: BTreeNode, t: nat) returns (lowR: set<object>, upR: set<object>)
    requires t >= 1 && full.Valid() && Shaped(full.Model) && |full.keys| == 2 * t - 1
    ensures !full.isLeaf ==> |full.children| == 2 * t
    ensures lowR !! upR && lowR + upR <= full.Repr - {full}
    ensures !full.isLeaf ==> forall i :: 0 <= i < t ==> full.children[i] in lowR && full.children[i].Repr <= lowR
    ensures !full.isLeaf ==> forall i :: t <= i < 2 * t ==> full.children[i] in upR && full.children[i].Repr <= upR
  {
    assert Shaped(full.Model);
    if full.isLeaf {
      lowR, upR := {}, {};
    } else {
      lowR := ChildrenRepr(full, 0, t);
      upR := full.Repr - {full} - lowR;
    }
  }
}
