/** Cursors: `cursor.go`. */
module Cursors {
  import opened Bytes
  import opened TreeModel
  import opened TreeView
  import opened TreeOps
  import opened TreePacked
  import opened Pages
  import opened BTreeFacts
  import opened LeafList
  import opened ReadFacts
  import opened BTree

  /** Where `Seek(key)` finds itself: the cells from the slot of `key` in the
      leaf that the search ends in, and what a walk from there sees. */
  ghost function SeekView(t: Shape, key: Bytes): seq<Cell>
    requires ShapedTree(t) && AllLeaves(AllOf(t))
  {
    if t.Empty? then [] else
    var ls, j := AllOf(t), LeafIndex(t.node, t.height, key);
    if j < |ls| then ls[j].cells[Slot(ls[j].cells, key)..] + Visible(ls[j + 1..]) else []
  }

  class Cursor {
    const tree: Tree
    var leafID: PageId
    var index: nat
    var valid: bool
    ghost var at: nat

    constructor (tree: Tree)
      requires tree.Valid()
      ensures this.tree == tree && !valid && Positioned()
    {
      this.tree := tree;
      leafID, index, valid, at := 0, 0, false, 0;
      new;
      TreeLeafListOf(tree);
    }

    /** A valid cursor stands on a cell of leaf number `at`. */
    ghost predicate Positioned()
      reads this, tree, tree.pool, tree.fl
    {
      && tree.Valid()
      && AllLeaves(AllOf(tree.shape))
      && (valid ==>
            && at < |AllOf(tree.shape)|
            && leafID == AllOf(tree.shape)[at].id
            && index < |AllOf(tree.shape)[at].cells|)
    }

    /** The cells that this cursor has still to yield, its own one first. */
    ghost function Rest(): seq<Cell>
      requires Positioned()
      reads this, tree, tree.pool, tree.fl
    {
      var ls := AllOf(tree.shape);
      if valid then ls[at].cells[index..] + Visible(ls[at + 1..]) else []
    }

    /** `findLeftmost`. */
    method FindLeftmost() returns (id: PageId)
      requires tree.Valid() && tree.shape.Root?
      ensures AllOf(tree.shape) != [] && id == AllOf(tree.shape)[0].id
    {
      hide Rank, Occ, Uses, Ordered, Chained, Fits, Leaves, LeavesOf, LeafIndex, Holds, HoldsTree;
      ghost var t := tree.shape;
      TreeHolds(tree.pool.pages, t, tree.fl.ids);
      id := tree.root;
      ghost var n, h: nat := t.node, t.height;
      HeldPage(tree.pool.pages, n);
      while tree.pool.pages[id].InnerPage?
        invariant n.id == id && Shaped(n, h) && Holds(tree.pool.pages, n)
        invariant id in tree.pool.pages && tree.pool.pages[id].InnerPage? == n.Inner?
        invariant |Leaves(n)| <= |Leaves(t.node)| && Leaves(t.node)[..|Leaves(n)|] == Leaves(n)
        decreases h
      {
        FirstKid(tree.pool.pages, n, h, Leaves(t.node));
        id := tree.pool.pages[id].first;
        n, h := n.kids[0], h - 1;
      }
      LeafReached(n, h, []);
    }

    /** Settles on the first cell of leaf `j`, if it has one. */
    method EnterLeaf(id: PageId, ghost j: nat) returns (ok: bool)
      requires tree.Valid() && LeafListOn(tree.pool.pages, AllOf(tree.shape))
      requires j < |AllOf(tree.shape)| && id == AllOf(tree.shape)[j].id
      modifies this
      ensures Positioned() && ok == valid && Rest() == Visible(AllOf(tree.shape)[j..])
    {
      hide Tree.Valid, Visible;
      ghost var ls := AllOf(tree.shape);
      assert LeafOnPage(tree.pool.pages, ls[j]);
      leafID, index, at := id, 0, j;
      var count := |tree.pool.pages[leafID].cells|;
      valid := count > 0;
      ok := valid;
      VisibleFrom(ls, j);
    }

    /** `First`. */
    method First() returns (ok: bool)
      requires Positioned()
      modifies this
      ensures Positioned() && ok == valid && Rest() == Visible(AllOf(tree.shape))
    {
      hide Tree.Valid, Visible;
      if tree.root == 0 {
        NoRoot(tree);
        EmptyView();
        valid := false;
        return false;
      }
      HasRoot(tree);
      TreeLeafListOf(tree);
      var id := FindLeftmost();
      ok := EnterLeaf(id, 0);
      assert AllOf(tree.shape)[0..] == AllOf(tree.shape);
    }

    /** `advanceLeaf`. */
    method AdvanceLeaf() returns (ok: bool)
      requires tree.Valid() && LeafListOn(tree.pool.pages, AllOf(tree.shape))
      requires at < |AllOf(tree.shape)| && leafID == AllOf(tree.shape)[at].id
      modifies this
      ensures Positioned() && ok == valid && Rest() == Visible(AllOf(tree.shape)[old(at) + 1..])
    {
      hide Tree.Valid, Visible;
      ghost var ls := AllOf(tree.shape);
      assert LeafOnPage(tree.pool.pages, ls[at]) && ls[at].next == NextOf(ls, at, 0);
      var nextID := tree.pool.pages[leafID].next;
      if nextID == 0 {
        assert ls[at + 1..] == [];
        EmptyView();
        valid := false;
        return false;
      }
      ok := EnterLeaf(nextID, at + 1);
    }

    /** `Seek`. */
    method Seek(key: Bytes) returns (ok: bool)
      requires Positioned()
      modifies this
      ensures Positioned() && ok == valid && Rest() == SeekView(tree.shape, key)
    {
      hide Tree.Valid, Visible, Slot, KeySlot, Leaves, LeafIndex, WellFormed, SeekView, HoldsValues, SortedKeys, AllOf, Rank, Occ, Threaded;
      if tree.root == 0 {
        NoRoot(tree);
        NoView(tree, key);
        valid := false;
        return false;
      }
      HasRoot(tree);
      TreeLeafListOf(tree);
      var id := tree.FindLeaf(key);
      SeekFrom(tree, key);
      ghost var ls, j := AllOf(tree.shape), LeafIndex(tree.shape.node, tree.shape.height, key);
      var page := tree.pool.pages[id];
      var idx, _ := SearchKeys(LeafKeys(page.cells), key);
      leafID, index, at := id, idx, j;
      if idx >= |page.cells| {
        assert ls[j].cells[idx..] == [];
        ok := AdvanceLeaf();
        return;
      }
      valid := true;
      return true;
    }

    /** `Next`. */
    method Next() returns (ok: bool)
      requires Positioned()
      modifies this
      ensures Positioned() && ok == valid
      ensures Rest() == if old(Rest()) == [] then [] else old(Rest())[1..]
    {
      hide *;
      RestValid(this);
      if !valid {
        return false;
      }
      Standing(this);
      TreeLeafListOf(tree);
      ghost var ls := AllOf(tree.shape);
      TailOf(ls[at].cells, index, Visible(ls[at + 1..]));
      index := index + 1;
      var count := |tree.pool.pages[leafID].cells|;
      if index < count {
        StandsOn(this);
        return true;
      }
      ok := AdvanceLeaf();
    }

    /** `Key`; nil for an invalid cursor. */
    method Key() returns (key: Bytes)
      requires Positioned()
      ensures valid <==> Rest() != []
      ensures key == if Rest() == [] then [] else Rest()[0].key
    {
      hide Tree.Valid, Visible;
      if !valid {
        return [];
      }
      TreeLeafListOf(tree);
      assert LeafOnPage(tree.pool.pages, AllOf(tree.shape)[at]);
      key := tree.pool.pages[leafID].cells[index].key;
    }

    /** `Value`; nil for an invalid cursor. */
    method Value() returns (val: Bytes)
      requires Positioned()
      ensures val == if Rest() == [] then [] else AsRead(Rest()[0].val)
    {
      hide Tree.Valid, Visible, HoldsValue, AsRead;
      if !valid {
        return [];
      }
      TreeLeafListOf(tree);
      ghost var leaf := AllOf(tree.shape)[at];
      assert LeafOnPage(tree.pool.pages, leaf);
      assert leaf.cells[index] in leaf.cells;
      val := tree.ReadCell(tree.pool.pages[leafID].cells[index].val, leaf.cells[index]);
    }
  }

  // ---------- glue ----------

  lemma TreeHolds(pages: Heap, t: Shape, ids: seq<PageId>)
    requires WellFormed(t) && HoldsTree(pages, t, ids) && t.Root?
    ensures Holds(pages, t.node) && Shaped(t.node, t.height)
  {
  }

  lemma FirstKid(pages: Heap, n: Node, h: nat, ls: seq<Node>)
    requires n.Inner? && Shaped(n, h) && Holds(pages, n)
    requires |Leaves(n)| <= |ls| && ls[..|Leaves(n)|] == Leaves(n)
    ensures h > 0 && n.kids != [] && Shaped(n.kids[0], h - 1) && KidOnPage(pages, n, 0)
    ensures n.id in pages && pages[n.id].InnerPage? && pages[n.id].first == n.kids[0].id
    ensures |Leaves(n.kids[0])| <= |ls| && ls[..|Leaves(n.kids[0])|] == Leaves(n.kids[0])
  {
    KidIsOnPage(pages, n, 0);
    var a := Leaves(n.kids[0]);
    assert Leaves(n) == a + LeavesOf(n.kids[1..]);
    assert ls[..|Leaves(n)|][..|a|] == a;
  }

  /** What a valid cursor stands on. */
  lemma Standing(c: Cursor)
    requires c.Positioned() && c.valid
    ensures c.tree.Valid()
    ensures var ls, pages := AllOf(c.tree.shape), c.tree.pool.pages;
            && AllLeaves(ls) && c.at < |ls| && ls[c.at].Leaf? && AllLeaves(ls[c.at + 1..])
            && c.leafID == ls[c.at].id && c.leafID in pages && pages[c.leafID].LeafPage?
            && |pages[c.leafID].cells| == |ls[c.at].cells| && c.index < |ls[c.at].cells|
            && c.Rest() == ls[c.at].cells[c.index..] + Visible(ls[c.at + 1..])
  {
    hide Tree.Valid, Visible;
    TreeLeafListOf(c.tree);
    assert LeafOnPage(c.tree.pool.pages, AllOf(c.tree.shape)[c.at]);
  }

  lemma StandsOn(c: Cursor)
    requires c.valid && c.tree.Valid() && AllLeaves(AllOf(c.tree.shape)) && c.at < |AllOf(c.tree.shape)|
    requires c.leafID == AllOf(c.tree.shape)[c.at].id && c.index < |AllOf(c.tree.shape)[c.at].cells|
    ensures c.Positioned() && AllLeaves(AllOf(c.tree.shape)[c.at + 1..])
    ensures c.Rest() == AllOf(c.tree.shape)[c.at].cells[c.index..] + Visible(AllOf(c.tree.shape)[c.at + 1..])
  {
    hide Tree.Valid, Visible;
  }

  lemma VisibleFrom(ls: seq<Node>, j: nat)
    requires AllLeaves(ls) && j < |ls|
    ensures Visible(ls[j..]) == if ls[j].cells == [] then [] else ls[j].cells[0..] + Visible(ls[j + 1..])
  {
    assert ls[j..][1..] == ls[j + 1..];
  }

  lemma EmptyView()
    ensures Visible([]) == []
  {
  }

  lemma NoRoot(tree: Tree)
    requires tree.Valid() && tree.root == 0
    ensures tree.shape.Empty? && AllOf(tree.shape) == []
  {
  }

  lemma HasRoot(tree: Tree)
    requires tree.Valid() && tree.root != 0
    ensures tree.shape.Root? && Shaped(tree.shape.node, tree.shape.height)
  {
  }

  lemma TreeLeafListOf(tree: Tree)
    requires tree.Valid()
    ensures LeafListOn(tree.pool.pages, AllOf(tree.shape))
  {
    TreeLeafList(tree.pool.pages, tree.shape, tree.fl.ids);
  }

  lemma SeekFrom(tree: Tree, key: Bytes)
    requires tree.Valid() && tree.shape.Root?
    ensures var ls, j := AllOf(tree.shape), LeafIndex(tree.shape.node, tree.shape.height, key);
            && AllLeaves(ls) && j < |ls| && LeafOnPage(tree.pool.pages, ls[j])
            && SortedKeys(LeafKeys(StoreAll(ls[j].cells)))
            && KeySlot(LeafKeys(StoreAll(ls[j].cells)), key) == Slot(ls[j].cells, key)
            && ls == Leaves(tree.shape.node)
            && SeekView(tree.shape, key) == ls[j].cells[Slot(ls[j].cells, key)..] + Visible(ls[j + 1..])
  {
    hide Rank, Slot, KeySlot, HoldsValues, HoldsTree, Leaves, LeafIndex, Visible, Ordered, Chained, Fits, LeafOnPage, Threaded, Holds, SortedKeys, Contents;
    TreeLeafListOf(tree);
    GetsFrom(tree.pool.pages, tree.shape, tree.fl.ids, key);
  }

  lemma NoView(tree: Tree, key: Bytes)
    requires tree.Valid() && tree.root == 0
    ensures SeekView(tree.shape, key) == []
  {
  }

  lemma TailOf<T>(a: seq<T>, i: nat, b: seq<T>)
    requires i < |a|
    ensures (a[i..] + b)[1..] == a[i + 1..] + b
    ensures i + 1 == |a| ==> (a[i..] + b)[1..] == b
    ensures a[i..] + b != []
  {
  }

  // ---------- what a whole walk sees ----------

  /** Keys of cells, in order. */
  function KeysOf(cells: seq<Cell>): (keys: seq<Bytes>)
    ensures |keys| == |cells|
  {
    seq(|cells|, i requires 0 <= i < |cells| => cells[i].key)
  }

  /** A walk from `First` yields every entry, in strictly increasing key
      order, exactly when no leaf with cells comes after an empty one. */
  lemma FirstSeesAll(t: Shape)
    requires WellFormed(t)
    ensures AllLeaves(AllOf(t))
    ensures Sorted(TreeCells(t))
    ensures Visible(AllOf(t)) == TreeCells(t) <==> EmptyOnlyAtEnd(AllOf(t))
  {
    if t.Root? {
      LeavesFlatten(t.node);
      VisibleIsAll(Leaves(t.node));
      EntriesOrdered(t.node, 0.0, 1.0);
    }
  }

  /** A walk from `Seek(key)` yields exactly the entries whose key is not below
      `key`, again unless an empty leaf hides later ones. */
  lemma SeekSeesAll(t: Shape, key: Bytes)
    requires WellFormed(t) && t.Root?
    ensures var ls, j := AllOf(t), LeafIndex(t.node, t.height, key);
            && AllLeaves(ls) && j < |ls| && Sorted(TreeCells(t))
            && (SeekView(t, key) == TreeCells(t)[Slot(TreeCells(t), key)..] <==> EmptyOnlyAtEnd(ls[j + 1..]))
  {
    hide Rank, Slot, Ordered, Chained, Fits, Leaves, LeafIndex, Flatten, Visible, EmptyOnlyAtEnd, Sorted, HasKeyAt;
    var ls, j := AllOf(t), LeafIndex(t.node, t.height, key);
    EntriesOrdered(t.node, 0.0, 1.0);
    LeavesFlatten(t.node);
    LeafHasKey(t.node, t.height, key, 0.0, 1.0);
    VisibleIsAll(ls[j + 1..]);
    SamePrefix(ls[j].cells[Slot(ls[j].cells, key)..], Visible(ls[j + 1..]), Flatten(ls[j + 1..]));
  }

  /** The entries from the slot of `key` on are those not below it. */
  lemma SlotCuts(cells: seq<Cell>, key: Bytes, c: Cell)
    requires Sorted(cells)
    ensures c in cells[Slot(cells, key)..] <==> c in cells && Rank(key) <= Rank(c.key)
  {
    hide Rank, Slot;
    var i := Slot(cells, key);
    if c in cells {
      var j :| 0 <= j < |cells| && cells[j] == c;
      if j >= i {
        assert cells[i..][j - i] == c;
        assert i < j ==> Rank(cells[i].key) < Rank(cells[j].key);
      }
    }
    if c in cells[i..] {
      var k :| 0 <= k < |cells[i..]| && cells[i..][k] == c;
      assert cells[i + k] == c;
      assert k > 0 ==> Rank(cells[i].key) < Rank(cells[i + k].key);
    }
  }

  lemma NoEmptyMeansAtEnd(ls: seq<Node>, j: nat)
    requires AllLeaves(ls) && j <= |ls| && forall i :: 0 <= i < |ls| ==> ls[i].cells != []
    ensures EmptyOnlyAtEnd(ls[j..])
  {
  }

  /** A tree without empty leaves below its root hides nothing. */
  lemma CursorsAreExact(t: Shape, key: Bytes)
    requires WellFormed(t) && t.Root? && (t.node.Inner? ==> NoEmptyLeaf(t.node))
    ensures AllLeaves(AllOf(t))
    ensures Visible(AllOf(t)) == TreeCells(t)
    ensures SeekView(t, key) == TreeCells(t)[Slot(TreeCells(t), key)..]
  {
    hide Rank, Slot, Ordered, Chained, Fits, LeafIndex, Flatten, Visible, Sorted, HasKeyAt;
    FirstSeesAll(t);
    SeekSeesAll(t, key);
    var ls, j := AllOf(t), LeafIndex(t.node, t.height, key);
    if t.node.Inner? {
      NoEmptyLeaves(t.node);
      NoEmptyMeansAtEnd(ls, 0);
      NoEmptyMeansAtEnd(ls, j + 1);
      assert ls[0..] == ls;
    }
  }

  lemma PackedKid(n: Node)
    requires n.Inner? && Packed(n, 0, 1)
    ensures NoEmptyLeaf(n)
  {
    assert Packed(n, 1, 1);
    PackedHasNoEmptyLeaf(n, 1);
  }

  /** With fixed-width cells cursors are exact. */
  lemma PackedCursorsAreExact(t: Shape, key: Bytes)
    requires WellFormed(t) && PackedTree(t)
    ensures AllLeaves(AllOf(t)) && Sorted(TreeCells(t))
    ensures Visible(AllOf(t)) == TreeCells(t)
    ensures SeekView(t, key) == TreeCells(t)[Slot(TreeCells(t), key)..]
  {
    hide Rank, Slot, Ordered, Chained, Fits, LeafIndex, Flatten, Sorted, HasKeyAt, Packed, NoEmptyLeaf;
    FirstSeesAll(t);
    if t.Root? {
      if t.node.Inner? {
        PackedKid(t.node);
      }
      CursorsAreExact(t, key);
    }
  }

  /** The loop every reader of a cursor runs: `First` or `Seek`, then `Key` and
      `Next` until it reports the end. */
  method Drain(c: Cursor, ok: bool) returns (keys: seq<Bytes>)
    requires c.Positioned() && ok == c.valid
    modifies c
    ensures keys == KeysOf(old(c.Rest()))
    ensures c.Positioned() && !c.valid
  {
    hide Cursor.Positioned, Visible, Cursor.Rest;
    keys := [];
    var more := ok;
    ghost var all := c.Rest();
    RestValid(c);
    while more
      invariant c.Positioned() && more == c.valid && more == (c.Rest() != [])
      invariant keys + KeysOf(c.Rest()) == KeysOf(all)
      decreases |c.Rest()|
    {
      ghost var rest := c.Rest();
      var key := c.Key();
      KeysStep(keys, rest);
      keys := keys + [key];
      more := c.Next();
      RestValid(c);
    }
  }

  lemma RestValid(c: Cursor)
    requires c.Positioned()
    ensures c.valid == (c.Rest() != [])
  {
  }

  lemma KeysStep(keys: seq<Bytes>, rest: seq<Cell>)
    requires rest != []
    ensures keys + [rest[0].key] + KeysOf(rest[1..]) == keys + KeysOf(rest)
  {
    assert KeysOf(rest) == [rest[0].key] + KeysOf(rest[1..]);
  }
}
