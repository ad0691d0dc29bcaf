/** What searches and cursors find on the pages of a tree. */
module ReadFacts {
  import opened Bytes
  import opened TreeModel
  import opened TreeView
  import opened TreeInsert
  import opened TreeDelete
  import opened TreeOps
  import opened Pages
  import opened BTreeFacts
  import opened LeafList

  /** What reading a stored value gives: the length of a value in overflow
      pages is kept in 32 bits. */
  function AsRead(val: Bytes): Bytes {
    if |val| <= OVERFLOW_THRESHOLD then val else val[..|val| % LEN_LIMIT]
  }

  /** Reading gives the value back exactly when its length fits 32 bits. */
  lemma AsReadIsExact(val: Bytes)
    ensures AsRead(val) == val <==> |val| < 0x1_0000_0000
    ensures AsRead(val) <= val && |AsRead(val)| == |val| % 0x1_0000_0000
  {
    if |val| > OVERFLOW_THRESHOLD {
      assert |val[..|val| % LEN_LIMIT]| == |val| % LEN_LIMIT;
      if |val| < LEN_LIMIT {
        assert val[..|val|] == val;
      }
    }
  }

  /** One step of a search down the pages. */
  lemma StepDown(pages: Heap, n: Node, h: nat, key: Bytes, lo: real, hi: real)
    requires n.Inner? && Shaped(n, h) && Ordered(n, lo, hi) && Holds(pages, n)
    ensures n.id in pages && pages[n.id].InnerPage?
    ensures InnerKeys(pages[n.id].seps) == n.keys && SortedKeys(n.keys) && |n.kids| == |n.keys| + 1
    ensures h > 0
    ensures var i := Route(n.keys, key);
            && Shaped(n.kids[i], h - 1) && Ordered(n.kids[i], Low(n.keys, lo, i), High(n.keys, hi, i))
            && KidOnPage(pages, n, i)
  {
    var i := Route(n.keys, key);
    SepsKeys(n.keys, n.kids);
    OrderedBelow(n, lo, hi, i);
    KidIsOnPage(pages, n, i);
  }

  /** Child `i` is where the page of `n` says it is. */
  ghost predicate KidOnPage(pages: Heap, n: Node, i: nat)
    requires n.Inner? && i < |n.kids|
  {
    && Holds(pages, n.kids[i])
    && n.id in pages && pages[n.id].InnerPage? && i <= |pages[n.id].seps|
    && ChildAt(pages[n.id], i) == n.kids[i].id
    && n.kids[i].id in pages && pages[n.kids[i].id].InnerPage? == n.kids[i].Inner?
  }

  lemma KidIsOnPage(pages: Heap, n: Node, i: nat)
    requires n.Inner? && Holds(pages, n) && i < |n.kids|
    ensures KidOnPage(pages, n, i)
  {
    HoldsBelow(pages, n, i);
    HeldPage(pages, n.kids[i]);
  }

  lemma HeldPage(pages: Heap, n: Node)
    requires Holds(pages, n)
    ensures n.id in pages && pages[n.id].InnerPage? == n.Inner?
    ensures pages[n.id].LeafPage? == n.Leaf?
  {
  }

  lemma LeafReached(n: Node, h: nat, key: Bytes)
    requires Shaped(n, h) && n.Leaf?
    ensures Leaves(n) == [n] && LeafIndex(n, h, key) == 0
  {
  }

  lemma NothingStored(key: Bytes)
    ensures key !in TreeMap(Empty)
  {
  }

  /** Each leaf is on its page, its cells sorted and its overflow chains in
      place. */
  ghost predicate LeafOnPage(pages: Heap, leaf: Node)
    requires leaf.Leaf?
  {
    && leaf.id in pages && pages[leaf.id] == LeafPage(StoreAll(leaf.cells), leaf.next)
    && HoldsValues(pages, leaf.cells)
    && forall i :: 0 <= i < |leaf.cells| ==> Occ(leaf.cells[i].chain, 0) == 0
  }

  lemma {:induction false} LeavesOnPages(pages: Heap, n: Node)
    requires Holds(pages, n) && Uses(n, 0) == 0
    ensures AllLeaves(Leaves(n))
    ensures forall i :: 0 <= i < |Leaves(n)| ==> LeafOnPage(pages, Leaves(n)[i]) && Leaves(n)[i].id != 0
    decreases n, 1
  {
    match n
    case Leaf(_, cells, _) =>
      forall i | 0 <= i < |cells| ensures Occ(cells[i].chain, 0) == 0 {
        ChainIn(cells, cells[i], 0);
      }
    case Inner(_, _, kids) =>
      LeavesOfOnPages(pages, kids);
  }

  lemma {:induction false} LeavesOfOnPages(pages: Heap, kids: seq<Node>)
    requires (forall i :: 0 <= i < |kids| ==> Holds(pages, kids[i])) && UsesOf(kids, 0) == 0
    ensures AllLeaves(LeavesOf(kids))
    ensures forall i :: 0 <= i < |LeavesOf(kids)| ==>
                          LeafOnPage(pages, LeavesOf(kids)[i]) && LeavesOf(kids)[i].id != 0
    decreases kids, 0
  {
    if kids != [] {
      LeavesOnPages(pages, kids[0]);
      LeavesOfOnPages(pages, kids[1..]);
    }
  }

  /** All the leaves of a tree. */
  ghost function AllOf(t: Shape): (ls: seq<Node>) {
    if t.Root? then Leaves(t.node) else []
  }

  /** The leaf list of a well-formed tree, as its pages hold it. */
  ghost predicate LeafListOn(pages: Heap, ls: seq<Node>) {
    && AllLeaves(ls)
    && Threaded(ls, 0)
    && (forall i :: 0 <= i < |ls| ==> LeafOnPage(pages, ls[i]) && ls[i].id != 0)
  }

  lemma TreeLeafList(pages: Heap, t: Shape, ids: seq<PageId>)
    requires WellFormed(t) && HoldsTree(pages, t, ids)
    ensures LeafListOn(pages, AllOf(t))
    ensures Flatten(AllOf(t)) == TreeCells(t)
  {
    if t.Root? {
      LeavesOnPages(pages, t.node);
      LeavesThreaded(t.node, t.height, 0);
      LeavesFlatten(t.node);
    }
  }

  /** What a search for `key` finds in the leaf it ends in. */
  ghost predicate Found(pages: Heap, leaf: Node, key: Bytes, m: map<Bytes, Bytes>)
    requires leaf.Leaf?
  {
    && LeafOnPage(pages, leaf)
    && var k := Slot(leaf.cells, key);
      && SortedKeys(LeafKeys(StoreAll(leaf.cells)))
      && KeySlot(LeafKeys(StoreAll(leaf.cells)), key) == k
      && HasKeyAt(leaf.cells, k, key) == (key in m)
      && (key in m ==> HoldsValue(pages, leaf.cells[k]) && m[key] == leaf.cells[k].val)
  }

  lemma GetsFrom(pages: Heap, t: Shape, ids: seq<PageId>, key: Bytes)
    requires WellFormed(t) && HoldsTree(pages, t, ids) && t.Root?
    ensures var ls, j := Leaves(t.node), LeafIndex(t.node, t.height, key);
            && j < |ls| && ls[j].Leaf? && Found(pages, ls[j], key, TreeMap(t))
  {
    hide Rank, Slot, KeySlot, Ordered, Holds, HoldsValue, Occ, Chained, Fits, Uses, Contents, Leaves, LeafIndex, Flatten, Sorted, SortedKeys;
    var n, h := t.node, t.height;
    TreeLeafList(pages, t, ids);
    LeafHasKey(n, h, key, 0.0, 1.0);
    LeafIndexSplits(n, h, key, 0.0, 1.0);
    EntriesOrdered(n, 0.0, 1.0);
    SlotContents(Entries(n), key);
    var leaf := Leaves(n)[LeafIndex(n, h, key)];
    StoredSorted(leaf.cells);
    StoreKeys(leaf.cells, key);
  }
}
