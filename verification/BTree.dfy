/** The B+tree on pages: `btree.go`, `split.go` and `merge.go`.

    A `Tree` reads and rewrites pages of a `Pool` through page IDs.  Its ghost
    field `shape` is the tree those pages hold; every method is proved to turn
    it into what the functions of `TreeModel` say, and to leave every other
    page alone. */
module BTree {
  import opened Bytes
  import opened TreeModel
  import opened TreeView
  import opened TreeSurgery
  import opened TreeInsert
  import opened TreeDelete
  import opened TreeOps
  import opened TreeRoom
  import opened Pages
  import opened BTreeFacts
  import opened LeafList
  import opened ReadFacts

  /** The buffer pool, as the tree sees it: page contents by page ID. */
  class Pool {
    var pages: Heap

    constructor ()
      ensures pages == map[]
    {
      pages := map[];
    }
  }

  /** The page allocator behind a tree: a stack of page IDs, as
      `reserveAlloc` and `reserveFree` keep it. */
  class Reserve {
    const pool: Pool
    var ids: seq<PageId>

    constructor (pool: Pool, ids: seq<PageId>)
      ensures this.pool == pool && this.ids == ids
    {
      this.pool, this.ids := pool, ids;
    }

    method Alloc() returns (ok: bool, id: PageId)
      modifies this, pool
      ensures ok == (old(ids) != [])
      ensures ok ==>
                && id == old(ids)[|old(ids)| - 1] && ids == old(ids)[..|old(ids)| - 1]
                && pool.pages == old(pool.pages)[id := LeafPage([], 0)]
      ensures !ok ==> ids == old(ids) && pool.pages == old(pool.pages)
    {
      if ids == [] {
        return false, 0;
      }
      ok, id := true, ids[|ids| - 1];
      ids := ids[..|ids| - 1];
      pool.pages := pool.pages[id := LeafPage([], 0)];
    }

    method Free(id: PageId)
      modifies this
      ensures ids == old(ids) + [id]
    {
      ids := ids + [id];
    }
  }

  // ---------- searching a page ----------

  /** `leafSearch` and `internalKeySearch`. */
  method SearchKeys(keys: seq<Bytes>, key: Bytes) returns (idx: nat, found: bool)
    requires SortedKeys(keys)
    ensures idx == KeySlot(keys, key) && found == (idx < |keys| && keys[idx] == key)
  {
    var lo, hi := 0, |keys|;
    while lo < hi
      invariant lo <= hi <= |keys|
      invariant forall j :: 0 <= j < lo ==> Rank(keys[j]) < Rank(key)
      invariant forall j :: hi <= j < |keys| ==> Rank(key) < Rank(keys[j])
    {
      var mid := lo + (hi - lo) / 2;
      var cmp := Compare(keys[mid], key);
      if cmp == 0 {
        KeySlotIs(keys, key, mid);
        return mid, true;
      }
      if cmp < 0 {
        lo := mid + 1;
      } else {
        hi := mid;
      }
    }
    KeySlotIs(keys, key, lo);
    return lo, false;
  }

  /** `internalSearch`: the child to descend into. */
  method SearchChild(keys: seq<Bytes>, key: Bytes) returns (idx: nat)
    requires SortedKeys(keys)
    ensures idx == Route(keys, key)
  {
    var lo, hi := 0, |keys|;
    while lo < hi
      invariant lo <= hi <= |keys|
      invariant forall j :: 0 <= j < lo ==> Rank(keys[j]) <= Rank(key)
      invariant forall j :: hi <= j < |keys| ==> Rank(key) < Rank(keys[j])
    {
      var mid := lo + (hi - lo) / 2;
      var cmp := Compare(key, keys[mid]);
      if cmp < 0 {
        hi := mid;
      } else {
        lo := mid + 1;
      }
    }
    RouteIs(keys, key, lo);
    return lo;
  }

  /** The linear scan of `splitLeaf` and `splitInternal`. */
  method ScanKeys(keys: seq<Bytes>, key: Bytes) returns (idx: nat)
    ensures idx == KeySlot(keys, key)
  {
    idx := 0;
    while idx < |keys|
      invariant idx <= |keys|
      invariant forall j :: 0 <= j < idx ==> Rank(keys[j]) < Rank(key)
    {
      if Compare(key, keys[idx]) <= 0 {
        KeySlotIs(keys, key, idx);
        return;
      }
      idx := idx + 1;
    }
    KeySlotIs(keys, key, idx);
  }

  class Tree {
    var root: PageId
    const pool: Pool
    const fl: Reserve
    ghost var shape: Shape

    constructor (pool: Pool, fl: Reserve)
      requires fl.pool == pool
      requires forall p :: Occ(fl.ids, p) <= 1
      requires Occ(fl.ids, 0) == 0
      ensures this.pool == pool && this.fl == fl && shape == Empty && Valid()
    {
      root := 0;
      this.pool, this.fl := pool, fl;
      shape := Empty;
    }

    /** A tree that is on pages already. */
    constructor At(root: PageId, pool: Pool, fl: Reserve, ghost t: Shape)
      requires fl.pool == pool && WellFormed(t) && HoldsTree(pool.pages, t, fl.ids)
      requires root == (if t.Root? then t.node.id else 0) && (t.Root? ==> root != 0)
      ensures this.pool == pool && this.fl == fl && shape == t && this.root == root && Valid()
    {
      this.root := root;
      this.pool, this.fl := pool, fl;
      shape := t;
      new;
      hide *;
      MakeValid();
    }

    /** The pages hold a well-formed tree, and no page is used twice or both
        used and free. */
    ghost predicate Valid()
      reads this, pool, fl
    {
      && fl.pool == pool
      && WellFormed(shape)
      && root == (if shape.Root? then shape.node.id else 0)
      && HoldsTree(pool.pages, shape, fl.ids)
      && (shape.Root? ==> root != 0)
    }

    /** The map the tree stands for. */
    ghost function Map(): map<Bytes, Bytes>
      reads this
    {
      TreeMap(shape)
    }

    // ---------- rewriting a page, cell by cell ----------

    /** Empties a leaf page and appends the cells one by one.  Fails where the
        Go code would write past the page. */
    method RewriteLeaf(id: PageId, cells: seq<LeafCell>, next: PageId) returns (ok: bool)
      modifies pool
      ensures ok == (LeafUsed(cells) <= MAX_CELL_AREA)
      ensures ok ==> pool.pages == old(pool.pages)[id := LeafPage(cells, next)]
      ensures forall p :: p in old(pool.pages) && p != id ==> p in pool.pages && pool.pages[p] == old(pool.pages)[p]
    {
      pool.pages := pool.pages[id := LeafPage([], next)];
      var i := 0;
      while i < |cells|
        invariant i <= |cells|
        invariant pool.pages == old(pool.pages)[id := LeafPage(cells[..i], next)]
        invariant LeafUsed(cells[..i]) <= MAX_CELL_AREA
      {
        LeafUsedPrefix(cells, i);
        assert cells[..i + 1] == cells[..i] + [cells[i]];
        var page := pool.pages[id];
        if LeafUsed(page.cells) + LeafCellSize(cells[i]) > MAX_CELL_AREA {
          return false;
        }
        pool.pages := pool.pages[id := LeafPage(page.cells + [cells[i]], next)];
        i := i + 1;
      }
      assert cells[..i] == cells;
      return true;
    }

    method RewriteInner(id: PageId, first: PageId, seps: seq<InnerCell>) returns (ok: bool)
      modifies pool
      ensures ok == (UsedSeps(seps) <= MAX_CELL_AREA)
      ensures ok ==> pool.pages == old(pool.pages)[id := InnerPage(first, seps)]
      ensures forall p :: p in old(pool.pages) && p != id ==> p in pool.pages && pool.pages[p] == old(pool.pages)[p]
    {
      pool.pages := pool.pages[id := InnerPage(first, [])];
      var i := 0;
      while i < |seps|
        invariant i <= |seps|
        invariant pool.pages == old(pool.pages)[id := InnerPage(first, seps[..i])]
        invariant UsedSeps(seps[..i]) <= MAX_CELL_AREA
      {
        UsedSepsPrefix(seps, i);
        assert seps[..i + 1] == seps[..i] + [seps[i]];
        var page := pool.pages[id];
        if UsedSeps(page.seps) + INNER_CELL_OVERHEAD + |seps[i].key| > MAX_CELL_AREA {
          return false;
        }
        pool.pages := pool.pages[id := InnerPage(first, page.seps + [seps[i]])];
        i := i + 1;
      }
      assert seps[..i] == seps;
      return true;
    }

    // ---------- overflow chains ----------

    /** One round of `writeOverflow`: a fresh page for `chunk`, linked from the
        last page of the chain so far. */
    method WriteChunk(prev: PageId, chunk: Bytes, ghost chain: seq<PageId>) returns (ok: bool, id: PageId)
      requires fl.pool == pool && |chunk| <= OVERFLOW_PAYLOAD
      requires chain == [] <==> prev == 0
      requires chain != [] ==>
                 prev == chain[|chain| - 1] && prev in pool.pages && pool.pages[prev].OverflowPage? && prev !in fl.ids
      modifies pool, fl
      ensures ok == (old(fl.ids) != [])
      ensures ok ==>
                && id == old(fl.ids)[|old(fl.ids)| - 1] && fl.ids == old(fl.ids)[..|old(fl.ids)| - 1]
                && Linked(old(pool.pages), pool.pages, chain, id)
                && |pool.pages[id].data| == OVERFLOW_PAYLOAD && chunk <= pool.pages[id].data
      ensures !ok ==> pool.pages == old(pool.pages)
    {
      ok, id := fl.Alloc();
      if !ok {
        return;
      }
      pool.pages := pool.pages[id := OverflowPage(0, chunk + seq(OVERFLOW_PAYLOAD - |chunk|, _ => 0))];
      if prev != 0 {
        pool.pages := pool.pages[prev := OverflowPage(id, pool.pages[prev].data)];
      }
    }

    /** `writeOverflow`: the value is written to fresh pages, each linked from
        the one before. */
    method WriteOverflow(val: Bytes) returns (ok: bool, first: PageId, ghost chain: seq<PageId>)
      requires fl.pool == pool
      requires forall p :: Occ(fl.ids, p) <= 1
      requires Occ(fl.ids, 0) == 0
      modifies pool, fl
      ensures ok == ((|val| + 4063) / 4064 <= |old(fl.ids)|)
      ensures ok ==>
                && |chain| == (|val| + 4063) / 4064
                && chain == TakePages(old(fl.ids), PagesFor(|val|))
                && fl.ids == old(fl.ids)[..|old(fl.ids)| - PagesFor(|val|)]
                && HoldsChain(pool.pages, chain, val)
                && first == (if chain == [] then 0 else chain[0])
      ensures SameOutside(old(pool.pages), pool.pages, old(fl.ids))
    {
      hide *;
      PageCount(|val|);
      ghost var ids := fl.ids;
      ghost var pages := pool.pages;
      var prev: PageId := 0;
      var remaining := val;
      first, chain := 0, [];
      NothingHeld(pages, val, ids);
      while remaining != []
        invariant |chain| <= |ids| && chain == TakePages(ids, |chain|)
        invariant fl.ids == ids[..|ids| - |chain|]
        invariant Remains(val, |chain|, remaining)
        invariant ChunksHeld(pool.pages, chain, val)
        invariant prev == if chain == [] then 0 else chain[|chain| - 1]
        invariant first == if chain == [] then 0 else chain[0]
        invariant SameOutside(pages, pool.pages, ids)
        decreases |remaining|
      {
        ghost var n := |chain|;
        ghost var before := pool.pages;
        if n > 0 {
          LastTaken(ids, n);
        }
        PrevIsLinked(before, chain, val, ids);
        RemainsStep(val, n, remaining, |ids|);
        var chunk := if |remaining| > OVERFLOW_PAYLOAD then remaining[..OVERFLOW_PAYLOAD] else remaining;
        remaining := remaining[|chunk|..];
        var got, id := WriteChunk(prev, chunk, chain);
        if !got {
          return false, 0, [];
        }
        FreshLink(ids, n);
        TakePagesMore(ids, n);
        LinkMore(before, pool.pages, chain, id, val);
        LinkOutside(pages, before, pool.pages, chain, id, ids);
        if first == 0 {
          first := id;
        }
        prev := id;
        chain := chain + [id];
      }
      RemainsDone(val, |chain|);
      ChainIsHeld(pool.pages, chain, val);
      return true, first, chain;
    }

    /** `prepareValue`. */
    method PrepareValue(val: Bytes) returns (ok: bool, stored: Stored, ghost chain: seq<PageId>)
      requires fl.pool == pool
      requires forall p :: Occ(fl.ids, p) <= 1
      requires Occ(fl.ids, 0) == 0
      modifies pool, fl
      ensures ok == (ChainLen(val) <= |old(fl.ids)|)
      ensures ok ==>
                && chain == TakePages(old(fl.ids), ChainLen(val))
                && fl.ids == old(fl.ids)[..|old(fl.ids)| - ChainLen(val)]
                && forall key :: Store(Cell(key, val, chain)) == LeafCell(key, stored) && HoldsValue(pool.pages, Cell(key, val, chain))
      ensures SameOutside(old(pool.pages), pool.pages, old(fl.ids))
    {
      if |val| <= OVERFLOW_THRESHOLD {
        return true, Inline(val), [];
      }
      var first;
      ok, first, chain := WriteOverflow(val);
      stored := Overflow(first, |val| % LEN_LIMIT);
    }

    /** `freeOverflow`: follows the links and gives every page back. */
    method FreeOverflow(first: PageId, ghost chain: seq<PageId>, ghost val: Bytes)
      requires fl.pool == pool
      requires HoldsChain(pool.pages, chain, val) && Occ(chain, 0) == 0
      requires first == if chain == [] then 0 else chain[0]
      modifies fl
      ensures fl.ids == old(fl.ids) + chain
    {
      var id := first;
      ghost var i := 0;
      while id != 0
        invariant i <= |chain| && id == (if i < |chain| then chain[i] else 0)
        invariant fl.ids == old(fl.ids) + chain[..i]
        decreases |chain| - i
      {
        assert HoldsChunk(pool.pages, chain, val, i);
        var next := pool.pages[id].link;
        fl.Free(id);
        id := next;
        i := i + 1;
      }
      if i < |chain| {
        OccIn(chain, i);
      }
      assert chain[..i] == chain;
    }

    /** `readOverflow`: at most `len` bytes of the chain. */
    method ReadOverflow(first: PageId, len: nat, ghost chain: seq<PageId>, ghost val: Bytes) returns (r: Bytes)
      requires HoldsChain(pool.pages, chain, val) && Occ(chain, 0) == 0 && len <= |val|
      requires first == if chain == [] then 0 else chain[0]
      ensures r == val[..len]
    {
      var id := first;
      ghost var i := 0;
      r := [];
      while id != 0 && |r| < len
        invariant i <= |chain| && id == (if i < |chain| then chain[i] else 0)
        invariant r == val[..if i * OVERFLOW_PAYLOAD <= len then i * OVERFLOW_PAYLOAD else len]
        decreases |chain| - i
      {
        assert HoldsChunk(pool.pages, chain, val, i);
        var page := pool.pages[id];
        var need := len - |r|;
        if need > |page.data| {
          need := |page.data|;
        }
        assert need <= |Chunk(val, i)|;
        assert page.data[..need] == Chunk(val, i)[..need];
        r := r + page.data[..need];
        id := page.link;
        i := i + 1;
      }
      if i < |chain| {
        OccIn(chain, i);
      }
    }

    // ---------- insertion ----------

    /** `splitLeaf`. */
    method SplitLeaf(id: PageId, c: LeafCell)
      returns (status: Status, sep: Bytes, right: PageId)
      requires fl.pool == pool
      requires id in pool.pages && pool.pages[id].LeafPage? && id !in fl.ids
      modifies pool, fl
      ensures var page := old(pool.pages)[id];
              var cells := PutStored(page.cells, c);
              var mid := |cells| / 2;
              && |cells| > 0
              && status == (if old(fl.ids) == [] then NoPages
                            else if LeafUsed(cells[..mid]) > MAX_CELL_AREA || LeafUsed(cells[mid..]) > MAX_CELL_AREA then Panic
                            else Done)
              && (status == Done ==>
                    && right == old(fl.ids)[|old(fl.ids)| - 1] && fl.ids == old(fl.ids)[..|old(fl.ids)| - 1]
                    && sep == cells[mid].key
                    && pool.pages == old(pool.pages)[id := LeafPage(cells[..mid], right)]
                                                    [right := LeafPage(cells[mid..], page.next)])
      ensures forall p :: p in old(pool.pages) && p != id && p !in old(fl.ids) ==>
                            p in pool.pages && pool.pages[p] == old(pool.pages)[p]
    {
      hide LeafUsed, KeySlot, Rank;
      sep, right := [], 0;
      var page := pool.pages[id];
      var cells := page.cells;
      var idx := ScanKeys(LeafKeys(cells), c.key);
      if idx < |cells| && cells[idx].key == c.key {
        cells := cells[idx := c];
      } else {
        cells := cells[..idx] + [c] + cells[idx..];
      }
      var mid := |cells| / 2;
      var got;
      got, right := fl.Alloc();
      if !got {
        return NoPages, [], 0;
      }
      var ok := RewriteLeaf(id, cells[..mid], right);
      if !ok {
        return Panic, [], 0;
      }
      ok := RewriteLeaf(right, cells[mid..], page.next);
      if !ok {
        return Panic, [], 0;
      }
      sep := cells[mid].key;
      status := Done;
    }

    /** Deletes cell `idx` of a leaf, releasing the overflow pages of its value. */
    method DropCellAt(id: PageId, idx: nat, ghost n: Node, ghost ids: seq<PageId>)
      requires fl.pool == pool && n.Leaf? && n.id == id && idx < |n.cells|
      requires Holds(pool.pages, n) && Separate(n, ids)
      modifies pool, fl
      ensures fl.ids == old(fl.ids) + n.cells[idx].chain
      ensures pool.pages == old(pool.pages)[id := LeafPage(RemoveAt(StoreAll(n.cells), idx), n.next)]
    {
      var page := pool.pages[id];
      OldChain(pool.pages, n, ids, idx);
      if page.cells[idx].val.Overflow? {
        FreeOverflow(page.cells[idx].val.first, n.cells[idx].chain, n.cells[idx].val);
      }
      pool.pages := pool.pages[id := LeafPage(page.cells[..idx] + page.cells[idx + 1..], page.next)];
    }

    /** The end of `insertLeaf`: the cell goes on the page if there is room, and
        otherwise the leaf is split.  `n` is the leaf with the cell in it. */
    method PlaceCell(id: PageId, idx: nat, c: LeafCell, ghost n: Node, ghost before: Heap)
      returns (status: Status, split: Option<(Bytes, PageId)>)
      requires fl.pool == pool && n.Leaf? && n.id == id && |n.cells| > 0
      requires Separate(n, fl.ids) && HoldsValues(before, n.cells)
      requires forall p :: p in before && p != id ==> p in pool.pages && pool.pages[p] == before[p]
      requires id in pool.pages && pool.pages[id].LeafPage? && pool.pages[id].next == n.next
      requires idx <= |pool.pages[id].cells| && InsertAt(pool.pages[id].cells, idx, c) == StoreAll(n.cells)
      requires PutStored(pool.pages[id].cells, c) == StoreAll(n.cells)
      modifies pool, fl
      ensures Executes(before, pool.pages, n, old(fl.ids), fl.ids,
                       if LeafUsed(old(pool.pages)[id].cells) + LeafCellSize(c) <= MAX_CELL_AREA
                       then Inserted(n, None, old(fl.ids)) else TreeModel.SplitLeaf(n, old(fl.ids)),
                       status, split)
    {
      hide Rank, Occ, Uses, KeySlot, Separate, HoldsValues, LeafUsed, Used, PutStored;
      SeparateDistinct(n, fl.ids);
      SeparateMember(n, fl.ids);
      var page := pool.pages[id];
      if LeafUsed(page.cells) + LeafCellSize(c) <= MAX_CELL_AREA {
        pool.pages := pool.pages[id := LeafPage(page.cells[..idx] + [c] + page.cells[idx..], page.next)];
        LeafWritten(before, pool.pages, n, fl.ids);
        return Done, None;
      }
      StoredHalves(n.cells, |n.cells| / 2);
      ghost var ids := fl.ids;
      var sep, right;
      status, sep, right := SplitLeaf(id, c);
      split := None;
      if status == Done {
        split := Some((sep, right));
        LeafSplitWritten(before, pool.pages, n, ids);
      }
    }

    /** `insertLeaf`.  A split is reported by the promoted key and the page of
        the new right sibling. */
    method InsertLeaf(id: PageId, key: Bytes, val: Bytes, ghost n: Node)
      returns (status: Status, split: Option<(Bytes, PageId)>)
      requires fl.pool == pool && n.Leaf? && n.id == id
      requires Holds(pool.pages, n) && Sorted(n.cells) && Separate(n, fl.ids)
      modifies pool, fl
      ensures Executes(old(pool.pages), pool.pages, n, old(fl.ids), fl.ids,
                       TreeModel.InsertLeaf(n, key, val, old(fl.ids)), status, split)
    {
      hide Rank, Slot, Occ, Uses, HoldsValue, KeySlot, Separate, Sorted, HoldsValues, TakePages,
           LeafUsed, Used, WithCell, Executes, TreeModel.SplitLeaf, PutStored;
      ghost var pages, ids := pool.pages, fl.ids;
      StoredSorted(n.cells);
      StoreKeys(n.cells, key);
      var idx, found := SearchKeys(LeafKeys(pool.pages[id].cells), key);
      SeparateDistinct(n, ids);
      var ok, stored;
      ghost var chain;
      ok, stored, chain := PrepareValue(val);
      TreeOutside(pages, pool.pages, n, ids);
      if !ok {
        FailedInsert(pages, pool.pages, n, ids, fl.ids);
        return NoPages, None;
      }
      ghost var c, av := NewCell(key, val, ids), PagesLeft(n, key, val, ids);
      ghost var before := pool.pages;
      WithCellSeparate(n, key, val, ids);
      WithCellValues(before, n, c);
      if found {
        DropCellAt(id, idx, n, ids);
      }
      assert found == HasKeyAt(n.cells, idx, key);
      assert fl.ids == av;
      StoreRest(n.cells, key);
      StoreWithCell(n, c);
      status, split := PlaceCell(id, idx, LeafCell(key, stored), WithCell(n, c), before);
      ExecutesFrom(pages, before, pool.pages, n, ids, WithCell(n, c), av, fl.ids,
                   TreeModel.InsertLeaf(n, key, val, ids), status, split);
    }

    /** `splitInternal`. */
    method SplitInternal(id: PageId, key: Bytes, child: PageId)
      returns (status: Status, sep: Bytes, right: PageId)
      requires fl.pool == pool
      requires id in pool.pages && pool.pages[id].InnerPage? && id !in fl.ids
      modifies pool, fl
      ensures var page := old(pool.pages)[id];
              var seps := InsertAt(page.seps, KeySlot(InnerKeys(page.seps), key), InnerCell(key, child));
              var mid := |seps| / 2;
              && status == (if old(fl.ids) == [] then NoPages
                            else if UsedSeps(seps[..mid]) > MAX_CELL_AREA || UsedSeps(seps[mid + 1..]) > MAX_CELL_AREA then Panic
                            else Done)
              && (status == Done ==>
                    && right == old(fl.ids)[|old(fl.ids)| - 1] && fl.ids == old(fl.ids)[..|old(fl.ids)| - 1]
                    && sep == seps[mid].key
                    && pool.pages == old(pool.pages)[id := InnerPage(page.first, seps[..mid])]
                                                    [right := InnerPage(seps[mid].child, seps[mid + 1..])])
      ensures forall p :: p in old(pool.pages) && p != id && p !in old(fl.ids) ==>
                            p in pool.pages && pool.pages[p] == old(pool.pages)[p]
    {
      hide UsedSeps, KeySlot, Rank;
      sep, right := [], 0;
      var page := pool.pages[id];
      var idx := ScanKeys(InnerKeys(page.seps), key);
      var seps := page.seps[..idx] + [InnerCell(key, child)] + page.seps[idx..];
      var mid := |seps| / 2;
      var got;
      got, right := fl.Alloc();
      if !got {
        return NoPages, [], 0;
      }
      var ok := RewriteInner(id, page.first, seps[..mid]);
      if !ok {
        return Panic, [], 0;
      }
      ok := RewriteInner(right, seps[mid].child, seps[mid + 1..]);
      if !ok {
        return Panic, [], 0;
      }
      sep := seps[mid].key;
      status := Done;
    }

    /** The end of `insertInternal`: the promoted key goes on the page if there
        is room, and otherwise the node is split.  `n` is the node with the
        new separator in it. */
    method PlaceSeparator(id: PageId, key: Bytes, child: PageId, ghost n: Node)
      returns (status: Status, split: Option<(Bytes, PageId)>)
      requires fl.pool == pool && n.Inner? && |n.kids| == |n.keys| + 1 && |n.keys| > 0 && n.id == id
      requires Separate(n, fl.ids) && HoldsKids(pool.pages, n)
      requires id in pool.pages && pool.pages[id].InnerPage? && pool.pages[id].first == n.kids[0].id
      requires SortedKeys(InnerKeys(pool.pages[id].seps))
      requires var seps := pool.pages[id].seps;
               InsertAt(seps, KeySlot(InnerKeys(seps), key), InnerCell(key, child)) == Seps(n.keys, n.kids)
      modifies pool, fl
      ensures Executes(old(pool.pages), pool.pages, n, old(fl.ids), fl.ids,
                       if UsedSeps(old(pool.pages)[id].seps) + INNER_CELL_OVERHEAD + |key| <= MAX_CELL_AREA
                       then Inserted(n, None, old(fl.ids)) else SplitInner(n, old(fl.ids)),
                       status, split)
    {
      hide Rank, Occ, Uses, KeySlot, Separate, UsedSeps, UsedKeys;
      ghost var before, ids := pool.pages, fl.ids;
      SeparateDistinct(n, fl.ids);
      SeparateMember(n, fl.ids);
      var page := pool.pages[id];
      if UsedSeps(page.seps) + INNER_CELL_OVERHEAD + |key| <= MAX_CELL_AREA {
        var idx, _ := SearchKeys(InnerKeys(page.seps), key);
        pool.pages := pool.pages[id := InnerPage(page.first, page.seps[..idx] + [InnerCell(key, child)] + page.seps[idx..])];
        InnerWritten(before, pool.pages, n, ids);
        return Done, None;
      }
      SepsParts(n.keys, n.kids, |n.keys| / 2);
      var sep, right;
      status, sep, right := SplitInternal(id, key, child);
      split := None;
      if status == Done {
        split := Some((sep, right));
        InnerSplitWritten(before, pool.pages, n, ids);
      }
    }

    /** `insertInternal`. */
    method InsertInternal(id: PageId, key: Bytes, val: Bytes, ghost n: Node, ghost h: nat, ghost lo: real, ghost hi: real)
      returns (status: Status, split: Option<(Bytes, PageId)>)
      requires fl.pool == pool && n.Inner? && n.id == id && Shaped(n, h)
      requires Ordered(n, lo, hi) && lo <= Rank(key) < hi && |key| <= MAX_KEY_SIZE
      requires Holds(pool.pages, n) && Separate(n, fl.ids)
      modifies pool, fl
      ensures Executes(old(pool.pages), pool.pages, n, old(fl.ids), fl.ids,
                       TreeModel.Insert(n, h, key, val, old(fl.ids)), status, split)
      decreases h, 0
    {
      hide *;
      InsertInner(n, h, key, val, fl.ids);
      ghost var i0 := Route(n.keys, key);
      OrderedBelow(n, lo, hi, i0);
      RouteBounds(n, lo, hi, key);
      HoldsBelow(pool.pages, n, i0);
      InnerOnPage(pool.pages, n, lo, hi);
      var page := pool.pages[id];
      ghost var before, ids := pool.pages, fl.ids;
      var i := SearchChild(InnerKeys(page.seps), key);
      var childId := ChildAt(page, i);
      ghost var kid := n.kids[i];
      KidSeparate(n, i, ids);
      status, split := Insert(childId, key, val, kid, h - 1, Low(n.keys, lo, i), High(n.keys, hi, i));
      ghost var r := TreeModel.Insert(kid, h - 1, key, val, ids);
      InsertUnfold(n, h, key, val, ids);
      ExecutesStatus(before, pool.pages, kid, ids, fl.ids, r, status, split);
      if status != Done {
        ChildFailed(before, pool.pages, n, i, ids, fl.ids, status, split);
        return;
      }
      AbsorbUnfold(n, i, r);
      match split
      case None =>
        ChildGrew(before, pool.pages, n, i, ids, fl.ids, r);
      case Some((sep, right)) =>
        ghost var m, j := r.right.value.1, KeySlot(n.keys, sep);
        ghost var n' := Expand(n, i, j, r.node, sep, m);
        ghost var between, av := pool.pages, fl.ids;
        ChildUses(kid, h - 1, key, val, ids);
        ChildSplit(before, between, n, i, j, ids, av, r, sep, m);
        NewSeparatorFits(between, n, i, r.node, sep, m);
        status, split := PlaceSeparator(id, sep, right, n');
        ExecutesFrom(before, between, pool.pages, n, ids, n', av, fl.ids, Absorb(n, i, r), status, split);
    }

    /** `insert`. */
    method Insert(id: PageId, key: Bytes, val: Bytes, ghost n: Node, ghost h: nat, ghost lo: real, ghost hi: real)
      returns (status: Status, split: Option<(Bytes, PageId)>)
      requires fl.pool == pool && n.id == id && Shaped(n, h)
      requires Ordered(n, lo, hi) && lo <= Rank(key) < hi && |key| <= MAX_KEY_SIZE
      requires Holds(pool.pages, n) && Separate(n, fl.ids)
      modifies pool, fl
      ensures Executes(old(pool.pages), pool.pages, n, old(fl.ids), fl.ids,
                       TreeModel.Insert(n, h, key, val, old(fl.ids)), status, split)
      decreases h, 1
    {
      match pool.pages[id]
      case LeafPage(_, _) =>
        status, split := InsertLeaf(id, key, val, n);
      case InnerPage(_, _) =>
        status, split := InsertInternal(id, key, val, n, h, lo, hi);
    }

    /** Gives an empty tree a root leaf. */
    method StartTree() returns (ok: bool)
      requires Valid()
      modifies this, pool, fl
      ensures ok == (old(shape).Root? || old(fl.ids) != [])
      ensures shape == old(shape) && (!ok ==> pool.pages == old(pool.pages))
      ensures ok ==>
                && root == StartRoot(shape, old(fl.ids)).id && fl.ids == StartPages(shape, old(fl.ids))
                && pool.pages == (if shape.Empty? then old(pool.pages)[old(fl.ids)[|old(fl.ids)| - 1] := LeafPage([], 0)]
                                  else old(pool.pages))
    {
      if root != 0 {
        return true;
      }
      var id;
      ok, id := fl.Alloc();
      if ok {
        pool.pages := pool.pages[id := LeafPage([], 0)];
        root := id;
      }
    }

    /** Puts a new root above a root that has been split. */
    method GrowRoot(sep: Bytes, right: PageId) returns (status: Status)
      requires fl.pool == pool
      modifies this, pool, fl
      ensures shape == old(shape)
      ensures status == if old(fl.ids) == [] then NoPages
                        else if INNER_CELL_OVERHEAD + |sep| > MAX_CELL_AREA then Panic else Done
      ensures status == Done ==>
                var id := old(fl.ids)[|old(fl.ids)| - 1];
                && root == id && fl.ids == old(fl.ids)[..|old(fl.ids)| - 1]
                && id in pool.pages && pool.pages[id] == InnerPage(old(root), [InnerCell(sep, right)])
      ensures old(fl.ids) == [] ==> pool.pages == old(pool.pages)
      ensures old(fl.ids) != [] ==>
                forall p :: p in old(pool.pages) && p != old(fl.ids)[|old(fl.ids)| - 1] ==>
                              p in pool.pages && pool.pages[p] == old(pool.pages)[p]
    {
      var got, id := fl.Alloc();
      if !got {
        return NoPages;
      }
      SepsOne(sep, right);
      var ok := RewriteInner(id, root, [InnerCell(sep, right)]);
      if !ok {
        return Panic;
      }
      root := id;
      return Done;
    }

    /** `Put`. */
    method Put(key: Bytes, val: Bytes) returns (status: Status)
      requires Valid()
      modifies this, pool, fl
      ensures status == TreeModel.Put(old(shape), key, val, old(fl.ids)).status
      ensures ShapedTree(old(shape)) && (status == Panic <==> PutOverflows(old(shape), key, val, old(fl.ids)))
      ensures status == NoPages <==> PutStarves(old(shape), key, val, old(fl.ids))
      ensures status == EmptyKey <==> key == []
      ensures status == KeyTooLarge <==> |key| > 2021
      ensures old(root) == 0 && 1 <= |key| <= 2021 ==>
                (status == Done <==> |old(fl.ids)| >= 1 + if |val| <= 6 then 0 else (|val| + 4063) / 4064)
      ensures status == Done ==>
                && Valid()
                && shape == TreeModel.Put(old(shape), key, val, old(fl.ids)).tree
                && fl.ids == TreeModel.Put(old(shape), key, val, old(fl.ids)).av
                && Map() == old(Map())[key := val]
      ensures status == EmptyKey || status == KeyTooLarge ==>
                shape == old(shape) && root == old(root) && fl.ids == old(fl.ids) && pool.pages == old(pool.pages)
      ensures UntouchedTree(old(pool.pages), pool.pages, old(shape), old(fl.ids))
    {
      hide *;
      ValidParts();
      ghost var a, ids, t := pool.pages, fl.ids, shape;
      WellFormedIsShaped(t);
      PutCorrect(t, key, val, ids);
      PutIs(t, key, val, ids);
      SameIsUntouched(a, t, ids);
      if key == [] {
        return EmptyKey;
      }
      if |key| > MAX_KEY_SIZE {
        return KeyTooLarge;
      }
      var ok := StartTree();
      if !ok {
        return NoPages;
      }
      ghost var a1, n, h, av := pool.pages, StartRoot(t, ids), Height(t), StartPages(t, ids);
      StartHolds(a, a1, t, ids);
      var split;
      status, split := Insert(root, key, val, n, h, 0.0, 1.0);
      ghost var a2, ids2, r := pool.pages, fl.ids, TreeModel.Insert(n, h, key, val, av);
      InsertTakes(n, h, key, val, av);
      ExecutesStatus(a1, a2, n, av, ids2, r, status, split);
      StartUntouched(a, a1, a2, t, ids, ids2, r, status, split);
      FinishUnfold(t, h, r, ids);
      ChildUses(n, h, key, val, av);
      InsertKeepsId(n, h, key, val, av);
      if status != Done {
        return;
      }
      match split {
        case None =>
          NoNewRoot(a1, a2, n, av, ids2, r, h);
        case Some((sep, right)) =>
          status := GrowRoot(sep, right);
          if ids2 != [] {
            RootUntouched(a, a2, pool.pages, t, ids, ids2, ids2[|ids2| - 1], r, n, av);
          }
          if status != Done {
            return;
          }
          NewRootHolds(a1, a2, pool.pages, n, av, ids2, r, sep, root, h + 1);
      }
      shape := TreeModel.Put(t, key, val, ids).tree;
      MakeValid();
    }

    /** The allocator decides in which order it will hand out its pages. */
    method Reorder(ids: seq<PageId>)
      requires Valid() && forall p: PageId :: Occ(ids, p) == Occ(fl.ids, p)
      modifies fl
      ensures Valid() && shape == old(shape) && Map() == old(Map())
      ensures fl.ids == ids && pool.pages == old(pool.pages)
    {
      hide *;
      ValidParts();
      SamePagesHold(pool.pages, shape, fl.ids, ids);
      fl.ids := ids;
      MakeValid();
    }

    lemma ValidParts()
      requires Valid()
      ensures fl.pool == pool && WellFormed(shape) && HoldsTree(pool.pages, shape, fl.ids)
      ensures root == (if shape.Root? then shape.node.id else 0) && (shape.Root? ==> root != 0)
      ensures Map() == TreeMap(shape)
    {
      hide WellFormed, HoldsTree, TreeMap;
    }

    lemma MakeValid()
      requires fl.pool == pool && WellFormed(shape) && HoldsTree(pool.pages, shape, fl.ids)
      requires root == (if shape.Root? then shape.node.id else 0) && (shape.Root? ==> root != 0)
      ensures Valid() && Map() == TreeMap(shape)
    {
      hide WellFormed, HoldsTree, TreeMap;
    }

    // ---------- deletion ----------

    /** `mergeLeaves`: the right leaf's cells are appended to the left leaf one
        by one, the right page is freed and the separator removed. */
    method MergeLeaves(parentId: PageId, leftId: PageId, rightId: PageId, s: nat) returns (under: bool)
      requires leftId in pool.pages && pool.pages[leftId].LeafPage?
      requires rightId in pool.pages && pool.pages[rightId].LeafPage?
      requires parentId in pool.pages && pool.pages[parentId].InnerPage? && s < |pool.pages[parentId].seps|
      requires parentId != leftId && fl.pool == pool
      modifies pool, fl
      ensures var l, r, p := old(pool.pages)[leftId], old(pool.pages)[rightId], old(pool.pages)[parentId];
              && pool.pages == old(pool.pages)[leftId := LeafPage(l.cells + r.cells, r.next)]
                                              [parentId := InnerPage(p.first, RemoveAt(p.seps, s))]
              && under == InnerPageUnderflow(RemoveAt(p.seps, s))
      ensures fl.ids == old(fl.ids) + [rightId]
    {
      var cells, next := pool.pages[rightId].cells, pool.pages[rightId].next;
      var i := 0;
      ghost var left := pool.pages[leftId];
      assert left.cells + cells[..0] == left.cells;
      while i < |cells|
        invariant i <= |cells| && fl.ids == old(fl.ids)
        invariant pool.pages == old(pool.pages)[leftId := LeafPage(left.cells + cells[..i], left.next)]
      {
        var page := pool.pages[leftId];
        assert left.cells + cells[..i] + [cells[i]] == left.cells + cells[..i + 1];
        pool.pages := pool.pages[leftId := LeafPage(page.cells + [cells[i]], page.next)];
        i := i + 1;
      }
      assert cells[..i] == cells;
      pool.pages := pool.pages[leftId := LeafPage(pool.pages[leftId].cells, next)];
      fl.Free(rightId);
      var parent := pool.pages[parentId];
      var seps := parent.seps[..s] + parent.seps[s + 1..];
      pool.pages := pool.pages[parentId := InnerPage(parent.first, seps)];
      under := InnerPageUnderflow(seps);
    }

    /** `updateParentSeparator`. */
    method UpdateSeparator(parentId: PageId, s: nat, key: Bytes) returns (ok: bool)
      requires parentId in pool.pages && pool.pages[parentId].InnerPage? && s < |pool.pages[parentId].seps|
      modifies pool
      ensures var p := old(pool.pages)[parentId];
              var seps := p.seps[s := InnerCell(key, p.seps[s].child)];
              && ok == (UsedSeps(seps) <= MAX_CELL_AREA)
              && (ok ==> pool.pages == old(pool.pages)[parentId := InnerPage(p.first, seps)])
      ensures forall p :: p in old(pool.pages) && p != parentId ==> p in pool.pages && pool.pages[p] == old(pool.pages)[p]
    {
      var page := pool.pages[parentId];
      var child := page.seps[s].child;
      var rest := page.seps[..s] + page.seps[s + 1..];
      UsedSepsInsert(rest, s, InnerCell(key, child));
      assert InsertAt(rest, s, InnerCell(key, child)) == page.seps[s := InnerCell(key, child)];
      if UsedSeps(rest) + INNER_CELL_OVERHEAD + |key| > MAX_CELL_AREA {
        pool.pages := pool.pages[parentId := InnerPage(page.first, rest)];
        return false;
      }
      pool.pages := pool.pages[parentId := InnerPage(page.first, rest[..s] + [InnerCell(key, child)] + rest[s..])];
      return true;
    }

    /** `redistributeLeafRight`, which both directions share: all cells are
        collected and dealt out again, half to each leaf. */
    method RedistributeLeaves(parentId: PageId, leftId: PageId, rightId: PageId, s: nat) returns (ok: bool)
      requires leftId in pool.pages && pool.pages[leftId].LeafPage?
      requires rightId in pool.pages && pool.pages[rightId].LeafPage?
      requires parentId in pool.pages && pool.pages[parentId].InnerPage? && s < |pool.pages[parentId].seps|
      requires pool.pages[leftId].cells + pool.pages[rightId].cells != []
      requires parentId != leftId && parentId != rightId && leftId != rightId
      modifies pool
      ensures var l, r, p := old(pool.pages)[leftId], old(pool.pages)[rightId], old(pool.pages)[parentId];
              var all := l.cells + r.cells;
              var mid := |all| / 2;
              var seps := p.seps[s := InnerCell(all[mid].key, p.seps[s].child)];
              && ok == (LeafUsed(all[..mid]) <= MAX_CELL_AREA && LeafUsed(all[mid..]) <= MAX_CELL_AREA
                        && UsedSeps(seps) <= MAX_CELL_AREA)
              && (ok ==> pool.pages == old(pool.pages)[leftId := LeafPage(all[..mid], l.next)]
                                                      [rightId := LeafPage(all[mid..], r.next)]
                                                      [parentId := InnerPage(p.first, seps)])
      ensures SameBut(old(pool.pages), pool.pages, parentId, leftId, rightId)
    {
      hide LeafUsed, UsedSeps;
      var left, right := pool.pages[leftId], pool.pages[rightId];
      var all := left.cells + right.cells;
      var mid := |all| / 2;
      ok := RewriteLeaf(leftId, all[..mid], left.next);
      if !ok {
        return;
      }
      ok := RewriteLeaf(rightId, all[mid..], right.next);
      if !ok {
        return;
      }
      ok := UpdateSeparator(parentId, s, all[mid].key);
    }

    /** `mergeInternal`: the separator comes down between the two siblings'. */
    method MergeInners(parentId: PageId, leftId: PageId, rightId: PageId, s: nat) returns (under: bool)
      requires leftId in pool.pages && pool.pages[leftId].InnerPage?
      requires rightId in pool.pages && pool.pages[rightId].InnerPage?
      requires parentId in pool.pages && pool.pages[parentId].InnerPage? && s < |pool.pages[parentId].seps|
      requires parentId != leftId && fl.pool == pool
      requires UsedSeps(pool.pages[leftId].seps) + UsedSeps(pool.pages[rightId].seps) + INNER_CELL_OVERHEAD +
               |pool.pages[parentId].seps[s].key| <= MAX_CELL_AREA
      modifies pool, fl
      ensures var l, r, p := old(pool.pages)[leftId], old(pool.pages)[rightId], old(pool.pages)[parentId];
              && pool.pages == old(pool.pages)[leftId := InnerPage(l.first, l.seps + [InnerCell(p.seps[s].key, r.first)] + r.seps)]
                                              [parentId := InnerPage(p.first, RemoveAt(p.seps, s))]
              && under == InnerPageUnderflow(RemoveAt(p.seps, s))
      ensures fl.ids == old(fl.ids) + [rightId]
    {
      var left, right := pool.pages[leftId], pool.pages[rightId];
      var sep := InnerCell(pool.pages[parentId].seps[s].key, right.first);
      var all := left.seps + [sep] + right.seps;
      UsedSepsJoin(left.seps, sep, right.seps);
      var ok := RewriteInner(leftId, left.first, all);
      fl.Free(rightId);
      var parent := pool.pages[parentId];
      var seps := parent.seps[..s] + parent.seps[s + 1..];
      pool.pages := pool.pages[parentId := InnerPage(parent.first, seps)];
      under := InnerPageUnderflow(seps);
    }

    /** `redistributeInternal`: the middle separator goes back up. */
    method RedistributeInners(parentId: PageId, leftId: PageId, rightId: PageId, s: nat) returns (ok: bool)
      requires leftId in pool.pages && pool.pages[leftId].InnerPage?
      requires rightId in pool.pages && pool.pages[rightId].InnerPage?
      requires parentId in pool.pages && pool.pages[parentId].InnerPage? && s < |pool.pages[parentId].seps|
      requires parentId != leftId && parentId != rightId && leftId != rightId
      modifies pool
      ensures var l, r, p := old(pool.pages)[leftId], old(pool.pages)[rightId], old(pool.pages)[parentId];
              var all := l.seps + [InnerCell(p.seps[s].key, r.first)] + r.seps;
              var mid := |all| / 2;
              var seps := p.seps[s := InnerCell(all[mid].key, p.seps[s].child)];
              && ok == (UsedSeps(all[..mid]) <= MAX_CELL_AREA && UsedSeps(all[mid + 1..]) <= MAX_CELL_AREA
                        && UsedSeps(seps) <= MAX_CELL_AREA)
              && (ok ==> pool.pages == old(pool.pages)[leftId := InnerPage(l.first, all[..mid])]
                                                      [rightId := InnerPage(all[mid].child, all[mid + 1..])]
                                                      [parentId := InnerPage(p.first, seps)])
      ensures SameBut(old(pool.pages), pool.pages, parentId, leftId, rightId)
    {
      hide UsedSeps;
      var left, right := pool.pages[leftId], pool.pages[rightId];
      var sep := InnerCell(pool.pages[parentId].seps[s].key, right.first);
      var all := left.seps + [sep] + right.seps;
      var mid := |all| / 2;
      ok := RewriteInner(leftId, left.first, all[..mid]);
      if !ok {
        return;
      }
      ok := RewriteInner(rightId, all[mid].child, all[mid + 1..]);
      if !ok {
        return;
      }
      ok := UpdateSeparator(parentId, s, all[mid].key);
    }

    /** `tryLeafMergeOrRedist`. */
    method FixLeaves(parentId: PageId, leftId: PageId, rightId: PageId, s: nat, ghost n: Node)
      returns (status: Status, under: bool)
      requires fl.pool == pool && Siblings(n, s) && n.kids[s].Leaf? && n.kids[s + 1].Leaf?
      requires n.id == parentId && n.kids[s].id == leftId && n.kids[s + 1].id == rightId
      requires Holds(pool.pages, n) && Separate(n, fl.ids)
      requires Used(n.kids[s].cells) <= MAX_CELL_AREA && Used(n.kids[s + 1].cells) <= MAX_CELL_AREA
      modifies pool, fl
      ensures Deletes(old(pool.pages), pool.pages, n, old(fl.ids), fl.ids,
                      TreeModel.FixLeaves(n, s, old(fl.ids)), status, under)
    {
      hide Rank, Occ, Uses, Separate, LeafUsed, UsedSeps, Used, UsedKeys, Deletes, SameBut, Contract;
      ghost var a, ids := pool.pages, fl.ids;
      ghost var l, r := n.kids[s], n.kids[s + 1];
      PairIds(n, s, ids);
      assert Holds(a, l) && Holds(a, r);
      StoreUsed(l.cells);
      StoreUsed(r.cells);
      if LeafUsed(pool.pages[leftId].cells) + LeafUsed(pool.pages[rightId].cells) <= MAX_CELL_AREA {
        under := MergeLeaves(parentId, leftId, rightId, s);
        LeavesMerged(a, pool.pages, n, s, ids, under);
        return Done, under;
      }
      TwoCells(l.cells, r.cells);
      DealtLeaves(n, s);
      var ok := RedistributeLeaves(parentId, leftId, rightId, s);
      if !ok {
        PairFailed(a, pool.pages, n, s, ids, fl.ids, false);
        return Panic, false;
      }
      LeavesDealt(a, pool.pages, n, s, ids);
      return Done, false;
    }

    /** `tryInternalMergeOrRedist`. */
    method FixInners(parentId: PageId, leftId: PageId, rightId: PageId, s: nat, ghost n: Node)
      returns (status: Status, under: bool)
      requires fl.pool == pool && Siblings(n, s) && Joinable(n.kids[s], n.kids[s + 1])
      requires n.id == parentId && n.kids[s].id == leftId && n.kids[s + 1].id == rightId
      requires Holds(pool.pages, n) && Separate(n, fl.ids)
      modifies pool, fl
      ensures Deletes(old(pool.pages), pool.pages, n, old(fl.ids), fl.ids,
                      TreeModel.FixInners(n, s, old(fl.ids)), status, under)
    {
      hide *;
      ghost var a, ids := pool.pages, fl.ids;
      PairIds(n, s, ids);
      InnersOnPages(a, n, s);
      FixInnersGoes(n, s, ids);
      ghost var l, r := n.kids[s], n.kids[s + 1];
      if UsedSeps(pool.pages[leftId].seps) + UsedSeps(pool.pages[rightId].seps) + INNER_CELL_OVERHEAD +
         |pool.pages[parentId].seps[s].key| <= MAX_CELL_AREA {
        under := MergeInners(parentId, leftId, rightId, s);
        InnersMerged(a, pool.pages, n, s, ids, under);
        return Done, under;
      }
      DealtInners(n, s);
      var ok := RedistributeInners(parentId, leftId, rightId, s);
      if !ok {
        PairFailed(a, pool.pages, n, s, ids, fl.ids, false);
        return Panic, false;
      }
      InnersDealt(a, pool.pages, n, s, ids, Join(l, n.keys[s], r), |Join(l, n.keys[s], r).keys| / 2);
      return Done, false;
    }

    /** `rebalanceLeaf` and `rebalanceInternal` on child `i` of a page, as
        `deleteInternal` chooses between them by the child's page type. */
    method Rebalance(parentId: PageId, i: nat, ghost n: Node, ghost h: nat) returns (status: Status, under: bool)
      requires fl.pool == pool && Shaped(n, h) && n.Inner? && n.id == parentId && i < |n.kids|
      requires Holds(pool.pages, n) && Separate(n, fl.ids) && Fits(n)
      modifies pool, fl
      ensures Deletes(old(pool.pages), pool.pages, n, old(fl.ids), fl.ids,
                      TreeModel.Rebalance(n, h, i, old(fl.ids)), status, under)
    {
      hide Rank, Occ, Uses, Separate, UsedSeps, UsedKeys, Deletes, TreeModel.FixLeaves, TreeModel.FixInners, Used;
      var page := pool.pages[parentId];
      if |page.seps| == 0 {
        NothingToDo(pool.pages, n, fl.ids);
        return Done, false;
      }
      var s := if i < |page.seps| then i else i - 1;
      var leftId, rightId := ChildAt(page, s), ChildAt(page, s + 1);
      assert Shaped(n.kids[s], h - 1) && Shaped(n.kids[s + 1], h - 1);
      assert Fits(n.kids[s]) && Fits(n.kids[s + 1]);
      assert Holds(pool.pages, n.kids[s]) && Holds(pool.pages, n.kids[s + 1]);
      if pool.pages[ChildAt(page, i)].LeafPage? {
        status, under := FixLeaves(parentId, leftId, rightId, s, n);
      } else {
        status, under := FixInners(parentId, leftId, rightId, s, n);
      }
    }

    /** `deleteLeaf`. */
    method DeleteLeaf(id: PageId, key: Bytes, ghost n: Node, ghost top: PageId) returns (status: Status, under: bool)
      requires fl.pool == pool && n.Leaf? && n.id == id && top == root
      requires Holds(pool.pages, n) && Sorted(n.cells) && Separate(n, fl.ids)
      modifies pool, fl
      ensures Deletes(old(pool.pages), pool.pages, n, old(fl.ids), fl.ids,
                      TreeModel.DeleteLeaf(n, key, old(fl.ids), top), status, under)
    {
      hide Rank, Slot, KeySlot, LeafUsed, Used, Occ, Uses, Separate;
      ghost var a, ids := pool.pages, fl.ids;
      StoredSorted(n.cells);
      StoreKeys(n.cells, key);
      var idx, found := SearchKeys(LeafKeys(pool.pages[id].cells), key);
      if !found {
        return KeyNotFound, false;
      }
      DropCellAt(id, idx, n, ids);
      status := Done;
      under := id != root && LeafPageUnderflow(pool.pages[id].cells);
      LeafShrunk(a, pool.pages, n, ids, idx);
    }

    /** `deleteInternal`. */
    method DeleteInternal(id: PageId, key: Bytes, ghost n: Node, ghost h: nat, ghost top: PageId,
                          ghost lo: real, ghost hi: real, ghost after: PageId)
      returns (status: Status, under: bool)
      requires fl.pool == pool && n.Inner? && n.id == id && Shaped(n, h) && top == root
      requires Ordered(n, lo, hi) && Fits(n) && Chained(n, after)
      requires Holds(pool.pages, n) && Separate(n, fl.ids)
      modifies pool, fl
      ensures Deletes(old(pool.pages), pool.pages, n, old(fl.ids), fl.ids,
                      TreeModel.Delete(n, h, key, old(fl.ids), top), status, under)
      decreases h, 0
    {
      hide *;
      TreeDelete.DeleteInner(n, h, key, fl.ids, top);
      ghost var i0 := Route(n.keys, key);
      OrderedBelow(n, lo, hi, i0);
      ChainedBelow(n, after, i0);
      FitsBelow(n, i0);
      HoldsBelow(pool.pages, n, i0);
      InnerOnPage(pool.pages, n, lo, hi);
      var page := pool.pages[id];
      ghost var a, ids := pool.pages, fl.ids;
      var i := SearchChild(InnerKeys(page.seps), key);
      ghost var kid := n.kids[i];
      ghost var next := After(n.kids, i, after);
      KidSeparate(n, i, ids);
      status, under := Delete(ChildAt(page, i), key, kid, h - 1, top, Low(n.keys, lo, i), High(n.keys, hi, i), next);
      ghost var b, ids1, d := pool.pages, fl.ids, TreeModel.Delete(kid, h - 1, key, ids, top);
      DeletesStatus(a, b, kid, ids, ids1, d, status, under);
      DeleteStatus(kid, h - 1, key, ids, top);
      DeleteFits(kid, h - 1, key, ids, top);
      if status != Done {
        DeleteFailed(a, b, n, i, ids, ids1, status, under);
        return;
      }
      DeleteUses(kid, h - 1, key, ids, top, Low(n.keys, lo, i), High(n.keys, hi, i), next);
      ChildShrank(a, b, n, i, ids, ids1, d, under);
      if !under {
        return;
      }
      ghost var n' := Replace(n, i, d.node);
      ReplaceShaped(n, h, i, d.node);
      ReplaceFits(n, i, d.node);
      RebalancePanics(n', h, i, ids1);
      status, under := Rebalance(id, i, n', h);
      DeletesFrom(a, b, pool.pages, n, ids, n', ids1, fl.ids, TreeModel.Rebalance(n', h, i, ids1), status, under);
    }

    /** `delete`. */
    method Delete(id: PageId, key: Bytes, ghost n: Node, ghost h: nat, ghost top: PageId,
                  ghost lo: real, ghost hi: real, ghost after: PageId)
      returns (status: Status, under: bool)
      requires fl.pool == pool && n.id == id && Shaped(n, h) && top == root
      requires Ordered(n, lo, hi) && Fits(n) && Chained(n, after)
      requires Holds(pool.pages, n) && Separate(n, fl.ids)
      modifies pool, fl
      ensures Deletes(old(pool.pages), pool.pages, n, old(fl.ids), fl.ids,
                      TreeModel.Delete(n, h, key, old(fl.ids), top), status, under)
      decreases h, 1
    {
      match pool.pages[id]
      case LeafPage(_, _) =>
        status, under := DeleteLeaf(id, key, n, top);
      case InnerPage(_, _) =>
        status, under := DeleteInternal(id, key, n, h, top, lo, hi, after);
    }

    /** `collapseRoot`: a root without separators gives way to its only child. */
    method CollapseRoot()
      requires fl.pool == pool && root in pool.pages
      modifies this, fl
      ensures shape == old(shape)
      ensures var page := pool.pages[old(root)];
              if page.InnerPage? && |page.seps| == 0 then root == page.first && fl.ids == old(fl.ids) + [old(root)]
              else root == old(root) && fl.ids == old(fl.ids)
    {
      var page := pool.pages[root];
      if page.InnerPage? && |page.seps| == 0 {
        var oldRoot := root;
        root := page.first;
        fl.Free(oldRoot);
      }
    }

    /** `Delete`. */
    method Remove(key: Bytes) returns (status: Status)
      requires Valid()
      modifies this, pool, fl
      ensures status == TreeModel.Remove(old(shape), key, old(fl.ids)).status
      ensures ShapedTree(old(shape)) && (status == Panic <==> RemoveOverflows(old(shape), key))
      ensures status == Done ==>
                && Valid()
                && shape == TreeModel.Remove(old(shape), key, old(fl.ids)).tree
                && fl.ids == TreeModel.Remove(old(shape), key, old(fl.ids)).av
                && key in old(Map()) && Map() == old(Map()) - {key}
      ensures status == KeyNotFound <==> key != [] && key !in old(Map())
      ensures status == EmptyKey || status == KeyNotFound ==>
                shape == old(shape) && root == old(root) && fl.ids == old(fl.ids) && pool.pages == old(pool.pages)
      ensures UntouchedTree(old(pool.pages), pool.pages, old(shape), old(fl.ids))
    {
      hide TreeModel.Delete, Rank, Deletes, HoldsTree, Uses, Occ, Separate, UntouchedTree, Holds, Ordered, Chained, Fits, RemoveOverflows;
      ghost var a, ids, t := pool.pages, fl.ids, shape;
      WellFormedIsShaped(t);
      RemoveCorrect(t, key, ids);
      SameIsUntouched(a, t, ids);
      if key == [] {
        return EmptyKey;
      }
      if root == 0 {
        return KeyNotFound;
      }
      ghost var n, h := t.node, t.height;
      RootHolds(a, n, h, ids);
      var under;
      status, under := Delete(root, key, n, h, root, 0.0, 1.0, 0);
      ghost var b, ids1, d := pool.pages, fl.ids, TreeModel.Delete(n, h, key, ids, root);
      DeletesStatus(a, b, n, ids, ids1, d, status, under);
      DeleteStatus(n, h, key, ids, root);
      NotFoundUntouched(a, b, n, h, ids);
      if status != Done {
        return;
      }
      DeleteUses(n, h, key, ids, root, 0.0, 1.0, 0);
      RemovedHolds(a, b, n, h, ids, ids1, d, under);
      CollapseRoot();
      shape := TreeModel.Remove(t, key, ids).tree;
    }

    // ---------- reading ----------

    /** `findLeaf`. */
    method FindLeaf(key: Bytes) returns (id: PageId)
      requires Valid() && shape.Root?
      ensures var ls, j := Leaves(shape.node), LeafIndex(shape.node, shape.height, key);
              j < |ls| && id == ls[j].id
    {
      hide Rank, Occ, Uses, Ordered, Chained, Fits, Leaves, LeavesOf, LeafIndex, Holds;
      id := root;
      ghost var ls := Leaves(shape.node);
      ghost var n, h: nat, before: nat, lo, hi := shape.node, shape.height, 0, 0.0, 1.0;
      HeldPage(pool.pages, n);
      while pool.pages[id].InnerPage?
        invariant n.id == id && Shaped(n, h) && Ordered(n, lo, hi) && Holds(pool.pages, n)
        invariant id in pool.pages && pool.pages[id].InnerPage? == n.Inner?
        invariant before + |Leaves(n)| <= |ls| && ls[before..before + |Leaves(n)|] == Leaves(n)
        invariant before + LeafIndex(n, h, key) == LeafIndex(shape.node, shape.height, key)
        decreases h
      {
        var page := pool.pages[id];
        StepDown(pool.pages, n, h, key, lo, hi);
        var i := SearchChild(InnerKeys(page.seps), key);
        id := ChildAt(page, i);
        Descend(ls, before, n, h, i);
        LeafIndexBelow(n, h, key);
        before := before + |LeavesOf(n.kids[..i])|;
        n, h, lo, hi := n.kids[i], h - 1, Low(n.keys, lo, i), High(n.keys, hi, i);
      }
      LeafReached(n, h, key);
    }

    /** The value of a cell, wherever it is kept. */
    method ReadCell(stored: Stored, ghost c: Cell) returns (val: Bytes)
      requires Store(c).val == stored && HoldsValue(pool.pages, c) && Occ(c.chain, 0) == 0
      ensures val == AsRead(c.val)
    {
      match stored
      case Inline(b) =>
        val := b;
      case Overflow(first, len) =>
        val := ReadOverflow(first, len, c.chain, c.val);
    }

    /** `Get`. */
    method Get(key: Bytes) returns (status: Status, val: Bytes)
      requires Valid()
      ensures status == EmptyKey <==> key == []
      ensures status == Done <==> key != [] && key in Map()
      ensures status == KeyNotFound <==> key != [] && key !in Map()
      ensures status == Done ==> val == AsRead(Map()[key])
    {
      hide Rank, Occ, Uses, Ordered, Chained, Fits, Leaves, LeavesOf, LeafIndex, Holds, HoldsValue, Contents, Slot, KeySlot;
      if key == [] {
        return EmptyKey, [];
      }
      if root == 0 {
        NothingStored(key);
        return KeyNotFound, [];
      }
      var id := FindLeaf(key);
      ghost var leaf := Leaves(shape.node)[LeafIndex(shape.node, shape.height, key)];
      GetsFrom(pool.pages, shape, fl.ids, key);
      var page := pool.pages[id];
      var idx, found := SearchKeys(LeafKeys(page.cells), key);
      if !found {
        return KeyNotFound, [];
      }
      status := Done;
      val := ReadCell(page.cells[idx].val, leaf.cells[idx]);
    }
  }
}
