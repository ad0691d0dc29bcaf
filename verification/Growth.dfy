/** Growing the file: `seedNewDB`, `Grow`, `FreePages` and `EnsureFreePages` in
    `db.go`.

    The pages that `Grow` frees have higher IDs than every page managed before,
    so all of them go to the last leaf of the free tree; a leaf that was just
    split takes 168 more before it is split again, so the 16 insertions of one
    growth split at most one leaf. */
module GrowthFacts {
  import opened Bytes
  import opened TreeModel
  import opened TreeView
  import opened TreeInsert
  import opened TreeDelete
  import opened TreeOps
  import opened TreePacked
  import opened PageKeys
  import opened FreelistFacts

  const HALF: nat := 170

  /** How many cells the last leaf has. */
  ghost function LastCount(n: Node): nat {
    match n
    case Leaf(_, cells, _) => |cells|
    case Inner(_, _, kids) => if kids == [] then 0 else LastCount(kids[|kids| - 1])
  }

  ghost predicate LastFull(n: Node) {
    LastCount(n) == MAX_CELLS
  }

  /** The node that ends up last. */
  ghost function LastNode(r: Inserted): Node
    requires r.Inserted?
  {
    if r.right.Some? then r.right.value.1 else r.node
  }

  /** What appending a cell can do: one cell more in the last leaf and no page
      taken, or a split that leaves the last leaf half full. */
  ghost predicate Appended(n: Node, h: nat, av: seq<PageId>, r: Inserted) {
    if LastFull(n) then
      && (r.NotInserted? ==> r.status == NoPages)
      && (r.Inserted? ==> LastCount(LastNode(r)) == HALF)
    else
      r.Inserted? && r.right.None? && r.av == av && LastCount(r.node) == LastCount(n) + 1
  }

  lemma AppendSlot(cells: seq<Cell>, key: Bytes)
    requires AllBelow(cells, key)
    ensures Slot(cells, key) == |cells|
  {
    hide Rank, Slot;
  }

  lemma AppendToLeaf(n: Node, key: Bytes, av: seq<PageId>)
    requires n.Leaf? && FixedCells(n.cells) && |n.cells| <= MAX_CELLS && |key| == KEY_WIDTH
    requires AllBelow(n.cells, key)
    ensures Appended(n, 0, av, InsertLeaf(n, key, [], av))
  {
    var c := NewCell(key, [], av);
    AppendSlot(n.cells, key);
    hide Rank, Slot, AllBelow;
    assert RestCells(n.cells, key) == n.cells && ChainAt(n.cells, key) == [];
    assert WithCell(n, c).cells == n.cells + [c];
    assert av[..|av| - 0] + [] == av;
    UsedFixed(n.cells);
    if LastFull(n) {
      assert FixedCells(n.cells + [c]);
      UsedFixed(WithCell(n, c).cells[..169]);
      UsedFixed(WithCell(n, c).cells[169..]);
    }
  }

  lemma LastEntries(n: Node, k: nat)
    requires n.Inner? && |n.kids| == k + 1
    ensures Entries(n) == EntriesOf(n.kids[..k]) + Entries(n.kids[k])
  {
    EntriesSplit(n.kids, k);
    assert n.kids[k + 1..] == [] && EntriesOf([]) == [];
  }

  /** A key above all entries of a packed node belongs below its last child. */
  lemma AppendRoute(n: Node, h: nat, key: Bytes, lo: real, hi: real)
    requires Shaped(n, h) && n.Inner? && Ordered(n, lo, hi) && AllBelow(Entries(n), key)
    requires Packed(n.kids[|n.keys|], MIN_CELLS, MIN_KEYS)
    ensures Route(n.keys, key) == |n.keys|
    ensures AllBelow(Entries(n.kids[|n.keys|]), key)
    ensures Low(n.keys, lo, |n.keys|) <= Rank(key)
  {
    var k := |n.keys|;
    var last := n.kids[k];
    OrderedBelow(n, lo, hi, k);
    LeastBelow(last, h - 1);
    LeastGrows(0, h - 1);
    assert SortedKeys(n.keys) && High(n.keys, hi, k) == hi && Least(0) == MIN_CELLS;
    hide Rank, Ordered, Packed, Shaped, Route, Least;
    EntriesOrdered(last, Low(n.keys, lo, k), hi);
    LastEntries(n, k);
    var a, e := EntriesOf(n.kids[..k]), Entries(last);
    hide Entries, EntriesOf;
    LowIsBelow(n.keys, lo, key, a, e, hi);
  }

  lemma KeysBelowLow(keys: seq<Bytes>, lo: real)
    requires SortedKeys(keys)
    ensures forall i :: 0 <= i < |keys| ==> Rank(keys[i]) <= Low(keys, lo, |keys|)
  {
    hide Rank;
  }

  lemma LowIsBelow(keys: seq<Bytes>, lo: real, key: Bytes, a: seq<Cell>, e: seq<Cell>, hi: real)
    requires SortedKeys(keys) && e != [] && AllBelow(a + e, key) && Within(e, Low(keys, lo, |keys|), hi)
    ensures Route(keys, key) == |keys| && AllBelow(e, key) && Low(keys, lo, |keys|) <= Rank(key)
  {
    hide Rank, Route;
    forall i | 0 <= i < |e| ensures Rank(e[i].key) < Rank(key) {
      assert (a + e)[|a| + i] == e[i];
    }
    assert Low(keys, lo, |keys|) <= Rank(e[0].key) < Rank(key);
    KeysBelowLow(keys, lo);
    assert !(Route(keys, key) < |keys|);
  }

  /** What splitting the last child does to its parent. */
  lemma AbsorbLast(n: Node, r: Inserted, lo: real, hi: real)
    requires n.Inner? && |n.kids| == |n.keys| + 1 && r.Inserted? && SortedKeys(n.keys)
    requires r.right.Some? ==> Low(n.keys, lo, |n.keys|) < Rank(r.right.value.0)
    requires r.right.Some? ==> |n.keys| >= 1
    ensures var q := Absorb(n, |n.keys|, r);
            && (q.Inserted? ==> LastCount(LastNode(q)) == LastCount(LastNode(r)))
            && (r.right.None? ==> q == Inserted(q.node, None, r.av))
  {
    hide Rank, KeySlot, UsedKeys;
    match r.right
    case None =>
    case Some((sep, right)) =>
      SlotIsLast(n.keys, sep, lo);
      var m := Expand(n, |n.keys|, |n.keys|, r.node, sep, right);
      assert m.kids[|m.kids| - 1] == right;
      if |m.keys| > 1 {
        var mid := |m.keys| / 2;
        assert RightPart(m, mid, 0).kids[|m.kids| - 1 - (mid + 1)] == right;
      }
  }

  lemma SlotIsLast(keys: seq<Bytes>, sep: Bytes, lo: real)
    requires SortedKeys(keys) && Low(keys, lo, |keys|) < Rank(sep)
    ensures KeySlot(keys, sep) == |keys|
  {
    hide Rank, KeySlot;
    KeysBelowLow(keys, lo);
    assert !(KeySlot(keys, sep) < |keys|);
  }

  lemma {:induction false} InsertAppends(n: Node, h: nat, key: Bytes, av: seq<PageId>, lo: real, hi: real,
                                         minCells: nat, minKeys: nat)
    requires Shaped(n, h) && Ordered(n, lo, hi) && lo <= Rank(key) < hi
    requires Packed(n, minCells, minKeys) && minKeys >= 1 && |key| == KEY_WIDTH && AllBelow(Entries(n), key)
    ensures Appended(n, h, av, Insert(n, h, key, [], av))
    decreases h
  {
    hide *;
    if n.Leaf? {
      InsertIntoLeaf(n, h, key, [], av);
      PackedLeaf(n, minCells, minKeys);
      AppendToLeaf(n, key, av);
    } else {
      InsertInner(n, h, key, [], av);
      PackedLast(n, minCells, minKeys);
      var k := |n.keys|;
      OrderedBelow(n, lo, hi, k);
      AppendRoute(n, h, key, lo, hi);
      InsertAppends(n.kids[k], h - 1, key, av, Low(n.keys, lo, k), High(n.keys, hi, k), MIN_CELLS, MIN_KEYS);
      InsertOrdered(n.kids[k], h - 1, key, [], av, Low(n.keys, lo, k), High(n.keys, hi, k));
      InsertPacked(n, h, key, av, minCells, minKeys);
      AppendedUp(n, h, av, Insert(n.kids[k], h - 1, key, [], av), Insert(n, h, key, [], av), lo, hi, minCells, minKeys);
    }
  }

  lemma PackedLeaf(n: Node, minCells: nat, minKeys: nat)
    requires n.Leaf? && Packed(n, minCells, minKeys)
    ensures FixedCells(n.cells) && |n.cells| <= MAX_CELLS
  {
  }

  lemma PackedLast(n: Node, minCells: nat, minKeys: nat)
    requires n.Inner? && Packed(n, minCells, minKeys) && |n.kids| == |n.keys| + 1 && minKeys >= 1
    ensures |n.keys| >= 1 && Packed(n.kids[|n.keys|], MIN_CELLS, MIN_KEYS) && MIN_KEYS >= 1 && MAX_KEY_SIZE >= KEY_WIDTH
    ensures forall hi: real :: High(n.keys, hi, |n.keys|) == hi
  {
    hide Packed;
    PackedBelowTop(n, minCells, minKeys);
  }

  lemma PackedBelowTop(n: Node, minCells: nat, minKeys: nat)
    requires n.Inner? && Packed(n, minCells, minKeys)
    ensures minKeys <= |n.keys| && forall i :: 0 <= i < |n.kids| ==> Packed(n.kids[i], MIN_CELLS, MIN_KEYS)
  {
  }

  /** What an insertion at the end of the last child makes of its parent. */
  lemma AppendedUp(n: Node, h: nat, av: seq<PageId>, r: Inserted, q: Inserted, lo: real, hi: real, minCells: nat, minKeys: nat)
    requires h > 0 && n.Inner? && |n.kids| == |n.keys| + 1 && |n.keys| >= 1 && Ordered(n, lo, hi)
    requires Appended(n.kids[|n.keys|], h - 1, av, r)
    requires OrderedResult(r, Low(n.keys, lo, |n.keys|), hi) && PackedResult(q, minCells, minKeys)
    requires q == if r.NotInserted? then r else Absorb(n, |n.keys|, r)
    ensures Appended(n, h, av, q)
  {
    OrderedParts(n, r, lo, hi);
    hide Rank, Absorb, Ordered, OrderedResult, Packed;
    if r.Inserted? {
      AbsorbLast(n, r, lo, hi);
    }
  }

  lemma OrderedParts(n: Node, r: Inserted, lo: real, hi: real)
    requires n.Inner? && |n.kids| == |n.keys| + 1 && Ordered(n, lo, hi) && OrderedResult(r, Low(n.keys, lo, |n.keys|), hi)
    ensures SortedKeys(n.keys)
    ensures r.Inserted? && r.right.Some? ==> Low(n.keys, lo, |n.keys|) < Rank(r.right.value.0)
  {
    hide Rank;
  }

  ghost function LastOf(t: Shape): nat {
    if t.Root? then LastCount(t.node) else 0
  }

  /** The most pages that growing a tree by fewer than 169 cells at its end can
      take: one for a first root, or one per level and one for a new root. */
  ghost function GrowthCost(t: Shape): nat {
    if t.Empty? then 1 else t.height + 2
  }

  lemma FinishAppend(t: Shape, h: nat, r: Inserted, av: seq<PageId>)
    requires r.Inserted? && Finish(t, h, r, av).status == Done
    ensures var o := Finish(t, h, r, av); o.tree.Root? && LastOf(o.tree) == LastCount(LastNode(r))
    ensures r.right.None? ==> Finish(t, h, r, av) == Outcome(Done, Root(r.node, h), r.av)
  {
  }

  /** A key above all others goes into the last leaf, and takes pages only if
      that leaf is full. */
  lemma PutAppends(t: Shape, key: Bytes, av: seq<PageId>)
    requires WellFormed(t) && PackedTree(t) && |key| == KEY_WIDTH && AllBelow(TreeCells(t), key)
    ensures var o := Put(t, key, [], av);
            && (t.Root? && !LastFull(t.node) ==>
                  && o.status == Done && o.av == av && o.tree.Root?
                  && Height(o.tree) == Height(t) && LastOf(o.tree) == LastOf(t) + 1)
            && (t.Root? && LastFull(t.node) && o.status == Done ==> o.tree.Root? && LastOf(o.tree) == HALF)
            && (t.Empty? && o.status == Done ==>
                  && o.tree.Root? && LastOf(o.tree) == 1 && |o.av| == |av| - 1)
  {
    if t.Root? || av != [] {
      var root, h, av0 := StartRoot(t, av), Height(t), StartPages(t, av);
      InsertAppends(root, h, key, av0, 0.0, 1.0, 0, 1);
      hide Insert, Rank, WellFormed, PackedTree, AllBelow;
      var r := Insert(root, h, key, [], av0);
      if r.Inserted? && Finish(t, h, r, av).status == Done {
        FinishAppend(t, h, r, av);
      }
    }
  }

  // ---------- one growth ----------

  /** Where a growth of tree `t0` stands after `i` insertions that took `taken`
      pages: none so far, or one split (or first page), after which the last
      leaf has room. */
  ghost predicate Growing(t0: Shape, t: Shape, i: nat, taken: nat) {
    || (taken == 0 && Height(t) == Height(t0) && (t.Empty? <==> t0.Empty?))
    || (taken <= GrowthCost(t0) && t.Root? && LastOf(t) <= HALF + i)
  }

  /** One more insertion.  Four pages are enough for it if the tree had depth 3
      or less when the growth began. */
  lemma GrowStep(t0: Shape, t: Shape, ids: seq<PageId>, held: set<PageId>, all: set<PageId>, id: PageId, i: nat, taken: nat)
    requires Partition(t, ids, held, all) && id in held
    requires Growing(t0, t, i, taken) && i < MAX_CELLS - HALF && |ids| >= RESERVE_TARGET
    requires id < ID_LIMIT && AllBelow(TreeCells(t), PageIDToKey(id))
    ensures ShapedTree(t)
    ensures var o := Put(t, PageIDToKey(id), [], ids);
            && (Height(t0) <= 2 ==> o.status == Done)
            && (o.status == Done ==> |o.av| <= |ids| && Growing(t0, o.tree, i + 1, taken + |ids| - |o.av|))
  {
    var key := PageIDToKey(id);
    GiveToTree(t, ids, held, all, id);
    PutAppends(t, key, ids);
    hide WellFormed, PackedTree, Put, PageIDToKey, AllBelow, Places;
    if Put(t, key, [], ids).status == Done {
      PutTakes(t, key, ids);
    }
  }

  /** An ID above all managed ones sorts behind every key of the tree. */
  lemma NewIdIsLast(t: Shape, ids: seq<PageId>, held: set<PageId>, all: set<PageId>, id: PageId)
    requires Partition(t, ids, held, all) && id < ID_LIMIT
    requires forall p :: p in all ==> p < id || p == id
    requires id in held || id !in all
    ensures AllBelow(TreeCells(t), PageIDToKey(id))
  {
    hide Rank, WellFormed, PackedTree, PageIDToKey, KeyToPageID, Contents, TreeCells, Places;
    var cells := TreeCells(t);
    FreeCells(t);
    ContentsAt(cells);
    forall i | 0 <= i < |cells| ensures Rank(cells[i].key) < Rank(PageIDToKey(id)) {
      var c := cells[i];
      assert FixedCell(c) && c in cells;
      var p := KeyToPageID(c.key);
      KeysAreIds(p, c.key);
      assert Listed(t, p);
      ListedIsManaged(t, ids, held, all, p);
      KeysAreIds(p, PageIDToKey(id));
      KeysAreIds(id, PageIDToKey(id));
    }
  }

  /** What `Free` did with a page that was not managed before. */
  ghost predicate FreedAs(t: Shape, ids: seq<PageId>, id: PageId, ok: bool, t': Shape, ids': seq<PageId>)
    requires ShapedTree(t) && 0 < id < ID_LIMIT
  {
    var o := Put(t, PageIDToKey(id), [], ids);
    && ok == (|ids| < RESERVE_TARGET || o.status == Done)
    && (ok && |ids| < RESERVE_TARGET ==> t' == t && ids' == ids + [id])
    && (ok && |ids| >= RESERVE_TARGET ==> t' == o.tree && ids' == o.av && |TreeCells(t')| == |TreeCells(t)| + 1)
  }

  ghost function FreeTotal(t: Shape, ids: seq<PageId>): nat {
    |TreeCells(t)| + |ids|
  }

  /** One round of a growth: the new page is free now, less the pages that the
      tree took. */
  lemma FreedNew(t0: Shape, t: Shape, ids: seq<PageId>, held: set<PageId>, all: set<PageId>, id: PageId, i: nat, taken: nat,
                 ok: bool, t': Shape, ids': seq<PageId>)
    returns (taken': nat)
    requires Partition(t, ids, held, all) && 0 < id < ID_LIMIT && forall p :: p in all ==> p < id
    requires Growing(t0, t, i, taken) && i < MAX_CELLS - HALF
    requires ShapedTree(t) && FreedAs(t, ids, id, ok, t', ids')
    ensures Height(t0) <= 2 ==> ok
    ensures ok ==> Growing(t0, t', i + 1, taken') && FreeTotal(t', ids') + taken' == FreeTotal(t, ids) + taken + 1
  {
    taken' := taken;
    if |ids| >= RESERVE_TARGET {
      Adopt(t, ids, held, all, id);
      NewIdIsLast(t, ids, held, all, id);
      hide WellFormed, PackedTree, Put, PageIDToKey, AllBelow, Places, TreeCells;
      GrowStep(t0, t, ids, held + {id}, all + {id}, id, i, taken);
      if ok {
        taken' := taken + |ids| - |ids'|;
      }
    }
  }

  // ---------- how deep a free tree can be ----------

  lemma {:induction false} LeastPower(h: nat)
    ensures Least(h) >= MIN_CELLS
  {
    if h > 0 {
      LeastPower(h - 1);
    }
  }

  lemma LeastTen()
    ensures 2 * Least(10) > ID_LIMIT
  {
    assert Least(2) == 285_940;
    assert Least(4) == 58 * 58 * Least(2);
    assert Least(6) == 58 * 58 * Least(4);
    assert Least(8) == 58 * 58 * Least(6);
    assert Least(10) == 58 * 58 * Least(8);
  }

  /** Sorted 8-byte keys are no more than there are IDs. */
  lemma {:induction false} KeysRunOut(cells: seq<Cell>)
    requires Sorted(cells) && FixedCells(cells) && cells != []
    ensures |cells[|cells| - 1].key| == 8 && |cells| <= KeyToPageID(cells[|cells| - 1].key) + 1
  {
    hide Rank, KeyToPageID;
    var n := |cells| - 1;
    assert FixedCell(cells[n]);
    if n > 0 {
      assert FixedCell(cells[n - 1]);
      KeysRunOut(cells[..n]);
      assert cells[..n][n - 1] == cells[n - 1];
      KeysAreIds(KeyToPageID(cells[n - 1].key), cells[n].key);
      KeysAreIds(0, cells[n - 1].key);
    }
  }

  /** No tree of distinct 8-byte keys is more than 11 levels deep. */
  lemma DepthLimit(t: Shape)
    requires WellFormed(t) && PackedTree(t)
    ensures Height(t) <= 10
  {
    if Height(t) >= 11 {
      var h := t.height - 1;
      FreeCells(t);
      LeastOf(t.node.kids, h);
      LeastGrows(10, h);
      LeastTen();
      LeastPower(h);
      TimesTwo(|t.node.kids|, Least(h));
      hide Rank, Least, Sorted;
      KeysRunOut(TreeCells(t));
      assert false;
    }
  }
}

module Growth {
  import opened TreeModel
  import opened TreeView
  import opened TreeOps
  import opened TreePacked
  import opened Pages
  import opened BTreeFacts
  import opened BTree
  import opened PageKeys
  import opened FreelistFacts
  import opened Freelist
  import opened GrowthFacts

  const GROWTH_CHUNK: nat := 16
  const RESERVE_PAGE_COUNT: nat := 8

  function Range(lo: nat, hi: nat): (r: set<PageId>)
    ensures forall p :: p in r <==> lo <= p < hi
  {
    if lo >= hi then {} else Range(lo, hi - 1) + {hi - 1}
  }

  /** A growth under way: `all0` and the IDs from `low` to `id` are managed,
      and the tree, `t0` at the start, has taken `taken` pages. */
  ghost predicate Grows(f: BTreeFreelist, t0: Shape, held: set<PageId>, all0: set<PageId>, low: nat, id: nat, i: nat, taken: nat)
    reads f, f.tree, f.pool, f.reserve
  {
    && f.Valid() && f.held == held && f.all == all0 + Range(low, id)
    && 2 <= low <= id <= ID_LIMIT && (forall p :: p in all0 ==> p < low)
    && Growing(t0, f.tree.shape, i, taken)
  }

  /** One round of a growth. */
  method FreeNext(f: BTreeFreelist, id: PageId, ghost t0: Shape, ghost held: set<PageId>, ghost all0: set<PageId>,
                  ghost low: nat, ghost i: nat, ghost taken: nat)
    returns (ok: bool, ghost taken': nat)
    requires Grows(f, t0, held, all0, low, id, i, taken) && id < ID_LIMIT && i < 16
    modifies f, f.tree, f.pool, f.reserve
    ensures Height(t0) <= 2 ==> ok
    ensures ok ==>
              && Grows(f, t0, held, all0, low, id + 1, i + 1, taken')
              && f.FreePages() + taken' == old(f.FreePages()) + taken + 1
    ensures ClientsKept(old(f.pool.pages), f.pool.pages, held)
  {
    hide *;
    ghost var t, ids, all := f.tree.shape, f.reserve.ids, f.all;
    RoundStarts(f, t0, held, all0, low, id, i, taken);
    ListingsAre(f);
    GivenIs(f.held, all, id);
    ok := f.Free(id);
    ListingsAre(f);
    WasFreed(t, ids, id, ok, f.tree.shape, f.reserve.ids);
    taken' := FreedNew(t0, t, ids, held, all, id, i, taken, ok, f.tree.shape, f.reserve.ids);
    if ok {
      RoundEnds(f, t0, held, all0, low, id, i, taken');
    }
  }

  lemma ListingsAre(f: BTreeFreelist)
    ensures f.Listings() == |TreeCells(f.tree.shape)|
  {
  }

  lemma RoundStarts(f: BTreeFreelist, t0: Shape, held: set<PageId>, all0: set<PageId>, low: nat, id: PageId, i: nat, taken: nat)
    requires Grows(f, t0, held, all0, low, id, i, taken) && id < ID_LIMIT && i < 16
    ensures f.Valid() && f.held == held && Growing(t0, f.tree.shape, i, taken)
    ensures Partition(f.tree.shape, f.reserve.ids, f.held, f.all) && id !in f.all && 0 < id < ID_LIMIT
    ensures forall p :: p in f.all ==> p < id
    ensures f.FreePages() == FreeTotal(f.tree.shape, f.reserve.ids)
    ensures held - {id} == held && i < MAX_CELLS - HALF
    ensures f.all + {id} == all0 + Range(low, id + 1)
    ensures 2 <= low <= id && forall p :: p in all0 ==> p < low
  {
    if id in f.held {
      HeldNotListed(f.tree.shape, f.reserve.ids, f.held, f.all, id);
      assert false;
    }
  }

  lemma RoundEnds(f: BTreeFreelist, t0: Shape, held: set<PageId>, all0: set<PageId>, low: nat, id: PageId, i: nat, taken: nat)
    requires f.Valid() && f.held == held && f.all == all0 + Range(low, id + 1) && 2 <= low <= id < ID_LIMIT
    requires (forall p :: p in all0 ==> p < low) && Growing(t0, f.tree.shape, i + 1, taken)
    ensures Grows(f, t0, held, all0, low, id + 1, i + 1, taken)
    ensures f.FreePages() == FreeTotal(f.tree.shape, f.reserve.ids)
  {
  }

  /** The part of a database that grows its file. */
  class Database {
    const fl: BTreeFreelist
    var pageCount: nat

    /** `seedNewDB` on a new file of one growth chunk: pages 0 and 1 are meta
        pages, the next eight go to the reserve and the others are freed. */
    constructor Seed(pool: Pool)
      modifies pool
      ensures Valid() && fresh(fl) && fresh(fl.tree) && fresh(fl.reserve) && fl.pool == pool
      ensures pageCount == 16
      ensures fl.held == {} && fl.all == Range(2, 16) && fl.FreePages() >= 13
    {
      hide *;
      SeedSizes();
      var allFree: seq<PageId> := seq(GROWTH_CHUNK - 2, i requires 0 <= i < GROWTH_CHUNK - 2 => i + 2);
      var reserve, rest := allFree[..RESERVE_PAGE_COUNT], allFree[RESERVE_PAGE_COUNT..];
      assert reserve == [2, 3, 4, 5, 6, 7, 8, 9];
      SeedIsFine(reserve);
      var f := new BTreeFreelist.Open(pool, reserve);
      fl := f;
      pageCount := GROWTH_CHUNK;
      new;
      ghost var taken: nat := 0;
      SeedStarts(fl, reserve);
      for i := 0 to |rest|
        invariant pageCount == GROWTH_CHUNK
        invariant Grows(fl, Empty, {}, {}, 2, i + 10, i, taken)
        invariant fl.FreePages() + taken == i + 8
        invariant fresh(fl) && fresh(fl.tree) && fresh(fl.reserve)
      {
        assert rest[i] == i + 10;
        var ok;
        ok, taken := FreeNext(fl, rest[i], Empty, {}, {}, 2, i, taken);
      }
      SeedEnds(this, taken);
    }

    ghost predicate Valid()
      reads this, fl, fl.tree, fl.pool, fl.reserve
    {
      fl.Valid() && 2 <= pageCount <= ID_LIMIT && forall p :: p in fl.all ==> p < pageCount
    }

    /** `Grow`: sixteen new pages, all of them freed. */
    method Grow() returns (ok: bool)
      requires Valid() && pageCount + 16 <= ID_LIMIT
      modifies this, fl, fl.tree, fl.pool, fl.reserve
      ensures pageCount == old(pageCount) + 16
      ensures ok ==>
                && Valid() && fl.held == old(fl.held)
                && fl.all == old(fl.all) + Range(old(pageCount), pageCount)
                && fl.FreePages() >= old(fl.FreePages()) + 16 - if old(fl.tree.shape).Empty? then 1 else old(fl.tree.shape).height + 2
      ensures Height(old(fl.tree.shape)) <= 2 ==> ok
      ensures ClientsKept(old(fl.pool.pages), fl.pool.pages, old(fl.held))
    {
      assert pageCount + 16 <= ID_LIMIT;
      hide *;
      ghost var t0, pages, held, all := fl.tree.shape, fl.pool.pages, fl.held, fl.all;
      ghost var taken: nat := 0;
      GrowStarts(this);
      var oldCount := pageCount;
      var newCount := oldCount + GROWTH_CHUNK;
      pageCount := newCount;
      var pgID := oldCount;
      while pgID < newCount
        invariant oldCount <= pgID <= newCount && pageCount == newCount
        invariant Grows(fl, t0, held, all, oldCount, pgID, pgID - oldCount, taken)
        invariant fl.FreePages() + taken == old(fl.FreePages()) + pgID - oldCount
        invariant ClientsKept(pages, fl.pool.pages, held)
      {
        ghost var before := fl.pool.pages;
        ok, taken := FreeNext(fl, pgID, t0, held, all, oldCount, pgID - oldCount, taken);
        KeptTwice(pages, before, fl.pool.pages, held);
        if !ok {
          return;
        }
        pgID := pgID + 1;
      }
      GrowEnds(this, t0, held, all, oldCount, taken);
      return true;
    }

    /** `FreePages`. */
    method CountFree() returns (n: nat)
      requires Valid()
      ensures n == fl.FreePages()
    {
      n := fl.FreeCount();
    }

    /** `EnsureFreePages`: grows the file until at least `n` pages are free.  It
        terminates for every `n`; for up to 571,880 pages it succeeds, and it
        grows by no more than the missing pages and a third of them. */
    method EnsureFreePages(n: nat) returns (ok: bool)
      requires Valid() && pageCount + 4 * n + 16 <= ID_LIMIT
      modifies this, fl, fl.tree, fl.pool, fl.reserve
      ensures ok ==> Valid() && fl.FreePages() >= n && fl.held == old(fl.held)
      ensures n <= 571_880 ==> ok
      ensures old(fl.FreePages()) >= n ==> ok && pageCount == old(pageCount)
      ensures old(fl.FreePages()) < n <= 571_880 ==> 12 * (pageCount - old(pageCount)) <= 16 * (n - old(fl.FreePages()) + 11)
    {
      hide *;
      EnsureStarts();
      ghost var free0 := fl.FreePages();
      var count := CountFree();
      while count < n
        invariant Valid() && fl.held == old(fl.held) && count == fl.FreePages() && old(pageCount) <= pageCount
        invariant pageCount <= old(pageCount) + 4 * (fl.FreePages() - free0) && free0 <= fl.FreePages()
        invariant free0 >= n ==> pageCount == old(pageCount)
        invariant n <= ROOMY && count < n ==> 12 * (pageCount - old(pageCount)) <= 16 * (fl.FreePages() - free0)
        invariant n <= ROOMY && free0 < n <= count ==> 12 * (pageCount - old(pageCount)) <= 16 * (n - free0 + 11)
        decreases n - count
      {
        CostBound(this);
        ok := Grow();
        if !ok {
          return;
        }
        count := CountFree();
      }
      return true;
    }
  }

  // ---------- glue ----------

  lemma SeedSizes()
    ensures GROWTH_CHUNK == 16 && RESERVE_PAGE_COUNT == 8
  {
  }

  lemma SeedIsFine(pages: seq<PageId>)
    requires pages == [2, 3, 4, 5, 6, 7, 8, 9]
    ensures forall p: PageId :: Occ(pages, p) <= 1
    ensures forall i :: 0 <= i < |pages| ==> 0 < pages[i] < ID_LIMIT
  {
    forall p: PageId ensures Occ(pages, p) <= 1 {
      OccRange(pages, 2, p);
    }
  }

  lemma {:induction false} OccRange(pages: seq<PageId>, lo: nat, p: PageId)
    requires forall i :: 0 <= i < |pages| ==> pages[i] == lo + i
    ensures Occ(pages, p) == if lo <= p < lo + |pages| then 1 else 0
  {
    if pages != [] {
      OccRange(pages[1..], lo + 1, p);
    }
  }

  lemma SeedStarts(f: BTreeFreelist, pages: seq<PageId>)
    requires f.Valid() && pages == [2, 3, 4, 5, 6, 7, 8, 9] && f.reserve.ids == pages && f.tree.shape == Empty
    requires f.held == {} && f.all == set p | p in pages
    ensures Grows(f, Empty, {}, {}, 2, 10, 0, 0) && f.FreePages() == 8
    ensures GROWTH_CHUNK == 16 && 16 < ID_LIMIT && Height(Empty) <= 2
  {
    assert f.all == {} + Range(2, 10);
  }

  lemma SeedEnds(db: Database, taken: nat)
    requires Grows(db.fl, Empty, {}, {}, 2, 16, 6, taken) && db.pageCount == 16
    ensures db.Valid() && taken <= 1 && db.fl.held == {} && db.fl.all == Range(2, GROWTH_CHUNK)
  {
    hide BTreeFreelist.Valid;
    assert {} + Range(2, 16) == Range(2, 16);
  }

  lemma WasFreed(t: Shape, ids: seq<PageId>, id: PageId, ok: bool, t': Shape, ids': seq<PageId>)
    requires ShapedTree(t) && 0 < id < ID_LIMIT
    requires var o := Put(t, PageIDToKey(id), [], ids);
             && ok == (id != 0 && (|ids| < 4 || o.status == Done))
             && (ok && |ids| < 4 ==> t' == t && ids' == ids + [id])
             && (ok && |ids| >= 4 ==> t' == o.tree && ids' == o.av && |TreeCells(t')| == |TreeCells(t)| + 1)
    ensures FreedAs(t, ids, id, ok, t', ids')
  {
  }

  lemma GrowStarts(db: Database)
    requires db.Valid()
    ensures GROWTH_CHUNK == 16 && 2 <= db.pageCount
    ensures Grows(db.fl, db.fl.tree.shape, db.fl.held, db.fl.all, db.pageCount, db.pageCount, 0, 0)
    ensures ClientsKept(db.fl.pool.pages, db.fl.pool.pages, db.fl.held)
  {
    assert db.fl.all + Range(db.pageCount, db.pageCount) == db.fl.all;
  }

  lemma GrowEnds(db: Database, t0: Shape, held: set<PageId>, all0: set<PageId>, low: nat, taken: nat)
    requires Grows(db.fl, t0, held, all0, low, low + 16, 16, taken) && db.pageCount == low + 16
    ensures db.Valid() && db.fl.held == held && db.fl.all == all0 + Range(low, low + 16)
    ensures taken <= GrowthCost(t0) == if t0.Empty? then 1 else t0.height + 2
  {
  }

  lemma EnsureStarts()
    ensures GROWTH_CHUNK == 16 && ROOMY == 571_880
  {
  }

  /** A growth costs at most 12 pages, and at most 4 if few are free. */
  lemma CostBound(db: Database)
    requires db.Valid()
    ensures GrowthCost(db.fl.tree.shape) == (if db.fl.tree.shape.Empty? then 1 else db.fl.tree.shape.height + 2) <= 12
    ensures db.fl.FreePages() < ROOMY ==> Height(db.fl.tree.shape) <= 2 && GrowthCost(db.fl.tree.shape) <= 4
  {
    var t := db.fl.tree.shape;
    Opened(db.fl);
    DepthLimit(t);
    if db.fl.FreePages() < ROOMY {
      DepthBound(t);
    }
  }
}
