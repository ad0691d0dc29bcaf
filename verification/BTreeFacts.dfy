/** Facts about heaps of pages that the methods of `BTree` rest on. */
module BTreeFacts {
  import opened Bytes
  import opened TreeModel
  import opened TreeView
  import opened TreeSurgery
  import opened TreeInsert
  import opened TreeDelete
  import opened TreeOps
  import opened Pages

  lemma KeySlotIs(keys: seq<Bytes>, key: Bytes, i: nat)
    requires i <= |keys|
    requires forall j :: 0 <= j < i ==> Rank(keys[j]) < Rank(key)
    requires i < |keys| ==> Rank(key) <= Rank(keys[i])
    ensures KeySlot(keys, key) == i
  {
    var k := KeySlot(keys, key);
    assert !(k < i) && !(i < k);
  }

  lemma RouteIs(keys: seq<Bytes>, key: Bytes, i: nat)
    requires i <= |keys|
    requires forall j :: 0 <= j < i ==> Rank(keys[j]) <= Rank(key)
    requires i < |keys| ==> Rank(key) < Rank(keys[i])
    ensures Route(keys, key) == i
  {
    var k := Route(keys, key);
    assert !(k < i) && !(i < k);
  }

  /** The cells of a leaf with one cell inserted, or replaced. */
  function PutStored(cells: seq<LeafCell>, c: LeafCell): seq<LeafCell> {
    var i := KeySlot(LeafKeys(cells), c.key);
    if i < |cells| && cells[i].key == c.key then cells[i := c] else InsertAt(cells, i, c)
  }

  function ChildAt(page: Page, i: nat): PageId
    requires page.InnerPage? && i <= |page.seps|
  {
    if i == 0 then page.first else page.seps[i - 1].child
  }

  function UsedSeps(seps: seq<InnerCell>): nat {
    UsedKeys(InnerKeys(seps))
  }

  predicate LeafPageUnderflow(cells: seq<LeafCell>) {
    |cells| > 0 && LeafUsed(cells) < UNDERFLOW_THRESHOLD
  }

  predicate InnerPageUnderflow(seps: seq<InnerCell>) {
    |seps| > 0 && UsedSeps(seps) < UNDERFLOW_THRESHOLD
  }

  lemma {:induction false} LeafUsedConcat(a: seq<LeafCell>, b: seq<LeafCell>)
    ensures LeafUsed(a + b) == LeafUsed(a) + LeafUsed(b)
  {
    if a == [] {
      assert a + b == b;
    } else {
      assert (a + b)[1..] == a[1..] + b;
      LeafUsedConcat(a[1..], b);
    }
  }

  lemma UsedSepsMore(seps: seq<InnerCell>, c: InnerCell)
    ensures UsedSeps(seps + [c]) == UsedSeps(seps) + INNER_CELL_OVERHEAD + |c.key|
  {
    assert InnerKeys(seps + [c]) == InnerKeys(seps) + [c.key];
    UsedKeysConcat(InnerKeys(seps), [c.key]);
    assert [c.key][1..] == [] && UsedKeys([c.key][1..]) == 0;
  }

  lemma LeafUsedSingle(c: LeafCell)
    ensures LeafUsed([c]) == LeafCellSize(c)
  {
    assert [c][1..] == [] && LeafUsed([c][1..]) == 0;
  }

  lemma LeafUsedPrefix(cells: seq<LeafCell>, i: nat)
    requires i < |cells|
    ensures LeafUsed(cells[..i + 1]) == LeafUsed(cells[..i]) + LeafCellSize(cells[i]) <= LeafUsed(cells)
  {
    hide LeafUsed, LeafCellSize;
    LeafUsedConcat(cells[..i], [cells[i]]);
    LeafUsedConcat(cells[..i + 1], cells[i + 1..]);
    LeafUsedSingle(cells[i]);
    Around(cells, i);
  }

  lemma UsedSepsPrefix(seps: seq<InnerCell>, i: nat)
    requires i < |seps|
    ensures UsedSeps(seps[..i + 1]) == UsedSeps(seps[..i]) + INNER_CELL_OVERHEAD + |seps[i].key| <= UsedSeps(seps)
  {
    UsedSepsMore(seps[..i], seps[i]);
    assert seps[..i + 1] == seps[..i] + [seps[i]];
    assert InnerKeys(seps) == InnerKeys(seps[..i + 1]) + InnerKeys(seps[i + 1..]);
    UsedKeysConcat(InnerKeys(seps[..i + 1]), InnerKeys(seps[i + 1..]));
  }

  ghost predicate ChunksHeld(pages: Heap, chain: seq<PageId>, val: Bytes) {
    forall j :: 0 <= j < |chain| ==> HoldsChunk(pages, chain, val, j)
  }

  ghost predicate SameOutside(a: Heap, b: Heap, ids: seq<PageId>) {
    forall p :: p in a && Occ(ids, p) == 0 ==> p in b && b[p] == a[p]
  }

  /** A method that ran with result `r` did what `r` says: the status, the
      split, the free pages and the tree on the pages, with everything else
      untouched. */
  ghost predicate Executes(a: Heap, b: Heap, n: Node, ids: seq<PageId>, ids': seq<PageId>,
                           r: Inserted, status: Status, split: Option<(Bytes, PageId)>) {
    && Untouched(a, b, n, ids)
    && match r
       case NotInserted(s) => status == s
       case Inserted(node, right, av) =>
         && status == Done && ids' == av && Holds(b, node)
         && match right
            case None => split == None
            case Some((sep, m)) => split == Some((sep, m.id)) && Holds(b, m)
  }

  /** What of `val` is left after `n` pages. */
  predicate Remains(val: Bytes, n: nat, rest: Bytes) {
    && (n > 0 ==> (n - 1) * OVERFLOW_PAYLOAD < |val|)
    && rest == if n * OVERFLOW_PAYLOAD <= |val| then val[n * OVERFLOW_PAYLOAD..] else []
  }

  lemma RemainsStep(val: Bytes, n: nat, rest: Bytes, free: nat)
    requires Remains(val, n, rest) && rest != []
    ensures n * OVERFLOW_PAYLOAD <= |val|
    ensures var chunk := if |rest| > OVERFLOW_PAYLOAD then rest[..OVERFLOW_PAYLOAD] else rest;
            chunk == Chunk(val, n) && chunk != [] && Remains(val, n + 1, rest[|chunk|..])
    ensures n == free ==> PagesFor(|val|) > free
  {
  }

  lemma RemainsDone(val: Bytes, n: nat)
    requires Remains(val, n, [])
    ensures n == PagesFor(|val|)
  {
  }

  lemma NothingHeld(pages: Heap, val: Bytes, ids: seq<PageId>)
    ensures ChunksHeld(pages, [], val) && TakePages(ids, 0) == [] && SameOutside(pages, pages, ids)
    ensures Remains(val, 0, val)
  {
  }

  lemma PageCount(n: nat)
    ensures PagesFor(n) == (n + 4063) / 4064
  {
  }

  lemma ChainIsHeld(pages: Heap, chain: seq<PageId>, val: Bytes)
    requires ChunksHeld(pages, chain, val) && |chain| == PagesFor(|val|)
    ensures HoldsChain(pages, chain, val)
  {
  }

  lemma LastTaken(ids: seq<PageId>, n: nat)
    requires 0 < n <= |ids|
    ensures TakePages(ids, n)[n - 1] == ids[|ids| - n]
  {
  }

  lemma LastHeld(pages: Heap, chain: seq<PageId>, val: Bytes)
    requires chain != [] && ChunksHeld(pages, chain, val)
    ensures chain[|chain| - 1] in pages && pages[chain[|chain| - 1]].OverflowPage?
  {
    assert HoldsChunk(pages, chain, val, |chain| - 1);
  }

  lemma PrevIsLinked(pages: Heap, chain: seq<PageId>, val: Bytes, ids: seq<PageId>)
    requires |chain| <= |ids| && ChunksHeld(pages, chain, val)
    requires chain != [] ==> chain[|chain| - 1] == ids[|ids| - |chain|]
    requires (forall p :: Occ(ids, p) <= 1) && Occ(ids, 0) == 0
    ensures var n := |chain|;
            n > 0 ==>
              && chain[n - 1] != 0
              && chain[n - 1] in pages && pages[chain[n - 1]].OverflowPage?
              && chain[n - 1] !in ids[..|ids| - n]
  {
    if chain != [] {
      LastHeld(pages, chain, val);
      NotTwice(ids, |ids| - |chain|);
      OccIn(ids, |ids| - |chain|);
    }
  }

  lemma NotTwice(ids: seq<PageId>, i: nat)
    requires i < |ids| && forall p :: Occ(ids, p) <= 1
    ensures ids[i] !in ids[..i]
  {
    forall j | 0 <= j < i ensures ids[j] != ids[i] {
      if ids[j] == ids[i] {
        OccTwice(ids, j, i);
      }
    }
  }

  /** What `WriteChunk` does to the heap. */
  ghost predicate Linked(a: Heap, b: Heap, chain: seq<PageId>, id: PageId)
    ensures Linked(a, b, chain, id) ==> id in b && b[id].OverflowPage?
  {
    && id in b && b[id].OverflowPage? && b[id].link == 0
    && (chain != [] ==>
          var prev := chain[|chain| - 1];
          prev in a && a[prev].OverflowPage? && prev in b && b[prev] == OverflowPage(id, a[prev].data))
    && forall p :: p in a && p != id && (chain == [] || p != chain[|chain| - 1]) ==> p in b && b[p] == a[p]
  }

  /** A chain with one more page linked to its end. */
  lemma LinkMore(a: Heap, b: Heap, chain: seq<PageId>, id: PageId, val: Bytes)
    requires id !in chain && (forall i, j :: 0 <= i < j < |chain| ==> chain[i] != chain[j])
    requires |chain| * OVERFLOW_PAYLOAD <= |val| && ChunksHeld(a, chain, val) && Linked(a, b, chain, id)
    requires |b[id].data| == OVERFLOW_PAYLOAD && Chunk(val, |chain|) <= b[id].data
    ensures ChunksHeld(b, chain + [id], val)
  {
    forall j | 0 <= j < |chain| ensures HoldsChunk(b, chain + [id], val, j) {
      assert HoldsChunk(a, chain, val, j);
    }
    assert HoldsChunk(b, chain + [id], val, |chain|);
  }

  lemma LinkOutside(pages: Heap, a: Heap, b: Heap, chain: seq<PageId>, id: PageId, ids: seq<PageId>)
    requires Linked(a, b, chain, id) && SameOutside(pages, a, ids) && Occ(ids, id) > 0
    requires chain != [] ==> Occ(ids, chain[|chain| - 1]) > 0
    ensures SameOutside(pages, b, ids)
  {
  }

  /** The page taken next is not one taken before. */
  lemma FreshLink(ids: seq<PageId>, n: nat)
    requires n < |ids| && (forall p :: Occ(ids, p) <= 1) && Occ(ids, 0) == 0
    ensures ids[|ids| - 1 - n] !in TakePages(ids, n)
    ensures ids[|ids| - 1 - n] != 0 && Occ(ids, ids[|ids| - 1 - n]) > 0
    ensures forall j :: 0 <= j < n ==> TakePages(ids, n)[j] != 0 && Occ(ids, TakePages(ids, n)[j]) > 0
    ensures forall i, j :: 0 <= i < j < n ==> TakePages(ids, n)[i] != TakePages(ids, n)[j]
  {
    var t := TakePages(ids, n);
    hide TakePages, Occ;
    OccIn(ids, |ids| - 1 - n);
    forall j | 0 <= j < n ensures t[j] != ids[|ids| - 1 - n] && Occ(ids, t[j]) > 0 {
      OccIn(ids, |ids| - 1 - j);
      Different(ids, |ids| - 1 - n, |ids| - 1 - j);
    }
    forall i, j | 0 <= i < j < n ensures t[i] != t[j] {
      Different(ids, |ids| - 1 - j, |ids| - 1 - i);
    }
  }

  lemma Different(ids: seq<PageId>, i: nat, j: nat)
    requires i < j < |ids| && forall p :: Occ(ids, p) <= 1
    ensures ids[i] != ids[j]
  {
    if ids[i] == ids[j] {
      OccTwice(ids, i, j);
    }
  }

  // ---------- inserting into a leaf ----------

  lemma StoredSorted(cells: seq<Cell>)
    requires Sorted(cells)
    ensures SortedKeys(LeafKeys(StoreAll(cells)))
  {
    hide Rank;
  }

  lemma {:induction false} OccMember(ids: seq<PageId>, p: PageId)
    ensures p in ids <==> Occ(ids, p) > 0
  {
    if ids != [] {
      OccMember(ids[1..], p);
      assert ids == [ids[0]] + ids[1..];
    }
  }

  lemma SeparateDistinct(n: Node, ids: seq<PageId>)
    requires Separate(n, ids)
    ensures (forall p :: Occ(ids, p) <= 1) && Occ(ids, 0) == 0
    ensures n.id !in ids && n.id != 0 && Uses(n, n.id) > 0
  {
    assert Uses(n, n.id) >= 1;
    OccMember(ids, n.id);
  }

  lemma SeparateMember(n: Node, ids: seq<PageId>)
    requires Separate(n, ids)
    ensures forall p :: p in ids <==> Occ(ids, p) > 0
  {
    forall p ensures p in ids <==> Occ(ids, p) > 0 {
      OccMember(ids, p);
    }
  }

  /** A tree survives changes to free pages. */
  lemma TreeOutside(a: Heap, b: Heap, n: Node, ids: seq<PageId>)
    requires Holds(a, n) && Separate(n, ids) && SameOutside(a, b, ids)
    ensures Holds(b, n) && Untouched(a, b, n, ids)
  {
    HoldsFrame(a, b, n);
  }

  lemma ChainOfCell(n: Node, ids: seq<PageId>, c: Cell)
    requires n.Leaf? && Separate(n, ids) && c in n.cells
    ensures Occ(c.chain, 0) == 0 && Occ(c.chain, n.id) == 0
    ensures forall p :: Occ(c.chain, p) > 0 ==> Uses(n, p) > 0 && Occ(ids, p) == 0 && p != n.id
  {
    forall p ensures ChainUses(n.cells, p) >= Occ(c.chain, p) {
      ChainIn(n.cells, c, p);
    }
    assert Uses(n, n.id) >= 1;
  }

  /** What `insertLeaf` relies on to release the pages of the old value. */
  lemma OldChain(pages: Heap, n: Node, ids: seq<PageId>, i: nat)
    requires n.Leaf? && Holds(pages, n) && Separate(n, ids) && i < |n.cells|
    ensures Store(n.cells[i]).val.Overflow? <==> |n.cells[i].val| > OVERFLOW_THRESHOLD
    ensures Store(n.cells[i]).val.Inline? ==> n.cells[i].chain == []
    ensures Store(n.cells[i]).val.Overflow? ==>
              && HoldsChain(pages, n.cells[i].chain, n.cells[i].val)
              && Store(n.cells[i]).val.first == if n.cells[i].chain == [] then 0 else n.cells[i].chain[0]
    ensures Occ(n.cells[i].chain, 0) == 0
  {
    assert n.cells[i] in n.cells;
    ChainOfCell(n, ids, n.cells[i]);
    assert HoldsValue(pages, n.cells[i]);
  }

  /** The free pages after an insertion has taken its overflow pages and given
      back those of the old value. */
  ghost function PagesLeft(n: Node, key: Bytes, val: Bytes, ids: seq<PageId>): seq<PageId>
    requires n.Leaf? && ChainLen(val) <= |ids|
  {
    ids[..|ids| - ChainLen(val)] + ChainAt(n.cells, key)
  }

  /** The leaf with the new cell is as separate from the free pages as the old
      leaf was. */
  lemma WithCellSeparate(n: Node, key: Bytes, val: Bytes, ids: seq<PageId>)
    requires n.Leaf? && Separate(n, ids) && ChainLen(val) <= |ids|
    ensures Separate(WithCell(n, NewCell(key, val, ids)), PagesLeft(n, key, val, ids))
    ensures forall p :: Uses(n, p) == 0 && Occ(ids, p) == 0 ==>
                          Uses(WithCell(n, NewCell(key, val, ids)), p) == 0 && Occ(PagesLeft(n, key, val, ids), p) == 0
    ensures n.id !in PagesLeft(n, key, val, ids)
  {
    var c := NewCell(key, val, ids);
    forall p ensures Uses(WithCell(n, c), p) + Occ(PagesLeft(n, key, val, ids), p) == Uses(n, p) + Occ(ids, p) {
      TakePagesOcc(ids, ChainLen(val), p);
      OccConcat(ids[..|ids| - ChainLen(val)], ChainAt(n.cells, key), p);
      WithCellIsPut(n, c);
      PutCellUses(n.cells, c, p);
    }
      SeparateDistinct(WithCell(n, c), PagesLeft(n, key, val, ids));
  }

  /** All values of the leaf with the new cell are on their pages. */
  lemma WithCellValues(pages: Heap, n: Node, c: Cell)
    requires n.Leaf? && HoldsValues(pages, n.cells) && HoldsValue(pages, c)
    ensures HoldsValues(pages, WithCell(n, c).cells)
  {
    hide HoldsValue, Rank, Slot;
    var cells := WithCell(n, c).cells;
    forall x | x in cells ensures HoldsValue(pages, x) {
      assert x == c || x in n.cells;
    }
  }

  /** Rewriting node pages and free pages leaves the values alone. */
  lemma ValuesFrame(a: Heap, b: Heap, n: Node, cells: seq<Cell>, ids: seq<PageId>)
    requires n.Leaf? && Separate(n, ids) && HoldsValues(a, cells)
    requires forall c :: c in cells ==> c in n.cells
    requires forall p :: p in a && p != n.id && Occ(ids, p) == 0 ==> p in b && b[p] == a[p]
    ensures HoldsValues(b, cells)
  {
    forall c | c in cells ensures HoldsValue(b, c) {
      ChainOfCell(n, ids, c);
      HoldsValueFrame(a, b, c);
    }
  }

  /** A leaf whose page has been written. */
  lemma LeafWritten(a: Heap, b: Heap, n: Node, ids: seq<PageId>)
    requires n.Leaf? && Separate(n, ids) && HoldsValues(a, n.cells)
    requires n.id in b && b[n.id] == PageOf(n)
    requires forall p :: p in a && p != n.id ==> p in b && b[p] == a[p]
    ensures Holds(b, n)
  {
    ValuesFrame(a, b, n, n.cells, ids);
  }

  /** A leaf that has been split in two. */
  lemma LeafSplitWritten(a: Heap, b: Heap, n: Node, ids: seq<PageId>)
    requires n.Leaf? && Separate(n, ids) && HoldsValues(a, n.cells) && ids != [] && |n.cells| > 0
    requires var right, mid := ids[|ids| - 1], |n.cells| / 2;
             && n.id in b && b[n.id] == LeafPage(StoreAll(n.cells)[..mid], right)
             && right in b && b[right] == LeafPage(StoreAll(n.cells)[mid..], n.next)
             && forall p :: p in a && p != n.id && p != right ==> p in b && b[p] == a[p]
    ensures var right, mid := ids[|ids| - 1], |n.cells| / 2;
            Holds(b, Leaf(n.id, n.cells[..mid], right)) && Holds(b, Leaf(right, n.cells[mid..], n.next))
  {
    var right, mid := ids[|ids| - 1], |n.cells| / 2;
    OccIn(ids, |ids| - 1);
    assert Uses(n, n.id) >= 1;
    StoreSlices(n.cells, mid);
    ValuesFrame(a, b, n, n.cells[..mid], ids);
    ValuesFrame(a, b, n, n.cells[mid..], ids);
  }

  /** Once the old cell is gone, the key's slot is free and unchanged. */
  lemma RestSlot(cells: seq<Cell>, key: Bytes)
    requires Sorted(cells)
    ensures Slot(RestCells(cells, key), key) == Slot(cells, key)
    ensures !HasKeyAt(RestCells(cells, key), Slot(cells, key), key)
  {
    var i := Slot(cells, key);
    var rest := RestCells(cells, key);
    hide Rank;
    SlotUnique(rest, key, i);
  }

  /** Inserting the stored cell into the stored rest stores the new leaf. */
  lemma StoreWithCell(n: Node, c: Cell)
    requires n.Leaf? && Sorted(n.cells)
    ensures WithCell(n, c).Leaf? && WithCell(n, c).id == n.id && WithCell(n, c).next == n.next
    ensures var rest := StoreAll(RestCells(n.cells, c.key));
            && KeySlot(LeafKeys(rest), c.key) == Slot(n.cells, c.key) <= |rest|
            && PutStored(rest, Store(c)) == InsertAt(rest, Slot(n.cells, c.key), Store(c))
            && StoreAll(WithCell(n, c).cells) == InsertAt(rest, Slot(n.cells, c.key), Store(c))
            && LeafUsed(rest) == Used(RestCells(n.cells, c.key))
            && LeafCellSize(Store(c)) == CellSize(c)
  {
    var cells := RestCells(n.cells, c.key);
    RestSlot(n.cells, c.key);
    StoreKeys(cells, c.key);
    StoreInsertAt(cells, Slot(n.cells, c.key), c);
    StoreUsed(cells);
  }

  lemma StoredHalves(cells: seq<Cell>, mid: nat)
    requires mid <= |cells|
    ensures LeafUsed(StoreAll(cells)[..mid]) == Used(cells[..mid])
    ensures LeafUsed(StoreAll(cells)[mid..]) == Used(cells[mid..])
    ensures mid < |cells| ==> StoreAll(cells)[mid].key == cells[mid].key
  {
    StoreSlices(cells, mid);
    StoreUsed(cells[..mid]);
    StoreUsed(cells[mid..]);
  }

  lemma StoreRest(cells: seq<Cell>, key: Bytes)
    ensures var i := Slot(cells, key);
            StoreAll(RestCells(cells, key)) ==
            if HasKeyAt(cells, i, key) then RemoveAt(StoreAll(cells), i) else StoreAll(cells)
  {
    var i := Slot(cells, key);
    if HasKeyAt(cells, i, key) {
      StoreRemoveAt(cells, i);
    }
  }

  lemma FailedInsert(a: Heap, b: Heap, n: Node, ids: seq<PageId>, ids': seq<PageId>)
    requires Untouched(a, b, n, ids)
    ensures Executes(a, b, n, ids, ids', NotInserted(NoPages), NoPages, None)
  {
  }

  /** What runs on a later heap, a rewritten node and what is left of the free
      pages also runs on the earlier ones. */
  lemma ExecutesFrom(a: Heap, before: Heap, b: Heap, n: Node, ids: seq<PageId>, n': Node, av: seq<PageId>,
                     ids': seq<PageId>, r: Inserted, status: Status, split: Option<(Bytes, PageId)>)
    requires Untouched(a, before, n, ids) && Executes(before, b, n', av, ids', r, status, split)
    requires forall p :: Uses(n, p) == 0 && Occ(ids, p) == 0 ==> Uses(n', p) == 0 && Occ(av, p) == 0
    ensures Executes(a, b, n, ids, ids', r, status, split)
  {
  }

  // ---------- inserting into an internal node ----------

  ghost predicate HoldsKids(pages: Heap, n: Node)
    requires n.Inner?
  {
    forall i :: 0 <= i < |n.kids| ==> Holds(pages, n.kids[i])
  }

  /** The child took the new cell without splitting. */
  lemma ChildGrew(a: Heap, b: Heap, n: Node, i: nat, ids: seq<PageId>, ids': seq<PageId>, r: Inserted)
    requires n.Inner? && i < |n.kids| && Holds(a, n) && Separate(n, ids)
    requires r.Inserted? && r.right.None? && r.node.id == n.kids[i].id
    requires Executes(a, b, n.kids[i], ids, ids', r, Done, None)
    ensures Executes(a, b, n, ids, ids', Inserted(Replace(n, i, r.node), None, r.av), Done, None)
  {
    OtherKidsHold(a, b, n, i, ids);
    UntouchedUp(a, b, n, i, ids);
    ReplacePage(n, i, r.node);
  }

  lemma ChildFailed(a: Heap, b: Heap, n: Node, i: nat, ids: seq<PageId>, ids': seq<PageId>, s: Status,
                    split: Option<(Bytes, PageId)>)
    requires n.Inner? && i < |n.kids|
    requires Executes(a, b, n.kids[i], ids, ids', NotInserted(s), s, split)
    ensures Executes(a, b, n, ids, ids', NotInserted(s), s, split)
  {
    UntouchedUp(a, b, n, i, ids);
  }

  lemma ExpandHolds(b: Heap, n: Node, i: nat, j: nat, l: Node, sep: Bytes, r: Node)
    requires n.Inner? && |n.kids| == |n.keys| + 1 && i < |n.kids| && j <= |n.keys|
    requires forall k :: 0 <= k < |n.kids| && k != i ==> Holds(b, n.kids[k])
    requires Holds(b, l) && Holds(b, r)
    ensures HoldsKids(b, Expand(n, i, j, l, sep, r))
  {
    var m := Expand(n, i, j, l, sep, r);
    var kids := n.kids[i := l];
    forall k | 0 <= k < |m.kids| ensures Holds(b, m.kids[k]) {
      assert m.kids[k] == if k <= j then kids[k] else if k == j + 1 then r else kids[k - 1];
    }
  }

  lemma ExpandSeparate(n: Node, i: nat, j: nat, ids: seq<PageId>, r: Inserted, sep: Bytes, right: Node)
    requires n.Inner? && |n.kids| == |n.keys| + 1 && i < |n.kids| && j <= |n.keys| && Separate(n, ids)
    requires r.Inserted? && r.right == Some((sep, right))
    requires forall p :: ResultUses(r, p) == Uses(n.kids[i], p) + Occ(ids, p)
    ensures var m := Expand(n, i, j, r.node, sep, right);
            && Separate(m, r.av)
            && forall p :: Uses(n, p) == 0 && Occ(ids, p) == 0 ==> Uses(m, p) == 0 && Occ(r.av, p) == 0
  {
    var m := Expand(n, i, j, r.node, sep, right);
    forall p ensures Uses(m, p) + Occ(r.av, p) == Uses(n, p) + Occ(ids, p) {
      assert ResultUses(r, p) == Uses(n.kids[i], p) + Occ(ids, p);
      ExpandUses(n, i, j, r.node, sep, right, p);
    }
  }

  /** The child split: the node with its new neighbour, still to be written. */
  lemma ChildSplit(a: Heap, b: Heap, n: Node, i: nat, j: nat, ids: seq<PageId>, ids': seq<PageId>, r: Inserted,
                   sep: Bytes, right: Node)
    requires n.Inner? && i < |n.kids| && Holds(a, n) && Separate(n, ids) && j <= |n.keys|
    requires r.Inserted? && r.right == Some((sep, right)) && r.node.id == n.kids[i].id
    requires Executes(a, b, n.kids[i], ids, ids', r, Done, Some((sep, right.id)))
    requires forall p :: ResultUses(r, p) == Uses(n.kids[i], p) + Occ(ids, p)
    ensures var m := Expand(n, i, j, r.node, sep, right);
            && HoldsKids(b, m) && Separate(m, ids')
            && n.id in b && b[n.id] == PageOf(n) && Untouched(a, b, n, ids)
            && forall p :: Uses(n, p) == 0 && Occ(ids, p) == 0 ==> Uses(m, p) == 0 && Occ(ids', p) == 0
  {
    OtherKidsHold(a, b, n, i, ids);
    UntouchedUp(a, b, n, i, ids);
    hide Uses, Occ, ResultUses, Separate, Expand;
    ExpandSeparate(n, i, j, ids, r, sep, right);
    ExpandHolds(b, n, i, j, r.node, sep, right);
  }

  /** Writing an internal node's own page leaves its children alone. */
  lemma KidsFrame(a: Heap, b: Heap, n: Node, ids: seq<PageId>)
    requires n.Inner? && Separate(n, ids) && HoldsKids(a, n)
    requires forall p :: p in a && p != n.id && Occ(ids, p) == 0 ==> p in b && b[p] == a[p]
    ensures HoldsKids(b, n)
  {
    forall i | 0 <= i < |n.kids| ensures Holds(b, n.kids[i]) {
      forall p | Uses(n.kids[i], p) > 0 && p in a ensures p in b && b[p] == a[p] {
        KidUses(n, i, p);
      }
      HoldsFrame(a, b, n.kids[i]);
    }
  }

  lemma InnerWritten(a: Heap, b: Heap, n: Node, ids: seq<PageId>)
    requires n.Inner? && |n.kids| == |n.keys| + 1 && Separate(n, ids) && HoldsKids(a, n)
    requires n.id in b && b[n.id] == PageOf(n)
    requires forall p :: p in a && p != n.id ==> p in b && b[p] == a[p]
    ensures Holds(b, n)
  {
    KidsFrame(a, b, n, ids);
  }

  /** An internal node that has been split in two. */
  lemma InnerSplitWritten(a: Heap, b: Heap, n: Node, ids: seq<PageId>)
    requires n.Inner? && |n.kids| == |n.keys| + 1 && |n.keys| > 0
    requires Separate(n, ids) && HoldsKids(a, n) && ids != []
    requires var right, mid, seps := ids[|ids| - 1], |n.keys| / 2, Seps(n.keys, n.kids);
             && n.id in b && b[n.id] == InnerPage(n.kids[0].id, seps[..mid])
             && right in b && b[right] == InnerPage(seps[mid].child, seps[mid + 1..])
             && forall p :: p in a && p != n.id && p != right ==> p in b && b[p] == a[p]
    ensures var right, mid := ids[|ids| - 1], |n.keys| / 2;
            Holds(b, LeftPart(n, mid)) && Holds(b, RightPart(n, mid, right))
  {
    OccIn(ids, |ids| - 1);
    KidsFrame(a, b, n, ids);
    PartsPage(n, |n.keys| / 2, ids[|ids| - 1]);
  }

  lemma SepsParts(keys: seq<Bytes>, kids: seq<Node>, mid: nat)
    requires |kids| == |keys| + 1 && mid < |keys|
    ensures UsedSeps(Seps(keys, kids)[..mid]) == UsedKeys(keys[..mid])
    ensures UsedSeps(Seps(keys, kids)[mid + 1..]) == UsedKeys(keys[mid + 1..])
    ensures Seps(keys, kids)[mid].key == keys[mid]
  {
    assert InnerKeys(Seps(keys, kids)[..mid]) == keys[..mid];
    assert InnerKeys(Seps(keys, kids)[mid + 1..]) == keys[mid + 1..];
  }

  lemma InsertUnfold(n: Node, h: nat, key: Bytes, val: Bytes, av: seq<PageId>)
    requires Shaped(n, h) && n.Inner?
    ensures var i := Route(n.keys, key);
            var r := Insert(n.kids[i], h - 1, key, val, av);
            && Insert(n, h, key, val, av) == (if r.NotInserted? then r else Absorb(n, i, r))
            && (r.NotInserted? ==> r.status != Done)
            && (r.Inserted? ==> r.node.id == n.kids[i].id)
  {
    InsertTakes(n.kids[Route(n.keys, key)], h - 1, key, val, av);
    InsertKeepsId(n.kids[Route(n.keys, key)], h - 1, key, val, av);
    hide InsertLeaf, Absorb;
  }

  lemma ExecutesStatus(a: Heap, b: Heap, n: Node, ids: seq<PageId>, ids': seq<PageId>,
                       r: Inserted, status: Status, split: Option<(Bytes, PageId)>)
    requires Executes(a, b, n, ids, ids', r, status, split) && (r.NotInserted? ==> r.status != Done)
    ensures r.NotInserted? ==> status == r.status && status != Done
    ensures r.Inserted? ==>
              && status == Done && ids' == r.av
              && split == if r.right.None? then None else Some((r.right.value.0, r.right.value.1.id))
  {
  }

  lemma ChildUses(n: Node, h: nat, key: Bytes, val: Bytes, av: seq<PageId>)
    requires Shaped(n, h)
    ensures var r := Insert(n, h, key, val, av);
            r.Inserted? ==> forall p :: ResultUses(r, p) == Uses(n, p) + Occ(av, p)
  {
    hide Insert, ResultUses;
    forall p ensures var r := Insert(n, h, key, val, av);
                     r.Inserted? ==> ResultUses(r, p) == Uses(n, p) + Occ(av, p) {
      InsertUses(n, h, key, val, av, p);
    }
  }

  // ---------- deleting ----------

  /** The deletion counterpart of `Executes`. */
  ghost predicate Deletes(a: Heap, b: Heap, n: Node, ids: seq<PageId>, ids': seq<PageId>,
                          d: Deleted, status: Status, under: bool) {
    && Untouched(a, b, n, ids)
    && match d
       case NotDeleted(s) => status == s && (s == KeyNotFound ==> b == a && ids' == ids)
       case Deleted(node, u, av) => status == Done && under == u && ids' == av && Holds(b, node)
  }

  ghost predicate SameBut(a: Heap, b: Heap, x: PageId, y: PageId, z: PageId) {
    forall p :: p in a && p != x && p != y && p != z ==> p in b && b[p] == a[p]
  }

  /** Pages below child `j` are neither the parent's nor those of children
      `s` and `s + 1`. */
  lemma PairApart(n: Node, s: nat, ids: seq<PageId>, j: nat, p: PageId)
    requires Siblings(n, s) && Separate(n, ids) && j < |n.kids| && j != s && j != s + 1 && Uses(n.kids[j], p) > 0
    ensures p != n.id && p != n.kids[s].id && p != n.kids[s + 1].id
  {
    KidSeparate(n, s, ids);
    KidSeparate(n, s + 1, ids);
    KidSeparate(n, j, ids);
    assert Uses(n.kids[s], n.kids[s].id) > 0 && Uses(n.kids[s + 1], n.kids[s + 1].id) > 0;
  }

  lemma PairIds(n: Node, s: nat, ids: seq<PageId>)
    requires Siblings(n, s) && Separate(n, ids)
    ensures n.id != n.kids[s].id && n.id != n.kids[s + 1].id && n.kids[s].id != n.kids[s + 1].id
    ensures Occ(ids, n.id) == 0 && Occ(ids, n.kids[s].id) == 0 && Occ(ids, n.kids[s + 1].id) == 0
    ensures Uses(n, n.id) > 0 && Uses(n, n.kids[s].id) > 0 && Uses(n, n.kids[s + 1].id) > 0
  {
    KidSeparate(n, s, ids);
    KidSeparate(n, s + 1, ids);
    KidUses(n, s, n.kids[s].id);
    KidUses(n, s + 1, n.kids[s + 1].id);
    assert Uses(n.kids[s], n.kids[s].id) > 0 && Uses(n.kids[s + 1], n.kids[s + 1].id) > 0;
  }

  lemma PairUntouched(a: Heap, b: Heap, n: Node, s: nat, ids: seq<PageId>)
    requires Siblings(n, s) && Separate(n, ids) && SameBut(a, b, n.id, n.kids[s].id, n.kids[s + 1].id)
    ensures Untouched(a, b, n, ids)
  {
    PairIds(n, s, ids);
  }

  lemma PairOthers(a: Heap, b: Heap, n: Node, s: nat, ids: seq<PageId>)
    requires Siblings(n, s) && Separate(n, ids) && Holds(a, n) && SameBut(a, b, n.id, n.kids[s].id, n.kids[s + 1].id)
    ensures forall j :: 0 <= j < |n.kids| && j != s && j != s + 1 ==> Holds(b, n.kids[j])
  {
    forall j | 0 <= j < |n.kids| && j != s && j != s + 1 ensures Holds(b, n.kids[j]) {
      forall p | Uses(n.kids[j], p) > 0 && p in a ensures p in b && b[p] == a[p] {
        PairApart(n, s, ids, j, p);
      }
      HoldsFrame(a, b, n.kids[j]);
    }
  }

  /** What lies below the two siblings is not on their own pages, nor on the
      parent's. */
  lemma PairBelow(n: Node, s: nat, ids: seq<PageId>, p: PageId)
    requires Siblings(n, s) && Separate(n, ids)
    requires (Uses(n.kids[s], p) > 0 && p != n.kids[s].id) || (Uses(n.kids[s + 1], p) > 0 && p != n.kids[s + 1].id)
    ensures p != n.id && p != n.kids[s].id && p != n.kids[s + 1].id
  {
    KidSeparate(n, s, ids);
    KidSeparate(n, s + 1, ids);
    assert Uses(n.kids[s], n.kids[s].id) > 0 && Uses(n.kids[s + 1], n.kids[s + 1].id) > 0;
  }

  lemma PairValues(a: Heap, b: Heap, n: Node, s: nat, ids: seq<PageId>)
    requires Siblings(n, s) && Separate(n, ids) && n.kids[s].Leaf? && n.kids[s + 1].Leaf?
    requires Holds(a, n) && SameBut(a, b, n.id, n.kids[s].id, n.kids[s + 1].id)
    ensures HoldsValues(b, n.kids[s].cells) && HoldsValues(b, n.kids[s + 1].cells)
  {
    KidSeparate(n, s, ids);
    KidSeparate(n, s + 1, ids);
    var l, r := n.kids[s], n.kids[s + 1];
    forall c | c in l.cells ensures HoldsValue(b, c) {
      ChainOfCell(l, ids, c);
      forall p | Occ(c.chain, p) > 0 ensures p != n.id && p != l.id && p != r.id {
        PairBelow(n, s, ids, p);
      }
      HoldsValueFrame(a, b, c);
    }
    forall c | c in r.cells ensures HoldsValue(b, c) {
      ChainOfCell(r, ids, c);
      forall p | Occ(c.chain, p) > 0 ensures p != n.id && p != l.id && p != r.id {
        PairBelow(n, s, ids, p);
      }
      HoldsValueFrame(a, b, c);
    }
  }

  lemma GrandchildHolds(a: Heap, b: Heap, n: Node, s: nat, ids: seq<PageId>, t: nat, k: nat)
    requires Siblings(n, s) && Separate(n, ids) && (t == s || t == s + 1) && n.kids[t].Inner? && k < |n.kids[t].kids|
    requires Holds(a, n) && SameBut(a, b, n.id, n.kids[s].id, n.kids[s + 1].id)
    ensures Holds(b, n.kids[t].kids[k])
  {
    var m := n.kids[t];
    KidSeparate(n, t, ids);
    assert Holds(a, m);
    KidSeparate(m, k, ids);
    forall p | Uses(m.kids[k], p) > 0 && p in a ensures p in b && b[p] == a[p] {
      KidUses(m, k, p);
      PairBelow(n, s, ids, p);
    }
    HoldsFrame(a, b, m.kids[k]);
  }

  lemma PairKids(a: Heap, b: Heap, n: Node, s: nat, ids: seq<PageId>)
    requires Siblings(n, s) && Separate(n, ids) && Joinable(n.kids[s], n.kids[s + 1])
    requires Holds(a, n) && SameBut(a, b, n.id, n.kids[s].id, n.kids[s + 1].id)
    ensures HoldsKids(b, Join(n.kids[s], n.keys[s], n.kids[s + 1]))
  {
    var m := Join(n.kids[s], n.keys[s], n.kids[s + 1]);
    forall k | 0 <= k < |m.kids| ensures Holds(b, m.kids[k]) {
      if k < |n.kids[s].kids| {
        GrandchildHolds(a, b, n, s, ids, s, k);
        assert m.kids[k] == n.kids[s].kids[k];
      } else {
        GrandchildHolds(a, b, n, s, ids, s + 1, k - |n.kids[s].kids|);
        assert m.kids[k] == n.kids[s + 1].kids[k - |n.kids[s].kids|];
      }
    }
  }

  lemma ContractWritten(a: Heap, b: Heap, n: Node, s: nat, m: Node, ids: seq<PageId>)
    requires Siblings(n, s) && Separate(n, ids) && Holds(a, n) && SameBut(a, b, n.id, n.kids[s].id, n.kids[s + 1].id)
    requires Holds(b, m) && m.id == n.kids[s].id
    requires n.id in b && b[n.id] == InnerPage(n.kids[0].id, RemoveAt(Seps(n.keys, n.kids), s))
    ensures Holds(b, Contract(n, s, m))
  {
    PairOthers(a, b, n, s, ids);
    ContractPage(n, s, m);
    var c := Contract(n, s, m);
    forall k | 0 <= k < |c.kids| ensures Holds(b, c.kids[k]) {
      ContractKid(n, s, m, k);
    }
  }

  lemma RespaceWritten(a: Heap, b: Heap, n: Node, s: nat, l: Node, sep: Bytes, r: Node, ids: seq<PageId>)
    requires Siblings(n, s) && Separate(n, ids) && Holds(a, n) && SameBut(a, b, n.id, n.kids[s].id, n.kids[s + 1].id)
    requires Holds(b, l) && l.id == n.kids[s].id && Holds(b, r) && r.id == n.kids[s + 1].id
    requires n.id in b && b[n.id] == InnerPage(n.kids[0].id, Seps(n.keys, n.kids)[s := InnerCell(sep, r.id)])
    ensures Holds(b, Respace(n, s, l, sep, r))
  {
    hide *;
    SiblingsAre(n, s);
    PairOthers(a, b, n, s, ids);
    RespacePage(n, s, l, sep, r);
    RespacedKids(b, n, s, l, sep, r);
  }

  lemma RespacedKids(b: Heap, n: Node, s: nat, l: Node, sep: Bytes, r: Node)
    requires Siblings(n, s) && Holds(b, l) && Holds(b, r)
    requires forall j :: 0 <= j < |n.kids| && j != s && j != s + 1 ==> Holds(b, n.kids[j])
    requires n.id in b && b[n.id] == PageOf(Respace(n, s, l, sep, r))
    ensures Holds(b, Respace(n, s, l, sep, r))
  {
    hide PageOf;
    var m := Respace(n, s, l, sep, r);
    forall k | 0 <= k < |m.kids| ensures Holds(b, m.kids[k]) {
      if k != s && k != s + 1 {
        assert m.kids[k] == n.kids[k];
      }
    }
  }

  lemma MergedLeaf(a: Heap, b: Heap, n: Node, s: nat, ids: seq<PageId>)
    requires Siblings(n, s) && Separate(n, ids) && n.kids[s].Leaf? && n.kids[s + 1].Leaf?
    requires Holds(a, n) && SameBut(a, b, n.id, n.kids[s].id, n.kids[s + 1].id)
    requires var l, r := n.kids[s], n.kids[s + 1];
             l.id in b && b[l.id] == LeafPage(StoreAll(l.cells) + StoreAll(r.cells), r.next)
    ensures var l, r := n.kids[s], n.kids[s + 1]; Holds(b, Leaf(l.id, l.cells + r.cells, r.next))
  {
    PairValues(a, b, n, s, ids);
    StoreConcat(n.kids[s].cells, n.kids[s + 1].cells);
  }

  lemma CutLeaves(a: Heap, b: Heap, n: Node, s: nat, ids: seq<PageId>, mid: nat)
    requires Siblings(n, s) && Separate(n, ids) && n.kids[s].Leaf? && n.kids[s + 1].Leaf?
    requires mid <= |n.kids[s].cells| + |n.kids[s + 1].cells|
    requires Holds(a, n) && SameBut(a, b, n.id, n.kids[s].id, n.kids[s + 1].id)
    requires var l, r := n.kids[s], n.kids[s + 1];
             var all := StoreAll(l.cells) + StoreAll(r.cells);
             && l.id in b && b[l.id] == LeafPage(all[..mid], l.next)
             && r.id in b && b[r.id] == LeafPage(all[mid..], r.next)
    ensures var l, r := n.kids[s], n.kids[s + 1];
            var all := l.cells + r.cells;
            Holds(b, Leaf(l.id, all[..mid], l.next)) && Holds(b, Leaf(r.id, all[mid..], r.next))
  {
    var l, r := n.kids[s], n.kids[s + 1];
    PairValues(a, b, n, s, ids);
    StoreConcat(l.cells, r.cells);
    StoreSlices(l.cells + r.cells, mid);
    assert forall c :: c in (l.cells + r.cells)[..mid] ==> c in l.cells || c in r.cells;
    assert forall c :: c in (l.cells + r.cells)[mid..] ==> c in l.cells || c in r.cells;
  }

  lemma MergedInner(a: Heap, b: Heap, n: Node, s: nat, ids: seq<PageId>)
    requires Siblings(n, s) && Separate(n, ids) && Joinable(n.kids[s], n.kids[s + 1])
    requires Holds(a, n) && SameBut(a, b, n.id, n.kids[s].id, n.kids[s + 1].id)
    requires var l := n.kids[s]; l.id in b && b[l.id] == PageOf(Join(l, n.keys[s], n.kids[s + 1]))
    ensures Holds(b, Join(n.kids[s], n.keys[s], n.kids[s + 1]))
  {
    PairKids(a, b, n, s, ids);
  }

  lemma CutInners(a: Heap, b: Heap, n: Node, s: nat, ids: seq<PageId>, mid: nat)
    requires Siblings(n, s) && Separate(n, ids) && Joinable(n.kids[s], n.kids[s + 1])
    requires Holds(a, n) && SameBut(a, b, n.id, n.kids[s].id, n.kids[s + 1].id)
    requires var m := Join(n.kids[s], n.keys[s], n.kids[s + 1]);
             var seps := Seps(m.keys, m.kids);
             && mid < |m.keys|
             && m.id in b && b[m.id] == InnerPage(m.kids[0].id, seps[..mid])
             && n.kids[s + 1].id in b && b[n.kids[s + 1].id] == InnerPage(seps[mid].child, seps[mid + 1..])
    ensures var m := Join(n.kids[s], n.keys[s], n.kids[s + 1]);
            Holds(b, LeftPart(m, mid)) && Holds(b, RightPart(m, mid, n.kids[s + 1].id))
  {
    var m := Join(n.kids[s], n.keys[s], n.kids[s + 1]);
    PairKids(a, b, n, s, ids);
    PartsPage(m, mid, n.kids[s + 1].id);
  }

  lemma UsedSepsInsert(seps: seq<InnerCell>, i: nat, c: InnerCell)
    requires i <= |seps|
    ensures UsedSeps(InsertAt(seps, i, c)) == UsedSeps(seps) + INNER_CELL_OVERHEAD + |c.key|
  {
    UsedKeysInsertAt(InnerKeys(seps), i, c.key);
    assert InnerKeys(InsertAt(seps, i, c)) == InsertAt(InnerKeys(seps), i, c.key);
  }

  lemma UsedSepsJoin(a: seq<InnerCell>, c: InnerCell, b: seq<InnerCell>)
    ensures UsedSeps(a + [c] + b) == UsedSeps(a) + UsedSeps(b) + INNER_CELL_OVERHEAD + |c.key|
  {
    UsedSepsMore(a, c);
    assert InnerKeys(a + [c] + b) == InnerKeys(a + [c]) + InnerKeys(b);
    UsedKeysConcat(InnerKeys(a + [c]), InnerKeys(b));
  }

  lemma SepsUsed(keys: seq<Bytes>, kids: seq<Node>)
    requires |kids| == |keys| + 1
    ensures UsedSeps(Seps(keys, kids)) == UsedKeys(keys)
  {
    SepsKeys(keys, kids);
  }

  lemma SepsRemoved(keys: seq<Bytes>, kids: seq<Node>, s: nat)
    requires |kids| == |keys| + 1 && s < |keys|
    ensures InnerPageUnderflow(RemoveAt(Seps(keys, kids), s)) == InnerUnderflow(RemoveAt(keys, s))
  {
    assert InnerKeys(RemoveAt(Seps(keys, kids), s)) == RemoveAt(keys, s);
  }

  lemma SepsReplaced(keys: seq<Bytes>, kids: seq<Node>, s: nat, sep: Bytes)
    requires |kids| == |keys| + 1 && s < |keys|
    ensures UsedSeps(Seps(keys, kids)[s := InnerCell(sep, kids[s + 1].id)]) == UsedKeys(keys[s := sep])
  {
    assert InnerKeys(Seps(keys, kids)[s := InnerCell(sep, kids[s + 1].id)]) == keys[s := sep];
  }

  /** What redistribution deals out, on pages and on cells. */
  lemma DealtLeaves(n: Node, s: nat)
    requires Siblings(n, s) && n.kids[s].Leaf? && n.kids[s + 1].Leaf? && n.kids[s].cells + n.kids[s + 1].cells != []
    ensures var l, r := n.kids[s], n.kids[s + 1];
            var stored, all := StoreAll(l.cells) + StoreAll(r.cells), l.cells + r.cells;
            var mid := |all| / 2;
            && |stored| == |all| && stored[mid].key == all[mid].key
            && LeafUsed(stored[..mid]) == Used(all[..mid]) && LeafUsed(stored[mid..]) == Used(all[mid..])
            && UsedSeps(Seps(n.keys, n.kids)[s := InnerCell(all[mid].key, r.id)]) == UsedKeys(n.keys[s := all[mid].key])
  {
    var l, r := n.kids[s], n.kids[s + 1];
    var all := l.cells + r.cells;
    StoreConcat(l.cells, r.cells);
    StoredHalves(all, |all| / 2);
    SepsReplaced(n.keys, n.kids, s, all[|all| / 2].key);
  }

  /** Two internal siblings and their parent on pages. */
  lemma InnersOnPages(pages: Heap, n: Node, s: nat)
    requires Siblings(n, s) && Joinable(n.kids[s], n.kids[s + 1]) && Holds(pages, n)
    ensures n.Inner? && |n.kids| == |n.keys| + 1 && s < |n.keys|
    ensures Seps(n.keys, n.kids)[s] == InnerCell(n.keys[s], n.kids[s + 1].id)
    ensures var l, r := n.kids[s], n.kids[s + 1];
            && l.Inner? && r.Inner? && |l.kids| == |l.keys| + 1 && |r.kids| == |r.keys| + 1
            && n.id in pages && pages[n.id] == InnerPage(n.kids[0].id, Seps(n.keys, n.kids))
            && l.id in pages && pages[l.id] == InnerPage(l.kids[0].id, Seps(l.keys, l.kids))
            && r.id in pages && pages[r.id] == InnerPage(r.kids[0].id, Seps(r.keys, r.kids))
            && UsedSeps(Seps(l.keys, l.kids)) == UsedKeys(l.keys) && UsedSeps(Seps(r.keys, r.kids)) == UsedKeys(r.keys)
  {
    hide UsedSeps, UsedKeys;
    var l, r := n.kids[s], n.kids[s + 1];
    assert Holds(pages, l) && Holds(pages, r);
    SepsUsed(l.keys, l.kids);
    SepsUsed(r.keys, r.kids);
    hide Holds;
  }

  /** The three ways that rebalancing two internal nodes goes. */
  lemma FixInnersGoes(n: Node, s: nat, ids: seq<PageId>)
    requires Siblings(n, s) && Joinable(n.kids[s], n.kids[s + 1])
    ensures var l, r := n.kids[s], n.kids[s + 1];
            var all := Join(l, n.keys[s], r);
            var mid := |all.keys| / 2;
            && all.Inner? && |all.kids| == |all.keys| + 1 && mid < |all.keys|
            && FixInners(n, s, ids) ==
               if UsedKeys(l.keys) + UsedKeys(r.keys) + INNER_CELL_OVERHEAD + |n.keys[s]| <= MAX_CELL_AREA then
                 Merged(Contract(n, s, all), ids + [r.id])
               else if UsedKeys(all.keys[..mid]) > MAX_CELL_AREA || UsedKeys(all.keys[mid + 1..]) > MAX_CELL_AREA
                       || UsedKeys(n.keys[s := all.keys[mid]]) > MAX_CELL_AREA then NotDeleted(Panic)
               else Deleted(Respace(n, s, LeftPart(all, mid), all.keys[mid], RightPart(all, mid, r.id)), false, ids)
  {
    hide UsedKeys, Contract, Merged;
  }

  lemma DealtInners(n: Node, s: nat)
    requires Siblings(n, s) && Joinable(n.kids[s], n.kids[s + 1])
    ensures var l, r := n.kids[s], n.kids[s + 1];
            var all := Join(l, n.keys[s], r);
            var seps := Seps(l.keys, l.kids) + [InnerCell(n.keys[s], r.kids[0].id)] + Seps(r.keys, r.kids);
            var mid := |all.keys| / 2;
            && |all.kids| == |all.keys| + 1 && seps == Seps(all.keys, all.kids)
            && seps[mid].key == all.keys[mid]
            && UsedSeps(seps[..mid]) == UsedKeys(all.keys[..mid])
            && UsedSeps(seps[mid + 1..]) == UsedKeys(all.keys[mid + 1..])
            && UsedSeps(Seps(n.keys, n.kids)[s := InnerCell(all.keys[mid], r.id)]) == UsedKeys(n.keys[s := all.keys[mid]])
  {
    var l, r := n.kids[s], n.kids[s + 1];
    var all := Join(l, n.keys[s], r);
    JoinPage(l, n.keys[s], r);
    SepsParts(all.keys, all.kids, |all.keys| / 2);
    SepsReplaced(n.keys, n.kids, s, all.keys[|all.keys| / 2]);
  }

  // ---------- the root ----------

  /** The pages hold a tree that is separate from the free pages. */
  ghost predicate HoldsTree(pages: Heap, t: Shape, ids: seq<PageId>) {
    && (t.Root? ==> Holds(pages, t.node))
    && (forall p :: TreeUses(t, p) + Occ(ids, p) <= 1)
    && TreeUses(t, 0) == 0 && Occ(ids, 0) == 0
  }

  /** The root that `Put` starts from, after a first page was taken for an
      empty tree. */
  lemma StartHolds(a: Heap, b: Heap, t: Shape, ids: seq<PageId>)
    requires WellFormed(t) && HoldsTree(a, t, ids) && (t.Empty? ==> ids != [])
    requires b == if t.Empty? then a[ids[|ids| - 1] := LeafPage([], 0)] else a
    ensures var n := StartRoot(t, ids);
            && Holds(b, n) && Separate(n, StartPages(t, ids)) && Shaped(n, Height(t)) && Ordered(n, 0.0, 1.0)
            && forall p :: Uses(n, p) + Occ(StartPages(t, ids), p) == TreeUses(t, p) + Occ(ids, p)
  {
    StartIsWellFormed(t, ids);
    if t.Empty? {
      OccIn(ids, |ids| - 1);
    }
  }

  ghost predicate UntouchedTree(a: Heap, b: Heap, t: Shape, ids: seq<PageId>) {
    forall p :: p in a && TreeUses(t, p) == 0 && Occ(ids, p) == 0 ==> p in b && b[p] == a[p]
  }

  lemma WellFormedIsShaped(t: Shape)
    requires WellFormed(t)
    ensures ShapedTree(t)
  {
  }

  lemma SameIsUntouched(a: Heap, t: Shape, ids: seq<PageId>)
    ensures UntouchedTree(a, a, t, ids)
  {
  }

  lemma StartUntouched(a: Heap, b: Heap, c: Heap, t: Shape, ids: seq<PageId>, ids': seq<PageId>, r: Inserted,
                       status: Status, split: Option<(Bytes, PageId)>)
    requires WellFormed(t) && (t.Empty? ==> ids != [])
    requires b == if t.Empty? then a[ids[|ids| - 1] := LeafPage([], 0)] else a
    requires Executes(b, c, StartRoot(t, ids), StartPages(t, ids), ids', r, status, split)
    ensures UntouchedTree(a, c, t, ids)
  {
    StartIsWellFormed(t, ids);
    if t.Empty? {
      OccIn(ids, |ids| - 1);
    }
  }

  lemma SamePagesHold(pages: Heap, t: Shape, ids: seq<PageId>, ids': seq<PageId>)
    requires HoldsTree(pages, t, ids) && forall p: PageId :: Occ(ids', p) == Occ(ids, p)
    ensures HoldsTree(pages, t, ids')
  {
    hide Holds, Occ, TreeUses;
  }

  lemma FinishUnfold(t: Shape, h: nat, r: Inserted, av: seq<PageId>)
    requires r.NotInserted? ==> r.status != Done
    ensures var o := Finish(t, h, r, av);
            match r
            case NotInserted(s) => o.status == s
            case Inserted(node, None, av') => o == Outcome(Done, Root(node, h), av')
            case Inserted(node, Some((sep, right)), av') =>
              if av' == [] then o.status == NoPages
              else if INNER_CELL_OVERHEAD + |sep| > MAX_CELL_AREA then o.status == Panic
              else o == Outcome(Done, Root(Inner(av'[|av'| - 1], [sep], [node, right]), h + 1), av'[..|av'| - 1])
  {
  }

  lemma NoNewRoot(a: Heap, b: Heap, n: Node, av: seq<PageId>, ids: seq<PageId>, r: Inserted, h: nat)
    requires r.Inserted? && r.right.None? && Separate(n, av)
    requires Executes(a, b, n, av, ids, r, Done, None)
    requires forall p :: ResultUses(r, p) == Uses(n, p) + Occ(av, p)
    ensures HoldsTree(b, Root(r.node, h), ids) && ids == r.av && r.node.id != 0
  {
    forall p ensures Uses(r.node, p) + Occ(ids, p) == Uses(n, p) + Occ(av, p) {
      assert ResultUses(r, p) == Uses(n, p) + Occ(av, p);
    }
    assert Uses(r.node, r.node.id) > 0;
    assert Uses(r.node, 0) + Occ(ids, 0) == 0;
  }

  lemma SepsOne(sep: Bytes, child: PageId)
    ensures UsedSeps([InnerCell(sep, child)]) == INNER_CELL_OVERHEAD + |sep|
  {
    UsedSepsMore([], InnerCell(sep, child));
    assert [] + [InnerCell(sep, child)] == [InnerCell(sep, child)];
    assert InnerKeys([]) == [];
  }

  lemma RootUntouched(a: Heap, b: Heap, c: Heap, t: Shape, ids: seq<PageId>, ids': seq<PageId>, id: PageId,
                      r: Inserted, n: Node, av: seq<PageId>)
    requires UntouchedTree(a, b, t, ids) && ids' != [] && id == ids'[|ids'| - 1]
    requires r.Inserted? && ids' == r.av
    requires forall p :: ResultUses(r, p) == Uses(n, p) + Occ(av, p)
    requires forall p :: Uses(n, p) + Occ(av, p) == TreeUses(t, p) + Occ(ids, p)
    requires forall p :: p in b && p != id ==> p in c && c[p] == b[p]
    ensures UntouchedTree(a, c, t, ids)
  {
    OccIn(ids', |ids'| - 1);
  }

  lemma NewRootHolds(a: Heap, b: Heap, c: Heap, n: Node, av: seq<PageId>, ids: seq<PageId>, r: Inserted,
                     sep: Bytes, id: PageId, h: nat)
    requires r.Inserted? && r.right.Some? && r.right.value.0 == sep && Separate(n, av)
    requires Executes(a, b, n, av, ids, r, Done, Some((sep, r.right.value.1.id)))
    requires forall p :: ResultUses(r, p) == Uses(n, p) + Occ(av, p)
    requires ids != [] && id == ids[|ids| - 1]
    requires id in c && c[id] == InnerPage(r.node.id, [InnerCell(sep, r.right.value.1.id)])
    requires forall p :: p in b && p != id ==> p in c && c[p] == b[p]
    ensures ids == r.av && id != 0
    ensures HoldsTree(c, Root(Inner(id, [sep], [r.node, r.right.value.1]), h), ids[..|ids| - 1])
  {
    hide *;
    var l, m := r.node, r.right.value.1;
    var root := Inner(id, [sep], [l, m]);
    ExecutedSplit(a, b, n, av, ids, r, sep, m);
    forall p ensures Uses(root, p) + Occ(ids[..|ids| - 1], p) == Uses(n, p) + Occ(av, p) <= 1 {
      NewRootUses(l, sep, m, ids, p);
      ResultParts(r, p);
      SeparateAt(n, av, p);
    }
    SeparateAt(n, av, 0);
    NewRootUses(l, sep, m, ids, id);
    ResultParts(r, id);
    OccIn(ids, |ids| - 1);
    HoldsFrame(b, c, l);
    HoldsFrame(b, c, m);
    RootHeld(c, id, sep, l, m, h, ids[..|ids| - 1]);
  }

  lemma ExecutedSplit(a: Heap, b: Heap, n: Node, av: seq<PageId>, ids: seq<PageId>, r: Inserted, sep: Bytes, m: Node)
    requires r.Inserted? && r.right == Some((sep, m)) && Executes(a, b, n, av, ids, r, Done, Some((sep, m.id)))
    ensures ids == r.av && Holds(b, r.node) && Holds(b, m)
  {
    hide Untouched, Holds;
  }

  lemma NewRootUses(l: Node, sep: Bytes, m: Node, ids: seq<PageId>, p: PageId)
    requires ids != []
    ensures var root := Inner(ids[|ids| - 1], [sep], [l, m]);
            Uses(root, p) + Occ(ids[..|ids| - 1], p) == Uses(l, p) + Uses(m, p) + Occ(ids, p)
  {
    UsesPair(l, m, p);
    OccLast(ids, p);
    hide Occ, UsesOf;
  }

  lemma ResultParts(r: Inserted, p: PageId)
    requires r.Inserted? && r.right.Some?
    ensures ResultUses(r, p) == Uses(r.node, p) + Uses(r.right.value.1, p) + Occ(r.av, p)
  {
  }

  lemma SeparateAt(n: Node, av: seq<PageId>, p: PageId)
    requires Separate(n, av)
    ensures Uses(n, p) + Occ(av, p) <= 1 && (p == 0 ==> Uses(n, p) + Occ(av, p) == 0)
  {
  }

  lemma RootHeld(pages: Heap, id: PageId, sep: Bytes, l: Node, m: Node, h: nat, ids: seq<PageId>)
    requires Holds(pages, l) && Holds(pages, m) && id in pages && pages[id] == InnerPage(l.id, [InnerCell(sep, m.id)])
    requires var root := Inner(id, [sep], [l, m]);
             (forall p :: Uses(root, p) + Occ(ids, p) <= 1) && Uses(root, 0) + Occ(ids, 0) == 0
    ensures HoldsTree(pages, Root(Inner(id, [sep], [l, m]), h), ids)
  {
    hide Uses, Occ;
    var root := Inner(id, [sep], [l, m]);
    assert Seps(root.keys, root.kids) == [InnerCell(sep, m.id)];
    assert Holds(pages, root);
  }

  // ---------- deletion, level by level ----------

  lemma NothingToDo(a: Heap, n: Node, ids: seq<PageId>)
    requires Holds(a, n)
    ensures Deletes(a, a, n, ids, ids, Deleted(n, false, ids), Done, false)
  {
  }

  lemma LeafShrunk(a: Heap, b: Heap, n: Node, ids: seq<PageId>, i: nat)
    requires n.Leaf? && Separate(n, ids) && Holds(a, n) && i < |n.cells|
    requires b == a[n.id := LeafPage(RemoveAt(StoreAll(n.cells), i), n.next)]
    ensures Untouched(a, b, n, ids)
    ensures Holds(b, Leaf(n.id, RemoveAt(n.cells, i), n.next))
    ensures LeafPageUnderflow(RemoveAt(StoreAll(n.cells), i)) == LeafUnderflow(RemoveAt(n.cells, i))
  {
    var cells := RemoveAt(n.cells, i);
    StoreRemoveAt(n.cells, i);
    StoreUsed(cells);
    SeparateDistinct(n, ids);
    assert forall c :: c in cells ==> c in n.cells;
    ValuesFrame(a, b, n, cells, ids);
  }

  lemma DeletesStatus(a: Heap, b: Heap, n: Node, ids: seq<PageId>, ids': seq<PageId>,
                      d: Deleted, status: Status, under: bool)
    requires Deletes(a, b, n, ids, ids', d, status, under)
    ensures d.NotDeleted? ==> status == d.status && (status == KeyNotFound ==> b == a && ids' == ids)
    ensures d.Deleted? ==> status == Done && under == d.underflow && ids' == d.av && Holds(b, d.node)
    ensures Untouched(a, b, n, ids)
  {
  }

  /** Deletion conserves pages. */
  lemma DeleteUses(n: Node, h: nat, key: Bytes, av: seq<PageId>, root: PageId, lo: real, hi: real, after: PageId)
    requires Shaped(n, h) && Ordered(n, lo, hi) && Fits(n) && Chained(n, after)
    ensures var d := TreeModel.Delete(n, h, key, av, root);
            d.Deleted? ==> forall p :: Uses(d.node, p) + Occ(d.av, p) == Uses(n, p) + Occ(av, p)
  {
    hide TreeModel.Delete, Ordered, Chained, Fits;
    DeleteDrops(n, h, key, av, root, lo, hi, after);
  }

  lemma DeleteFailed(a: Heap, b: Heap, n: Node, i: nat, ids: seq<PageId>, ids': seq<PageId>, s: Status, under: bool)
    requires n.Inner? && i < |n.kids|
    requires Deletes(a, b, n.kids[i], ids, ids', NotDeleted(s), s, under)
    ensures Deletes(a, b, n, ids, ids', NotDeleted(s), s, under)
  {
    UntouchedUp(a, b, n, i, ids);
  }

  lemma ChildShrank(a: Heap, b: Heap, n: Node, i: nat, ids: seq<PageId>, ids': seq<PageId>, d: Deleted, under: bool)
    requires n.Inner? && |n.kids| == |n.keys| + 1 && i < |n.kids| && Holds(a, n) && Separate(n, ids)
    requires d.Deleted? && d.node.id == n.kids[i].id
    requires Deletes(a, b, n.kids[i], ids, ids', d, Done, under)
    requires forall p :: Uses(d.node, p) + Occ(d.av, p) == Uses(n.kids[i], p) + Occ(ids, p)
    ensures var n' := Replace(n, i, d.node);
            && Deletes(a, b, n, ids, ids', Deleted(n', false, d.av), Done, false)
            && Holds(b, n') && Separate(n', ids')
            && Untouched(a, b, n, ids)
            && forall p :: Uses(n, p) == 0 && Occ(ids, p) == 0 ==> Uses(n', p) == 0 && Occ(ids', p) == 0
  {
    var n' := Replace(n, i, d.node);
    OtherKidsHold(a, b, n, i, ids);
    UntouchedUp(a, b, n, i, ids);
    ReplacePage(n, i, d.node);
    forall p ensures Uses(n', p) + Occ(ids', p) == Uses(n, p) + Occ(ids, p) {
      ReplaceUses(n, i, d.node, p);
    }
  }

  lemma DeletesFrom(a: Heap, before: Heap, b: Heap, n: Node, ids: seq<PageId>, n': Node, av: seq<PageId>,
                    ids': seq<PageId>, d: Deleted, status: Status, under: bool)
    requires Untouched(a, before, n, ids) && Deletes(before, b, n', av, ids', d, status, under)
    requires d.NotDeleted? ==> d.status == Panic
    requires forall p :: Uses(n, p) == 0 && Occ(ids, p) == 0 ==> Uses(n', p) == 0 && Occ(av, p) == 0
    ensures Deletes(a, b, n, ids, ids', d, status, under)
  {
  }

  /** After the deletion below the root, and after the root has perhaps been
      dropped. */
  lemma RemovedHolds(a: Heap, b: Heap, n: Node, h: nat, ids: seq<PageId>, ids': seq<PageId>, d: Deleted, under: bool)
    requires HoldsTree(a, Root(n, h), ids) && d.Deleted? && d.node.id == n.id && Shaped(d.node, h)
    requires Deletes(a, b, n, ids, ids', d, Done, under)
    requires forall p :: Uses(d.node, p) + Occ(d.av, p) == Uses(n, p) + Occ(ids, p)
    ensures ids' == d.av && n.id in b && b[n.id] == PageOf(d.node)
    ensures HoldsTree(b, Root(d.node, h), ids') && UntouchedTree(a, b, Root(n, h), ids)
    ensures d.node.Inner? && d.node.keys == [] ==>
              && h > 0 && |d.node.kids| == 1 && HoldsTree(b, Root(d.node.kids[0], h - 1), ids' + [n.id])
              && d.node.kids[0].id != 0
  {
    forall p ensures TreeUses(Root(d.node, h), p) + Occ(ids', p) == Uses(n, p) + Occ(ids, p) {
    }
    if d.node.Inner? && d.node.keys == [] {
      var c := d.node.kids[0];
      forall p ensures Uses(c, p) + Occ(ids' + [n.id], p) == Uses(n, p) + Occ(ids, p) {
        OnlyChildUses(d.node, p);
        OccAppend(ids', n.id, p);
      }
      assert Uses(c, c.id) > 0;
    }
  }

  lemma RootHolds(a: Heap, n: Node, h: nat, ids: seq<PageId>)
    requires HoldsTree(a, Root(n, h), ids)
    ensures Holds(a, n) && Separate(n, ids)
  {
  }

  /** The page of an internal node. */
  lemma InnerOnPage(pages: Heap, n: Node, lo: real, hi: real)
    requires n.Inner? && Holds(pages, n) && Ordered(n, lo, hi)
    ensures n.id in pages && pages[n.id].InnerPage? && |pages[n.id].seps| == |n.keys| && |n.kids| == |n.keys| + 1
    ensures InnerKeys(pages[n.id].seps) == n.keys && SortedKeys(n.keys)
  {
    hide Rank;
    SepsKeys(n.keys, n.kids);
  }

  /** An internal page and the page it becomes with one separator more. */
  lemma NewSeparatorFits(pages: Heap, n: Node, i: nat, l: Node, sep: Bytes, m: Node)
    requires n.Inner? && |n.kids| == |n.keys| + 1 && i < |n.kids| && l.id == n.kids[i].id && SortedKeys(n.keys)
    requires n.id in pages && pages[n.id] == PageOf(n)
    ensures var j := KeySlot(n.keys, sep);
            var n', page := Expand(n, i, j, l, sep, m), pages[n.id];
            && n'.Inner? && |n'.kids| == |n'.keys| + 1 && |n'.keys| > 0 && n'.id == n.id
            && page.InnerPage? && page.first == n'.kids[0].id && SortedKeys(InnerKeys(page.seps))
            && KeySlot(InnerKeys(page.seps), sep) == j && j <= |page.seps|
            && InsertAt(page.seps, j, InnerCell(sep, m.id)) == Seps(n'.keys, n'.kids)
            && UsedSeps(page.seps) == UsedKeys(n.keys)
  {
    SepsKeys(n.keys, n.kids);
    ExpandPage(n, i, KeySlot(n.keys, sep), l, sep, m);
    hide Rank, KeySlot, UsedKeys, InsertAt, SortedKeys;
  }

  lemma HoldsBelow(pages: Heap, n: Node, i: nat)
    requires n.Inner? && Holds(pages, n) && i < |n.kids|
    ensures Holds(pages, n.kids[i]) && n.id in pages && pages[n.id] == PageOf(n)
    ensures ChildAt(pages[n.id], i) == n.kids[i].id
  {
  }

  lemma NotFoundUntouched(a: Heap, b: Heap, n: Node, h: nat, ids: seq<PageId>)
    requires Untouched(a, b, n, ids)
    ensures UntouchedTree(a, b, Root(n, h), ids)
  {
  }

  // ---------- the four ways to fix a pair of siblings ----------

  lemma LeavesMerged(a: Heap, b: Heap, n: Node, s: nat, ids: seq<PageId>, under: bool)
    requires Siblings(n, s) && Separate(n, ids) && n.kids[s].Leaf? && n.kids[s + 1].Leaf? && Holds(a, n)
    requires var l, r, seps := n.kids[s], n.kids[s + 1], Seps(n.keys, n.kids);
             && b == a[l.id := LeafPage(StoreAll(l.cells) + StoreAll(r.cells), r.next)]
                      [n.id := InnerPage(n.kids[0].id, RemoveAt(seps, s))]
             && under == InnerPageUnderflow(RemoveAt(seps, s))
    ensures var l, r := n.kids[s], n.kids[s + 1];
            Deletes(a, b, n, ids, ids + [r.id],
                    Merged(Contract(n, s, Leaf(l.id, l.cells + r.cells, r.next)), ids + [r.id]), Done, under)
  {
    var l, r := n.kids[s], n.kids[s + 1];
    PairIds(n, s, ids);
    PairUntouched(a, b, n, s, ids);
    MergedLeaf(a, b, n, s, ids);
    ContractWritten(a, b, n, s, Leaf(l.id, l.cells + r.cells, r.next), ids);
    SepsRemoved(n.keys, n.kids, s);
  }

  lemma LeavesDealt(a: Heap, b: Heap, n: Node, s: nat, ids: seq<PageId>)
    requires Siblings(n, s) && Separate(n, ids) && n.kids[s].Leaf? && n.kids[s + 1].Leaf? && Holds(a, n)
    requires n.kids[s].cells + n.kids[s + 1].cells != []
    requires var l, r, seps := n.kids[s], n.kids[s + 1], Seps(n.keys, n.kids);
             var all := StoreAll(l.cells) + StoreAll(r.cells);
             var mid := |all| / 2;
             b == a[l.id := LeafPage(all[..mid], l.next)][r.id := LeafPage(all[mid..], r.next)]
                   [n.id := InnerPage(n.kids[0].id, seps[s := InnerCell(all[mid].key, r.id)])]
    ensures var l, r := n.kids[s], n.kids[s + 1];
            var all := l.cells + r.cells;
            var mid := |all| / 2;
            Deletes(a, b, n, ids, ids,
                    Deleted(Respace(n, s, Leaf(l.id, all[..mid], l.next), all[mid].key, Leaf(r.id, all[mid..], r.next)), false, ids),
                    Done, false)
  {
    hide *;
    SiblingsAre(n, s);
    var l, r := n.kids[s], n.kids[s + 1];
    var all := l.cells + r.cells;
    var mid := |all| / 2;
    PairIds(n, s, ids);
    DealtLeaves(n, s);
    DealtPages(a, b, n, s, mid, all[mid].key);
    PairUntouched(a, b, n, s, ids);
    CutLeaves(a, b, n, s, ids, mid);
    RespaceWritten(a, b, n, s, Leaf(l.id, all[..mid], l.next), all[mid].key, Leaf(r.id, all[mid..], r.next), ids);
    DeletesDone(a, b, n, ids, Respace(n, s, Leaf(l.id, all[..mid], l.next), all[mid].key, Leaf(r.id, all[mid..], r.next)), ids);
  }

  /** The three pages written when two leaves are dealt out anew. */
  lemma DealtPages(a: Heap, b: Heap, n: Node, s: nat, mid: nat, sep: Bytes)
    requires Siblings(n, s) && n.kids[s].Leaf? && n.kids[s + 1].Leaf?
    requires n.id != n.kids[s].id && n.id != n.kids[s + 1].id && n.kids[s].id != n.kids[s + 1].id
    requires mid <= |n.kids[s].cells| + |n.kids[s + 1].cells|
    requires var l, r, seps := n.kids[s], n.kids[s + 1], Seps(n.keys, n.kids);
             var all := StoreAll(l.cells) + StoreAll(r.cells);
             b == a[l.id := LeafPage(all[..mid], l.next)][r.id := LeafPage(all[mid..], r.next)]
                   [n.id := InnerPage(n.kids[0].id, seps[s := InnerCell(sep, r.id)])]
    ensures SameBut(a, b, n.id, n.kids[s].id, n.kids[s + 1].id)
    ensures var l, r, seps := n.kids[s], n.kids[s + 1], Seps(n.keys, n.kids);
            var all := StoreAll(l.cells) + StoreAll(r.cells);
            && l.id in b && b[l.id] == LeafPage(all[..mid], l.next) && r.id in b && b[r.id] == LeafPage(all[mid..], r.next)
            && n.id in b && b[n.id] == InnerPage(n.kids[0].id, seps[s := InnerCell(sep, r.id)])
  {
    hide StoreAll, Seps;
  }

  lemma DeletesDone(a: Heap, b: Heap, n: Node, ids: seq<PageId>, m: Node, av: seq<PageId>)
    requires Untouched(a, b, n, ids) && Holds(b, m)
    ensures Deletes(a, b, n, ids, av, Deleted(m, false, av), Done, false)
  {
    hide Untouched, Holds;
  }

  lemma InnersMerged(a: Heap, b: Heap, n: Node, s: nat, ids: seq<PageId>, under: bool)
    requires Siblings(n, s) && Separate(n, ids) && Joinable(n.kids[s], n.kids[s + 1]) && Holds(a, n)
    requires var l, r, seps := n.kids[s], n.kids[s + 1], Seps(n.keys, n.kids);
             && b == a[l.id := InnerPage(l.kids[0].id, Seps(l.keys, l.kids) + [InnerCell(n.keys[s], r.kids[0].id)] + Seps(r.keys, r.kids))]
                      [n.id := InnerPage(n.kids[0].id, RemoveAt(seps, s))]
             && under == InnerPageUnderflow(RemoveAt(seps, s))
    ensures var l, r := n.kids[s], n.kids[s + 1];
            Deletes(a, b, n, ids, ids + [r.id], Merged(Contract(n, s, Join(l, n.keys[s], r)), ids + [r.id]), Done, under)
  {
    var l, r := n.kids[s], n.kids[s + 1];
    PairIds(n, s, ids);
    PairUntouched(a, b, n, s, ids);
    JoinPage(l, n.keys[s], r);
    MergedInner(a, b, n, s, ids);
    ContractWritten(a, b, n, s, Join(l, n.keys[s], r), ids);
    SepsRemoved(n.keys, n.kids, s);
  }

  lemma InnersDealt(a: Heap, b: Heap, n: Node, s: nat, ids: seq<PageId>, all: Node, mid: nat)
    requires Siblings(n, s) && Separate(n, ids) && Joinable(n.kids[s], n.kids[s + 1]) && Holds(a, n)
    requires all == Join(n.kids[s], n.keys[s], n.kids[s + 1]) && |all.kids| == |all.keys| + 1 && mid < |all.keys|
    requires var l, r, seps, up := n.kids[s], n.kids[s + 1], Seps(all.keys, all.kids), Seps(n.keys, n.kids);
             b == a[l.id := InnerPage(l.kids[0].id, seps[..mid])][r.id := InnerPage(seps[mid].child, seps[mid + 1..])]
                   [n.id := InnerPage(n.kids[0].id, up[s := InnerCell(all.keys[mid], r.id)])]
    ensures Deletes(a, b, n, ids, ids,
                    Deleted(Respace(n, s, LeftPart(all, mid), all.keys[mid], RightPart(all, mid, n.kids[s + 1].id)), false, ids),
                    Done, false)
  {
    var l, r := n.kids[s], n.kids[s + 1];
    PairIds(n, s, ids);
    hide Separate, Uses, Occ, Holds, Seps, UsedSeps, UsedKeys, Untouched;
    PairUntouched(a, b, n, s, ids);
    hide SameBut;
    CutInners(a, b, n, s, ids, mid);
    RespaceWritten(a, b, n, s, LeftPart(all, mid), all.keys[mid], RightPart(all, mid, r.id), ids);
  }

  lemma PairFailed(a: Heap, b: Heap, n: Node, s: nat, ids: seq<PageId>, ids': seq<PageId>, under: bool)
    requires Siblings(n, s) && Separate(n, ids) && SameBut(a, b, n.id, n.kids[s].id, n.kids[s + 1].id)
    ensures Deletes(a, b, n, ids, ids', NotDeleted(Panic), Panic, under)
  {
    PairUntouched(a, b, n, s, ids);
  }
}
