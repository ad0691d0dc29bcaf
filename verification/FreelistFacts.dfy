/** The free-page allocator's state as values: the tree of free page IDs, the
    reserve its own nodes come from, and the pages that are handed out. */
module FreelistFacts {
  import opened Bytes
  import opened TreeModel
  import opened TreeView
  import opened TreeOps
  import opened TreePacked
  import opened PageKeys
  import opened Pages

  const RESERVE_TARGET: nat := 4

  /** The most free IDs a tree of depth 3 can be sure to hold. */
  const ROOMY: nat := 571_880

  ghost predicate Listed(t: Shape, p: PageId) {
    p < ID_LIMIT && PageIDToKey(p) in TreeMap(t)
  }

  /** In how many places page `p` is: the allocator's own tree nodes, the
      reserve, the keys of the tree, or some client. */
  ghost function Places(t: Shape, ids: seq<PageId>, held: set<PageId>, p: PageId): nat {
    TreeUses(t, p) + Occ(ids, p) + (if Listed(t, p) then 1 else 0) + (if p in held then 1 else 0)
  }

  /** Every managed page is in exactly one place, and no other page is in any. */
  ghost predicate Partition(t: Shape, ids: seq<PageId>, held: set<PageId>, all: set<PageId>) {
    && WellFormed(t) && PackedTree(t)
    && (forall p: PageId :: Places(t, ids, held, p) == if p in all then 1 else 0)
    && (forall p :: p in all ==> 0 < p < ID_LIMIT)
  }

  // ---------- the keys of the tree ----------

  lemma {:induction false} PackedEntries(n: Node, minCells: nat, minKeys: nat)
    requires Packed(n, minCells, minKeys)
    ensures FixedCells(Entries(n))
    decreases n, 1
  {
    if n.Inner? {
      PackedEntriesOf(n.kids);
    }
  }

  lemma {:induction false} PackedEntriesOf(kids: seq<Node>)
    requires forall i :: 0 <= i < |kids| ==> Packed(kids[i], MIN_CELLS, MIN_KEYS)
    ensures FixedCells(EntriesOf(kids))
    decreases kids, 0
  {
    if kids != [] {
      PackedEntries(kids[0], MIN_CELLS, MIN_KEYS);
      PackedEntriesOf(kids[1..]);
      FixedConcat(Entries(kids[0]), EntriesOf(kids[1..]));
    }
  }

  /** The tree's cells are sorted 8-byte keys with empty values. */
  lemma FreeCells(t: Shape)
    requires WellFormed(t) && PackedTree(t)
    ensures Sorted(TreeCells(t)) && FixedCells(TreeCells(t))
  {
    if t.Root? {
      PackedEntries(t.node, 0, 1);
      EntriesOrdered(t.node, 0.0, 1.0);
    }
  }

  /** The first cell has the smallest ID in the tree. */
  lemma FirstIsLeast(t: Shape)
    requires WellFormed(t) && PackedTree(t) && TreeCells(t) != []
    ensures var key := TreeCells(t)[0].key;
            && |key| == 8 && key in TreeMap(t) && Listed(t, KeyToPageID(key))
            && PageIDToKey(KeyToPageID(key)) == key
            && forall p :: Listed(t, p) ==> KeyToPageID(key) <= p
  {
    hide Rank, PageIDToKey, KeyToPageID, Contents, WellFormed, PackedTree, TreeCells, Sorted;
    var cells := TreeCells(t);
    var key := cells[0].key;
    FreeCells(t);
    assert FixedCell(cells[0]);
    ContentsAt(cells);
    assert cells[0] in cells && key in TreeMap(t);
    KeysAreIds(0, key);
    forall p | Listed(t, p) ensures KeyToPageID(key) <= p {
      var c :| c in cells && c.key == PageIDToKey(p);
      FirstBelow(cells, c);
      KeysAreIds(p, key);
    }
  }

  lemma FirstBelow(cells: seq<Cell>, c: Cell)
    requires Sorted(cells) && c in cells
    ensures Rank(cells[0].key) <= Rank(c.key)
  {
    hide Rank;
    var j :| 0 <= j < |cells| && cells[j] == c;
  }

  lemma OtherKey(p: PageId, id: PageId)
    requires p < ID_LIMIT && id < ID_LIMIT
    ensures PageIDToKey(p) == PageIDToKey(id) <==> p == id
  {
    KeysAreIds(p, PageIDToKey(p));
    KeysAreIds(id, PageIDToKey(id));
  }

  // ---------- allocation ----------

  lemma RootUsedOnce(t: Shape, ids: seq<PageId>, held: set<PageId>, all: set<PageId>)
    requires Partition(t, ids, held, all) && t.Root?
    ensures Uses(t.node, t.node.id) == 1
  {
    assert Places(t, ids, held, t.node.id) <= 1;
  }

  lemma DropShortens(cells: seq<Cell>, key: Bytes)
    requires Sorted(cells) && key in Contents(cells)
    ensures |DropCell(cells, key)| == |cells| - 1
  {
    SlotContents(cells, key);
    hide Rank, Slot;
  }

  lemma ListedBecomesHeld(t: Shape, ids: seq<PageId>, t': Shape, ids': seq<PageId>, held: set<PageId>, id: PageId)
    requires forall p: PageId :: TreeUses(t', p) + Occ(ids', p) == TreeUses(t, p) + Occ(ids, p)
    requires Listed(t, id) && id !in held && TreeMap(t') == TreeMap(t) - {PageIDToKey(id)}
    ensures forall p: PageId :: Places(t', ids', held + {id}, p) == Places(t, ids, held, p)
  {
    hide TreeMap, PageIDToKey, TreeUses, Occ;
    forall p: PageId ensures Places(t', ids', held + {id}, p) == Places(t, ids, held, p) {
      assert TreeUses(t', p) + Occ(ids', p) == TreeUses(t, p) + Occ(ids, p);
      if p < ID_LIMIT {
        OtherKey(p, id);
      }
    }
  }

  lemma HeldBecomesListed(t: Shape, ids: seq<PageId>, t': Shape, ids': seq<PageId>, held: set<PageId>, id: PageId)
    requires forall p: PageId :: TreeUses(t', p) + Occ(ids', p) == TreeUses(t, p) + Occ(ids, p)
    requires id < ID_LIMIT && id in held && PageIDToKey(id) !in TreeMap(t)
    requires TreeMap(t') == TreeMap(t)[PageIDToKey(id) := []]
    ensures forall p: PageId :: Places(t', ids', held - {id}, p) == Places(t, ids, held, p)
  {
    hide TreeMap, PageIDToKey, TreeUses, Occ;
    forall p: PageId ensures Places(t', ids', held - {id}, p) == Places(t, ids, held, p) {
      assert TreeUses(t', p) + Occ(ids', p) == TreeUses(t, p) + Occ(ids, p);
      if p < ID_LIMIT {
        OtherKey(p, id);
      }
    }
  }

  lemma PartitionKept(t: Shape, ids: seq<PageId>, held: set<PageId>,
                      t': Shape, ids': seq<PageId>, held': set<PageId>, all: set<PageId>)
    requires Partition(t, ids, held, all) && WellFormed(t') && PackedTree(t')
    requires forall p: PageId :: Places(t', ids', held', p) == Places(t, ids, held, p)
    ensures Partition(t', ids', held', all)
  {
    hide WellFormed, PackedTree, Places;
  }

  lemma ListedIsManaged(t: Shape, ids: seq<PageId>, held: set<PageId>, all: set<PageId>, id: PageId)
    requires Partition(t, ids, held, all) && Listed(t, id)
    ensures id in all && id !in held
  {
    hide WellFormed, PackedTree, Listed, TreeUses, Occ;
    assert Places(t, ids, held, id) >= 1;
  }

  /** Taking the smallest ID out of the tree hands out exactly that page. */
  lemma TakeLeast(t: Shape, ids: seq<PageId>, held: set<PageId>, all: set<PageId>)
    requires Partition(t, ids, held, all) && TreeCells(t) != []
    ensures |TreeCells(t)[0].key| == 8 && ShapedTree(t)
    ensures var key := TreeCells(t)[0].key;
            var id: PageId, o := KeyToPageID(key), Remove(t, key, ids);
            && o.status == Done && id !in held && id in all
            && Partition(o.tree, o.av, held + {id}, all)
            && |TreeCells(o.tree)| == |TreeCells(t)| - 1
  {
    FirstIsLeast(t);
    FreeCells(t);
    assert ShapedTree(t) && TreeMap(t) == Contents(TreeCells(t));
    var key := TreeCells(t)[0].key;
    assert |key| == KEY_WIDTH && key != [];
    var id: PageId, o := KeyToPageID(key), Remove(t, key, ids);
    assert WellFormed(t) && PackedTree(t);
    hide Rank, Remove, WellFormed, PackedTree, TreeMap, TreeCells, Contents, DropCell, KeyToPageID, PageIDToKey,
         TreeUses, Uses, Occ, Partition, Places, Listed, Sorted, ShapedTree;
    RootUsed(t, ids, held, all);
    RemoveCorrect(t, key, ids);
    RemovePacked(t, key, ids);
    DropShortens(TreeCells(t), key);
    ListedIsManaged(t, ids, held, all, id);
    ListedBecomesHeld(t, ids, o.tree, o.av, held, id);
    PartitionKept(t, ids, held, o.tree, o.av, held + {id}, all);
  }

  lemma RootUsed(t: Shape, ids: seq<PageId>, held: set<PageId>, all: set<PageId>)
    requires Partition(t, ids, held, all)
    ensures t.Root? ==> Uses(t.node, t.node.id) == 1
  {
    if t.Root? {
      RootUsedOnce(t, ids, held, all);
    }
  }

  lemma TakeReserve(t: Shape, ids: seq<PageId>, held: set<PageId>, all: set<PageId>)
    requires Partition(t, ids, held, all) && ids != []
    ensures var id := ids[|ids| - 1];
            id !in held && id in all && Partition(t, ids[..|ids| - 1], held + {id}, all)
  {
    var id := ids[|ids| - 1];
    OccIn(ids, |ids| - 1);
    assert Places(t, ids, held, id) >= 1;
    hide WellFormed, PackedTree, Listed, Uses, Occ;
    forall p: PageId ensures Places(t, ids[..|ids| - 1], held + {id}, p) == Places(t, ids, held, p) {
      OccLast(ids, p);
    }
  }

  // ---------- giving back ----------

  /** A page not managed so far, taken over as one that is handed out. */
  lemma Adopt(t: Shape, ids: seq<PageId>, held: set<PageId>, all: set<PageId>, id: PageId)
    requires Partition(t, ids, held, all) && id !in all && 0 < id < ID_LIMIT
    ensures Partition(t, ids, held + {id}, all + {id})
  {
    hide WellFormed, PackedTree, Listed, Uses, Occ;
    assert Places(t, ids, held, id) == 0;
    forall p: PageId ensures Places(t, ids, held + {id}, p) == Places(t, ids, held, p) + if p == id then 1 else 0 {
    }
  }

  lemma GiveToReserve(t: Shape, ids: seq<PageId>, held: set<PageId>, all: set<PageId>, id: PageId)
    requires Partition(t, ids, held, all) && id in held
    ensures Partition(t, ids + [id], held - {id}, all)
  {
    hide WellFormed, PackedTree, Listed, Uses, Occ;
    forall p: PageId ensures Places(t, ids + [id], held - {id}, p) == Places(t, ids, held, p) {
      OccAppended(ids, id, p);
    }
  }

  lemma OccAppended(ids: seq<PageId>, id: PageId, p: PageId)
    ensures Occ(ids + [id], p) == Occ(ids, p) + if p == id then 1 else 0
  {
    OccLast(ids + [id], p);
    assert (ids + [id])[..|ids|] == ids;
  }

  lemma PutLengthens(cells: seq<Cell>, c: Cell)
    requires Sorted(cells) && c.key !in Contents(cells)
    ensures |PutCell(cells, c)| == |cells| + 1
  {
    SlotContents(cells, c.key);
    hide Rank, Slot;
  }

  lemma HeldNotListed(t: Shape, ids: seq<PageId>, held: set<PageId>, all: set<PageId>, id: PageId)
    requires Partition(t, ids, held, all) && id in held
    ensures id in all && 0 < id < ID_LIMIT && PageIDToKey(id) !in TreeMap(t)
  {
    assert Places(t, ids, held, id) >= 1;
  }

  lemma PutCellsOne(t: Shape, key: Bytes, ids: seq<PageId>)
    requires WellFormed(t) && PackedTree(t) && key !in TreeMap(t)
    requires Put(t, key, [], ids).status == Done
    ensures |TreeCells(Put(t, key, [], ids).tree)| == |TreeCells(t)| + 1
  {
    FreeCells(t);
    PutDone(t, key, [], ids);
    hide Rank, WellFormed, PackedTree, Put, Contents, PutCell, Sorted;
    PutLengthens(TreeCells(t), NewCell(key, [], StartPages(t, ids)));
  }

  /** Putting a handed-out page's ID into the tree takes the page back; the
      pages the tree needs for it stay with the allocator. */
  lemma GiveToTree(t: Shape, ids: seq<PageId>, held: set<PageId>, all: set<PageId>, id: PageId)
    requires Partition(t, ids, held, all) && id in held
    ensures id < ID_LIMIT && ShapedTree(t)
    ensures var o := Put(t, PageIDToKey(id), [], ids);
            && (o.status == Done || o.status == NoPages)
            && (o.status == NoPages ==> |ids| < Height(t) + 2)
            && (o.status == Done ==>
                  && Partition(o.tree, o.av, held - {id}, all)
                  && |TreeCells(o.tree)| == |TreeCells(t)| + 1
                  && |ids| <= |o.av| + Height(t) + 2)
  {
    HeldNotListed(t, ids, held, all, id);
    var key := PageIDToKey(id);
    assert ShapedTree(t) && ChainLen([]) == 0 && |key| == KEY_WIDTH && key != [];
    assert WellFormed(t) && PackedTree(t);
    var o := Put(t, key, [], ids);
    hide Rank, Put, WellFormed, PackedTree, TreeMap, TreeCells, PageIDToKey, TreeUses, Uses, Occ, Height, Partition, Places,
         Listed, ShapedTree, ChainLen;
    PutCorrect(t, key, [], ids);
    PutPacked(t, key, ids);
    if o.status == Done {
      PutCellsOne(t, key, ids);
      HeldBecomesListed(t, ids, o.tree, o.av, held, id);
      PartitionKept(t, ids, held, o.tree, o.av, held - {id}, all);
    }
  }

  /** While the tree holds fewer than 571,880 IDs, four reserve pages are enough
      for one more. */
  lemma FourAreEnough(t: Shape, ids: seq<PageId>, held: set<PageId>, all: set<PageId>, id: PageId)
    requires Partition(t, ids, held, all) && id in held
    requires |ids| >= RESERVE_TARGET && |TreeCells(t)| < ROOMY
    ensures id < ID_LIMIT && ShapedTree(t) && Put(t, PageIDToKey(id), [], ids).status == Done
  {
    GiveToTree(t, ids, held, all, id);
    DepthBound(t);
  }

  // ---------- giving back what is free already ----------

  /** Whether a page can be given back: a client has it, or nobody knew it. */
  predicate Given(held: set<PageId>, all: set<PageId>, id: PageId) {
    id in held || id !in all
  }

  /** A page that is in two places belongs to no state of the allocator, whoever
      holds which pages. */
  ghost predicate Doubled(t: Shape, ids: seq<PageId>) {
    forall held, all :: !Partition(t, ids, held, all)
  }

  lemma TwoPlaces(t: Shape, ids: seq<PageId>, id: PageId)
    requires TreeUses(t, id) + Occ(ids, id) + (if Listed(t, id) then 1 else 0) >= 2
    ensures Doubled(t, ids)
  {
    hide WellFormed, PackedTree, Listed, TreeUses, Occ;
    forall held, all ensures !Partition(t, ids, held, all) {
      assert Places(t, ids, held, id) >= 2;
    }
  }

  lemma FreeAlready(t: Shape, ids: seq<PageId>, held: set<PageId>, all: set<PageId>, id: PageId)
    requires Partition(t, ids, held, all) && !Given(held, all, id)
    ensures 0 < id < ID_LIMIT && TreeUses(t, id) + Occ(ids, id) + (if Listed(t, id) then 1 else 0) == 1
  {
    hide WellFormed, PackedTree, Listed, TreeUses, Occ;
    assert Places(t, ids, held, id) == 1;
  }

  /** A page that is free already, or holds a node, goes into the reserve once
      more. */
  lemma ReserveTwice(t: Shape, ids: seq<PageId>, held: set<PageId>, all: set<PageId>, id: PageId)
    requires Partition(t, ids, held, all) && !Given(held, all, id)
    ensures Doubled(t, ids + [id])
  {
    FreeAlready(t, ids, held, all, id);
    OccAppended(ids, id, id);
    TwoPlaces(t, ids + [id], id);
  }

  /** Listing a page that is listed already changes nothing; listing one that is
      in reserve, or holds a node, puts it into two places. */
  lemma ListTwice(t: Shape, ids: seq<PageId>, held: set<PageId>, all: set<PageId>, id: PageId)
    requires Partition(t, ids, held, all) && !Given(held, all, id)
    ensures id < ID_LIMIT && ShapedTree(t)
    ensures var o := Put(t, PageIDToKey(id), [], ids);
            && (|ids| >= RESERVE_TARGET && |TreeCells(t)| < ROOMY ==> o.status == Done)
            && (o.status == Done ==>
                  if Listed(t, id) then Partition(o.tree, o.av, held, all) && TreeMap(o.tree) == TreeMap(t)
                  else Doubled(o.tree, o.av))
  {
    FreeAlready(t, ids, held, all, id);
    var key := PageIDToKey(id);
    PartitionIs(t, ids, held, all);
    assert ShapedTree(t) && ChainLen([]) == 0 && |key| == KEY_WIDTH && key != [];
    var o := Put(t, key, [], ids);
    PutCorrect(t, key, [], ids);
    PutPacked(t, key, ids);
    hide *;
    TargetIsFour();
    if |TreeCells(t)| < ROOMY {
      RoomyIsFlat(t);
    }
    if o.status == Done {
      ListedAfter(t, o.tree, id);
      if Listed(t, id) {
        FreeValue(t, id);
        SamePlaces(t, ids, o.tree, o.av, held);
        PartitionKept(t, ids, held, o.tree, o.av, held, all);
      } else {
        TwoPlaces(o.tree, o.av, id);
      }
    }
  }

  lemma PartitionIs(t: Shape, ids: seq<PageId>, held: set<PageId>, all: set<PageId>)
    requires Partition(t, ids, held, all)
    ensures WellFormed(t) && PackedTree(t) && ShapedTree(t)
  {
  }

  lemma TargetIsFour()
    ensures RESERVE_TARGET == 4
  {
  }

  lemma RoomyIsFlat(t: Shape)
    requires WellFormed(t) && PackedTree(t) && |TreeCells(t)| < ROOMY
    ensures Height(t) <= 2
  {
    DepthBound(t);
  }

  lemma ListedAfter(t: Shape, t': Shape, id: PageId)
    requires id < ID_LIMIT && TreeMap(t') == TreeMap(t)[PageIDToKey(id) := []]
    ensures forall p: PageId :: Listed(t', p) <==> Listed(t, p) || p == id
  {
    hide TreeMap, PageIDToKey;
    forall p: PageId ensures Listed(t', p) <==> Listed(t, p) || p == id {
      if p < ID_LIMIT {
        OtherKey(p, id);
      }
    }
  }

  /** Every listed ID has an empty value. */
  lemma FreeValue(t: Shape, id: PageId)
    requires WellFormed(t) && PackedTree(t) && Listed(t, id)
    ensures TreeMap(t)[PageIDToKey(id) := []] == TreeMap(t)
  {
    FreeCells(t);
    var cells, key := TreeCells(t), PageIDToKey(id);
    SlotContents(cells, key);
    hide PageIDToKey, WellFormed, PackedTree, Slot, Contents, Sorted, TreeCells;
    assert FixedCell(cells[Slot(cells, key)]);
  }

  lemma SamePlaces(t: Shape, ids: seq<PageId>, t': Shape, ids': seq<PageId>, held: set<PageId>)
    requires forall p: PageId :: TreeUses(t', p) + Occ(ids', p) == TreeUses(t, p) + Occ(ids, p)
    requires forall p: PageId :: Listed(t', p) <==> Listed(t, p)
    ensures forall p: PageId :: Places(t', ids', held, p) == Places(t, ids, held, p)
  {
    hide TreeUses, Occ, Listed;
  }

  // ---------- `Put` only takes pages ----------

  lemma LeafTakes(n: Node, key: Bytes, av: seq<PageId>)
    requires n.Leaf? && FixedCells(n.cells)
    ensures var r := InsertLeaf(n, key, [], av); r.Inserted? ==> |r.av| <= |av|
  {
    hide Slot, Used, CellSize;
    var i := Slot(n.cells, key);
    assert i < |n.cells| ==> FixedCell(n.cells[i]);
    assert ChainAt(n.cells, key) == [];
  }

  lemma AbsorbTakes(n: Node, i: nat, r: Inserted)
    requires n.Inner? && |n.kids| == |n.keys| + 1 && i < |n.kids| && r.Inserted?
    ensures var q := Absorb(n, i, r); q.Inserted? ==> |q.av| <= |r.av|
  {
    hide KeySlot, UsedKeys, Expand, LeftPart, RightPart;
  }

  lemma {:induction false} InsertOnlyTakes(n: Node, h: nat, key: Bytes, av: seq<PageId>, minCells: nat, minKeys: nat)
    requires Shaped(n, h) && Packed(n, minCells, minKeys)
    ensures var r := Insert(n, h, key, [], av); r.Inserted? ==> |r.av| <= |av|
    decreases h
  {
    hide Route, InsertLeaf, Absorb;
    match n
    case Leaf(_, _, _) =>
      LeafTakes(n, key, av);
    case Inner(_, keys, kids) =>
      var i := Route(keys, key);
      assert Packed(kids[i], MIN_CELLS, MIN_KEYS);
      InsertOnlyTakes(kids[i], h - 1, key, av, MIN_CELLS, MIN_KEYS);
      var r := Insert(kids[i], h - 1, key, [], av);
      if r.Inserted? {
        AbsorbTakes(n, i, r);
      }
  }

  lemma PutTakes(t: Shape, key: Bytes, ids: seq<PageId>)
    requires ShapedTree(t) && PackedTree(t) && Put(t, key, [], ids).status == Done
    ensures |Put(t, key, [], ids).av| <= |ids|
  {
    assert Packed(StartRoot(t, ids), 0, 1);
    InsertOnlyTakes(StartRoot(t, ids), Height(t), key, StartPages(t, ids), 0, 1);
    hide Insert;
  }
}
