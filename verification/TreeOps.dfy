/** `Put`, `Delete` and `Get` on whole trees. */
module TreeOps {
  import opened Bytes
  import opened TreeModel
  import opened TreeView
  import opened TreeInsert
  import opened TreeDelete
  import opened TreeRoom
  import opened TreeSurgery

  ghost function TreeCells(t: Shape): seq<Cell> {
    if t.Root? then Entries(t.node) else []
  }

  /** The map a tree stands for. */
  ghost function TreeMap(t: Shape): map<Bytes, Bytes> {
    Contents(TreeCells(t))
  }

  ghost function TreeUses(t: Shape, p: PageId): nat {
    if t.Root? then Uses(t.node, p) else 0
  }

  /** A well-formed tree: all leaves at one depth, cells and separators in
      order, the leaf list threaded through the leaves and ended by 0, and
      every node within its page. */
  ghost predicate WellFormed(t: Shape) {
    t.Root? ==>
      && Shaped(t.node, t.height)
      && Ordered(t.node, 0.0, 1.0)
      && Chained(t.node, 0)
      && Fits(t.node)
  }

  lemma NewRootOrdered(l: Node, sep: Bytes, r: Node, id: PageId)
    requires 0.0 < Rank(sep) < 1.0 && Ordered(l, 0.0, Rank(sep)) && Ordered(r, Rank(sep), 1.0)
    ensures Ordered(Inner(id, [sep], [l, r]), 0.0, 1.0)
  {
    hide Rank;
    var n := Inner(id, [sep], [l, r]);
    forall i | 0 <= i < 2 ensures Ordered(n.kids[i], Low(n.keys, 0.0, i), High(n.keys, 1.0, i)) {
    }
  }

  lemma NewRootFits(l: Node, sep: Bytes, r: Node, id: PageId)
    requires Fits(l) && Fits(r) && INNER_CELL_OVERHEAD + |sep| <= MAX_CELL_AREA
    ensures Fits(Inner(id, [sep], [l, r]))
  {
    assert [sep][1..] == [] && UsedKeys([sep][1..]) == 0;
  }

  /** The two nodes under a new root. */
  lemma NewRoot(l: Node, sep: Bytes, r: Node, h: nat, id: PageId)
    requires Shaped(l, h) && Shaped(r, h) && Fits(l) && Fits(r) && INNER_CELL_OVERHEAD + |sep| <= MAX_CELL_AREA
    requires 0.0 < Rank(sep) < 1.0 && Ordered(l, 0.0, Rank(sep)) && Ordered(r, Rank(sep), 1.0)
    requires Chained(l, FirstLeaf(r)) && Chained(r, 0)
    ensures WellFormed(Root(Inner(id, [sep], [l, r]), h + 1))
    ensures Entries(Inner(id, [sep], [l, r])) == Entries(l) + Entries(r)
    ensures forall p :: Uses(Inner(id, [sep], [l, r]), p) == Uses(l, p) + Uses(r, p) + if id == p then 1 else 0
  {
    NewRootOrdered(l, sep, r, id);
    NewRootFits(l, sep, r, id);
    EntriesPair(l, r);
    hide Rank, Ordered, Fits;
    forall p ensures Uses(Inner(id, [sep], [l, r]), p) == Uses(l, p) + Uses(r, p) + if id == p then 1 else 0 {
      UsesPair(l, r, p);
    }
  }

  lemma StartIsWellFormed(t: Shape, av: seq<PageId>)
    requires WellFormed(t) && (t.Empty? ==> av != [])
    ensures WellFormed(Root(StartRoot(t, av), Height(t)))
    ensures Entries(StartRoot(t, av)) == TreeCells(t)
    ensures forall p :: Uses(StartRoot(t, av), p) + Occ(StartPages(t, av), p) == TreeUses(t, p) + Occ(av, p)
  {
    if t.Empty? {
      forall p ensures Uses(StartRoot(t, av), p) + Occ(StartPages(t, av), p) == Occ(av, p) {
        OccLast(av, p);
      }
    }
  }

  /** Everything `Insert` guarantees at the root. */
  ghost predicate GoodAtRoot(r: Inserted, h: nat, cells: seq<Cell>) {
    r.Inserted? ==>
      && ShapedResult(r, h) && OrderedResult(r, 0.0, 1.0) && FitsResult(r)
      && ChainedResult(r, FirstLeaf(r.node), 0)
      && ResultEntries(r) == cells
  }

  /** What `Put` makes of a result of `Insert`. */
  lemma FinishPut(t: Shape, h: nat, r: Inserted, cells: seq<Cell>, av: seq<PageId>)
    requires r.Inserted? && GoodAtRoot(r, h, cells) && Finish(t, h, r, av).status == Done
    ensures var o := Finish(t, h, r, av);
            && WellFormed(o.tree) && TreeCells(o.tree) == cells
            && forall p :: TreeUses(o.tree, p) + Occ(o.av, p) == ResultUses(r, p)
  {
    match r.right
    case None =>
      assert ResultEntries(r) == Entries(r.node);
    case Some((sep, right)) =>
      NewRoot(r.node, sep, right, h, r.av[|r.av| - 1]);
      forall p ensures Occ(r.av, p) == Occ(r.av[..|r.av| - 1], p) + if r.av[|r.av| - 1] == p then 1 else 0 {
        OccLast(r.av, p);
      }
  }

  /** Which way `Put` goes. */
  lemma PutIs(t: Shape, key: Bytes, val: Bytes, av: seq<PageId>)
    requires ShapedTree(t)
    ensures var o := Put(t, key, val, av);
            if key == [] then o.status == EmptyKey
            else if |key| > MAX_KEY_SIZE then o.status == KeyTooLarge
            else if t.Empty? && av == [] then o.status == NoPages
            else
              && (t.Empty? ==> av != []) && Shaped(StartRoot(t, av), Height(t))
              && o == Finish(t, Height(t), Insert(StartRoot(t, av), Height(t), key, val, StartPages(t, av)), av)
  {
    hide Insert, Finish;
  }

  /** What a first insertion takes: one page, and one for every 4,064 bytes of
      a value of more than 6. */
  lemma FirstPut(key: Bytes, val: Bytes, av: seq<PageId>)
    requires 1 <= |key| <= 2021
    ensures var o := Put(Empty, key, val, av);
            var need := 1 + if |val| <= 6 then 0 else (|val| + 4063) / 4064;
            && (o.status == Done <==> |av| >= need)
            && (o.status == NoPages <==> |av| < need)
            && (o.status == Done ==> TreeMap(o.tree) == map[key := val] && o.av == av[..|av| - need])
  {
    if av != [] {
      var n, pages := StartRoot(Empty, av), StartPages(Empty, av);
      FirstInsertion(n, key, val, pages);
      if ChainLen(val) <= |pages| {
        FirstCell(NewCell(key, val, pages));
      }
    }
  }

  lemma FirstCell(c: Cell)
    ensures Contents([c]) == map[c.key := c.val]
  {
    assert [c][..0] == [] && [c][1..] == [];
  }

  /** `Put` keeps a tree well formed, updates exactly one key of the map, and
      moves pages between tree and allocator without losing or doubling one.
      It can only fail as documented: on a key that is empty or too long; when,
      as `PutStarves` says exactly, the pages end before the value and the splits
      have theirs, which needs fewer than the value's and one per level; or, as
      `PutOverflows` says exactly, when a half of a split does not fit its page.
      The first insertion of all succeeds if and only if there is a page for the
      root and one for every 4,064 bytes of a value of more than 6. */
  lemma PutCorrect(t: Shape, key: Bytes, val: Bytes, av: seq<PageId>)
    requires WellFormed(t)
    ensures var o := Put(t, key, val, av);
            && (o.status == EmptyKey <==> key == [])
            && (o.status == KeyTooLarge <==> |key| > 2021)
            && o.status != KeyNotFound
            && (o.status == Panic <==> PutOverflows(t, key, val, av))
            && (o.status == NoPages <==> PutStarves(t, key, val, av))
            && (o.status == NoPages ==> |av| < ChainLen(val) + Height(t) + 2)
            && (o.status == Done ==>
                  && WellFormed(o.tree)
                  && TreeMap(o.tree) == TreeMap(t)[key := val]
                  && (forall p :: TreeUses(o.tree, p) + Occ(o.av, p) == TreeUses(t, p) + Occ(av, p))
                  && |av| <= |o.av| + ChainLen(val) + Height(t) + 2)
            && (t.Empty? && 1 <= |key| <= 2021 ==>
                  (o.status == Done <==> |av| >= 1 + if |val| <= 6 then 0 else (|val| + 4063) / 4064))
  {
    hide PutOverflows, PutStarves;
    if t.Empty? && 1 <= |key| <= 2021 {
      FirstPut(key, val, av);
    }
    PutPanics(t, key, val, av);
    PutRunsOut(t, key, val, av);
    var o := Put(t, key, val, av);
    if key != [] && |key| <= MAX_KEY_SIZE && !(t.Empty? && av == []) {
      var root, h, av0 := StartRoot(t, av), Height(t), StartPages(t, av);
      StartIsWellFormed(t, av);
      InsertTakesFromRoot(t, key, val, av);
      if o.status == Done {
        PutDone(t, key, val, av);
        EntriesOrdered(root, 0.0, 1.0);
        PutCellIsUpdate(Entries(root), NewCell(key, val, av0));
      }
    }
  }

  /** A first insertion does not split, and later ones take at most one page a
      level. */
  lemma InsertTakesFromRoot(t: Shape, key: Bytes, val: Bytes, av: seq<PageId>)
    requires WellFormed(t) && key != [] && |key| <= MAX_KEY_SIZE && (t.Empty? ==> av != [])
    ensures var o := Put(t, key, val, av);
            && o.status != EmptyKey && o.status != KeyTooLarge && o.status != KeyNotFound
            && (o.status == NoPages ==> |av| < ChainLen(val) + Height(t) + 2)
            && (o.status == Done ==> |av| <= |o.av| + ChainLen(val) + Height(t) + 2)
  {
    var root, h, av0 := StartRoot(t, av), Height(t), StartPages(t, av);
    InsertTakes(root, h, key, val, av0);
    if t.Empty? {
      FirstInsertion(root, key, val, av0);
    }
    hide Insert;
  }

  lemma FirstInsertion(n: Node, key: Bytes, val: Bytes, av: seq<PageId>)
    requires n.Leaf? && n.cells == [] && |key| <= MAX_KEY_SIZE
    ensures var r := InsertLeaf(n, key, val, av);
            && (r.Inserted? ==> r.right.None?)
            && (r.NotInserted? ==> r.status == NoPages && |av| < ChainLen(val))
            && (r.Inserted? ==>
                  && ChainLen(val) <= |av| && r.av == av[..|av| - ChainLen(val)]
                  && r.node == Leaf(n.id, [NewCell(key, val, av)], n.next))
  {
  }

  lemma InsertAtRoot(n: Node, h: nat, key: Bytes, val: Bytes, av: seq<PageId>)
    requires WellFormed(Root(n, h)) && |key| <= MAX_KEY_SIZE
    ensures var r := Insert(n, h, key, val, av);
            && (r.Inserted? ==> ChainLen(val) <= |av|)
            && (r.Inserted? ==> GoodAtRoot(r, h, PutCell(Entries(n), NewCell(key, val, av))))
            && (r.Inserted? ==> forall p :: ResultUses(r, p) == Uses(n, p) + Occ(av, p))
  {
    InsertShaped(n, h, key, val, av);
    InsertOrdered(n, h, key, val, av, 0.0, 1.0);
    InsertEntries(n, h, key, val, av, 0.0, 1.0);
    InsertChained(n, h, key, val, av, 0.0, 1.0, 0);
    InsertFits(n, h, key, val, av);
    hide Insert, ShapedResult, OrderedResult, FitsResult, ResultUses, ResultEntries, Rank, PutCell, TakePages;
    var r := Insert(n, h, key, val, av);
    if r.Inserted? {
      forall p ensures ResultUses(r, p) == Uses(n, p) + Occ(av, p) {
        InsertUses(n, h, key, val, av, p);
      }
    }
  }

  lemma PutDone(t: Shape, key: Bytes, val: Bytes, av: seq<PageId>)
    requires WellFormed(t) && Put(t, key, val, av).status == Done
    ensures var o := Put(t, key, val, av);
            var av0 := StartPages(t, av);
            && WellFormed(o.tree) && ChainLen(val) <= |av0|
            && TreeCells(o.tree) == PutCell(TreeCells(t), NewCell(key, val, av0))
            && forall p :: TreeUses(o.tree, p) + Occ(o.av, p) == TreeUses(t, p) + Occ(av, p)
  {
    hide Insert, GoodAtRoot, ResultUses, Rank, PutCell, TakePages, StartRoot, StartPages;
    var root, h, av0 := StartRoot(t, av), Height(t), StartPages(t, av);
    StartIsWellFormed(t, av);
    InsertAtRoot(root, h, key, val, av0);
    InsertTakes(root, h, key, val, av0);
    var r := Insert(root, h, key, val, av0);
    FinishPut(t, h, r, PutCell(TreeCells(t), NewCell(key, val, av0)), av);
  }

  /** `collapseRoot` on a root without separators. */
  lemma CollapseWellFormed(n: Node, h: nat)
    requires WellFormed(Root(n, h)) && n.Inner? && n.keys == []
    ensures h > 0 && |n.kids| == 1 && WellFormed(Root(n.kids[0], h - 1))
  {
    hide Rank;
    assert Ordered(n.kids[0], Low(n.keys, 0.0, 0), High(n.keys, 1.0, 0));
    assert Chained(n.kids[0], After(n.kids, 0, 0));
  }

  lemma CollapseKeeps(n: Node, h: nat, av: seq<PageId>)
    requires WellFormed(Root(n, h)) && n.Inner? && n.keys == []
    ensures h > 0 && |n.kids| == 1 && WellFormed(Root(n.kids[0], h - 1))
    ensures Entries(n.kids[0]) == Entries(n)
    ensures forall p :: Uses(n.kids[0], p) + Occ(av + [n.id], p) == Uses(n, p) + Occ(av, p)
  {
    CollapseWellFormed(n, h);
    OnlyChild(n);
    hide WellFormed;
    forall p ensures Uses(n.kids[0], p) + Occ(av + [n.id], p) == Uses(n, p) + Occ(av, p) {
      OnlyChildUses(n, p);
      OccAppend(av, n.id, p);
    }
  }

  lemma OnlyChild(n: Node)
    requires n.Inner? && |n.kids| == 1
    ensures Entries(n.kids[0]) == Entries(n)
  {
    assert n.kids == [n.kids[0]];
    EntriesSingle(n.kids[0]);
  }

  lemma OnlyChildUses(n: Node, p: PageId)
    requires n.Inner? && |n.kids| == 1
    ensures Uses(n, p) == Uses(n.kids[0], p) + if n.id == p then 1 else 0
  {
    assert n.kids == [n.kids[0]];
    UsesSingle(n.kids[0], p);
  }

  /** `Delete` keeps a tree well formed, removes exactly one key from the map,
      and gives back every page that leaves the tree.  It never needs a page,
      and it fails only for an empty or absent key, or, as `RemoveOverflows`
      says exactly, when a redistribution does not fit its pages. */
  lemma RemoveCorrect(t: Shape, key: Bytes, av: seq<PageId>)
    requires WellFormed(t)
    ensures var o := Remove(t, key, av);
            && (o.status == EmptyKey <==> key == [])
            && (o.status == KeyNotFound <==> key != [] && key !in TreeMap(t))
            && o.status != NoPages && o.status != KeyTooLarge
            && (o.status == Panic <==> RemoveOverflows(t, key))
            && (o.status == Done ==>
                  && WellFormed(o.tree)
                  && key in TreeMap(t)
                  && TreeCells(o.tree) == DropCell(TreeCells(t), key)
                  && TreeMap(o.tree) == TreeMap(t) - {key}
                  && forall p :: TreeUses(o.tree, p) + Occ(o.av, p) == TreeUses(t, p) + Occ(av, p))
  {
    hide RemoveOverflows;
    RemovePanics(t, key, av);
    if key != [] && t.Root? {
      var d := Delete(t.node, t.height, key, av, t.node.id);
      EntriesOrdered(t.node, 0.0, 1.0);
      SlotContents(Entries(t.node), key);
      DropCellIsRemoval(Entries(t.node), key);
      DeleteDrops(t.node, t.height, key, av, t.node.id, 0.0, 1.0, 0);
      DeleteFits(t.node, t.height, key, av, t.node.id);
      hide Delete, DropCell, Slot, HasKeyAt, Rank, Contents;
      if d.Deleted? && d.node.Inner? && d.node.keys == [] {
        CollapseKeeps(d.node, t.height, d.av);
      }
    }
  }
}
