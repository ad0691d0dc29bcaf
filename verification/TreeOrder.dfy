/** In which order one operation takes pages and gives them back.  The tree model
    hands out the last page of a list and puts pages given back at its end; that
    no operation takes a page after it gave one back makes the model good for an
    allocator with any other order. */
module TreeOrder {
  import opened Bytes
  import opened TreeModel
  import opened TreeView
  import opened TreeInsert
  import opened TreeDelete
  import opened TreeOps
  import opened TreeRoom

  /** Every value has the chain it needs, and no more. */
  predicate ChainsSized(cells: seq<Cell>) {
    forall c :: c in cells ==> |c.chain| == ChainLen(c.val)
  }

  /** What is left is a part of what there was, the last pages taken, and then
      what is given back. */
  ghost predicate TakesThenGives(av: seq<PageId>, av': seq<PageId>, given: seq<PageId>) {
    exists m: nat :: m <= |av| && av' == av[..m] + given
  }

  lemma LeafTakesFirst(n: Node, key: Bytes, val: Bytes, av: seq<PageId>)
    requires n.Leaf? && Fits(n) && ChainsSized(n.cells)
    ensures var r := InsertLeaf(n, key, val, av);
            r.Inserted? ==>
              && TakesThenGives(av, r.av, ChainAt(n.cells, key))
              && (r.right.Some? ==> ChainAt(n.cells, key) == [])
  {
    var k := ChainLen(val);
    if k <= |av| {
      var c, freed := NewCell(key, val, av), ChainAt(n.cells, key);
      NewCellIs(key, val, av);
      if freed != [] {
        FreedNeedsNoRoom(n.cells, c);
      }
      hide Used, Slot, RestCells, NewCell, WithCell, ChainAt, CellSize, ChainLen;
      assert av[..|av| - k] + freed == av[..|av| - k] + freed;
      if freed == [] {
        assert av[..|av| - k] + freed == av[..|av| - k];
        if k < |av| {
          assert av[..|av| - k][..|av| - k - 1] == av[..|av| - k - 1] + freed;
        }
      }
    }
  }

  /** A value that frees pages leaves room for any other in its place. */
  lemma FreedNeedsNoRoom(cells: seq<Cell>, c: Cell)
    requires ChainsSized(cells) && Used(cells) <= MAX_CELL_AREA && ChainAt(cells, c.key) != []
    ensures Used(RestCells(cells, c.key)) + CellSize(c) <= MAX_CELL_AREA
  {
    var i := Slot(cells, c.key);
    UsedRemoveAt(cells, i);
    assert cells[i] in cells;
    hide Used, Slot, ChainsSized;
  }

  lemma {:induction false} InsertTakesFirst(n: Node, h: nat, key: Bytes, val: Bytes, av: seq<PageId>)
    requires Shaped(n, h) && Fits(n) && ChainsSized(Entries(n))
    ensures var r, given := Insert(n, h, key, val, av), ChainAt(OnRoute(n, h, key, 0).cells, key);
            r.Inserted? ==> TakesThenGives(av, r.av, given) && (r.right.Some? ==> given == [])
    decreases h
  {
    hide *;
    if n.Leaf? {
      InsertIntoLeaf(n, h, key, val, av);
      RouteOfLeaf(n, h, key);
      LeafTakesFirst(n, key, val, av);
    } else {
      InsertInner(n, h, key, val, av);
      RouteOfInner(n, h, key);
      var i := Route(n.keys, key);
      FitsBelow(n, i);
      SizedBelow(n, i);
      InsertTakesFirst(n.kids[i], h - 1, key, val, av);
      var r := Insert(n.kids[i], h - 1, key, val, av);
      if r.Inserted? {
        AbsorbTakesFirst(n, i, r, av, ChainAt(OnRoute(n, h, key, 0).cells, key));
      }
    }
  }

  lemma RouteOfLeaf(n: Node, h: nat, key: Bytes)
    requires Shaped(n, h) && n.Leaf?
    ensures OnRoute(n, h, key, 0) == n
  {
  }

  lemma RouteOfInner(n: Node, h: nat, key: Bytes)
    requires Shaped(n, h) && n.Inner?
    ensures h > 0 && |n.kids| == |n.keys| + 1 && Shaped(n.kids[Route(n.keys, key)], h - 1)
    ensures OnRoute(n, h, key, 0).Leaf?
    ensures OnRoute(n, h, key, 0) == OnRoute(n.kids[Route(n.keys, key)], h - 1, key, 0)
  {
    hide Route;
  }

  lemma SizedBelow(n: Node, i: nat)
    requires n.Inner? && i < |n.kids| && ChainsSized(Entries(n))
    ensures ChainsSized(Entries(n.kids[i]))
  {
    EntriesSplit(n.kids, i);
    hide EntriesOf;
  }

  lemma AbsorbTakesFirst(n: Node, i: nat, r: Inserted, av: seq<PageId>, given: seq<PageId>)
    requires n.Inner? && |n.kids| == |n.keys| + 1 && i < |n.kids| && r.Inserted?
    requires TakesThenGives(av, r.av, given) && (r.right.Some? ==> given == [])
    ensures var q := Absorb(n, i, r);
            q.Inserted? ==> TakesThenGives(av, q.av, given) && (q.right.Some? ==> given == [])
  {
    hide UsedKeys, KeySlot, Expand;
    if r.right.Some? && r.av != [] {
      var m: nat :| m <= |av| && r.av == av[..m] + given;
      assert r.av[..|r.av| - 1] == av[..m - 1] + given;
    }
  }

  /** Within one `Put` no page is handed out after one was given back: what the
      tree takes are the last pages of the list, in their order, and what it
      gives back are the pages of the old value. */
  lemma PutTakesFirst(t: Shape, key: Bytes, val: Bytes, av: seq<PageId>)
    requires WellFormed(t) && ChainsSized(TreeCells(t))
    ensures ShapedTree(t)
    ensures Put(t, key, val, av).status == Done ==> TakesThenGives(av, Put(t, key, val, av).av, Freed(t, key))
  {
    hide *;
    FirstRoot(t, key, av);
    PutIs(t, key, val, av);
    if key != [] && |key| <= MAX_KEY_SIZE && (t.Empty? ==> av != []) {
      var n, h, pages := StartRoot(t, av), Height(t), StartPages(t, av);
      InsertTakesFirst(n, h, key, val, pages);
      InsertRoom(n, h, key, val, pages);
      FinishTakesFirst(t, h, Insert(n, h, key, val, pages), av, pages, Freed(t, key));
    }
  }

  /** The pages of the value that `key` has. */
  ghost function Freed(t: Shape, key: Bytes): seq<PageId>
    requires ShapedTree(t)
  {
    if t.Empty? then [] else ChainAt(OnRoute(t.node, t.height, key, 0).cells, key)
  }

  lemma FirstRoot(t: Shape, key: Bytes, av: seq<PageId>)
    requires WellFormed(t) && ChainsSized(TreeCells(t))
    ensures ShapedTree(t)
    ensures (t.Empty? ==> av != []) ==>
              var n, h, pages := StartRoot(t, av), Height(t), StartPages(t, av);
              && Shaped(n, h) && Fits(n) && ChainsSized(Entries(n))
              && OnRoute(n, h, key, 0).Leaf? && ChainAt(OnRoute(n, h, key, 0).cells, key) == Freed(t, key)
              && pages == if t.Empty? && av != [] then av[..|av| - 1] else av
  {
    hide Rank, Ordered, Chained;
  }

  lemma FinishTakesFirst(t: Shape, h: nat, r: Inserted, av: seq<PageId>, pages: seq<PageId>, given: seq<PageId>)
    requires pages == if t.Empty? && av != [] then av[..|av| - 1] else av
    requires r.Inserted? ==> TakesThenGives(pages, r.av, given) && (r.right.Some? ==> given == [])
    requires r.NotInserted? ==> r.status != Done
    ensures Finish(t, h, r, av).status == Done ==> TakesThenGives(av, Finish(t, h, r, av).av, given)
  {
    if r.Inserted? {
      var m: nat :| m <= |pages| && r.av == pages[..m] + given;
      assert pages[..m] == av[..m];
      if r.right.Some? && r.av != [] {
        assert r.av[..|r.av| - 1] == av[..m - 1] + given;
      }
    }
  }

  /** What is left is what there was, and then what is given back. */
  ghost predicate OnlyGives(av: seq<PageId>, av': seq<PageId>) {
    exists given: seq<PageId> :: av' == av + given
  }

  lemma GivesMore(av: seq<PageId>, av': seq<PageId>, more: seq<PageId>)
    requires OnlyGives(av, av')
    ensures OnlyGives(av, av' + more)
  {
    var given :| av' == av + given;
    assert av' + more == av + (given + more);
  }

  lemma RebalanceGives(n: Node, h: nat, i: nat, av: seq<PageId>)
    requires Shaped(n, h) && n.Inner? && i < |n.kids|
    ensures var d := Rebalance(n, h, i, av); d.Deleted? ==> d.av == av || exists id :: d.av == av + [id]
  {
    hide Used, UsedKeys, InnerUnderflow;
  }

  lemma {:induction false} DeleteOnlyGives(n: Node, h: nat, key: Bytes, av: seq<PageId>, root: PageId)
    requires Shaped(n, h)
    ensures var d := Delete(n, h, key, av, root); d.Deleted? ==> OnlyGives(av, d.av)
    decreases h
  {
    hide *;
    if n.Leaf? {
      LeafGives(n, h, key, av, root);
    } else {
      DeleteInner(n, h, key, av, root);
      var i := Route(n.keys, key);
      DeleteOnlyGives(n.kids[i], h - 1, key, av, root);
      var r := Delete(n.kids[i], h - 1, key, av, root);
      if r.Deleted? && r.underflow {
        var n' := Replace(n, i, r.node);
        RebalanceGives(n', h, i, r.av);
        if id :| Rebalance(n', h, i, r.av).Deleted? && Rebalance(n', h, i, r.av).av == r.av + [id] {
          GivesMore(av, r.av, [id]);
        }
      }
    }
  }

  lemma LeafGives(n: Node, h: nat, key: Bytes, av: seq<PageId>, root: PageId)
    requires Shaped(n, h) && n.Leaf?
    ensures var d := Delete(n, h, key, av, root); d.Deleted? ==> OnlyGives(av, d.av)
  {
    hide Slot;
  }

  /** `Delete` is handed no page. */
  lemma RemoveOnlyGives(t: Shape, key: Bytes, av: seq<PageId>)
    requires ShapedTree(t)
    ensures Remove(t, key, av).status == Done ==> OnlyGives(av, Remove(t, key, av).av)
  {
    if key != [] && t.Root? {
      DeleteOnlyGives(t.node, t.height, key, av, t.node.id);
      DeleteStatus(t.node, t.height, key, av, t.node.id);
      hide Delete, OnlyGives;
      var d := Delete(t.node, t.height, key, av, t.node.id);
      if d.Deleted? {
        GivesMore(av, d.av, [d.node.id]);
      }
    }
  }

  /** Both operations keep every chain as long as its value needs. */
  lemma PutKeepsChains(t: Shape, key: Bytes, val: Bytes, av: seq<PageId>)
    requires WellFormed(t) && ChainsSized(TreeCells(t)) && Put(t, key, val, av).status == Done
    ensures ChainsSized(TreeCells(Put(t, key, val, av).tree))
  {
    PutCorrect(t, key, val, av);
    PutDone(t, key, val, av);
    var pages := StartPages(t, av);
    NewCellIs(key, val, pages);
    StartIsWellFormed(t, av);
    EntriesOrdered(StartRoot(t, av), 0.0, 1.0);
    PutCellMembers(TreeCells(t), NewCell(key, val, pages));
    hide Put, WellFormed, PutCell, NewCell, ChainLen, Rank, TreeCells, PutOverflows, PutStarves;
  }

  lemma RemoveKeepsChains(t: Shape, key: Bytes, av: seq<PageId>)
    requires WellFormed(t) && ChainsSized(TreeCells(t)) && Remove(t, key, av).status == Done
    ensures ChainsSized(TreeCells(Remove(t, key, av).tree))
  {
    RemoveCorrect(t, key, av);
    EntriesOrdered(t.node, 0.0, 1.0);
    DropCellMembers(TreeCells(t), key);
    hide Remove, WellFormed, DropCell, ChainLen, Rank, TreeCells, RemoveOverflows;
  }
}
