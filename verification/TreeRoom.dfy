/** When an operation overflows a page.  Splits and redistributions cut by
    count, while a page is bounded in bytes: this is the exact condition, on the
    nodes that the search for the key passes. */
module TreeRoom {
  import opened Bytes
  import opened TreeModel
  import opened TreeView
  import opened TreeSurgery
  import opened TreeInsert
  import opened TreeDelete

  /** The node at height `k` on the way from `n` to the leaf for `key`. */
  ghost function OnRoute(n: Node, h: nat, key: Bytes, k: nat): (m: Node)
    requires Shaped(n, h) && k <= h
    ensures Shaped(m, k)
    decreases h
  {
    if k == h then n else OnRoute(n.kids[Route(n.keys, key)], h - 1, key, k)
  }

  // ---------- insertion ----------

  /** The separators of a node with one more. */
  function WithKey(keys: seq<Bytes>, sep: Bytes): (r: seq<Bytes>)
    ensures |r| == |keys| + 1
  {
    InsertAt(keys, KeySlot(keys, sep), sep)
  }

  /** Cells that need two pages and do not fit them when cut by count. */
  predicate CellsBurst(cells: seq<Cell>) {
    && Used(cells) > MAX_CELL_AREA
    && (Used(cells[..|cells| / 2]) > MAX_CELL_AREA || Used(cells[|cells| / 2..]) > MAX_CELL_AREA)
  }

  /** The same of separators, of which the middle one moves up. */
  predicate KeysBurst(keys: seq<Bytes>)
    requires keys != []
  {
    && UsedKeys(keys) > MAX_CELL_AREA
    && (UsedKeys(keys[..|keys| / 2]) > MAX_CELL_AREA || UsedKeys(keys[|keys| / 2 + 1..]) > MAX_CELL_AREA)
  }

  /** The separator that `n` sends up if taking in the cell `c` splits it. */
  ghost function Rising(n: Node, h: nat, c: Cell): Option<Bytes>
    requires Shaped(n, h)
    decreases h
  {
    match n
    case Leaf(_, cells, _) =>
      var all := PutCell(cells, c);
      if all == [] || Used(all) <= MAX_CELL_AREA then None else Some(all[|all| / 2].key)
    case Inner(_, keys, kids) =>
      match Rising(kids[Route(keys, c.key)], h - 1, c)
      case None => None
      case Some(sep) =>
        var all := WithKey(keys, sep);
        if UsedKeys(all) <= MAX_CELL_AREA then None else Some(all[|all| / 2])
  }

  /** Taking in `c`, the node `n` has to be cut in two and a part does not fit
      its page. */
  ghost predicate Bursts(n: Node, h: nat, c: Cell)
    requires Shaped(n, h)
  {
    match n
    case Leaf(_, cells, _) => CellsBurst(PutCell(cells, c))
    case Inner(_, keys, kids) =>
      var up := Rising(kids[Route(keys, c.key)], h - 1, c);
      up.Some? && KeysBurst(WithKey(keys, up.value))
  }

  /** Some node on the route bursts, and there were pages for the splits up to
      it: one for each height from 0 on. */
  ghost predicate SomeBurst(n: Node, h: nat, c: Cell, spare: int)
    requires Shaped(n, h)
  {
    exists k: nat :: k <= h && k < spare && Bursts(OnRoute(n, h, c.key, k), k, c)
  }

  /** The pages left once the new value has its own and the old value's are free. */
  ghost function Spare(n: Node, h: nat, key: Bytes, val: Bytes, av: seq<PageId>): int
    requires Shaped(n, h)
  {
    |av| - ChainLen(val) + |ChainAt(OnRoute(n, h, key, 0).cells, key)|
  }

  lemma SomeBurstUp(n: Node, h: nat, c: Cell, spare: int)
    requires Shaped(n, h) && n.Inner?
    ensures h > 0 && |n.kids| == |n.keys| + 1 && Shaped(n.kids[Route(n.keys, c.key)], h - 1)
    ensures SomeBurst(n, h, c, spare) <==>
            SomeBurst(n.kids[Route(n.keys, c.key)], h - 1, c, spare) || (h < spare && Bursts(n, h, c))
  {
    hide Bursts, Route;
    var kid := n.kids[Route(n.keys, c.key)];
    forall k: nat | k < h ensures OnRoute(n, h, c.key, k) == OnRoute(kid, h - 1, c.key, k) {
    }
    if SomeBurst(n, h, c, spare) {
      var k: nat :| k <= h && k < spare && Bursts(OnRoute(n, h, c.key, k), k, c);
      assert k < h ==> Bursts(OnRoute(kid, h - 1, c.key, k), k, c);
    }
    if SomeBurst(kid, h - 1, c, spare) {
      var k: nat :| k <= h - 1 && k < spare && Bursts(OnRoute(kid, h - 1, c.key, k), k, c);
      assert Bursts(OnRoute(n, h, c.key, k), k, c);
    }
    if h < spare && Bursts(n, h, c) {
      assert Bursts(OnRoute(n, h, c.key, h), h, c);
    }
  }

  lemma LeafBurst(n: Node, c: Cell, spare: int)
    requires n.Leaf?
    ensures Shaped(n, 0) && (SomeBurst(n, 0, c, spare) <==> 0 < spare && CellsBurst(PutCell(n.cells, c)))
  {
    hide CellsBurst, PutCell;
    if 0 < spare && CellsBurst(PutCell(n.cells, c)) {
      assert Bursts(OnRoute(n, 0, c.key, 0), 0, c);
    }
  }

  lemma LeafRising(n: Node, c: Cell)
    requires n.Leaf?
    ensures Shaped(n, 0)
    ensures var all := PutCell(n.cells, c);
            Rising(n, 0, c) == if all == [] || Used(all) <= MAX_CELL_AREA then None else Some(all[|all| / 2].key)
  {
    hide PutCell, Used;
  }

  lemma InsertLeafIs(n: Node, key: Bytes, val: Bytes, av: seq<PageId>) returns (left: seq<PageId>)
    requires n.Leaf? && ChainLen(val) <= |av|
    ensures |left| == Spare(n, 0, key, val, av)
    ensures var all := PutCell(n.cells, NewCell(key, val, av));
            && all != []
            && InsertLeaf(n, key, val, av) ==
               if Used(all) <= MAX_CELL_AREA then Inserted(Leaf(n.id, all, n.next), None, left)
               else SplitLeaf(Leaf(n.id, all, n.next), left)
  {
    var c := NewCell(key, val, av);
    NewCellIs(key, val, av);
    WithCellIsPut(n, c);
    UsedInsertAt(RestCells(n.cells, key), Slot(n.cells, key), c);
    hide Used, Slot, RestCells, NewCell, Rank, CellSize, ChainLen, ChainAt;
    left := av[..|av| - ChainLen(val)] + ChainAt(n.cells, key);
  }

  lemma SplitRoom(n: Node, av: seq<PageId>)
    requires n.Leaf? && n.cells != [] && Used(n.cells) > MAX_CELL_AREA
    ensures var r := SplitLeaf(n, av);
            && (r == NotInserted(Panic) <==> av != [] && CellsBurst(n.cells))
            && (r.NotInserted? ==> r.status == Panic || (r.status == NoPages && av == []))
            && (r.Inserted? ==> r.right.Some? && r.right.value.0 == n.cells[|n.cells| / 2].key && |r.av| == |av| - 1)
  {
    hide Used;
  }

  lemma LeafRoom(n: Node, key: Bytes, val: Bytes, av: seq<PageId>)
    requires n.Leaf? && ChainLen(val) <= |av|
    ensures var r, c, spare := InsertLeaf(n, key, val, av), NewCell(key, val, av), Spare(n, 0, key, val, av);
            && c.key == key
            && (r == NotInserted(Panic) <==> SomeBurst(n, 0, c, spare))
            && (r.NotInserted? ==> r.status == Panic || (r.status == NoPages && spare <= 0 && Rising(n, 0, c).Some?))
            && (r.Inserted? ==>
                  && (r.right.Some? <==> Rising(n, 0, c).Some?)
                  && (r.right.Some? ==> Rising(n, 0, c) == Some(r.right.value.0) && |r.av| == spare - 1))
  {
    hide *;
    var c := NewCell(key, val, av);
    LeafRising(n, c);
    NewCellIs(key, val, av);
    LeafBurst(n, c, Spare(n, 0, key, val, av));
    var left := InsertLeafIs(n, key, val, av);
    var all := PutCell(n.cells, c);
    if Used(all) > MAX_CELL_AREA {
      SplitRoom(Leaf(n.id, all, n.next), left);
    } else {
      SmallLeaf(all);
    }
  }

  lemma SmallLeaf(cells: seq<Cell>)
    requires Used(cells) <= MAX_CELL_AREA
    ensures !CellsBurst(cells)
  {
    hide Used;
  }

  lemma InnerRoom(n: Node, h: nat, c: Cell, r: Inserted)
    requires Shaped(n, h) && n.Inner? && r.Inserted?
    requires |n.kids| == |n.keys| + 1 && h > 0 && Shaped(n.kids[Route(n.keys, c.key)], h - 1)
    requires var up := Rising(n.kids[Route(n.keys, c.key)], h - 1, c);
             (r.right.Some? <==> up.Some?) && (r.right.Some? ==> up == Some(r.right.value.0))
    ensures var q := Absorb(n, Route(n.keys, c.key), r);
            && (q == NotInserted(Panic) <==> Bursts(n, h, c) && r.av != [])
            && (q.NotInserted? ==> q.status == Panic || (q.status == NoPages && r.right.Some? && r.av == [] && Rising(n, h, c).Some?))
            && (q.Inserted? ==>
                  && (q.right.Some? <==> Rising(n, h, c).Some?)
                  && (q.right.Some? ==>
                        && Rising(n, h, c) == Some(q.right.value.0)
                        && r.right.Some? && |q.av| == |r.av| - 1))
  {
    hide Rank, KeySlot, Route, UsedKeys;
    if r.right.Some? {
      var sep := r.right.value.0;
      UsedKeysInsertAt(n.keys, KeySlot(n.keys, sep), sep);
    }
  }

  /** Insertion overflows a page exactly when some node on the route bursts and
      the pages for the splits up to it are there. */
  lemma {:induction false} InsertRoom(n: Node, h: nat, key: Bytes, val: Bytes, av: seq<PageId>)
    requires Shaped(n, h)
    ensures var r := Insert(n, h, key, val, av);
            if ChainLen(val) > |av| then r == NotInserted(NoPages)
            else
              var c, spare := NewCell(key, val, av), Spare(n, h, key, val, av);
              && c.key == key
              && (r == NotInserted(Panic) <==> SomeBurst(n, h, c, spare))
              && (r.NotInserted? ==> r.status == Panic || (r.status == NoPages && spare <= h))
              && (r.Inserted? ==>
                    && (r.right.Some? <==> Rising(n, h, c).Some?)
                    && (r.right.Some? ==> Rising(n, h, c) == Some(r.right.value.0) && |r.av| == spare - h - 1))
    decreases h
  {
    hide *;
    if n.Leaf? {
      InsertIntoLeaf(n, h, key, val, av);
      LeafOrNoPages(n, key, val, av);
      if ChainLen(val) <= |av| {
        LeafRoom(n, key, val, av);
      }
    } else {
      InsertInner(n, h, key, val, av);
      var i := Route(n.keys, key);
      InsertRoom(n.kids[i], h - 1, key, val, av);
      if ChainLen(val) <= |av| {
        var c, spare := NewCell(key, val, av), Spare(n, h, key, val, av);
        SomeBurstUp(n, h, c, spare);
        SpareUp(n, h, key, val, av);
        var r := Insert(n.kids[i], h - 1, key, val, av);
        if r.Inserted? {
          InnerRoom(n, h, c, r);
        }
        BurstNeedsRise(n, h, c);
      }
    }
  }

  lemma LeafOrNoPages(n: Node, key: Bytes, val: Bytes, av: seq<PageId>)
    requires n.Leaf?
    ensures ChainLen(val) > |av| ==> InsertLeaf(n, key, val, av) == NotInserted(NoPages)
  {
  }

  lemma SpareUp(n: Node, h: nat, key: Bytes, val: Bytes, av: seq<PageId>)
    requires Shaped(n, h) && n.Inner?
    ensures h > 0 && |n.kids| == |n.keys| + 1 && Shaped(n.kids[Route(n.keys, key)], h - 1)
    ensures Spare(n, h, key, val, av) == Spare(n.kids[Route(n.keys, key)], h - 1, key, val, av)
  {
    hide Route, ChainAt;
  }

  lemma BurstNeedsRise(n: Node, h: nat, c: Cell)
    requires Shaped(n, h) && n.Inner?
    ensures h > 0 && |n.kids| == |n.keys| + 1 && Shaped(n.kids[Route(n.keys, c.key)], h - 1)
    ensures Bursts(n, h, c) ==> Rising(n.kids[Route(n.keys, c.key)], h - 1, c).Some?
    ensures Rising(n, h, c).Some? ==> Rising(n.kids[Route(n.keys, c.key)], h - 1, c).Some?
  {
    hide KeysBurst, WithKey, Route, UsedKeys;
  }

  /** Some node on the route splits, and the pages end before. */
  ghost predicate Starves(n: Node, h: nat, c: Cell, spare: int)
    requires Shaped(n, h)
  {
    exists k: nat :: spare <= k <= h && Rising(OnRoute(n, h, c.key, k), k, c).Some?
  }

  lemma StarvesUp(n: Node, h: nat, c: Cell, spare: int)
    requires Shaped(n, h) && n.Inner?
    ensures h > 0 && |n.kids| == |n.keys| + 1 && Shaped(n.kids[Route(n.keys, c.key)], h - 1)
    ensures Starves(n, h, c, spare) <==>
            Starves(n.kids[Route(n.keys, c.key)], h - 1, c, spare) || (spare <= h && Rising(n, h, c).Some?)
  {
    hide Rising, Route;
    var kid := n.kids[Route(n.keys, c.key)];
    forall k: nat | k < h ensures OnRoute(n, h, c.key, k) == OnRoute(kid, h - 1, c.key, k) {
    }
    if Starves(n, h, c, spare) {
      var k: nat :| spare <= k <= h && Rising(OnRoute(n, h, c.key, k), k, c).Some?;
      assert k < h ==> Rising(OnRoute(kid, h - 1, c.key, k), k, c).Some?;
    }
    if Starves(kid, h - 1, c, spare) {
      var k: nat :| spare <= k <= h - 1 && Rising(OnRoute(kid, h - 1, c.key, k), k, c).Some?;
      assert Rising(OnRoute(n, h, c.key, k), k, c).Some?;
    }
    if spare <= h && Rising(n, h, c).Some? {
      assert Rising(OnRoute(n, h, c.key, h), h, c).Some?;
    }
  }

  lemma StarvingDoesNotBurst(n: Node, h: nat, c: Cell, spare: int)
    requires Shaped(n, h) && n.Inner? && spare <= h
    ensures h > 0 && |n.kids| == |n.keys| + 1 && Shaped(n.kids[Route(n.keys, c.key)], h - 1)
    ensures SomeBurst(n, h, c, spare) <==> SomeBurst(n.kids[Route(n.keys, c.key)], h - 1, c, spare)
  {
    SomeBurstUp(n, h, c, spare);
    hide SomeBurst, Bursts, Route;
  }

  lemma LeafStarves(n: Node, c: Cell, spare: int)
    requires n.Leaf?
    ensures Shaped(n, 0) && (Starves(n, 0, c, spare) <==> spare <= 0 && Rising(n, 0, c).Some?)
  {
    hide Rising;
    if spare <= 0 && Rising(n, 0, c).Some? {
      assert Rising(OnRoute(n, 0, c.key, 0), 0, c).Some?;
    }
  }

  /** Insertion runs out of pages exactly when the pages end before the splits
      do, and no split before that overflows one. */
  lemma {:induction false} InsertStarves(n: Node, h: nat, key: Bytes, val: Bytes, av: seq<PageId>)
    requires Shaped(n, h) && ChainLen(val) <= |av|
    ensures var c, spare := NewCell(key, val, av), Spare(n, h, key, val, av);
            Insert(n, h, key, val, av) == NotInserted(NoPages) <==> !SomeBurst(n, h, c, spare) && Starves(n, h, c, spare)
    decreases h
  {
    hide *;
    var c, spare := NewCell(key, val, av), Spare(n, h, key, val, av);
    InsertRoom(n, h, key, val, av);
    if n.Leaf? {
      InsertIntoLeaf(n, h, key, val, av);
      LeafRoom(n, key, val, av);
      LeafStarves(n, c, spare);
    } else {
      InsertInner(n, h, key, val, av);
      var i := Route(n.keys, key);
      InsertStarves(n.kids[i], h - 1, key, val, av);
      InsertRoom(n.kids[i], h - 1, key, val, av);
      SpareUp(n, h, key, val, av);
      StarvesUp(n, h, c, spare);
      if spare <= h {
        StarvingDoesNotBurst(n, h, c, spare);
      }
      BurstNeedsRise(n, h, c);
      var r := Insert(n.kids[i], h - 1, key, val, av);
      if r.Inserted? {
        InnerRoom(n, h, c, r);
      }
      EndsBefore(n.kids[i], h - 1, c, spare);
    }
  }

  lemma EndsBefore(n: Node, h: nat, c: Cell, spare: int)
    requires Shaped(n, h)
    ensures Starves(n, h, c, spare) ==> spare <= h
  {
    hide Rising;
  }

  /** The exact condition under which `Put` overflows a page: a node on the
      route bursts, or the separator that the root sends up does not fit a page
      of its own. */
  ghost predicate PutOverflows(t: Shape, key: Bytes, val: Bytes, av: seq<PageId>)
    requires ShapedTree(t)
  {
    && key != [] && |key| <= MAX_KEY_SIZE && (t.Empty? ==> av != [])
    && var n, h, pages := StartRoot(t, av), Height(t), StartPages(t, av);
       && Shaped(n, h) && ChainLen(val) <= |pages|
       && var c, spare := NewCell(key, val, pages), Spare(n, h, key, val, pages);
          || SomeBurst(n, h, c, spare)
          || (h + 1 < spare && Rising(n, h, c).Some? && INNER_CELL_OVERHEAD + |Rising(n, h, c).value| > MAX_CELL_AREA)
  }

  lemma PutPanics(t: Shape, key: Bytes, val: Bytes, av: seq<PageId>)
    requires ShapedTree(t)
    ensures Put(t, key, val, av).status == Panic <==> PutOverflows(t, key, val, av)
  {
    if key != [] && |key| <= MAX_KEY_SIZE && (t.Empty? ==> av != []) {
      var n, h, pages := StartRoot(t, av), Height(t), StartPages(t, av);
      assert Shaped(n, h);
      InsertRoom(n, h, key, val, pages);
      hide Insert, SomeBurst, Rising, Spare, NewCell;
    }
  }

  /** The exact condition under which `Put` runs out of pages: no page for a
      first root, too few for the value, or, before any split overflows a page,
      too few for the splits and the root above them. */
  ghost predicate PutStarves(t: Shape, key: Bytes, val: Bytes, av: seq<PageId>)
    requires ShapedTree(t)
  {
    && key != [] && |key| <= MAX_KEY_SIZE
    && ((t.Empty? && av == []) ||
        var n, h, pages := StartRoot(t, av), Height(t), StartPages(t, av);
        && Shaped(n, h)
        && (ChainLen(val) > |pages| ||
            var c, spare := NewCell(key, val, pages), Spare(n, h, key, val, pages);
            && !SomeBurst(n, h, c, spare)
            && (Starves(n, h, c, spare) || (spare == h + 1 && Rising(n, h, c).Some?))))
  }

  lemma PutRunsOut(t: Shape, key: Bytes, val: Bytes, av: seq<PageId>)
    requires ShapedTree(t)
    ensures Put(t, key, val, av).status == NoPages <==> PutStarves(t, key, val, av)
  {
    if key != [] && |key| <= MAX_KEY_SIZE && (t.Empty? ==> av != []) {
      var n, h, pages := StartRoot(t, av), Height(t), StartPages(t, av);
      assert Shaped(n, h);
      InsertRoom(n, h, key, val, pages);
      if ChainLen(val) <= |pages| {
        InsertStarves(n, h, key, val, pages);
        EndsBefore(n, h, NewCell(key, val, pages), Spare(n, h, key, val, pages));
      }
      hide Insert, SomeBurst, Starves, Rising, Spare, NewCell;
    }
  }

  // ---------- deletion ----------

  /** What a node holds besides its children: cells or separators. */
  datatype Items = Cells(cells: seq<Cell>) | Keys(keys: seq<Bytes>)

  function ItemsOf(n: Node): Items {
    match n case Leaf(_, cells, _) => Cells(cells) case Inner(_, keys, _) => Keys(keys)
  }

  /** Two siblings fit one page, `sep` coming down between internal ones. */
  predicate PairFits(l: Items, sep: Bytes, r: Items) {
    match (l, r)
    case (Cells(a), Cells(b)) => Used(a) + Used(b) <= MAX_CELL_AREA
    case (Keys(a), Keys(b)) => UsedKeys(a) + UsedKeys(b) + INNER_CELL_OVERHEAD + |sep| <= MAX_CELL_AREA
    case (_, _) => true
  }

  /** The separator between two siblings once they are dealt out by count. */
  function Middle(l: Items, sep: Bytes, r: Items): Bytes {
    match (l, r)
    case (Cells(a), Cells(b)) => if a + b == [] then sep else (a + b)[|a + b| / 2].key
    case (Keys(a), Keys(b)) =>
      var all := a + [sep] + b;
      all[|all| / 2]
    case (_, _) => sep
  }

  /** Dealt out by count, one of two siblings does not fit its page. */
  predicate HalvesBurst(l: Items, sep: Bytes, r: Items) {
    match (l, r)
    case (Cells(a), Cells(b)) =>
      var all := a + b;
      Used(all[..|all| / 2]) > MAX_CELL_AREA || Used(all[|all| / 2..]) > MAX_CELL_AREA
    case (Keys(a), Keys(b)) =>
      var all := a + [sep] + b;
      UsedKeys(all[..|all| / 2]) > MAX_CELL_AREA || UsedKeys(all[|all| / 2 + 1..]) > MAX_CELL_AREA
    case (_, _) => false
  }

  /** Two siblings do not fit one page, and dealt out by count they do not fit
      two, or their new separator does not fit the parent `keys`. */
  predicate PairJams(keys: seq<Bytes>, s: nat, l: Items, r: Items)
    requires s < |keys|
  {
    && !PairFits(l, keys[s], r)
    && (HalvesBurst(l, keys[s], r) || UsedKeys(keys[s := Middle(l, keys[s], r)]) > MAX_CELL_AREA)
  }

  /** A parent's separators once a pair that does not jam is merged or dealt
      out. */
  function KeysFixed(keys: seq<Bytes>, s: nat, l: Items, r: Items): seq<Bytes>
    requires s < |keys|
  {
    if PairFits(l, keys[s], r) then RemoveAt(keys, s) else keys[s := Middle(l, keys[s], r)]
  }

  /** The pair that rebalancing child `i` works on: the right sibling first. */
  function PairFor(keys: nat, i: nat): (s: nat)
    requires 0 < keys && i <= keys
    ensures s < keys
  {
    if i < keys then i else i - 1
  }

  /** Whether the leaf that the search ends in has the key. */
  ghost predicate Present(n: Node, h: nat, key: Bytes)
    requires Shaped(n, h)
  {
    var cells := OnRoute(n, h, key, 0).cells;
    HasKeyAt(cells, Slot(cells, key), key)
  }

  /** What `n` holds once `key` is gone and its children are rebalanced. */
  ghost function ItemsAfter(n: Node, h: nat, key: Bytes, root: PageId): Items
    requires Shaped(n, h)
    decreases h, 1
  {
    match n
    case Leaf(_, cells, _) => Cells(DropCell(cells, key))
    case Inner(_, keys, kids) =>
      var i := Route(keys, key);
      if keys == [] || !ShortAfter(kids[i], h - 1, key, root) then Keys(keys)
      else
        var s := PairFor(|keys|, i);
        Keys(KeysFixed(keys, s, KidAfter(n, h, key, root, s), KidAfter(n, h, key, root, s + 1)))
  }

  /** What child `j` holds once `key` is gone, before it is rebalanced. */
  ghost function KidAfter(n: Node, h: nat, key: Bytes, root: PageId, j: nat): Items
    requires Shaped(n, h) && n.Inner? && j < |n.kids|
    decreases h, 0
  {
    if j == Route(n.keys, key) then ItemsAfter(n.kids[j], h - 1, key, root) else ItemsOf(n.kids[j])
  }

  /** Whether `n` is too empty then: a leaf below the root by its own bytes, an
      internal node only if it has lost a separator. */
  ghost predicate ShortAfter(n: Node, h: nat, key: Bytes, root: PageId)
    requires Shaped(n, h)
    decreases h, 1
  {
    match n
    case Leaf(id, cells, _) => id != root && LeafUnderflow(DropCell(cells, key))
    case Inner(_, keys, kids) =>
      var i := Route(keys, key);
      && keys != [] && ShortAfter(kids[i], h - 1, key, root)
      && var s := PairFor(|keys|, i);
         && PairFits(KidAfter(n, h, key, root, s), keys[s], KidAfter(n, h, key, root, s + 1))
         && InnerUnderflow(RemoveAt(keys, s))
  }

  /** The child that loses the key is too empty, and its pair jams. */
  ghost predicate JamsAt(n: Node, h: nat, key: Bytes, root: PageId)
    requires Shaped(n, h)
  {
    && n.Inner? && n.keys != []
    && var i := Route(n.keys, key);
       var s := PairFor(|n.keys|, i);
       && ShortAfter(n.kids[i], h - 1, key, root)
       && PairJams(n.keys, s, KidAfter(n, h, key, root, s), KidAfter(n, h, key, root, s + 1))
  }

  ghost predicate SomeJam(n: Node, h: nat, key: Bytes, root: PageId)
    requires Shaped(n, h)
  {
    exists k: nat :: 0 < k <= h && JamsAt(OnRoute(n, h, key, k), k, key, root)
  }

  lemma SomeJamUp(n: Node, h: nat, key: Bytes, root: PageId)
    requires Shaped(n, h) && n.Inner?
    ensures h > 0 && |n.kids| == |n.keys| + 1 && Shaped(n.kids[Route(n.keys, key)], h - 1)
    ensures SomeJam(n, h, key, root) <==> SomeJam(n.kids[Route(n.keys, key)], h - 1, key, root) || JamsAt(n, h, key, root)
  {
    hide JamsAt, Route;
    var kid := n.kids[Route(n.keys, key)];
    forall k: nat | k < h ensures OnRoute(n, h, key, k) == OnRoute(kid, h - 1, key, k) {
    }
    if SomeJam(n, h, key, root) {
      var k: nat :| 0 < k <= h && JamsAt(OnRoute(n, h, key, k), k, key, root);
      assert k < h ==> JamsAt(OnRoute(kid, h - 1, key, k), k, key, root);
    }
    if SomeJam(kid, h - 1, key, root) {
      var k: nat :| 0 < k <= h - 1 && JamsAt(OnRoute(kid, h - 1, key, k), k, key, root);
      assert JamsAt(OnRoute(n, h, key, k), k, key, root);
    }
    if JamsAt(n, h, key, root) {
      assert JamsAt(OnRoute(n, h, key, h), h, key, root);
    }
  }

  /** How fixing the pair `s` under `keys` ends. */
  ghost predicate FixedAs(keys: seq<Bytes>, s: nat, l: Items, r: Items, d: Deleted)
    requires s < |keys|
  {
    if PairJams(keys, s, l, r) then d == NotDeleted(Panic)
    else
      && d.Deleted? && ItemsOf(d.node) == Keys(KeysFixed(keys, s, l, r))
      && (d.underflow <==> PairFits(l, keys[s], r) && InnerUnderflow(RemoveAt(keys, s)))
  }

  lemma LeavesFixed(n: Node, s: nat, av: seq<PageId>)
    requires Siblings(n, s) && n.kids[s].Leaf? && n.kids[s + 1].Leaf?
    ensures FixedAs(n.keys, s, ItemsOf(n.kids[s]), ItemsOf(n.kids[s + 1]), FixLeaves(n, s, av))
  {
    hide Used, UsedKeys;
    NothingUsed(n.kids[s].cells, n.kids[s + 1].cells);
  }

  lemma NothingUsed(a: seq<Cell>, b: seq<Cell>)
    ensures Used(a) + Used(b) > MAX_CELL_AREA ==> a + b != []
  {
  }

  lemma InnersFixed(n: Node, s: nat, av: seq<PageId>)
    requires Siblings(n, s) && Joinable(n.kids[s], n.kids[s + 1])
    ensures FixedAs(n.keys, s, ItemsOf(n.kids[s]), ItemsOf(n.kids[s + 1]), FixInners(n, s, av))
  {
    hide Used, UsedKeys;
  }

  lemma RebalancedAs(n: Node, h: nat, i: nat, av: seq<PageId>)
    requires Shaped(n, h) && n.Inner? && i < |n.kids|
    ensures |n.kids| == |n.keys| + 1
    ensures if n.keys == [] then Rebalance(n, h, i, av) == Deleted(n, false, av)
            else
              var s := PairFor(|n.keys|, i);
              FixedAs(n.keys, s, ItemsOf(n.kids[s]), ItemsOf(n.kids[s + 1]), Rebalance(n, h, i, av))
  {
    hide FixedAs, FixLeaves, FixInners;
    if n.keys != [] {
      var s := PairFor(|n.keys|, i);
      assert Shaped(n.kids[s], h - 1) && Shaped(n.kids[s + 1], h - 1);
      if h == 1 {
        LeavesFixed(n, s, av);
      } else {
        InnersFixed(n, s, av);
      }
    }
  }

  /** How a deletion ends, from the nodes of the key's route and their
      siblings. */
  ghost predicate DeletedAs(n: Node, h: nat, key: Bytes, root: PageId, d: Deleted)
    requires Shaped(n, h)
  {
    if !Present(n, h, key) then d == NotDeleted(KeyNotFound)
    else if SomeJam(n, h, key, root) then d == NotDeleted(Panic)
    else d.Deleted? && ItemsOf(d.node) == ItemsAfter(n, h, key, root) && d.underflow == ShortAfter(n, h, key, root)
  }

  lemma LeafDeletedAs(n: Node, h: nat, key: Bytes, av: seq<PageId>, root: PageId)
    requires Shaped(n, h) && n.Leaf?
    ensures DeletedAs(n, h, key, root, Delete(n, h, key, av, root))
  {
    hide Slot, Used, JamsAt;
    assert !SomeJam(n, h, key, root);
    assert OnRoute(n, h, key, 0) == n;
  }

  /** An internal node whose child has lost the key. */
  lemma InnerDeletedAs(n: Node, h: nat, key: Bytes, root: PageId, c: Node, av: seq<PageId>)
    requires Shaped(n, h) && n.Inner? && Shaped(c, h - 1)
    requires Route(n.keys, key) < |n.kids| && Shaped(n.kids[Route(n.keys, key)], h - 1)
    requires ItemsOf(c) == ItemsAfter(n.kids[Route(n.keys, key)], h - 1, key, root)
    ensures var n' := Replace(n, Route(n.keys, key), c);
            && n'.Inner? && Shaped(n', h)
            && var d := if ShortAfter(n.kids[Route(n.keys, key)], h - 1, key, root)
                        then Rebalance(n', h, Route(n.keys, key), av) else Deleted(n', false, av);
               if JamsAt(n, h, key, root) then d == NotDeleted(Panic)
               else d.Deleted? && ItemsOf(d.node) == ItemsAfter(n, h, key, root) && d.underflow == ShortAfter(n, h, key, root)
  {
    var i := Route(n.keys, key);
    var n' := Replace(n, i, c);
    ReplaceShaped(n, h, i, c);
    RebalancedAs(n', h, i, av);
    hide Rebalance, PairFits, PairJams, KeysFixed, InnerUnderflow, Route;
    if n.keys != [] {
      var s := PairFor(|n.keys|, i);
      assert ItemsOf(n'.kids[s]) == KidAfter(n, h, key, root, s);
      assert ItemsOf(n'.kids[s + 1]) == KidAfter(n, h, key, root, s + 1);
    }
  }

  lemma PresentUp(n: Node, h: nat, key: Bytes)
    requires Shaped(n, h) && n.Inner?
    ensures h > 0 && |n.kids| == |n.keys| + 1 && Shaped(n.kids[Route(n.keys, key)], h - 1)
    ensures Present(n, h, key) <==> Present(n.kids[Route(n.keys, key)], h - 1, key)
  {
    hide Route, Slot, HasKeyAt;
  }

  /** A deletion ends as the cells and separators along the route say. */
  lemma {:induction false} DeleteEnds(n: Node, h: nat, key: Bytes, av: seq<PageId>, root: PageId)
    requires Shaped(n, h)
    ensures DeletedAs(n, h, key, root, Delete(n, h, key, av, root))
    decreases h
  {
    hide *;
    if n.Leaf? {
      LeafDeletedAs(n, h, key, av, root);
    } else {
      SomeJamUp(n, h, key, root);
      PresentUp(n, h, key);
      DeleteInner(n, h, key, av, root);
      var kid := n.kids[Route(n.keys, key)];
      var r := Delete(kid, h - 1, key, av, root);
      DeleteEnds(kid, h - 1, key, av, root);
      DeletedCases(kid, h - 1, key, root, r);
      DeletedCases(n, h, key, root, Delete(n, h, key, av, root));
      if r.Deleted? {
        InnerDeletedAs(n, h, key, root, r.node, r.av);
      }
    }
  }

  lemma DeletedCases(n: Node, h: nat, key: Bytes, root: PageId, d: Deleted)
    requires Shaped(n, h)
    ensures DeletedAs(n, h, key, root, d) <==>
            if !Present(n, h, key) then d == NotDeleted(KeyNotFound)
            else if SomeJam(n, h, key, root) then d == NotDeleted(Panic)
            else d.Deleted? && ItemsOf(d.node) == ItemsAfter(n, h, key, root) && d.underflow == ShortAfter(n, h, key, root)
  {
    hide Present, SomeJam, ItemsOf, ItemsAfter, ShortAfter;
  }

  /** The exact condition under which `Delete` overflows a page: the key is
      there, and at some node on its route the child gets too empty and its pair
      jams. */
  ghost predicate RemoveOverflows(t: Shape, key: Bytes)
    requires ShapedTree(t)
  {
    key != [] && t.Root? && Present(t.node, t.height, key) && SomeJam(t.node, t.height, key, t.node.id)
  }

  lemma RemovePanics(t: Shape, key: Bytes, av: seq<PageId>)
    requires ShapedTree(t)
    ensures Remove(t, key, av).status == Panic <==> RemoveOverflows(t, key)
  {
    if key != [] && t.Root? {
      DeleteEnds(t.node, t.height, key, av, t.node.id);
      hide Delete, SomeJam, Present, ItemsAfter, ShortAfter;
    }
  }
}
