/** What `Insert` keeps and what it does to the contents. */
module TreeInsert {
  import opened Bytes
  import opened TreeModel
  import opened TreeView
  import opened TreeSurgery

  // ---------- shape ----------

  ghost predicate ShapedResult(r: Inserted, h: nat) {
    r.Inserted? ==> Shaped(r.node, h) && (r.right.Some? ==> Shaped(r.right.value.1, h))
  }

  lemma SplitInnerShaped(n: Node, h: nat, av: seq<PageId>)
    requires Shaped(n, h) && n.Inner? && |n.keys| > 0
    ensures ShapedResult(SplitInner(n, av), h)
  {
    if av != [] {
      PartsShaped(n, h, |n.keys| / 2, av[|av| - 1]);
    }
  }

  lemma AbsorbShaped(n: Node, h: nat, i: nat, r: Inserted)
    requires Shaped(n, h) && n.Inner? && i < |n.kids| && r.Inserted? && ShapedResult(r, h - 1)
    ensures ShapedResult(Absorb(n, i, r), h)
  {
    hide KeySlot, SplitInner;
    match r.right
    case None =>
      ReplaceShaped(n, h, i, r.node);
    case Some((sep, right)) =>
      var j := KeySlot(n.keys, sep);
      ExpandShaped(n, h, i, j, r.node, sep, right);
      SplitInnerShaped(Expand(n, i, j, r.node, sep, right), h, r.av);
  }

  lemma {:induction false} InsertShaped(n: Node, h: nat, key: Bytes, val: Bytes, av: seq<PageId>)
    requires Shaped(n, h)
    ensures ShapedResult(Insert(n, h, key, val, av), h)
    decreases h
  {
    if n.Inner? {
      var i := Route(n.keys, key);
      InsertShaped(n.kids[i], h - 1, key, val, av);
      var r := Insert(n.kids[i], h - 1, key, val, av);
      if r.Inserted? {
        AbsorbShaped(n, h, i, r);
      }
    }
  }

  // ---------- the leaf ----------

  /** Deleting the old cell and inserting the new one replaces it. */
  lemma WithCellIsPut(n: Node, c: Cell)
    requires n.Leaf?
    ensures WithCell(n, c) == Leaf(n.id, PutCell(n.cells, c), n.next)
  {
    hide Rank, Slot;
  }

  /** A leaf that is split holds at least two cells, so both halves get one. */
  lemma SplitHasTwo(n: Node, c: Cell)
    requires n.Leaf? && |c.key| <= MAX_KEY_SIZE
    requires Used(RestCells(n.cells, c.key)) + CellSize(c) > MAX_CELL_AREA
    ensures |WithCell(n, c).cells| >= 2
  {
    assert RestCells(n.cells, c.key) != [];
  }

  lemma PutCellWithin(cells: seq<Cell>, c: Cell, lo: real, hi: real)
    requires Sorted(cells) && Within(cells, lo, hi) && lo <= Rank(c.key) < hi
    ensures Sorted(PutCell(cells, c)) && Within(PutCell(cells, c), lo, hi)
  {
    PutCellMembers(cells, c);
    var r := PutCell(cells, c);
    forall i | 0 <= i < |r| ensures lo <= Rank(r[i].key) < hi {
      assert r[i] in r;
    }
  }

  // ---------- order ----------

  ghost predicate OrderedResult(r: Inserted, lo: real, hi: real) {
    r.Inserted? ==>
      match r.right
      case None => Ordered(r.node, lo, hi)
      case Some((sep, right)) =>
        lo < Rank(sep) < hi && Ordered(r.node, lo, Rank(sep)) && Ordered(right, Rank(sep), hi)
  }

  lemma SplitLeafOrdered(n: Node, av: seq<PageId>, lo: real, hi: real)
    requires n.Leaf? && |n.cells| >= 2 && Ordered(n, lo, hi)
    ensures OrderedResult(SplitLeaf(n, av), lo, hi)
  {
  }

  lemma InsertLeafOrdered(n: Node, key: Bytes, val: Bytes, av: seq<PageId>, lo: real, hi: real)
    requires n.Leaf? && Ordered(n, lo, hi) && lo <= Rank(key) < hi && |key| <= MAX_KEY_SIZE
    ensures OrderedResult(InsertLeaf(n, key, val, av), lo, hi)
  {
    var k := ChainLen(val);
    if k <= |av| {
      var c := NewCell(key, val, av);
      WithCellIsPut(n, c);
      PutCellWithin(n.cells, c, lo, hi);
      if Used(RestCells(n.cells, key)) + CellSize(c) > MAX_CELL_AREA {
        SplitHasTwo(n, c);
        SplitLeafOrdered(WithCell(n, c), av[..|av| - k] + ChainAt(n.cells, key), lo, hi);
      }
    }
  }

  lemma SplitInnerOrdered(n: Node, av: seq<PageId>, lo: real, hi: real)
    requires n.Inner? && |n.keys| > 0 && Ordered(n, lo, hi)
    ensures OrderedResult(SplitInner(n, av), lo, hi)
  {
    if av != [] {
      PartsOrdered(n, lo, hi, |n.keys| / 2, av[|av| - 1]);
    }
  }

  /** What the child's result turns this node into. */
  lemma AbsorbOrdered(n: Node, i: nat, r: Inserted, lo: real, hi: real)
    requires n.Inner? && Ordered(n, lo, hi) && i < |n.kids| && r.Inserted? && lo < hi
    requires OrderedResult(r, Low(n.keys, lo, i), High(n.keys, hi, i))
    ensures OrderedResult(Absorb(n, i, r), lo, hi)
    ensures r.right.Some? ==> KeySlot(n.keys, r.right.value.0) == i
  {
    match r.right
    case None =>
      ReplaceOrdered(n, lo, hi, i, r.node);
    case Some((sep, right)) =>
      KeySlotUnique(n.keys, sep, i);
      ExpandOrdered(n, lo, hi, i, r.node, sep, right);
      SplitInnerOrdered(Expand(n, i, i, r.node, sep, right), r.av, lo, hi);
  }

  lemma {:induction false} InsertOrdered(n: Node, h: nat, key: Bytes, val: Bytes, av: seq<PageId>, lo: real, hi: real)
    requires Shaped(n, h) && Ordered(n, lo, hi) && lo <= Rank(key) < hi && |key| <= MAX_KEY_SIZE
    ensures OrderedResult(Insert(n, h, key, val, av), lo, hi)
    decreases h
  {
    hide Rank, InsertLeaf, Absorb;
    match n
    case Leaf(_, _, _) =>
      InsertLeafOrdered(n, key, val, av, lo, hi);
    case Inner(_, keys, kids) =>
      var i := Route(keys, key);
      InsertOrdered(kids[i], h - 1, key, val, av, Low(keys, lo, i), High(keys, hi, i));
      var r := Insert(kids[i], h - 1, key, val, av);
      if r.Inserted? {
        AbsorbOrdered(n, i, r, lo, hi);
      }
  }

  // ---------- contents ----------

  ghost function ResultEntries(r: Inserted): seq<Cell>
    requires r.Inserted?
  {
    Entries(r.node) + if r.right.Some? then Entries(r.right.value.1) else []
  }

  lemma AbsorbEntries(n: Node, i: nat, r: Inserted)
    requires n.Inner? && |n.kids| == |n.keys| + 1 && i < |n.kids| && r.Inserted?
    requires r.right.Some? ==> KeySlot(n.keys, r.right.value.0) == i
    requires Absorb(n, i, r).Inserted?
    ensures ResultEntries(Absorb(n, i, r)) ==
            EntriesOf(n.kids[..i]) + ResultEntries(r) + EntriesOf(n.kids[i + 1..])
  {
    match r.right
    case None =>
      ReplaceEntries(n, i, r.node);
    case Some((sep, right)) =>
      var n' := Expand(n, i, i, r.node, sep, right);
      ExpandEntries(n, i, r.node, sep, right);
      if r.av != [] {
        PartsEntries(n', |n'.keys| / 2, r.av[|r.av| - 1]);
      }
  }

  lemma SplitLeafEntries(n: Node, av: seq<PageId>)
    requires n.Leaf? && |n.cells| > 0
    ensures var r := SplitLeaf(n, av); r.Inserted? ==> ResultEntries(r) == n.cells
  {
  }

  lemma InsertLeafEntries(n: Node, key: Bytes, val: Bytes, av: seq<PageId>)
    requires n.Leaf?
    ensures var r := InsertLeaf(n, key, val, av);
            r.Inserted? ==> ChainLen(val) <= |av| && ResultEntries(r) == PutCell(n.cells, NewCell(key, val, av))
  {
    var k := ChainLen(val);
    if k <= |av| {
      var c := NewCell(key, val, av);
      WithCellIsPut(n, c);
      SplitLeafEntries(WithCell(n, c), av[..|av| - k] + ChainAt(n.cells, key));
    }
  }

  /** The entries around the child that `key` is routed to. */
  lemma PutCellBelow(n: Node, lo: real, hi: real, i: nat, c: Cell)
    requires n.Inner? && Ordered(n, lo, hi) && i == Route(n.keys, c.key)
    ensures PutCell(Entries(n), c) ==
            EntriesOf(n.kids[..i]) + PutCell(Entries(n.kids[i]), c) + EntriesOf(n.kids[i + 1..])
  {
    hide Rank, PutCell, Route;
    PrefixOrdered(n, lo, hi, i);
    SuffixOrdered(n, lo, hi, i);
    EntriesSplit(n.kids, i);
    var a, b := EntriesOf(n.kids[..i]), EntriesOf(n.kids[i + 1..]);
    if i == 0 {
      assert n.kids[..i] == [];
    }
    if i == |n.keys| {
      assert n.kids[i + 1..] == [];
    }
    assert AllAbove(b, c.key);
    assert AllBelow(a, c.key);
    PutCellInside(a, Entries(n.kids[i]), b, c);
  }

  lemma AbsorbPuts(n: Node, i: nat, r: Inserted, c: Cell, lo: real, hi: real)
    requires n.Inner? && Ordered(n, lo, hi) && i == Route(n.keys, c.key) && r.Inserted? && lo < hi
    requires OrderedResult(r, Low(n.keys, lo, i), High(n.keys, hi, i))
    requires ResultEntries(r) == PutCell(Entries(n.kids[i]), c)
    ensures var a := Absorb(n, i, r); a.Inserted? ==> ResultEntries(a) == PutCell(Entries(n), c)
  {
    if Absorb(n, i, r).Inserted? {
      AbsorbOrdered(n, i, r, lo, hi);
      AbsorbEntries(n, i, r);
      PutCellBelow(n, lo, hi, i, c);
    }
  }

  /** Insertion puts exactly one cell among the entries, at its place. */
  lemma {:induction false} InsertEntries(n: Node, h: nat, key: Bytes, val: Bytes, av: seq<PageId>, lo: real, hi: real)
    requires Shaped(n, h) && Ordered(n, lo, hi) && lo <= Rank(key) < hi && |key| <= MAX_KEY_SIZE
    ensures var r := Insert(n, h, key, val, av);
            r.Inserted? ==> ChainLen(val) <= |av| && ResultEntries(r) == PutCell(Entries(n), NewCell(key, val, av))
    decreases h
  {
    hide *;
    if n.Leaf? {
      InsertIntoLeaf(n, h, key, val, av);
      InsertLeafEntries(n, key, val, av);
    } else {
      InsertInner(n, h, key, val, av);
      var i := Route(n.keys, key);
      var klo, khi := Low(n.keys, lo, i), High(n.keys, hi, i);
      OrderedBelow(n, lo, hi, i);
      RouteBounds(n, lo, hi, key);
      InsertEntries(n.kids[i], h - 1, key, val, av, klo, khi);
      InsertOrdered(n.kids[i], h - 1, key, val, av, klo, khi);
      var r := Insert(n.kids[i], h - 1, key, val, av);
      if r.Inserted? {
        NewCellIs(key, val, av);
        AbsorbPuts(n, i, r, NewCell(key, val, av), lo, hi);
      }
    }
  }

  lemma NewCellIs(key: Bytes, val: Bytes, av: seq<PageId>)
    requires ChainLen(val) <= |av|
    ensures NewCell(key, val, av).key == key && NewCell(key, val, av).val == val
    ensures |NewCell(key, val, av).chain| == ChainLen(val)
  {
  }

  lemma InsertIntoLeaf(n: Node, h: nat, key: Bytes, val: Bytes, av: seq<PageId>)
    requires Shaped(n, h) && n.Leaf?
    ensures Insert(n, h, key, val, av) == InsertLeaf(n, key, val, av) && Entries(n) == n.cells && h == 0
  {
    hide InsertLeaf;
  }

  /** Insertion in an internal node, one level down. */
  lemma InsertInner(n: Node, h: nat, key: Bytes, val: Bytes, av: seq<PageId>)
    requires Shaped(n, h) && n.Inner?
    ensures h > 0 && |n.kids| == |n.keys| + 1 && Route(n.keys, key) < |n.kids|
    ensures var i := Route(n.keys, key);
            && Shaped(n.kids[i], h - 1)
            && var r := Insert(n.kids[i], h - 1, key, val, av);
               Insert(n, h, key, val, av) == if r.NotInserted? then r else Absorb(n, i, r)
  {
    hide InsertLeaf, Absorb;
  }

  lemma AbsorbUnfold(n: Node, i: nat, r: Inserted)
    requires n.Inner? && |n.kids| == |n.keys| + 1 && i < |n.kids| && r.Inserted?
    ensures r.right.None? ==> Absorb(n, i, r) == Inserted(Replace(n, i, r.node), None, r.av)
    ensures r.right.Some? ==>
              var (sep, right) := r.right.value;
              var n' := Expand(n, i, KeySlot(n.keys, sep), r.node, sep, right);
              && n'.Inner? && n'.id == n.id && |n'.keys| == |n.keys| + 1 && |n'.kids| == |n.kids| + 1
              && Absorb(n, i, r) ==
                 if UsedKeys(n.keys) + INNER_CELL_OVERHEAD + |sep| <= MAX_CELL_AREA then Inserted(n', None, r.av)
                 else SplitInner(n', r.av)
  {
  }

  lemma RouteBounds(n: Node, lo: real, hi: real, key: Bytes)
    requires n.Inner? && lo <= Rank(key) < hi
    ensures var i := Route(n.keys, key); Low(n.keys, lo, i) <= Rank(key) < High(n.keys, hi, i)
  {
    hide Rank, Route;
  }

  // ---------- the leaf list ----------

  ghost predicate ChainedResult(r: Inserted, first: PageId, after: PageId) {
    r.Inserted? ==>
      && FirstLeaf(r.node) == first
      && match r.right
         case None => Chained(r.node, after)
         case Some((_, right)) => Chained(r.node, FirstLeaf(right)) && Chained(right, after)
  }

  lemma InsertLeafChained(n: Node, key: Bytes, val: Bytes, av: seq<PageId>, after: PageId)
    requires n.Leaf? && Chained(n, after)
    ensures ChainedResult(InsertLeaf(n, key, val, av), FirstLeaf(n), after)
  {
  }

  lemma ChainedBelow(n: Node, after: PageId, i: nat)
    requires n.Inner? && Chained(n, after) && i < |n.kids|
    ensures Chained(n.kids[i], After(n.kids, i, after))
  {
  }

  lemma OrderedBelow(n: Node, lo: real, hi: real, i: nat)
    requires n.Inner? && Ordered(n, lo, hi) && i < |n.kids|
    ensures i <= |n.keys| && Ordered(n.kids[i], Low(n.keys, lo, i), High(n.keys, hi, i))
    ensures |n.kids| == |n.keys| + 1
  {
  }

  lemma AbsorbChained(n: Node, i: nat, r: Inserted, after: PageId)
    requires n.Inner? && |n.kids| == |n.keys| + 1 && i < |n.kids| && r.Inserted? && Chained(n, after)
    requires ChainedResult(r, FirstLeaf(n.kids[i]), After(n.kids, i, after))
    requires r.right.Some? ==> KeySlot(n.keys, r.right.value.0) == i
    ensures ChainedResult(Absorb(n, i, r), FirstLeaf(n), after)
  {
    hide *;
    AbsorbUnfold(n, i, r);
    ChainedParts(r, FirstLeaf(n.kids[i]), After(n.kids, i, after));
    match r.right
    case None =>
      ReplaceChained(n, i, r.node, after);
      WholeChained(Replace(n, i, r.node), r.av, FirstLeaf(n), after);
    case Some((sep, right)) =>
      ExpandChained(n, i, r.node, sep, right, after);
      var n' := Expand(n, i, i, r.node, sep, right);
      WholeChained(n', r.av, FirstLeaf(n), after);
      SplitChained(n', r.av, after);
  }

  lemma ChainedParts(r: Inserted, first: PageId, after: PageId)
    requires r.Inserted? && ChainedResult(r, first, after)
    ensures FirstLeaf(r.node) == first
    ensures r.right.None? ==> Chained(r.node, after)
    ensures r.right.Some? ==> Chained(r.node, FirstLeaf(r.right.value.1)) && Chained(r.right.value.1, after)
  {
    hide Chained, FirstLeaf;
  }

  lemma WholeChained(n: Node, av: seq<PageId>, first: PageId, after: PageId)
    requires Chained(n, after) && FirstLeaf(n) == first
    ensures ChainedResult(Inserted(n, None, av), first, after)
  {
    hide Chained, FirstLeaf;
  }

  lemma SplitChained(n: Node, av: seq<PageId>, after: PageId)
    requires n.Inner? && |n.kids| == |n.keys| + 1 && |n.keys| > 0 && Chained(n, after)
    ensures ChainedResult(SplitInner(n, av), FirstLeaf(n), after)
  {
    if av != [] {
      PartsChained(n, |n.keys| / 2, av[|av| - 1], after);
    }
    hide Chained, FirstLeaf, UsedKeys, LeftPart, RightPart;
  }

  /** The leaf list stays threaded through the leaves, new leaves included. */
  lemma {:induction false} InsertChained(n: Node, h: nat, key: Bytes, val: Bytes, av: seq<PageId>,
                                         lo: real, hi: real, after: PageId)
    requires Shaped(n, h) && Ordered(n, lo, hi) && lo <= Rank(key) < hi && |key| <= MAX_KEY_SIZE
    requires Chained(n, after)
    ensures ChainedResult(Insert(n, h, key, val, av), FirstLeaf(n), after)
    decreases h
  {
    hide InsertLeaf, Absorb, OrderedResult, Ordered, Chained, After, FirstLeaf;
    match n
    case Leaf(_, _, _) =>
      InsertLeafChained(n, key, val, av, after);
    case Inner(_, keys, kids) =>
      var i := Route(keys, key);
      var klo, khi := Low(keys, lo, i), High(keys, hi, i);
      ChainedBelow(n, after, i);
      OrderedBelow(n, lo, hi, i);
      InsertChained(kids[i], h - 1, key, val, av, klo, khi, After(kids, i, after));
      InsertOrdered(kids[i], h - 1, key, val, av, klo, khi);
      var r := Insert(kids[i], h - 1, key, val, av);
      if r.Inserted? {
        AbsorbOrdered(n, i, r, lo, hi);
        AbsorbChained(n, i, r, after);
      }
  }

  // ---------- pages ----------

  /** How often a result uses page `p`, counting the pages left free. */
  ghost function ResultUses(r: Inserted, p: PageId): nat
    requires r.Inserted?
  {
    Uses(r.node, p) + (if r.right.Some? then Uses(r.right.value.1, p) else 0) + Occ(r.av, p)
  }

  lemma {:induction false} TakePagesOcc(av: seq<PageId>, n: nat, p: PageId)
    requires n <= |av|
    ensures Occ(av, p) == Occ(av[..|av| - n], p) + Occ(TakePages(av, n), p)
  {
    if n == 0 {
      assert av[..|av|] == av;
    } else {
      var last := |av| - 1;
      OccLast(av, p);
      TakePagesOcc(av[..last], n - 1, p);
      assert av[..last][..last - (n - 1)] == av[..|av| - n];
    }
  }

  lemma SplitLeafUses(n: Node, av: seq<PageId>, p: PageId)
    requires n.Leaf? && |n.cells| > 0
    ensures var r := SplitLeaf(n, av); r.Inserted? ==> ResultUses(r, p) == Uses(n, p) + Occ(av, p)
  {
    var mid := |n.cells| / 2;
    if av != [] {
      OccLast(av, p);
      ChainUsesConcat(n.cells[..mid], n.cells[mid..], p);
      assert n.cells == n.cells[..mid] + n.cells[mid..];
    }
  }

  lemma PutCellUses(cells: seq<Cell>, c: Cell, p: PageId)
    ensures ChainUses(PutCell(cells, c), p) + Occ(ChainAt(cells, c.key), p) == ChainUses(cells, p) + Occ(c.chain, p)
  {
    var i := Slot(cells, c.key);
    var r := PutCell(cells, c);
    ChainUsesSplit(r, i, p);
    if HasKeyAt(cells, i, c.key) {
      ChainUsesSplit(cells, i, p);
      assert r[..i] == cells[..i] && r[i + 1..] == cells[i + 1..];
    } else {
      ChainUsesConcat(cells[..i], cells[i..], p);
      assert cells == cells[..i] + cells[i..];
      assert r[..i] == cells[..i] && r[i + 1..] == cells[i..];
    }
  }

  lemma InsertLeafUses(n: Node, key: Bytes, val: Bytes, av: seq<PageId>, p: PageId)
    requires n.Leaf?
    ensures var r := InsertLeaf(n, key, val, av);
            r.Inserted? ==> ResultUses(r, p) == Uses(n, p) + Occ(av, p)
  {
    var k := ChainLen(val);
    if k <= |av| {
      var c := NewCell(key, val, av);
      var av' := av[..|av| - k] + ChainAt(n.cells, key);
      TakePagesOcc(av, k, p);
      OccConcat(av[..|av| - k], ChainAt(n.cells, key), p);
      WithCellIsPut(n, c);
      PutCellUses(n.cells, c, p);
      assert Uses(WithCell(n, c), p) + Occ(av', p) == Uses(n, p) + Occ(av, p);
      SplitLeafUses(WithCell(n, c), av', p);
    }
  }

  lemma SplitInnerUses(n: Node, av: seq<PageId>, p: PageId)
    requires n.Inner? && |n.kids| == |n.keys| + 1 && |n.keys| > 0
    ensures var r := SplitInner(n, av); r.Inserted? ==> ResultUses(r, p) == Uses(n, p) + Occ(av, p)
  {
    if av != [] {
      OccLast(av, p);
      PartsUses(n, |n.keys| / 2, av[|av| - 1], p);
    }
  }

  lemma AbsorbUses(n: Node, i: nat, r: Inserted, p: PageId)
    requires n.Inner? && |n.kids| == |n.keys| + 1 && i < |n.kids| && r.Inserted?
    requires Absorb(n, i, r).Inserted?
    ensures ResultUses(Absorb(n, i, r), p) + Uses(n.kids[i], p) == Uses(n, p) + ResultUses(r, p)
  {
    match r.right
    case None =>
      ReplaceUses(n, i, r.node, p);
    case Some((sep, right)) =>
      var j := KeySlot(n.keys, sep);
      ExpandUses(n, i, j, r.node, sep, right, p);
      SplitInnerUses(Expand(n, i, j, r.node, sep, right), r.av, p);
  }

  /** Insertion neither loses nor doubles a page: what leaves the allocator
      enters the tree, and what leaves the tree enters the allocator. */
  lemma {:induction false} InsertUses(n: Node, h: nat, key: Bytes, val: Bytes, av: seq<PageId>, p: PageId)
    requires Shaped(n, h)
    ensures var r := Insert(n, h, key, val, av);
            r.Inserted? ==> ResultUses(r, p) == Uses(n, p) + Occ(av, p)
    decreases h
  {
    hide InsertLeaf, Absorb;
    match n
    case Leaf(_, _, _) =>
      InsertLeafUses(n, key, val, av, p);
    case Inner(_, keys, kids) =>
      var i := Route(keys, key);
      InsertUses(kids[i], h - 1, key, val, av, p);
      var r := Insert(kids[i], h - 1, key, val, av);
      if r.Inserted? && Absorb(n, i, r).Inserted? {
        AbsorbUses(n, i, r, p);
      }
  }

  /** An insertion below height `h` takes the overflow pages of its value and
      at most one page per level, and it only fails for want of pages when
      there are fewer than that. */
  lemma {:induction false} InsertTakes(n: Node, h: nat, key: Bytes, val: Bytes, av: seq<PageId>)
    requires Shaped(n, h)
    ensures var r := Insert(n, h, key, val, av);
            match r
            case NotInserted(s) => s == Panic || (s == NoPages && |av| < ChainLen(val) + h + 1)
            case Inserted(_, right, av') =>
              |av| <= |av'| + ChainLen(val) + (if right.Some? then h + 1 else h)
    decreases h
  {
    hide Rank;
    if n.Inner? {
      InsertTakes(n.kids[Route(n.keys, key)], h - 1, key, val, av);
    }
  }

  // ---------- sizes ----------

  ghost predicate FitsResult(r: Inserted) {
    r.Inserted? ==> Fits(r.node) && (r.right.Some? ==> Fits(r.right.value.1))
  }

  lemma InsertLeafFits(n: Node, key: Bytes, val: Bytes, av: seq<PageId>)
    requires n.Leaf? && Fits(n)
    ensures FitsResult(InsertLeaf(n, key, val, av))
  {
    hide Rank, Slot, Used;
    if ChainLen(val) <= |av| {
      UsedInsertAt(RestCells(n.cells, key), Slot(n.cells, key), NewCell(key, val, av));
    }
  }

  lemma AbsorbFits(n: Node, i: nat, r: Inserted)
    requires n.Inner? && |n.kids| == |n.keys| + 1 && i < |n.kids| && r.Inserted? && Fits(n) && FitsResult(r)
    ensures FitsResult(Absorb(n, i, r))
  {
    hide Rank, KeySlot, UsedKeys;
    match r.right
    case None =>
      ReplaceFits(n, i, r.node);
    case Some((sep, right)) =>
      ExpandFits(n, i, KeySlot(n.keys, sep), r.node, sep, right);
  }

  /** Cells keep fitting their pages when something is inserted. */
  lemma {:induction false} InsertFits(n: Node, h: nat, key: Bytes, val: Bytes, av: seq<PageId>)
    requires Shaped(n, h) && Fits(n)
    ensures FitsResult(Insert(n, h, key, val, av))
    decreases h
  {
    hide InsertLeaf, Absorb, Fits, Rank, Route;
    match n
    case Leaf(_, _, _) =>
      InsertLeafFits(n, key, val, av);
    case Inner(_, keys, kids) =>
      var i := Route(keys, key);
      FitsBelow(n, i);
      InsertFits(kids[i], h - 1, key, val, av);
      var r := Insert(kids[i], h - 1, key, val, av);
      if r.Inserted? {
        AbsorbFits(n, i, r);
      }
  }

  lemma FitsBelow(n: Node, i: nat)
    requires n.Inner? && Fits(n) && i < |n.kids|
    ensures Fits(n.kids[i])
  {
  }

  /** A node keeps its page ID when something is inserted below it. */
  lemma InsertKeepsId(n: Node, h: nat, key: Bytes, val: Bytes, av: seq<PageId>)
    requires Shaped(n, h)
    ensures var r := Insert(n, h, key, val, av); r.Inserted? ==> r.node.id == n.id
  {
    hide Rank, Slot, KeySlot, Route, Used, UsedKeys, TakePages;
  }
}
