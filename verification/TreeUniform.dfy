/** Trees whose cells are all of one width: cutting by count then cuts by size,
    so that no page ever overflows, whatever the width. */
module TreeUniform {
  import opened Bytes
  import opened TreeModel
  import opened TreeView
  import opened TreeSurgery
  import opened TreeInsert
  import opened TreeDelete
  import opened TreeOps

  /** The widths of keys and of stored values. */
  datatype Widths = Widths(key: nat, val: nat)

  predicate Possible(w: Widths) {
    0 < w.key <= MAX_KEY_SIZE && w.val <= 12
  }

  /** How much of a value a leaf keeps: the value, or a pointer to its chain. */
  function StoredWidth(val: Bytes): nat {
    InlineLen(Cell([], val, []))
  }

  predicate UniformCells(cells: seq<Cell>, w: Widths) {
    forall c :: c in cells ==> |c.key| == w.key && StoredWidth(c.val) == w.val
  }

  predicate UniformKeys(keys: seq<Bytes>, w: Widths) {
    forall k :: k in keys ==> |k| == w.key
  }

  ghost predicate Uniform(n: Node, w: Widths) {
    match n
    case Leaf(_, cells, _) => UniformCells(cells, w)
    case Inner(_, keys, kids) => UniformKeys(keys, w) && forall i :: 0 <= i < |kids| ==> Uniform(kids[i], w)
  }

  ghost predicate UniformTree(t: Shape, w: Widths) {
    t.Root? ==> Uniform(t.node, w)
  }

  // ---------- fewer cells take less room ----------

  lemma {:induction false} FewerCells(a: seq<Cell>, b: seq<Cell>, w: Widths)
    requires UniformCells(a, w) && UniformCells(b, w) && |a| <= |b|
    ensures Used(a) <= Used(b)
    ensures |a| == |b| ==> Used(a) == Used(b)
  {
    hide CellSize;
    if a != [] {
      assert a[0] in a && b[0] in b;
      SameSize(a[0], b[0]);
      FewerCells(a[1..], b[1..], w);
    } else if b != [] {
      FewerCells(a, b[1..], w);
    }
  }

  lemma SameSize(c: Cell, d: Cell)
    requires |c.key| == |d.key| && StoredWidth(c.val) == StoredWidth(d.val)
    ensures CellSize(c) == CellSize(d)
  {
  }

  lemma {:induction false} FewerKeys(a: seq<Bytes>, b: seq<Bytes>, w: Widths)
    requires UniformKeys(a, w) && UniformKeys(b, w) && |a| <= |b|
    ensures UsedKeys(a) <= UsedKeys(b)
    ensures |a| == |b| ==> UsedKeys(a) == UsedKeys(b)
  {
    if a != [] {
      assert a[0] in a && b[0] in b;
      FewerKeys(a[1..], b[1..], w);
    } else if b != [] {
      FewerKeys(a, b[1..], w);
    }
  }

  // ---------- insertion ----------

  ghost predicate UniformResult(r: Inserted, w: Widths) {
    match r
    case NotInserted(s) => s == NoPages
    case Inserted(node, None, _) => Uniform(node, w)
    case Inserted(node, Some((sep, right)), _) => |sep| == w.key && Uniform(node, w) && Uniform(right, w)
  }

  lemma PutCellUniform(cells: seq<Cell>, c: Cell, w: Widths)
    requires UniformCells(cells, w) && |c.key| == w.key && StoredWidth(c.val) == w.val
    ensures UniformCells(PutCell(cells, c), w)
    ensures |PutCell(cells, c)| <= |cells| + 1
  {
    hide Slot, StoredWidth;
    var all := PutCell(cells, c);
    forall d | d in all ensures d in cells || d == c {
    }
  }

  /** Both halves of the cells of a leaf with one more fit where the leaf did. */
  lemma HalvesFit(cells: seq<Cell>, c: Cell, w: Widths)
    requires UniformCells(cells, w) && |c.key| == w.key && StoredWidth(c.val) == w.val && Possible(w)
    requires Used(cells) <= MAX_CELL_AREA
    ensures var all := PutCell(cells, c);
            Used(all) > MAX_CELL_AREA ==>
              && |all| > 0 && Used(all[..|all| / 2]) <= MAX_CELL_AREA && Used(all[|all| / 2..]) <= MAX_CELL_AREA
              && |all[|all| / 2].key| == w.key
              && UniformCells(all[..|all| / 2], w) && UniformCells(all[|all| / 2..], w)
  {
    var all := PutCell(cells, c);
    PutCellUniform(cells, c, w);
    hide Used, PutCell, StoredWidth;
    if Used(all) > MAX_CELL_AREA {
      if |all| <= |cells| {
        FewerCells(all, cells, w);
      }
      if cells == [] {
        OneCell(all, w);
      }
      FewerCells(all[..|all| / 2], cells, w);
      FewerCells(all[|all| / 2..], cells, w);
      assert all[|all| / 2] in all;
    }
  }

  lemma OneCell(cells: seq<Cell>, w: Widths)
    requires UniformCells(cells, w) && Possible(w) && |cells| <= 1
    ensures Used(cells) <= MAX_CELL_AREA
  {
    if cells != [] {
      assert cells[0] in cells && cells[1..] == [];
    }
  }

  lemma LeafUniform(n: Node, key: Bytes, val: Bytes, av: seq<PageId>, w: Widths)
    requires n.Leaf? && Uniform(n, w) && Fits(n) && |key| == w.key && StoredWidth(val) == w.val && Possible(w)
    ensures UniformResult(InsertLeaf(n, key, val, av), w)
  {
    hide Used, Slot, PutCell, RestCells, NewCell, WithCell, Rank, UniformCells, StoredWidth;
    if ChainLen(val) <= |av| {
      var c := NewCell(key, val, av);
      NewCellIs(key, val, av);
      WithCellIsPut(n, c);
      RestUsed(n.cells, c);
      PutCellUniform(n.cells, c, w);
      HalvesFit(n.cells, c, w);
    }
  }

  lemma RestUsed(cells: seq<Cell>, c: Cell)
    ensures Used(RestCells(cells, c.key)) + CellSize(c) == Used(PutCell(cells, c))
  {
    UsedInsertAt(RestCells(cells, c.key), Slot(cells, c.key), c);
    WithCellIsPut(Leaf(0, cells, 0), c);
    hide Used, Slot, PutCell, RestCells, CellSize;
  }

  lemma WithKeyUniform(keys: seq<Bytes>, j: nat, sep: Bytes, w: Widths)
    requires UniformKeys(keys, w) && |sep| == w.key && j <= |keys|
    ensures UniformKeys(InsertAt(keys, j, sep), w)
  {
  }

  /** A node with one more child. */
  lemma ExpandUniform(n: Node, i: nat, j: nat, l: Node, sep: Bytes, r: Node, w: Widths)
    requires n.Inner? && |n.kids| == |n.keys| + 1 && i < |n.kids| && j <= |n.keys| && Uniform(n, w)
    requires Uniform(l, w) && Uniform(r, w) && |sep| == w.key
    ensures Uniform(Expand(n, i, j, l, sep, r), w)
  {
    var m := Expand(n, i, j, l, sep, r);
    WithKeyUniform(n.keys, j, sep, w);
    hide UniformKeys;
    var kids := n.kids[i := l];
    forall k | 0 <= k < |m.kids| ensures Uniform(m.kids[k], w) {
      assert m.kids[k] == if k <= j then kids[k] else if k == j + 1 then r else kids[k - 1];
    }
  }

  /** Both parts of a node cut at its middle separator fit where `keys` did. */
  lemma KeysFit(m: Node, keys: seq<Bytes>, id: PageId, w: Widths)
    requires m.Inner? && |m.kids| == |m.keys| + 1 && m.keys != [] && Uniform(m, w)
    requires UniformKeys(keys, w) && |m.keys| <= 2 * |keys| + 1 && UsedKeys(keys) <= MAX_CELL_AREA
    ensures var mid := |m.keys| / 2;
            && UsedKeys(m.keys[..mid]) <= MAX_CELL_AREA && UsedKeys(m.keys[mid + 1..]) <= MAX_CELL_AREA
            && |m.keys[mid]| == w.key && Uniform(LeftPart(m, mid), w) && Uniform(RightPart(m, mid, id), w)
  {
    hide *;
    var mid := |m.keys| / 2;
    PartsUniform(m, mid, id, w);
    FewerKeys(m.keys[..mid], keys, w);
    FewerKeys(m.keys[mid + 1..], keys, w);
  }

  lemma PartsUniform(m: Node, mid: nat, id: PageId, w: Widths)
    requires m.Inner? && |m.kids| == |m.keys| + 1 && mid < |m.keys| && Uniform(m, w)
    ensures UniformKeys(m.keys[..mid], w) && UniformKeys(m.keys[mid + 1..], w) && |m.keys[mid]| == w.key
    ensures Uniform(LeftPart(m, mid), w) && Uniform(RightPart(m, mid, id), w)
  {
    SomeKeys(m.keys, mid, w);
    hide UniformKeys;
  }

  lemma SomeKeys(keys: seq<Bytes>, mid: nat, w: Widths)
    requires UniformKeys(keys, w) && mid < |keys|
    ensures UniformKeys(keys[..mid], w) && UniformKeys(keys[mid + 1..], w) && |keys[mid]| == w.key
  {
    assert keys[mid] in keys;
  }

  lemma OneKey(keys: seq<Bytes>, w: Widths)
    requires UniformKeys(keys, w) && Possible(w) && |keys| <= 1
    ensures UsedKeys(keys) <= MAX_CELL_AREA
  {
    if keys != [] {
      assert keys[0] in keys && keys[1..] == [];
    }
  }

  lemma AbsorbUniform(n: Node, i: nat, r: Inserted, w: Widths)
    requires n.Inner? && |n.kids| == |n.keys| + 1 && i < |n.kids| && r.Inserted? && Possible(w)
    requires Uniform(n, w) && Fits(n) && UniformResult(r, w)
    ensures UniformResult(Absorb(n, i, r), w)
  {
    hide *;
    AbsorbUnfold(n, i, r);
    ResultParts(r, w);
    KeysOf(n, w);
    if r.right.None? {
      ReplaceUniform(n, i, r.node, w);
      OneUniform(Replace(n, i, r.node), r.av, w);
    } else {
      var (sep, right) := r.right.value;
      var j := KeySlot(n.keys, sep);
      var m := Expand(n, i, j, r.node, sep, right);
      ExpandUniform(n, i, j, r.node, sep, right, w);
      UsedKeysInsertAt(n.keys, j, sep);
      ExpandKeys(n, i, j, r.node, sep, right);
      OneUniform(m, r.av, w);
      if n.keys == [] {
        KeysOf(m, w);
        OneKey(m.keys, w);
      } else {
        SplitUniform(m, n.keys, r.av, w);
      }
    }
  }

  lemma ResultParts(r: Inserted, w: Widths)
    requires r.Inserted? && UniformResult(r, w)
    ensures Uniform(r.node, w)
    ensures r.right.Some? ==> |r.right.value.0| == w.key && Uniform(r.right.value.1, w)
  {
    hide Uniform;
  }

  lemma KeysOf(n: Node, w: Widths)
    requires n.Inner? && Uniform(n, w)
    ensures UniformKeys(n.keys, w) && (Fits(n) ==> UsedKeys(n.keys) <= MAX_CELL_AREA)
  {
    hide UniformKeys, UsedKeys;
  }

  lemma OneUniform(m: Node, av: seq<PageId>, w: Widths)
    requires Uniform(m, w)
    ensures UniformResult(Inserted(m, None, av), w)
  {
    hide Uniform;
  }

  lemma ExpandKeys(n: Node, i: nat, j: nat, l: Node, sep: Bytes, r: Node)
    requires n.Inner? && |n.kids| == |n.keys| + 1 && i < |n.kids| && j <= |n.keys|
    ensures Expand(n, i, j, l, sep, r).keys == InsertAt(n.keys, j, sep)
  {
  }

  lemma SplitUniform(m: Node, keys: seq<Bytes>, av: seq<PageId>, w: Widths)
    requires m.Inner? && |m.kids| == |m.keys| + 1 && m.keys != [] && Uniform(m, w)
    requires UniformKeys(keys, w) && |m.keys| <= 2 * |keys| + 1 && UsedKeys(keys) <= MAX_CELL_AREA
    ensures UniformResult(SplitInner(m, av), w)
  {
    hide Uniform, UniformKeys, UsedKeys, LeftPart, RightPart;
    if av != [] {
      KeysFit(m, keys, av[|av| - 1], w);
    }
  }

  /** With cells of one width, insertion only fails for want of pages. */
  lemma {:induction false} InsertUniform(n: Node, h: nat, key: Bytes, val: Bytes, av: seq<PageId>, w: Widths)
    requires Shaped(n, h) && Uniform(n, w) && Fits(n) && |key| == w.key && StoredWidth(val) == w.val && Possible(w)
    ensures UniformResult(Insert(n, h, key, val, av), w)
    decreases h
  {
    hide *;
    if n.Leaf? {
      InsertIntoLeaf(n, h, key, val, av);
      LeafUniform(n, key, val, av, w);
    } else {
      InsertInner(n, h, key, val, av);
      var i := Route(n.keys, key);
      FitsBelow(n, i);
      UniformBelow(n, i, w);
      InsertUniform(n.kids[i], h - 1, key, val, av, w);
      if Insert(n.kids[i], h - 1, key, val, av).Inserted? {
        AbsorbUniform(n, i, Insert(n.kids[i], h - 1, key, val, av), w);
      }
    }
  }

  lemma UniformBelow(n: Node, i: nat, w: Widths)
    requires n.Inner? && Uniform(n, w) && i < |n.kids|
    ensures Uniform(n.kids[i], w)
  {
  }

  /** `Put` of a cell of the same width never overflows a page. */
  lemma PutUniform(t: Shape, key: Bytes, val: Bytes, av: seq<PageId>, w: Widths)
    requires WellFormed(t) && UniformTree(t, w) && |key| == w.key && StoredWidth(val) == w.val && Possible(w)
    ensures ShapedTree(t)
    ensures var o := Put(t, key, val, av);
            && (o.status == Done || o.status == NoPages)
            && (o.status == Done ==> UniformTree(o.tree, w))
  {
    hide *;
    UniformStart(t, key, av, w);
    PutIs(t, key, val, av);
    if !(t.Empty? && av == []) {
      InsertUniform(StartRoot(t, av), Height(t), key, val, StartPages(t, av), w);
      FinishUniform(t, Height(t), Insert(StartRoot(t, av), Height(t), key, val, StartPages(t, av)), av, w);
    }
  }

  lemma UniformStart(t: Shape, key: Bytes, av: seq<PageId>, w: Widths)
    requires WellFormed(t) && UniformTree(t, w) && Possible(w) && |key| == w.key
    ensures ShapedTree(t) && key != [] && |key| <= MAX_KEY_SIZE
    ensures !(t.Empty? && av == []) ==> Uniform(StartRoot(t, av), w) && Fits(StartRoot(t, av))
  {
    hide Rank, Ordered, Chained;
  }

  lemma FinishUniform(t: Shape, h: nat, r: Inserted, av: seq<PageId>, w: Widths)
    requires UniformResult(r, w) && Possible(w)
    ensures var o := Finish(t, h, r, av);
            (o.status == Done || o.status == NoPages) && (o.status == Done ==> UniformTree(o.tree, w))
  {
    match r
    case NotInserted(_) =>
    case Inserted(_, None, _) =>
    case Inserted(node, Some((sep, right)), av') =>
      TwoUniform(node, sep, right, w);
      hide Uniform, UniformKeys;
  }

  lemma TwoUniform(l: Node, sep: Bytes, r: Node, w: Widths)
    requires Uniform(l, w) && Uniform(r, w) && |sep| == w.key
    ensures forall id :: Uniform(Inner(id, [sep], [l, r]), w)
  {
    forall id ensures Uniform(Inner(id, [sep], [l, r]), w) {
      var n := Inner(id, [sep], [l, r]);
      assert forall i :: 0 <= i < |n.kids| ==> n.kids[i] == l || n.kids[i] == r;
    }
  }

  // ---------- deletion ----------

  ghost predicate UniformAfter(d: Deleted, w: Widths) {
    match d
    case NotDeleted(s) => s == KeyNotFound
    case Deleted(node, _, _) => Uniform(node, w)
  }

  lemma ReplaceUniform(n: Node, i: nat, c: Node, w: Widths)
    requires n.Inner? && i < |n.kids| && Uniform(n, w) && Uniform(c, w)
    ensures Uniform(Replace(n, i, c), w)
  {
  }

  lemma ContractUniform(n: Node, s: nat, m: Node, w: Widths)
    requires Siblings(n, s) && Uniform(n, w) && Uniform(m, w)
    ensures Uniform(Contract(n, s, m), w)
  {
    var c := Contract(n, s, m);
    forall k | 0 <= k < |c.kids| ensures Uniform(c.kids[k], w) {
      ContractKid(n, s, m, k);
    }
  }

  lemma RespaceUniform(n: Node, s: nat, l: Node, sep: Bytes, r: Node, w: Widths)
    requires Siblings(n, s) && Uniform(n, w) && Uniform(l, w) && Uniform(r, w) && |sep| == w.key
    ensures Uniform(Respace(n, s, l, sep, r), w)
    ensures UsedKeys(Respace(n, s, l, sep, r).keys) == UsedKeys(n.keys)
  {
    var m := Respace(n, s, l, sep, r);
    assert forall k :: k in m.keys ==> k in n.keys || k == sep;
    FewerKeys(m.keys, n.keys, w);
    hide UniformKeys, UsedKeys;
    forall k | 0 <= k < |m.kids| ensures Uniform(m.kids[k], w) {
      if k != s && k != s + 1 {
        assert m.kids[k] == n.kids[k];
      }
    }
  }

  /** The cells of two leaves dealt out half and half fit where they did. */
  lemma DealtFit(a: seq<Cell>, b: seq<Cell>, w: Widths)
    requires UniformCells(a, w) && UniformCells(b, w) && Used(a) <= MAX_CELL_AREA && Used(b) <= MAX_CELL_AREA
    ensures var all := a + b;
            var mid := |all| / 2;
            && UniformCells(all, w) && UniformCells(all[..mid], w) && UniformCells(all[mid..], w)
            && Used(all[..mid]) <= MAX_CELL_AREA && Used(all[mid..]) <= MAX_CELL_AREA
            && (all != [] ==> |all[mid].key| == w.key)
  {
    hide Used, StoredWidth;
    var all := a + b;
    var mid := |all| / 2;
    if |a| <= |b| {
      FewerCells(all[..mid], b, w);
      FewerCells(all[mid..], b, w);
    } else {
      FewerCells(all[..mid], a, w);
      FewerCells(all[mid..], a, w);
    }
    if all != [] {
      assert all[mid] in all;
    }
  }

  lemma FixLeavesUniform(n: Node, s: nat, av: seq<PageId>, w: Widths)
    requires Siblings(n, s) && n.kids[s].Leaf? && n.kids[s + 1].Leaf? && Uniform(n, w) && Fits(n)
    ensures UniformAfter(FixLeaves(n, s, av), w)
  {
    hide Uniform, Fits, Used, UsedKeys, UniformCells, UniformKeys, Contract, Respace;
    var l, r := n.kids[s], n.kids[s + 1];
    var all := l.cells + r.cells;
    var mid := |all| / 2;
    LeafPair(n, s, w);
    NoCells(l.cells, r.cells);
    if Used(l.cells) + Used(r.cells) <= MAX_CELL_AREA {
      ContractUniform(n, s, Leaf(l.id, all, r.next), w);
    } else {
      RespaceUniform(n, s, Leaf(l.id, all[..mid], l.next), all[mid].key, Leaf(r.id, all[mid..], r.next), w);
    }
  }

  lemma LeafPair(n: Node, s: nat, w: Widths)
    requires Siblings(n, s) && n.kids[s].Leaf? && n.kids[s + 1].Leaf? && Uniform(n, w) && Fits(n)
    ensures UsedKeys(n.keys) <= MAX_CELL_AREA
    ensures var l, r := n.kids[s], n.kids[s + 1];
            var all := l.cells + r.cells;
            var mid := |all| / 2;
            && Used(all[..mid]) <= MAX_CELL_AREA && Used(all[mid..]) <= MAX_CELL_AREA
            && (all != [] ==> |all[mid].key| == w.key)
            && Uniform(Leaf(l.id, all, r.next), w)
            && Uniform(Leaf(l.id, all[..mid], l.next), w) && Uniform(Leaf(r.id, all[mid..], r.next), w)
  {
    hide Used, UsedKeys, UniformCells;
    var l, r := n.kids[s], n.kids[s + 1];
    assert Uniform(l, w) && Uniform(r, w) && Fits(l) && Fits(r);
    DealtFit(l.cells, r.cells, w);
  }

  lemma NoCells(a: seq<Cell>, b: seq<Cell>)
    ensures Used(a) + Used(b) > MAX_CELL_AREA ==> a + b != []
  {
  }

  lemma JoinUniform(l: Node, sep: Bytes, r: Node, w: Widths)
    requires Joinable(l, r) && Uniform(l, w) && Uniform(r, w) && |sep| == w.key
    ensures Uniform(Join(l, sep, r), w)
  {
  }

  lemma FixInnersUniform(n: Node, s: nat, av: seq<PageId>, w: Widths)
    requires Siblings(n, s) && Joinable(n.kids[s], n.kids[s + 1]) && Uniform(n, w) && Fits(n)
    ensures UniformAfter(FixInners(n, s, av), w)
  {
    hide Uniform, Fits, UsedKeys, UniformKeys, UniformCells, Contract, Respace;
    var l, r := n.kids[s], n.kids[s + 1];
    var all := Join(l, n.keys[s], r);
    InnerPair(n, s, w);
    JoinUniform(l, n.keys[s], r, w);
    if UsedKeys(l.keys) + UsedKeys(r.keys) + INNER_CELL_OVERHEAD + |n.keys[s]| <= MAX_CELL_AREA {
      ContractUniform(n, s, all, w);
    } else {
      KeysFit(all, if |l.keys| <= |r.keys| then r.keys else l.keys, r.id, w);
      var mid := |all.keys| / 2;
      RespaceUniform(n, s, LeftPart(all, mid), all.keys[mid], RightPart(all, mid, r.id), w);
    }
  }

  lemma InnerPair(n: Node, s: nat, w: Widths)
    requires Siblings(n, s) && Joinable(n.kids[s], n.kids[s + 1]) && Uniform(n, w) && Fits(n)
    ensures |n.keys[s]| == w.key && UsedKeys(n.keys) <= MAX_CELL_AREA
    ensures Uniform(n.kids[s], w) && UniformKeys(n.kids[s].keys, w) && UsedKeys(n.kids[s].keys) <= MAX_CELL_AREA
    ensures Uniform(n.kids[s + 1], w) && UniformKeys(n.kids[s + 1].keys, w) && UsedKeys(n.kids[s + 1].keys) <= MAX_CELL_AREA
  {
    hide UsedKeys;
    assert n.keys[s] in n.keys;
    assert Fits(n.kids[s]) && Fits(n.kids[s + 1]) && Uniform(n.kids[s], w) && Uniform(n.kids[s + 1], w);
  }

  lemma RebalanceUniform(n: Node, h: nat, i: nat, av: seq<PageId>, w: Widths)
    requires Shaped(n, h) && n.Inner? && i < |n.kids| && Uniform(n, w) && Fits(n) && Possible(w)
    ensures UniformAfter(Rebalance(n, h, i, av), w)
  {
    if |n.keys| > 0 {
      var s := if i < |n.keys| then i else i - 1;
      assert Shaped(n.kids[s], h - 1) && Shaped(n.kids[s + 1], h - 1);
      hide Fits, Uniform, FixLeaves, FixInners;
      if h == 1 {
        FixLeavesUniform(n, s, av, w);
      } else {
        FixInnersUniform(n, s, av, w);
      }
    }
  }

  lemma DeleteLeafUniform(n: Node, h: nat, key: Bytes, av: seq<PageId>, root: PageId, w: Widths)
    requires Shaped(n, h) && n.Leaf? && Uniform(n, w)
    ensures UniformAfter(Delete(n, h, key, av, root), w)
  {
    hide Slot, StoredWidth;
    var i := Slot(n.cells, key);
    if HasKeyAt(n.cells, i, key) {
      assert forall c :: c in RemoveAt(n.cells, i) ==> c in n.cells;
    }
  }

  /** With cells of one width, deletion only fails to find the key. */
  lemma {:induction false} DeleteUniform(n: Node, h: nat, key: Bytes, av: seq<PageId>, root: PageId, w: Widths)
    requires Shaped(n, h) && Uniform(n, w) && Fits(n) && Possible(w)
    ensures UniformAfter(Delete(n, h, key, av, root), w)
    decreases h
  {
    hide *;
    if n.Leaf? {
      DeleteLeafUniform(n, h, key, av, root, w);
    } else {
      DeleteInner(n, h, key, av, root);
      var i := Route(n.keys, key);
      FitsBelow(n, i);
      UniformBelow(n, i, w);
      DeleteUniform(n.kids[i], h - 1, key, av, root, w);
      DeleteFits(n.kids[i], h - 1, key, av, root);
      var r := Delete(n.kids[i], h - 1, key, av, root);
      UniformNode(r, w);
      if r.Deleted? {
        ReplaceUniform(n, i, r.node, w);
        ReplaceFits(n, i, r.node);
        if r.underflow {
          RebalanceUniform(Replace(n, i, r.node), h, i, r.av, w);
        } else {
          UniformDeleted(Replace(n, i, r.node), r.av, w);
        }
      }
    }
  }

  lemma UniformNode(d: Deleted, w: Widths)
    requires UniformAfter(d, w)
    ensures d.Deleted? ==> Uniform(d.node, w)
  {
  }

  lemma UniformDeleted(m: Node, av: seq<PageId>, w: Widths)
    requires Uniform(m, w)
    ensures UniformAfter(Deleted(m, false, av), w)
  {
  }

  /** `Delete` never overflows a page. */
  lemma RemoveUniform(t: Shape, key: Bytes, av: seq<PageId>, w: Widths)
    requires WellFormed(t) && UniformTree(t, w) && key != [] && Possible(w)
    ensures var o := Remove(t, key, av);
            && (o.status == Done || o.status == KeyNotFound)
            && UniformTree(o.tree, w)
  {
    if t.Root? {
      DeleteUniform(t.node, t.height, key, av, t.node.id, w);
      hide Delete, Rank;
    }
  }
}
