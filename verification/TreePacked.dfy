/** Trees with 8-byte keys and empty values, which is how the freelist uses
    them: every cell has the same width, so cutting by count also cuts by size
    and the occupancy of every node stays within fixed bounds. */
module TreePacked {
  import opened Bytes
  import opened TreeModel
  import opened TreeView
  import opened TreeSurgery
  import opened TreeInsert
  import opened TreeDelete
  import opened TreeOps

  const KEY_WIDTH: nat := 8
  const LEAF_CELL: nat := 12
  const INNER_CELL: nat := 18
  const MIN_CELLS: nat := 85
  const MAX_CELLS: nat := 338
  const MIN_KEYS: nat := 57
  const MAX_KEYS: nat := 225

  predicate FixedCell(c: Cell) {
    |c.key| == KEY_WIDTH && c.val == [] && c.chain == []
  }

  predicate FixedCells(cells: seq<Cell>) {
    forall i :: 0 <= i < |cells| ==> FixedCell(cells[i])
  }

  predicate FixedKeys(keys: seq<Bytes>) {
    forall i :: 0 <= i < |keys| ==> |keys[i]| == KEY_WIDTH
  }

  /** Fixed-width cells, at most as many as fit, and at least as many as keep
      a node from underflowing; the node at the top has minima of its own. */
  ghost predicate Packed(n: Node, minCells: nat, minKeys: nat) {
    match n
    case Leaf(_, cells, _) => FixedCells(cells) && minCells <= |cells| <= MAX_CELLS
    case Inner(_, keys, kids) =>
      && FixedKeys(keys) && minKeys <= |keys| <= MAX_KEYS
      && forall i :: 0 <= i < |kids| ==> Packed(kids[i], MIN_CELLS, MIN_KEYS)
  }

  ghost predicate PackedTree(t: Shape) {
    t.Root? ==> Packed(t.node, 0, 1)
  }

  // ---------- widths ----------

  lemma {:induction false} UsedFixed(cells: seq<Cell>)
    requires FixedCells(cells)
    ensures Used(cells) == LEAF_CELL * |cells|
  {
    if cells != [] {
      assert FixedCell(cells[0]);
      UsedFixed(cells[1..]);
    }
  }

  lemma {:induction false} UsedKeysFixed(keys: seq<Bytes>)
    requires FixedKeys(keys)
    ensures UsedKeys(keys) == INNER_CELL * |keys|
  {
    if keys != [] {
      UsedKeysFixed(keys[1..]);
    }
  }

  // ---------- insertion ----------

  /** An insertion's result: a node within its own minima, or two nodes that
      are both at least half full. */
  ghost predicate PackedResult(r: Inserted, minCells: nat, minKeys: nat) {
    match r
    case NotInserted(s) => s == NoPages
    case Inserted(node, None, _) => Packed(node, minCells, minKeys)
    case Inserted(node, Some((sep, right)), _) =>
      |sep| == KEY_WIDTH && Packed(node, MIN_CELLS, MIN_KEYS) && Packed(right, MIN_CELLS, MIN_KEYS)
  }

  lemma PutCellFixed(cells: seq<Cell>, c: Cell)
    requires FixedCells(cells) && FixedCell(c)
    ensures FixedCells(PutCell(cells, c)) && FixedCells(RestCells(cells, c.key))
    ensures |PutCell(cells, c)| == |RestCells(cells, c.key)| + 1
    ensures |cells| <= |PutCell(cells, c)| <= |cells| + 1
  {
    hide Rank, Slot;
  }

  lemma SplitLeafPacked(n: Node, av: seq<PageId>, minCells: nat, minKeys: nat)
    requires n.Leaf? && FixedCells(n.cells) && |n.cells| == MAX_CELLS + 1
    ensures PackedResult(SplitLeaf(n, av), minCells, minKeys)
  {
    var mid := |n.cells| / 2;
    UsedFixed(n.cells[..mid]);
    UsedFixed(n.cells[mid..]);
    assert FixedCell(n.cells[mid]);
  }

  lemma InsertLeafPacked(n: Node, key: Bytes, av: seq<PageId>, minCells: nat, minKeys: nat)
    requires n.Leaf? && Packed(n, minCells, minKeys) && |key| == KEY_WIDTH
    ensures PackedResult(InsertLeaf(n, key, [], av), minCells, minKeys)
  {
    var c := NewCell(key, [], av);
    PutCellFixed(n.cells, c);
    WithCellIsPut(n, c);
    UsedFixed(RestCells(n.cells, key));
    hide Rank, Slot, Used, PutCell, RestCells, WithCell;
    if |WithCell(n, c).cells| > MAX_CELLS {
      SplitLeafPacked(WithCell(n, c), av[..|av| - 0] + ChainAt(n.cells, key), minCells, minKeys);
    }
  }

  lemma ExpandPacked(n: Node, i: nat, j: nat, l: Node, sep: Bytes, r: Node)
    requires n.Inner? && |n.kids| == |n.keys| + 1 && i < |n.kids| && j <= |n.keys|
    requires FixedKeys(n.keys) && |sep| == KEY_WIDTH
    requires forall k :: 0 <= k < |n.kids| ==> Packed(n.kids[k], MIN_CELLS, MIN_KEYS)
    requires Packed(l, MIN_CELLS, MIN_KEYS) && Packed(r, MIN_CELLS, MIN_KEYS)
    ensures var m := Expand(n, i, j, l, sep, r);
            && FixedKeys(m.keys) && |m.keys| == |n.keys| + 1 && |m.kids| == |n.kids| + 1
            && forall k :: 0 <= k < |m.kids| ==> Packed(m.kids[k], MIN_CELLS, MIN_KEYS)
  {
    var m := Expand(n, i, j, l, sep, r);
    var kids := n.kids[i := l];
    forall k | 0 <= k < |m.kids| ensures Packed(m.kids[k], MIN_CELLS, MIN_KEYS) {
      assert m.kids[k] == if k <= j then kids[k] else if k == j + 1 then r else kids[k - 1];
    }
    forall k | 0 <= k < |m.keys| ensures |m.keys[k]| == KEY_WIDTH {
      assert m.keys[k] == if k < j then n.keys[k] else if k == j then sep else n.keys[k - 1];
    }
  }

  lemma SplitInnerPacked(n: Node, av: seq<PageId>, minCells: nat, minKeys: nat)
    requires n.Inner? && |n.kids| == |n.keys| + 1 && FixedKeys(n.keys) && |n.keys| == MAX_KEYS + 1
    requires forall k :: 0 <= k < |n.kids| ==> Packed(n.kids[k], MIN_CELLS, MIN_KEYS)
    ensures PackedResult(SplitInner(n, av), minCells, minKeys)
  {
    var mid := |n.keys| / 2;
    UsedKeysFixed(n.keys[..mid]);
    UsedKeysFixed(n.keys[mid + 1..]);
    assert |n.keys[mid]| == KEY_WIDTH;
  }

  lemma AbsorbPacked(n: Node, i: nat, r: Inserted, minCells: nat, minKeys: nat)
    requires n.Inner? && |n.kids| == |n.keys| + 1 && i < |n.kids| && r.Inserted?
    requires Packed(n, minCells, minKeys) && PackedResult(r, MIN_CELLS, MIN_KEYS)
    ensures PackedResult(Absorb(n, i, r), minCells, minKeys)
  {
    hide Rank, KeySlot, UsedKeys;
    match r.right
    case None =>
      var m := Replace(n, i, r.node);
      assert forall k :: 0 <= k < |m.kids| ==> Packed(m.kids[k], MIN_CELLS, MIN_KEYS);
    case Some((sep, right)) =>
      var j := KeySlot(n.keys, sep);
      var m := Expand(n, i, j, r.node, sep, right);
      ExpandPacked(n, i, j, r.node, sep, right);
      UsedKeysFixed(n.keys);
      if |m.keys| > MAX_KEYS {
        SplitInnerPacked(m, r.av, minCells, minKeys);
      }
  }

  /** Inserting never overflows a page, and it splits a node only into nodes
      that are at least half full. */
  lemma {:induction false} InsertPacked(n: Node, h: nat, key: Bytes, av: seq<PageId>, minCells: nat, minKeys: nat)
    requires Shaped(n, h) && Packed(n, minCells, minKeys) && |key| == KEY_WIDTH
    ensures PackedResult(Insert(n, h, key, [], av), minCells, minKeys)
    decreases h
  {
    hide InsertLeaf, Absorb, Rank, Route;
    match n
    case Leaf(_, _, _) =>
      InsertLeafPacked(n, key, av, minCells, minKeys);
    case Inner(_, keys, kids) =>
      var i := Route(keys, key);
      assert Packed(kids[i], MIN_CELLS, MIN_KEYS);
      InsertPacked(kids[i], h - 1, key, av, MIN_CELLS, MIN_KEYS);
      var r := Insert(kids[i], h - 1, key, [], av);
      if r.Inserted? {
        AbsorbPacked(n, i, r, minCells, minKeys);
      }
  }

  /** With fixed-width cells `Put` can only fail for want of pages. */
  lemma PutPacked(t: Shape, key: Bytes, av: seq<PageId>)
    requires WellFormed(t) && PackedTree(t) && |key| == KEY_WIDTH
    ensures var o := Put(t, key, [], av);
            && (o.status == Done || o.status == NoPages)
            && (o.status == Done ==> PackedTree(o.tree))
  {
    if !(t.Empty? && av == []) {
      var root, h, av0 := StartRoot(t, av), Height(t), StartPages(t, av);
      assert Packed(root, 0, 1);
      InsertPacked(root, h, key, av0, 0, 1);
      hide Insert, Rank;
      var r := Insert(root, h, key, [], av0);
      if r.Inserted? && r.right.Some? {
        NewRootPacked(r.node, r.right.value.0, r.right.value.1);
      }
    }
  }

  lemma NewRootPacked(l: Node, sep: Bytes, r: Node)
    requires Packed(l, MIN_CELLS, MIN_KEYS) && Packed(r, MIN_CELLS, MIN_KEYS) && |sep| == KEY_WIDTH
    ensures forall id :: Packed(Inner(id, [sep], [l, r]), 0, 1)
  {
  }

  // ---------- deletion ----------

  /** A deletion's result: one cell or separator below the minimum exactly
      when underflow is reported. */
  ghost predicate PackedAfter(d: Deleted) {
    match d
    case NotDeleted(s) => s == KeyNotFound
    case Deleted(node, true, _) =>
      && Packed(node, MIN_CELLS - 1, MIN_KEYS - 1)
      && (match node case Leaf(_, cells, _) => |cells| == MIN_CELLS - 1 case Inner(_, keys, _) => |keys| == MIN_KEYS - 1)
    case Deleted(node, false, _) => Packed(node, MIN_CELLS, MIN_KEYS)
  }

  ghost predicate PackedButOne(kids: seq<Node>, i: nat) {
    forall k :: 0 <= k < |kids| ==> Packed(kids[k], if k == i then MIN_CELLS - 1 else MIN_CELLS,
                                           if k == i then MIN_KEYS - 1 else MIN_KEYS)
  }

  /** A parent one of whose children has just fallen below its minimum. */
  ghost predicate Unbalanced(n: Node, i: nat) {
    && n.Inner? && |n.kids| == |n.keys| + 1 && i < |n.kids|
    && FixedKeys(n.keys) && |n.keys| <= MAX_KEYS && PackedButOne(n.kids, i)
    && (match n.kids[i] case Leaf(_, cells, _) => |cells| == MIN_CELLS - 1 case Inner(_, keys, _) => |keys| == MIN_KEYS - 1)
  }

  /** What rebalancing leaves: children within their minima, at most one
      separator less, and underflow reported exactly when one is missing. */
  ghost predicate Balanced(n: Node, d: Deleted) {
    && n.Inner? && d.Deleted? && d.node.Inner? && FixedKeys(d.node.keys)
    && |n.keys| - 1 <= |d.node.keys| <= |n.keys|
    && (forall k :: 0 <= k < |d.node.kids| ==> Packed(d.node.kids[k], MIN_CELLS, MIN_KEYS))
    && (d.underflow <==> |d.node.keys| < |n.keys| && 0 < |d.node.keys| < MIN_KEYS)
  }

  lemma MergedBalanced(n: Node, i: nat, s: nat, m: Node, av: seq<PageId>)
    requires Unbalanced(n, i) && s < |n.keys| && (s == i || s + 1 == i) && Packed(m, MIN_CELLS, MIN_KEYS)
    ensures Balanced(n, Merged(Contract(n, s, m), av))
  {
    var c := Contract(n, s, m);
    forall k | 0 <= k < |c.kids| ensures Packed(c.kids[k], MIN_CELLS, MIN_KEYS) {
      ContractKid(n, s, m, k);
    }
    UsedKeysFixed(c.keys);
  }

  lemma RespacedBalanced(n: Node, i: nat, s: nat, l: Node, sep: Bytes, r: Node, av: seq<PageId>)
    requires Unbalanced(n, i) && s < |n.keys| && (s == i || s + 1 == i) && |sep| == KEY_WIDTH
    requires Packed(l, MIN_CELLS, MIN_KEYS) && Packed(r, MIN_CELLS, MIN_KEYS)
    ensures Balanced(n, Respaced(Respace(n, s, l, sep, r), av))
  {
    var m := Respace(n, s, l, sep, r);
    assert FixedKeys(m.keys);
    UsedKeysFixed(m.keys);
    forall k | 0 <= k < |m.kids| ensures Packed(m.kids[k], MIN_CELLS, MIN_KEYS) {
      if k != s && k != s + 1 {
        assert m.kids[k] == n.kids[k];
      }
    }
  }

  /** Two siblings of which one is one short. */
  lemma PairPacked(n: Node, i: nat, s: nat)
    requires Unbalanced(n, i) && s < |n.keys| && (s == i || s + 1 == i)
    ensures Packed(n.kids[s], MIN_CELLS - 1, MIN_KEYS - 1) && Packed(n.kids[s + 1], MIN_CELLS - 1, MIN_KEYS - 1)
    ensures match n.kids[s]
            case Leaf(_, cells, _) =>
              n.kids[s + 1].Leaf? ==> 2 * MIN_CELLS - 1 <= |cells| + |n.kids[s + 1].cells| <= MIN_CELLS - 1 + MAX_CELLS
            case Inner(_, keys, _) =>
              n.kids[s + 1].Inner? ==> 2 * MIN_KEYS - 1 <= |keys| + |n.kids[s + 1].keys| <= MIN_KEYS - 1 + MAX_KEYS
  {
    var l, r := n.kids[s], n.kids[s + 1];
    assert Packed(l, if s == i then MIN_CELLS - 1 else MIN_CELLS, if s == i then MIN_KEYS - 1 else MIN_KEYS);
    assert Packed(r, if s + 1 == i then MIN_CELLS - 1 else MIN_CELLS, if s + 1 == i then MIN_KEYS - 1 else MIN_KEYS);
  }

  lemma FixLeavesPacked(n: Node, i: nat, s: nat, av: seq<PageId>)
    requires Unbalanced(n, i) && s < |n.keys| && (s == i || s + 1 == i)
    requires n.kids[s].Leaf? && n.kids[s + 1].Leaf?
    ensures Balanced(n, FixLeaves(n, s, av))
  {
    hide Used, UsedKeys, Merged, Respaced, Contract, Respace, Balanced, PackedButOne, Packed;
    var l, r := n.kids[s], n.kids[s + 1];
    var all := l.cells + r.cells;
    var mid := |all| / 2;
    PairPacked(n, i, s);
    CellsDealt(l, r);
    if |all| <= MAX_CELLS {
      MergedBalanced(n, i, s, Leaf(l.id, all, r.next), av + [r.id]);
    } else {
      RespacedBalanced(n, i, s, Leaf(l.id, all[..mid], l.next), all[mid].key, Leaf(r.id, all[mid..], r.next), av);
    }
  }

  /** The cells of two leaves, one of which is one short, on one page or dealt
      out on two. */
  lemma FixedConcat(a: seq<Cell>, b: seq<Cell>)
    requires FixedCells(a) && FixedCells(b)
    ensures FixedCells(a + b)
  {
    hide FixedCell;
  }

  lemma FixedParts(all: seq<Cell>, mid: nat)
    requires mid < |all| && FixedCells(all)
    ensures FixedCells(all[..mid]) && FixedCells(all[mid..]) && |all[mid].key| == KEY_WIDTH
  {
    assert FixedCell(all[mid]);
  }

  lemma CellsDealt(l: Node, r: Node)
    requires l.Leaf? && r.Leaf? && Packed(l, MIN_CELLS - 1, MIN_KEYS - 1) && Packed(r, MIN_CELLS - 1, MIN_KEYS - 1)
    requires 2 * MIN_CELLS - 1 <= |l.cells| + |r.cells| <= MIN_CELLS - 1 + MAX_CELLS
    ensures var all := l.cells + r.cells;
            var mid := |all| / 2;
            && (Used(l.cells) + Used(r.cells) <= MAX_CELL_AREA <==> |all| <= MAX_CELLS)
            && (|all| <= MAX_CELLS ==> Packed(Leaf(l.id, all, r.next), MIN_CELLS, MIN_KEYS))
            && (|all| > MAX_CELLS ==>
                  && Used(all[..mid]) <= MAX_CELL_AREA && Used(all[mid..]) <= MAX_CELL_AREA && |all[mid].key| == KEY_WIDTH
                  && Packed(Leaf(l.id, all[..mid], l.next), MIN_CELLS, MIN_KEYS)
                  && Packed(Leaf(r.id, all[mid..], r.next), MIN_CELLS, MIN_KEYS))
  {
    hide Used, FixedCells;
    var all := l.cells + r.cells;
    var mid := |all| / 2;
    FixedConcat(l.cells, r.cells);
    FixedParts(all, mid);
    UsedFixed(l.cells);
    UsedFixed(r.cells);
    UsedFixed(all[..mid]);
    UsedFixed(all[mid..]);
  }

  lemma JoinPacked(l: Node, sep: Bytes, r: Node)
    requires Joinable(l, r) && |sep| == KEY_WIDTH
    requires Packed(l, MIN_CELLS - 1, MIN_KEYS - 1) && Packed(r, MIN_CELLS - 1, MIN_KEYS - 1)
    ensures var m := Join(l, sep, r);
            && FixedKeys(m.keys) && |m.keys| == |l.keys| + 1 + |r.keys| && |m.kids| == |m.keys| + 1
            && forall k :: 0 <= k < |m.kids| ==> Packed(m.kids[k], MIN_CELLS, MIN_KEYS)
  {
  }

  lemma PartsPacked(m: Node, mid: nat, id: PageId)
    requires m.Inner? && |m.kids| == |m.keys| + 1 && FixedKeys(m.keys) && mid < |m.keys|
    requires forall k :: 0 <= k < |m.kids| ==> Packed(m.kids[k], MIN_CELLS, MIN_KEYS)
    requires MIN_KEYS <= mid <= MAX_KEYS && MIN_KEYS <= |m.keys| - mid - 1 <= MAX_KEYS
    ensures Packed(LeftPart(m, mid), MIN_CELLS, MIN_KEYS) && Packed(RightPart(m, mid, id), MIN_CELLS, MIN_KEYS)
    ensures UsedKeys(m.keys[..mid]) <= MAX_CELL_AREA && UsedKeys(m.keys[mid + 1..]) <= MAX_CELL_AREA
    ensures |m.keys[mid]| == KEY_WIDTH
  {
    UsedKeysFixed(m.keys[..mid]);
    UsedKeysFixed(m.keys[mid + 1..]);
  }

  lemma FixInnersPacked(n: Node, i: nat, s: nat, av: seq<PageId>)
    requires Unbalanced(n, i) && s < |n.keys| && (s == i || s + 1 == i) && Joinable(n.kids[s], n.kids[s + 1])
    ensures Balanced(n, FixInners(n, s, av))
  {
    hide Used, UsedKeys, Merged, Respaced, Contract, Respace, Balanced, PackedButOne, Packed;
    var l, r := n.kids[s], n.kids[s + 1];
    var all := Join(l, n.keys[s], r);
    var mid := |all.keys| / 2;
    PairPacked(n, i, s);
    KeysDealt(l, n.keys[s], r);
    if |all.keys| <= MAX_KEYS {
      MergedBalanced(n, i, s, all, av + [r.id]);
    } else {
      PartsPacked(all, mid, r.id);
      RespacedBalanced(n, i, s, LeftPart(all, mid), all.keys[mid], RightPart(all, mid, r.id), av);
    }
  }

  /** The separators of two nodes, one of which is one short, with the one
      between them. */
  lemma KeysDealt(l: Node, sep: Bytes, r: Node)
    requires Joinable(l, r) && |sep| == KEY_WIDTH
    requires Packed(l, MIN_CELLS - 1, MIN_KEYS - 1) && Packed(r, MIN_CELLS - 1, MIN_KEYS - 1)
    requires 2 * MIN_KEYS - 1 <= |l.keys| + |r.keys| <= MIN_KEYS - 1 + MAX_KEYS
    ensures var m := Join(l, sep, r);
            && FixedKeys(m.keys) && |m.keys| == |l.keys| + 1 + |r.keys| && |m.kids| == |m.keys| + 1
            && (UsedKeys(l.keys) + UsedKeys(r.keys) + INNER_CELL_OVERHEAD + |sep| <= MAX_CELL_AREA <==> |m.keys| <= MAX_KEYS)
            && (|m.keys| <= MAX_KEYS ==> Packed(m, MIN_CELLS, MIN_KEYS))
            && forall k :: 0 <= k < |m.kids| ==> Packed(m.kids[k], MIN_CELLS, MIN_KEYS)
  {
    hide UsedKeys;
    JoinPacked(l, sep, r);
    UsedKeysFixed(l.keys);
    UsedKeysFixed(r.keys);
  }

  lemma RebalancePacked(n: Node, h: nat, i: nat, av: seq<PageId>)
    requires Shaped(n, h) && Unbalanced(n, i) && |n.keys| > 0
    ensures Balanced(n, Rebalance(n, h, i, av))
  {
    var s := if i < |n.keys| then i else i - 1;
    assert Shaped(n.kids[s], h - 1) && Shaped(n.kids[s + 1], h - 1);
    hide Unbalanced, Balanced, FixLeaves, FixInners, Packed;
    if h == 1 {
      FixLeavesPacked(n, i, s, av);
    } else {
      FixInnersPacked(n, i, s, av);
    }
  }

  lemma DeleteLeafPacked(n: Node, key: Bytes, av: seq<PageId>, root: PageId, minCells: nat)
    requires n.Leaf? && Packed(n, minCells, 0)
    ensures var d := DeleteLeaf(n, key, av, root);
            match d
            case NotDeleted(s) => s == KeyNotFound
            case Deleted(node, under, _) =>
              && node.Leaf? && FixedCells(node.cells) && |node.cells| + 1 == |n.cells|
              && (under <==> n.id != root && 0 < |node.cells| < MIN_CELLS)
  {
    hide Rank, Slot;
    var i := Slot(n.cells, key);
    if HasKeyAt(n.cells, i, key) {
      UsedFixed(RemoveAt(n.cells, i));
    }
  }

  /** The children after a deletion below child `i`. */
  lemma ReplaceUnbalanced(n: Node, i: nat, c: Node, minKeys: nat)
    requires n.Inner? && |n.kids| == |n.keys| + 1 && i < |n.kids| && Packed(n, MIN_CELLS, minKeys)
    requires Packed(c, MIN_CELLS - 1, MIN_KEYS - 1)
    requires match c case Leaf(_, cells, _) => |cells| == MIN_CELLS - 1 case Inner(_, keys, _) => |keys| == MIN_KEYS - 1
    ensures Unbalanced(Replace(n, i, c), i)
  {
  }

  lemma ReplacePacked(n: Node, i: nat, c: Node, minCells: nat, minKeys: nat)
    requires n.Inner? && i < |n.kids| && Packed(n, minCells, minKeys) && Packed(c, MIN_CELLS, MIN_KEYS)
    ensures Packed(Replace(n, i, c), minCells, minKeys)
  {
  }

  lemma UsesBelow(n: Node, i: nat, p: PageId)
    requires n.Inner? && i < |n.kids|
    ensures Uses(n, p) >= Uses(n.kids[i], p) + if n.id == p then 1 else 0
  {
    UsesSplit(n.kids, i, p);
  }

  /** Deleting below the root keeps every node within its bounds and reports
      underflow exactly for a node that is one short. */
  lemma {:induction false} DeletePacked(n: Node, h: nat, key: Bytes, av: seq<PageId>, root: PageId)
    requires Shaped(n, h) && Packed(n, MIN_CELLS, MIN_KEYS) && Uses(n, root) == 0
    ensures PackedAfter(Delete(n, h, key, av, root))
    decreases h
  {
    match n
    case Leaf(_, _, _) =>
      DeleteLeafPacked(n, key, av, root, MIN_CELLS);
    case Inner(_, keys, kids) =>
      forall k | 0 <= k < |kids| ensures Uses(kids[k], root) == 0 {
        UsesBelow(n, k, root);
      }
      DeleteInnerPacked(n, h, key, av, root, MIN_KEYS);
      hide Delete, Rank;
  }

  /** One level of deletion in an internal node with at least one separator. */
  lemma {:induction false} DeleteInnerPacked(n: Node, h: nat, key: Bytes, av: seq<PageId>, root: PageId, minKeys: nat)
    requires Shaped(n, h) && n.Inner? && Packed(n, MIN_CELLS, minKeys) && minKeys > 0
    requires forall k :: 0 <= k < |n.kids| ==> Uses(n.kids[k], root) == 0
    ensures var d := Delete(n, h, key, av, root);
            match d
            case NotDeleted(s) => s == KeyNotFound
            case Deleted(node, under, _) =>
              && node.Inner? && FixedKeys(node.keys) && |n.keys| - 1 <= |node.keys| <= |n.keys|
              && (forall k :: 0 <= k < |node.kids| ==> Packed(node.kids[k], MIN_CELLS, MIN_KEYS))
              && (under <==> |node.keys| < |n.keys| && 0 < |node.keys| < MIN_KEYS)
    decreases h, 0
  {
    hide *;
    DeleteInner(n, h, key, av, root);
    var i := Route(n.keys, key);
    PackedBelow(n, i, minKeys);
    DeletePacked(n.kids[i], h - 1, key, av, root);
    var r := Delete(n.kids[i], h - 1, key, av, root);
    AfterParts(r);
    if r.Deleted? {
      var n' := Replace(n, i, r.node);
      if r.underflow {
        ReplaceUnbalanced(n, i, r.node, minKeys);
        RebalancePacked(n', h, i, r.av);
        BalancedParts(n, i, r.node, Rebalance(n', h, i, r.av));
      } else {
        ReplacePacked(n, i, r.node, MIN_CELLS, minKeys);
        ReplacedParts(n, i, r.node, minKeys);
      }
    }
  }

  lemma PackedBelow(n: Node, i: nat, minKeys: nat)
    requires n.Inner? && Packed(n, MIN_CELLS, minKeys) && i < |n.kids| && |n.kids| == |n.keys| + 1
    ensures Packed(n.kids[i], MIN_CELLS, MIN_KEYS) && minKeys <= |n.keys|
  {
  }

  /** What `PackedAfter` says of a deletion below. */
  lemma AfterParts(d: Deleted)
    requires PackedAfter(d)
    ensures match d
            case NotDeleted(s) => s == KeyNotFound
            case Deleted(node, under, _) =>
              && (!under ==> Packed(node, MIN_CELLS, MIN_KEYS))
              && (under ==> Packed(node, MIN_CELLS - 1, MIN_KEYS - 1))
              && (under ==> match node
                            case Leaf(_, cells, _) => |cells| == MIN_CELLS - 1
                            case Inner(_, keys, _) => |keys| == MIN_KEYS - 1)
  {
    hide Packed;
  }

  lemma BalancedParts(n: Node, i: nat, c: Node, d: Deleted)
    requires n.Inner? && i < |n.kids| && Balanced(Replace(n, i, c), d)
    ensures d.Deleted? && d.node.Inner? && FixedKeys(d.node.keys) && |n.keys| - 1 <= |d.node.keys| <= |n.keys|
    ensures forall k :: 0 <= k < |d.node.kids| ==> Packed(d.node.kids[k], MIN_CELLS, MIN_KEYS)
    ensures d.underflow <==> |d.node.keys| < |n.keys| && 0 < |d.node.keys| < MIN_KEYS
  {
    hide Packed;
  }

  lemma ReplacedParts(n: Node, i: nat, c: Node, minKeys: nat)
    requires n.Inner? && i < |n.kids| && Packed(Replace(n, i, c), MIN_CELLS, minKeys)
    ensures var m := Replace(n, i, c);
            && m.Inner? && FixedKeys(m.keys) && |m.keys| == |n.keys|
            && forall k :: 0 <= k < |m.kids| ==> Packed(m.kids[k], MIN_CELLS, MIN_KEYS)
  {
  }

  /** With fixed-width cells `Delete` can only fail to find the key. */
  lemma RemovePacked(t: Shape, key: Bytes, av: seq<PageId>)
    requires WellFormed(t) && PackedTree(t) && key != []
    requires t.Root? ==> Uses(t.node, t.node.id) == 1
    ensures var o := Remove(t, key, av);
            && (o.status == Done || o.status == KeyNotFound)
            && (o.status == Done ==> PackedTree(o.tree))
  {
    if t.Root? {
      var n, h := t.node, t.height;
      match n
      case Leaf(_, _, _) =>
        DeleteLeafPacked(n, key, av, n.id, 0);
      case Inner(_, keys, kids) =>
        forall k | 0 <= k < |kids| ensures Uses(kids[k], n.id) == 0 {
          UsesBelow(n, k, n.id);
        }
        DeleteInnerPacked(n, h, key, av, n.id, 1);
        hide Delete, Rank;
        var d := Delete(n, h, key, av, n.id);
        if d.Deleted? && d.node.keys == [] {
          assert Packed(d.node.kids[0], MIN_CELLS, MIN_KEYS);
          PackedAtTop(d.node.kids[0]);
        }
    }
  }

  lemma PackedAtTop(n: Node)
    requires Packed(n, MIN_CELLS, MIN_KEYS)
    ensures Packed(n, 0, 1)
  {
  }

  // ---------- how many cells a tree of some depth must have ----------

  /** The fewest cells below a non-root node of height `h`. */
  function Least(h: nat): nat {
    if h == 0 then MIN_CELLS else (MIN_KEYS + 1) * Least(h - 1)
  }

  lemma {:induction false} LeastBelow(n: Node, h: nat)
    requires Shaped(n, h) && Packed(n, MIN_CELLS, MIN_KEYS)
    ensures |Entries(n)| >= Least(h)
    decreases h, 1
  {
    if n.Inner? {
      LeastOf(n.kids, h - 1);
      assert |n.kids| * Least(h - 1) >= (MIN_KEYS + 1) * Least(h - 1);
    }
  }

  lemma {:induction false} LeastOf(kids: seq<Node>, h: nat)
    requires forall i :: 0 <= i < |kids| ==> Shaped(kids[i], h) && Packed(kids[i], MIN_CELLS, MIN_KEYS)
    ensures |EntriesOf(kids)| >= |kids| * Least(h)
    decreases h, 2, |kids|
  {
    if kids != [] {
      LeastBelow(kids[0], h);
      LeastOf(kids[1..], h);
      assert |kids| * Least(h) == Least(h) + (|kids| - 1) * Least(h);
    }
  }

  lemma LeastGrows(a: nat, b: nat)
    requires a <= b
    ensures Least(a) <= Least(b)
  {
    if a < b {
      LeastGrows(a, b - 1);
    }
  }

  lemma LeastTwo()
    ensures 2 * Least(2) == 571_880
  {
    assert Least(2) == 58 * Least(1) && Least(1) == 58 * Least(0);
  }

  lemma TimesTwo(a: nat, x: nat)
    requires a >= 2
    ensures a * x >= 2 * x
  {
  }

  /** A tree of depth 4 or more holds at least 571,880 cells. */
  lemma DeepTreeIsBig(t: Shape)
    requires WellFormed(t) && PackedTree(t) && Height(t) >= 3
    ensures |TreeCells(t)| >= 571_880
  {
    var h := t.height - 1;
    LeastOf(t.node.kids, h);
    LeastGrows(2, h);
    LeastTwo();
    TimesTwo(|t.node.kids|, Least(h));
    hide Rank, Ordered, Chained, Fits, Least;
  }

  /** A tree of fewer than 571,880 cells has depth at most 3. */
  lemma DepthBound(t: Shape)
    requires WellFormed(t) && PackedTree(t) && |TreeCells(t)| < 571_880
    ensures Height(t) <= 2
  {
    if Height(t) >= 3 {
      DeepTreeIsBig(t);
    }
  }

  /** No leaf below a root node is empty. */
  ghost predicate NoEmptyLeaf(n: Node) {
    match n
    case Leaf(_, cells, _) => cells != []
    case Inner(_, _, kids) => forall i :: 0 <= i < |kids| ==> NoEmptyLeaf(kids[i])
  }

  lemma {:induction false} PackedHasNoEmptyLeaf(n: Node, minKeys: nat)
    requires Packed(n, 1, minKeys)
    ensures NoEmptyLeaf(n)
    decreases n
  {
    if n.Inner? {
      forall i | 0 <= i < |n.kids| ensures NoEmptyLeaf(n.kids[i]) {
        assert Packed(n.kids[i], MIN_CELLS, MIN_KEYS);
        PackedWeaken(n.kids[i]);
        PackedHasNoEmptyLeaf(n.kids[i], MIN_KEYS);
      }
    }
  }

  lemma PackedWeaken(n: Node)
    requires Packed(n, MIN_CELLS, MIN_KEYS)
    ensures Packed(n, 1, MIN_KEYS)
  {
  }
}
