/** The sizes at which the tree's operations change course, in numbers: 4,062
    bytes of cells to a page, 4 and 10 bytes around a key, 12 for the pointer to
    a long value, and rebalancing from 1 to 1,014 bytes. */
module TreeLimits {
  import opened Bytes
  import opened TreeModel
  import opened TreeView
  import opened TreeInsert
  import opened TreeDelete

  /** The separators around child `i` are on both sides of `key`. */
  predicate Between(keys: seq<Bytes>, i: nat, key: Bytes) {
    && i <= |keys|
    && (forall j :: 0 <= j < i ==> Rank(keys[j]) <= Rank(key))
    && (i < |keys| ==> Rank(key) < Rank(keys[i]))
  }

  lemma BetweenIsRoute(keys: seq<Bytes>, i: nat, key: Bytes)
    requires Between(keys, i, key)
    ensures Route(keys, key) == i
  {
    hide Rank;
    var r := Route(keys, key);
    assert !(r < i) && !(i < r);
  }

  // ---------- insertion ----------

  /** A key that a leaf does not have goes into it while the bytes are at most
      4,062; else the leaf is cut in two by count, with the first key of the
      right one as separator. */
  lemma LeafLimit(n: Node, j: nat, key: Bytes, val: Bytes, av: seq<PageId>)
    requires n.Leaf? && Shaped(n, 0) && j <= |n.cells|
    requires forall k :: 0 <= k < j ==> Rank(n.cells[k].key) < Rank(key)
    requires forall k :: j <= k < |n.cells| ==> Rank(key) < Rank(n.cells[k].key)
    requires |av| > ChainLen(val)
    ensures var r := Insert(n, 0, key, val, av);
            var cells := n.cells[..j] + [NewCell(key, val, av)] + n.cells[j..];
            var size := Used(n.cells) + 4 + |key| + if |val| <= 6 then |val| else 12;
            var mid := |cells| / 2;
            if size <= 4062 then r == Inserted(Leaf(n.id, cells, n.next), None, av[..|av| - ChainLen(val)])
            else if Used(cells[..mid]) > 4062 || Used(cells[mid..]) > 4062 then r == NotInserted(Panic)
            else
              var id := av[|av| - ChainLen(val) - 1];
              r == Inserted(Leaf(n.id, cells[..mid], id), Some((cells[mid].key, Leaf(id, cells[mid..], n.next))),
                            av[..|av| - ChainLen(val) - 1])
  {
    hide *;
    NewCellSize(key, val, av);
    GoesIn(n, j, key, val, av);
    SplitByCount(Leaf(n.id, n.cells[..j] + [NewCell(key, val, av)] + n.cells[j..], n.next), av[..|av| - ChainLen(val)]);
  }

  /** The two ways an insertion into a leaf can go on. */
  lemma GoesIn(n: Node, j: nat, key: Bytes, val: Bytes, av: seq<PageId>)
    requires n.Leaf? && j <= |n.cells| && ChainLen(val) <= |av| && Shaped(n, 0)
    requires forall k :: 0 <= k < j ==> Rank(n.cells[k].key) < Rank(key)
    requires forall k :: j <= k < |n.cells| ==> Rank(key) < Rank(n.cells[k].key)
    ensures var c := NewCell(key, val, av);
            var m := Leaf(n.id, n.cells[..j] + [c] + n.cells[j..], n.next);
            var left := av[..|av| - ChainLen(val)];
            Insert(n, 0, key, val, av) ==
            if Used(n.cells) + CellSize(c) <= 4062 then Inserted(m, None, left) else SplitLeaf(m, left)
  {
    SlotUnique(n.cells, key, j);
    hide Used, CellSize, TakePages, Rank, ChainLen, Slot, SplitLeaf;
    assert !HasKeyAt(n.cells, j, key);
    assert av[..|av| - ChainLen(val)] + [] == av[..|av| - ChainLen(val)];
  }

  lemma SplitByCount(n: Node, av: seq<PageId>)
    requires n.Leaf? && n.cells != [] && av != []
    ensures var mid := |n.cells| / 2;
            var id := av[|av| - 1];
            SplitLeaf(n, av) ==
            if Used(n.cells[..mid]) > 4062 || Used(n.cells[mid..]) > 4062 then NotInserted(Panic)
            else Inserted(Leaf(n.id, n.cells[..mid], id), Some((n.cells[mid].key, Leaf(id, n.cells[mid..], n.next))), av[..|av| - 1])
  {
    hide Used;
  }

  lemma NewCellSize(key: Bytes, val: Bytes, av: seq<PageId>)
    requires ChainLen(val) <= |av|
    ensures NewCell(key, val, av).key == key
    ensures CellSize(NewCell(key, val, av)) == 4 + |key| + if |val| <= 6 then |val| else 12
  {
    hide TakePages;
  }

  /** The separator of a child that was split goes in while the bytes are at
      most 4,062; else the middle one of them all moves up. */
  lemma InnerLimit(n: Node, h: nat, i: nat, j: nat, key: Bytes, val: Bytes, av: seq<PageId>, l: Node, sep: Bytes, r: Node, left: seq<PageId>)
    requires n.Inner? && Shaped(n, h) && Between(n.keys, i, key) && j <= |n.keys| && left != []
    requires Insert(n.kids[i], h - 1, key, val, av) == Inserted(l, Some((sep, r)), left)
    requires forall k :: 0 <= k < j ==> Rank(n.keys[k]) < Rank(sep)
    requires forall k :: j <= k < |n.keys| ==> Rank(sep) <= Rank(n.keys[k])
    ensures var keys := n.keys[..j] + [sep] + n.keys[j..];
            var kids := n.kids[i := l][..j + 1] + [r] + n.kids[i := l][j + 1..];
            var mid := |keys| / 2;
            Insert(n, h, key, val, av) ==
            if UsedKeys(n.keys) + 10 + |sep| <= 4062 then Inserted(Inner(n.id, keys, kids), None, left)
            else if UsedKeys(keys[..mid]) > 4062 || UsedKeys(keys[mid + 1..]) > 4062 then NotInserted(Panic)
            else
              Inserted(Inner(n.id, keys[..mid], kids[..mid + 1]),
                       Some((keys[mid], Inner(left[|left| - 1], keys[mid + 1..], kids[mid + 1..]))), left[..|left| - 1])
  {
    BetweenIsRoute(n.keys, i, key);
    KeySlotIs(n.keys, j, sep);
    InsertInner(n, h, key, val, av);
    hide Rank, UsedKeys, Insert, Shaped;
    AbsorbedByCount(n, i, j, l, sep, r, left);
  }

  lemma KeySlotIs(keys: seq<Bytes>, j: nat, sep: Bytes)
    requires j <= |keys|
    requires forall k :: 0 <= k < j ==> Rank(keys[k]) < Rank(sep)
    requires j < |keys| ==> Rank(sep) <= Rank(keys[j])
    ensures KeySlot(keys, sep) == j
  {
    hide Rank;
    var s := KeySlot(keys, sep);
    assert !(s < j) && !(j < s);
  }

  lemma AbsorbedByCount(n: Node, i: nat, j: nat, l: Node, sep: Bytes, r: Node, left: seq<PageId>)
    requires n.Inner? && |n.kids| == |n.keys| + 1 && i < |n.kids| && j == KeySlot(n.keys, sep) && left != []
    ensures var keys := n.keys[..j] + [sep] + n.keys[j..];
            var kids := n.kids[i := l][..j + 1] + [r] + n.kids[i := l][j + 1..];
            var mid := |keys| / 2;
            Absorb(n, i, Inserted(l, Some((sep, r)), left)) ==
            if UsedKeys(n.keys) + 10 + |sep| <= 4062 then Inserted(Inner(n.id, keys, kids), None, left)
            else if UsedKeys(keys[..mid]) > 4062 || UsedKeys(keys[mid + 1..]) > 4062 then NotInserted(Panic)
            else
              Inserted(Inner(n.id, keys[..mid], kids[..mid + 1]),
                       Some((keys[mid], Inner(left[|left| - 1], keys[mid + 1..], kids[mid + 1..]))), left[..|left| - 1])
  {
    hide UsedKeys, Rank;
  }

  // ---------- deletion ----------

  /** A leaf that loses a cell reports underflow if 1 to 1,014 bytes are left
      and it is not the root; an empty one does not. */
  lemma ShortLeaf(n: Node, j: nat, key: Bytes, av: seq<PageId>, root: PageId)
    requires n.Leaf? && Shaped(n, 0) && j < |n.cells| && n.cells[j].key == key
    requires forall k :: 0 <= k < j ==> Rank(n.cells[k].key) < Rank(key)
    ensures var cells := n.cells[..j] + n.cells[j + 1..];
            Delete(n, 0, key, av, root) ==
            Deleted(Leaf(n.id, cells, n.next), n.id != root && 1 <= Used(cells) <= 1014, av + n.cells[j].chain)
  {
    SlotUnique(n.cells, key, j);
    NoBytes(n.cells[..j] + n.cells[j + 1..]);
    hide Rank, Used, Slot;
  }

  lemma NoBytes(cells: seq<Cell>)
    ensures Used(cells) > 0 <==> |cells| > 0
  {
  }

  /** What becomes of an internal node whose child `i` has lost a key: if the
      child reports no underflow, or is the only one, nothing more.  Else it is
      taken together with the child after it, or, if it is the last, the child
      before it: two leaves of at most 4,062 bytes together, or two internal
      nodes of at most 4,062 with the separator between them, become one. */
  lemma ShortChild(n: Node, h: nat, i: nat, key: Bytes, av: seq<PageId>, root: PageId)
    requires n.Inner? && Shaped(n, h) && Between(n.keys, i, key) && Delete(n.kids[i], h - 1, key, av, root).Deleted?
    ensures var c := Delete(n.kids[i], h - 1, key, av, root);
            var d := Delete(n, h, key, av, root);
            var kids := n.kids[i := c.node];
            var s := if i < |n.keys| then i else i - 1;
            if !c.underflow || n.keys == [] then d == Deleted(Inner(n.id, n.keys, kids), false, c.av)
            else
              && Shaped(kids[s], h - 1) && Shaped(kids[s + 1], h - 1)
              && var l, r := kids[s], kids[s + 1];
                 if h == 1 then
                   if Used(l.cells) + Used(r.cells) <= 4062 then
                     MergedInto(d, n.id, n.keys, kids, s, Leaf(l.id, l.cells + r.cells, r.next), c.av)
                   else LeavesDealt(d, n.id, n.keys, kids, s, c.av)
                 else
                   if UsedKeys(l.keys) + UsedKeys(r.keys) + 10 + |n.keys[s]| <= 4062 then
                     MergedInto(d, n.id, n.keys, kids, s, Inner(l.id, l.keys + [n.keys[s]] + r.keys, l.kids + r.kids), c.av)
                   else InnersDealt(d, n.id, n.keys, kids, s, c.av)
  {
    hide *;
    BetweenIsRoute(n.keys, i, key);
    DeleteInner(n, h, key, av, root);
    var c := Delete(n.kids[i], h - 1, key, av, root);
    ReplaceIs(n, i, c.node);
    if c.underflow && n.keys != [] {
      var n' := Replace(n, i, c.node);
      PairLimit(n', h, i, c.av);
      if h == 1 {
        LeavesLimit(n', if i < |n.keys| then i else i - 1, c.av);
      } else {
        InnersLimit(n', h, if i < |n.keys| then i else i - 1, c.av);
      }
    } else if c.underflow {
      AloneIsLeft(Replace(n, i, c.node), h, i, c.av);
    }
  }

  lemma ReplaceIs(n: Node, i: nat, c: Node)
    requires n.Inner? && i < |n.kids|
    ensures Replace(n, i, c) == Inner(n.id, n.keys, n.kids[i := c])
  {
  }

  lemma AloneIsLeft(n: Node, h: nat, i: nat, av: seq<PageId>)
    requires Shaped(n, h) && n.Inner? && i < |n.kids| && n.keys == []
    ensures Rebalance(n, h, i, av) == Deleted(n, false, av)
  {
  }

  ghost predicate LeavesDealt(d: Deleted, id: PageId, keys: seq<Bytes>, kids: seq<Node>, s: nat, av: seq<PageId>)
    requires |kids| == |keys| + 1 && s < |keys| && kids[s].Leaf? && kids[s + 1].Leaf?
  {
    var l, r := kids[s], kids[s + 1];
    var all := l.cells + r.cells;
    var mid := |all| / 2;
    && mid < |all|
    && DealtOut(d, id, keys, kids, s, Leaf(l.id, all[..mid], l.next), all[mid].key, Leaf(r.id, all[mid..], r.next),
                Used(all[..mid]) <= 4062 && Used(all[mid..]) <= 4062, av)
  }

  ghost predicate InnersDealt(d: Deleted, id: PageId, keys: seq<Bytes>, kids: seq<Node>, s: nat, av: seq<PageId>)
    requires |kids| == |keys| + 1 && s < |keys| && kids[s].Inner? && kids[s + 1].Inner?
    requires |kids[s].kids| == |kids[s].keys| + 1 && |kids[s + 1].kids| == |kids[s + 1].keys| + 1
  {
    var l, r := kids[s], kids[s + 1];
    var all, below := l.keys + [keys[s]] + r.keys, l.kids + r.kids;
    var mid := |all| / 2;
    DealtOut(d, id, keys, kids, s, Inner(l.id, all[..mid], below[..mid + 1]), all[mid],
             Inner(r.id, all[mid + 1..], below[mid + 1..]),
             UsedKeys(all[..mid]) <= 4062 && UsedKeys(all[mid + 1..]) <= 4062, av)
  }

  lemma RespacedAt(n: Node, s: nat, l: Node, sep: Bytes, r: Node, av: seq<PageId>)
    requires n.Inner? && |n.kids| == |n.keys| + 1 && s < |n.keys|
    ensures DealtOut(Respaced(Respace(n, s, l, sep, r), av), n.id, n.keys, n.kids, s, l, sep, r, true, av)
  {
    hide UsedKeys;
    assert n.keys[s := sep] == n.keys[..s] + [sep] + n.keys[s + 1..];
    assert n.kids[s := l][s + 1 := r] == n.kids[..s] + [l, r] + n.kids[s + 2..];
  }

  lemma Overflows(n: Node, s: nat, l: Node, sep: Bytes, r: Node, av: seq<PageId>)
    requires n.Inner? && |n.kids| == |n.keys| + 1 && s < |n.keys|
    ensures DealtOut(NotDeleted(Panic), n.id, n.keys, n.kids, s, l, sep, r, false, av)
  {
  }

  lemma SomeCells(cells: seq<Cell>, more: seq<Cell>)
    requires Used(cells) + Used(more) > 0
    ensures |cells + more| > 0
  {
  }

  lemma PairLimit(n: Node, h: nat, i: nat, av: seq<PageId>)
    requires Shaped(n, h) && n.Inner? && i < |n.kids| && n.keys != []
    ensures var s := if i < |n.keys| then i else i - 1;
            && |n.kids| == |n.keys| + 1 && h > 0 && Shaped(n.kids[s], h - 1) && Shaped(n.kids[s + 1], h - 1)
            && (h == 1 ==> n.kids[s].Leaf? && n.kids[s + 1].Leaf? && Rebalance(n, h, i, av) == FixLeaves(n, s, av))
            && (h > 1 ==> n.kids[s].Inner? && n.kids[s + 1].Inner?
                          && |n.kids[s].kids| == |n.kids[s].keys| + 1 && |n.kids[s + 1].kids| == |n.kids[s + 1].keys| + 1
                          && Rebalance(n, h, i, av) == FixInners(n, s, av))
  {
    hide FixLeaves, FixInners;
    var s := if i < |n.keys| then i else i - 1;
    assert Shaped(n.kids[s], h - 1) && Shaped(n.kids[s + 1], h - 1);
  }

  lemma LeavesLimit(n: Node, s: nat, av: seq<PageId>)
    requires n.Inner? && |n.kids| == |n.keys| + 1 && s < |n.keys| && n.kids[s].Leaf? && n.kids[s + 1].Leaf?
    ensures var l, r := n.kids[s], n.kids[s + 1];
            var d := FixLeaves(n, s, av);
            if Used(l.cells) + Used(r.cells) <= 4062 then
              MergedInto(d, n.id, n.keys, n.kids, s, Leaf(l.id, l.cells + r.cells, r.next), av)
            else LeavesDealt(d, n.id, n.keys, n.kids, s, av)
  {
    var l, r := n.kids[s], n.kids[s + 1];
    var all := l.cells + r.cells;
    hide Used, UsedKeys, Contract, Respace, Merged, Respaced, MergedInto, DealtOut;
    if Used(l.cells) + Used(r.cells) <= 4062 {
      MergedAt(n, s, Leaf(l.id, all, r.next), av);
    } else {
      SomeCells(l.cells, r.cells);
      var mid := |all| / 2;
      var left, right := Leaf(l.id, all[..mid], l.next), Leaf(r.id, all[mid..], r.next);
      RespacedAt(n, s, left, all[mid].key, right, av);
      Overflows(n, s, left, all[mid].key, right, av);
    }
  }

  lemma InnersLimit(n: Node, h: nat, s: nat, av: seq<PageId>)
    requires n.Inner? && |n.kids| == |n.keys| + 1 && s < |n.keys| && n.kids[s].Inner? && n.kids[s + 1].Inner?
    requires |n.kids[s].kids| == |n.kids[s].keys| + 1 && |n.kids[s + 1].kids| == |n.kids[s + 1].keys| + 1
    ensures var l, r := n.kids[s], n.kids[s + 1];
            var d := FixInners(n, s, av);
            if UsedKeys(l.keys) + UsedKeys(r.keys) + 10 + |n.keys[s]| <= 4062 then
              MergedInto(d, n.id, n.keys, n.kids, s, Inner(l.id, l.keys + [n.keys[s]] + r.keys, l.kids + r.kids), av)
            else InnersDealt(d, n.id, n.keys, n.kids, s, av)
  {
    var l, r := n.kids[s], n.kids[s + 1];
    var all := Inner(l.id, l.keys + [n.keys[s]] + r.keys, l.kids + r.kids);
    hide UsedKeys, Contract, Respace, Merged, Respaced, MergedInto, DealtOut;
    if UsedKeys(l.keys) + UsedKeys(r.keys) + 10 + |n.keys[s]| <= 4062 {
      MergedAt(n, s, all, av);
    } else {
      var mid := |all.keys| / 2;
      var left, right := LeftPart(all, mid), RightPart(all, mid, r.id);
      RespacedAt(n, s, left, all.keys[mid], right, av);
      Overflows(n, s, left, all.keys[mid], right, av);
    }
  }

  lemma MergedAt(n: Node, s: nat, m: Node, av: seq<PageId>)
    requires n.Inner? && |n.kids| == |n.keys| + 1 && s < |n.keys|
    ensures MergedInto(Merged(Contract(n, s, m), av + [n.kids[s + 1].id]), n.id, n.keys, n.kids, s, m, av)
  {
    assert RemoveAt(n.kids[s := m], s + 1) == n.kids[..s] + [m] + n.kids[s + 2..];
    NoKeyBytes(RemoveAt(n.keys, s));
    hide UsedKeys;
  }

  lemma NoKeyBytes(keys: seq<Bytes>)
    ensures UsedKeys(keys) > 0 <==> |keys| > 0
  {
  }

  /** Children `s` and `s + 1` have become `m`, and the page of the second is
      free; underflow is reported if 1 to 1,014 bytes of separators are left. */
  ghost predicate MergedInto(d: Deleted, id: PageId, keys: seq<Bytes>, kids: seq<Node>, s: nat, m: Node, av: seq<PageId>)
    requires |kids| == |keys| + 1 && s < |keys|
  {
    var rest := keys[..s] + keys[s + 1..];
    d == Deleted(Inner(id, rest, kids[..s] + [m] + kids[s + 2..]), 1 <= UsedKeys(rest) <= 1014, av + [kids[s + 1].id])
  }

  /** Children `s` and `s + 1` are dealt out anew, half and half by count, with
      the separator `sep` between them; no page is taken or given back, and no
      underflow reported.  Any of the three nodes may overflow its page. */
  ghost predicate DealtOut(d: Deleted, id: PageId, keys: seq<Bytes>, kids: seq<Node>, s: nat, l: Node, sep: Bytes, r: Node,
                           fits: bool, av: seq<PageId>)
    requires |kids| == |keys| + 1 && s < |keys|
  {
    var keys' := keys[..s] + [sep] + keys[s + 1..];
    d == if !fits || UsedKeys(keys') > 4062 then NotDeleted(Panic)
         else Deleted(Inner(id, keys', kids[..s] + [l, r] + kids[s + 2..]), false, av)
  }
}
