/** Prefix scans: the loop with which `event/store.go` and `graph/neighbors.go`
    read a cursor, and the scan of a sorted list of cells that it stands for. */
module Scans {
  import opened Bytes
  import opened TreeModel
  import opened TreeView
  import opened TreeOps
  import opened LeafList
  import opened ReadFacts
  import opened BTree
  import opened Cursors
  import opened StoreFacts

  // ---------- lists ----------

  /** The cells that start with `p`, up to the first one that does not. */
  function Head(cells: seq<Cell>, p: Bytes): seq<Cell> {
    cells[..ScanEnd(cells, p, 0)]
  }

  lemma HeadIs(cells: seq<Cell>, p: Bytes, k: nat)
    requires k <= |cells| && (forall i :: 0 <= i < k ==> p <= cells[i].key)
    requires k == |cells| || !(p <= cells[k].key)
    ensures Head(cells, p) == cells[..k]
  {
  }

  /** A scan is the head of what comes from the slot of the prefix on. */
  lemma HeadIsScan(cells: seq<Cell>, p: Bytes)
    ensures Head(cells[Slot(cells, p)..], p) == Scan(cells, p)
  {
    hide Slot;
    var a := Slot(cells, p);
    var b := ScanEnd(cells, p, a);
    HeadIs(cells[a..], p, b - a);
    assert cells[a..][..b - a] == cells[a..b];
  }

  lemma SameCell(cells: seq<Cell>, i: nat, j: nat)
    requires Sorted(cells) && i < |cells| && j < |cells| && cells[i] == cells[j]
    ensures i == j
  {
    hide Rank;
  }

  lemma BeforeEnd(cells: seq<Cell>, p: Bytes, k: nat)
    requires Sorted(cells) && k < |cells| - Slot(cells, p) && p <= cells[Slot(cells, p)..][k].key
    ensures k < ScanEnd(cells[Slot(cells, p)..], p, 0)
  {
    hide *;
    var a := Slot(cells, p);
    var c := cells[a + k];
    assert cells[a..][k] == c && c in cells;
    HeadIsScan(cells, p);
    ScanIsExact(cells, p);
    assert c in Head(cells[a..], p);
    var i := InHead(cells[a..], p, c);
    SameCell(cells, a + i, a + k);
  }

  lemma InHead(cells: seq<Cell>, p: Bytes, c: Cell) returns (i: nat)
    requires c in Head(cells, p)
    ensures i < ScanEnd(cells, p, 0) && cells[i] == c
  {
    hide ScanEnd;
    i :| 0 <= i < |Head(cells, p)| && Head(cells, p)[i] == c;
  }

  /** A shorter list has the same head exactly when no cell that starts with the
      prefix is cut off. */
  lemma CutHead(cells: seq<Cell>, p: Bytes, n: nat)
    requires Sorted(cells) && n <= |cells| - Slot(cells, p)
    ensures var tail := cells[Slot(cells, p)..];
            Head(tail[..n], p) == Scan(cells, p) <==> forall k :: n <= k < |tail| ==> !(p <= tail[k].key)
  {
    hide Slot, Rank;
    var a := Slot(cells, p);
    var tail := cells[a..];
    var e := ScanEnd(tail, p, 0);
    HeadIsScan(cells, p);
    forall k | 0 <= k < |tail| && p <= tail[k].key ensures k < e {
      BeforeEnd(cells, p, k);
    }
    if e <= n {
      HeadIs(tail[..n], p, e);
      assert tail[..n][..e] == tail[..e];
    } else {
      assert p <= tail[n].key;
    }
  }

  // ---------- leaves ----------

  /** A cell that starts with `p` lies in a leaf after an empty one. */
  ghost predicate Hides(leaves: seq<Node>, p: Bytes)
    requires AllLeaves(leaves)
  {
    exists a, b, c :: 0 <= a < b < |leaves| && leaves[a].cells == [] && c in leaves[b].cells && p <= c.key
  }

  lemma {:induction false} InFlatten(leaves: seq<Node>, c: Cell)
    requires AllLeaves(leaves)
    ensures c in Flatten(leaves) <==> exists b :: 0 <= b < |leaves| && c in leaves[b].cells
  {
    if leaves != [] {
      InFlatten(leaves[1..], c);
      if c in Flatten(leaves[1..]) {
        var b :| 0 <= b < |leaves[1..]| && c in leaves[1..][b].cells;
        assert c in leaves[b + 1].cells;
      }
      if b :| 0 < b < |leaves| && c in leaves[b].cells {
        assert leaves[1..][b - 1] == leaves[b];
      }
    }
  }

  lemma HidesTail(leaves: seq<Node>, p: Bytes)
    requires AllLeaves(leaves) && leaves != [] && leaves[0].cells != []
    ensures Hides(leaves, p) <==> Hides(leaves[1..], p)
  {
    var rest := leaves[1..];
    assert forall i :: 0 <= i < |rest| ==> rest[i] == leaves[i + 1];
    if Hides(leaves, p) {
      var a, b, c :| 0 <= a < b < |leaves| && leaves[a].cells == [] && c in leaves[b].cells && p <= c.key;
      assert rest[a - 1].cells == [] && c in rest[b - 1].cells;
    }
    if Hides(rest, p) {
      var a, b, c :| 0 <= a < b < |rest| && rest[a].cells == [] && c in rest[b].cells && p <= c.key;
      assert leaves[a + 1].cells == [] && c in leaves[b + 1].cells;
    }
  }

  ghost predicate SomeFrom(cells: seq<Cell>, n: nat, p: Bytes) {
    exists k :: n <= k < |cells| && p <= cells[k].key
  }

  lemma SomeShifted(a: seq<Cell>, cells: seq<Cell>, n: nat, p: Bytes)
    ensures SomeFrom(a + cells, |a| + n, p) <==> SomeFrom(cells, n, p)
  {
    if SomeFrom(a + cells, |a| + n, p) {
      var k :| |a| + n <= k < |a + cells| && p <= (a + cells)[k].key;
      assert (a + cells)[k] == cells[k - |a|];
    }
    if SomeFrom(cells, n, p) {
      var k :| n <= k < |cells| && p <= cells[k].key;
      assert (a + cells)[|a| + k] == cells[k];
    }
  }

  /** What is seen of some leaves is the beginning of all their cells, and cuts
      off a cell that starts with `p` exactly when an empty leaf hides one. */
  lemma {:induction false} SeenPart(leaves: seq<Node>, p: Bytes)
    requires AllLeaves(leaves)
    ensures Visible(leaves) <= Flatten(leaves)
    ensures SomeFrom(Flatten(leaves), |Visible(leaves)|, p) <==> Hides(leaves, p)
  {
    if leaves != [] {
      var first, rest := leaves[0].cells, leaves[1..];
      if first == [] {
        AllHidden(leaves, p);
      } else {
        SeenPart(rest, p);
        HidesTail(leaves, p);
        SomeShifted(first, Flatten(rest), |Visible(rest)|, p);
      }
    }
  }

  lemma AllHidden(leaves: seq<Node>, p: Bytes)
    requires AllLeaves(leaves) && leaves != [] && leaves[0].cells == []
    ensures SomeFrom(Flatten(leaves), 0, p) <==> Hides(leaves, p)
  {
    if SomeFrom(Flatten(leaves), 0, p) {
      var k :| 0 <= k < |Flatten(leaves)| && p <= Flatten(leaves)[k].key;
      var c := Flatten(leaves)[k];
      InFlatten(leaves, c);
      var b :| 0 <= b < |leaves| && c in leaves[b].cells;
      assert 0 < b && leaves[0].cells == [];
    }
    if Hides(leaves, p) {
      var a, b, c :| 0 <= a < b < |leaves| && leaves[a].cells == [] && c in leaves[b].cells && p <= c.key;
      InFlatten(leaves, c);
      var k :| 0 <= k < |Flatten(leaves)| && Flatten(leaves)[k] == c;
    }
  }

  // ---------- trees ----------

  /** No empty leaf stands between the place of `p` and a key that starts with
      it. */
  ghost predicate InSight(t: Shape, p: Bytes)
    requires ShapedTree(t) && AllLeaves(AllOf(t))
  {
    t.Root? && LeafIndex(t.node, t.height, p) < |AllOf(t)| ==> !Hides(AllOf(t)[LeafIndex(t.node, t.height, p) + 1..], p)
  }

  /** The walk from `Seek(p)` while keys start with `p` is the scan of the whole
      tree's cells for `p` if and only if no empty leaf hides a key of it. */
  lemma WalkIsScan(t: Shape, p: Bytes)
    requires WellFormed(t)
    ensures AllLeaves(AllOf(t)) && Sorted(TreeCells(t))
    ensures Head(SeekView(t, p), p) == Scan(TreeCells(t), p) <==> InSight(t, p)
  {
    hide *;
    TreeSorted(t);
    if t.Empty? {
      EmptyScan(t, p);
    } else {
      var all, view, rest := TreeCells(t), SeekView(t, p), AfterSeek(t, p);
      SeekTail(t, p);
      SeenPart(rest, p);
      CutHead(all, p, |view|);
      ViewCut(all, p, view, rest);
    }
  }

  lemma TreeSorted(t: Shape)
    requires WellFormed(t)
    ensures AllLeaves(AllOf(t)) && Sorted(TreeCells(t)) && ShapedTree(t)
  {
    FirstSeesAll(t);
    hide Sorted, AllLeaves, AllOf, TreeCells, Ordered, Chained, Fits;
  }

  lemma EmptyScan(t: Shape, p: Bytes)
    requires WellFormed(t) && t.Empty? && AllLeaves(AllOf(t))
    ensures Head(SeekView(t, p), p) == Scan(TreeCells(t), p) && InSight(t, p)
  {
  }

  /** The leaves after the one that the search for `p` ends in. */
  ghost function AfterSeek(t: Shape, p: Bytes): seq<Node>
    requires ShapedTree(t) && AllLeaves(AllOf(t))
  {
    if t.Root? && LeafIndex(t.node, t.height, p) < |AllOf(t)| then AllOf(t)[LeafIndex(t.node, t.height, p) + 1..] else []
  }

  lemma SeekTail(t: Shape, p: Bytes)
    requires WellFormed(t) && t.Root? && AllLeaves(AllOf(t))
    ensures AllLeaves(AfterSeek(t, p))
    ensures InSight(t, p) <==> !Hides(AfterSeek(t, p), p)
    ensures exists own: seq<Cell> ::
              && SeekView(t, p) == own + Visible(AfterSeek(t, p))
              && TreeCells(t)[Slot(TreeCells(t), p)..] == own + Flatten(AfterSeek(t, p))
  {
    hide Rank, Slot, Ordered, Chained, Fits, Leaves, LeafIndex, Flatten, Visible, Sorted, HasKeyAt, Hides;
    var ls, j := AllOf(t), LeafIndex(t.node, t.height, p);
    LeafHasKey(t.node, t.height, p, 0.0, 1.0);
    var own := ls[j].cells[Slot(ls[j].cells, p)..];
    assert SeekView(t, p) == own + Visible(AfterSeek(t, p));
  }

  lemma ViewCut(all: seq<Cell>, p: Bytes, view: seq<Cell>, rest: seq<Node>)
    requires AllLeaves(rest) && Visible(rest) <= Flatten(rest)
    requires exists own: seq<Cell> :: view == own + Visible(rest) && all[Slot(all, p)..] == own + Flatten(rest)
    ensures var tail := all[Slot(all, p)..];
            && |view| <= |tail| && tail[..|view|] == view
            && (SomeFrom(tail, |view|, p) <==> SomeFrom(Flatten(rest), |Visible(rest)|, p))
            && (SomeFrom(tail, |view|, p) <==> !forall k :: |view| <= k < |tail| ==> !(p <= tail[k].key))
  {
    hide Slot, Flatten, Visible;
    var own :| view == own + Visible(rest) && all[Slot(all, p)..] == own + Flatten(rest);
    SomeShifted(own, Flatten(rest), |Visible(rest)|, p);
  }

  /** Walk and scan have the same cells as far as both go. */
  lemma WalkAlongScan(t: Shape, p: Bytes)
    requires WellFormed(t) && AllLeaves(AllOf(t))
    ensures |Head(SeekView(t, p), p)| == |Scan(TreeCells(t), p)| ==> Head(SeekView(t, p), p) == Scan(TreeCells(t), p)
  {
    hide *;
    TreeSorted(t);
    if t.Empty? {
      EmptyScan(t, p);
    } else {
      var all, view, rest := TreeCells(t), SeekView(t, p), AfterSeek(t, p);
      SeekTail(t, p);
      SeenPart(rest, p);
      ViewCut(all, p, view, rest);
      HeadIsScan(all, p);
      HeadsAgree(all[Slot(all, p)..], |view|, p);
    }
  }

  lemma HeadsAgree(tail: seq<Cell>, n: nat, p: Bytes)
    requires n <= |tail|
    ensures |Head(tail[..n], p)| == |Head(tail, p)| ==> Head(tail[..n], p) == Head(tail, p)
  {
  }

  // ---------- the loop ----------

  /** The values of cells, as they are read. */
  function ValuesOf(cells: seq<Cell>): (vals: seq<Bytes>)
    ensures |vals| == |cells|
  {
    seq(|cells|, i requires 0 <= i < |cells| => AsRead(cells[i].val))
  }

  /** Part of a walk: the first `k` cells of `view` start with `p` and have been
      yielded, and the cursor stands before the others. */
  ghost predicate Walked(view: seq<Cell>, p: Bytes, k: nat, rest: seq<Cell>, keys: seq<Bytes>, vals: seq<Bytes>) {
    && k <= |view| && rest == view[k..]
    && keys == KeysOf(view[..k]) && vals == ValuesOf(view[..k])
    && forall i :: 0 <= i < k ==> p <= view[i].key
  }

  lemma NoneWalked(view: seq<Cell>, p: Bytes)
    ensures Walked(view, p, 0, view, [], [])
  {
  }

  lemma TreeOfCursor(c: Cursor)
    requires c.Positioned()
    ensures WellFormed(c.tree.shape) && ShapedTree(c.tree.shape) && AllLeaves(AllOf(c.tree.shape))
  {
  }

  lemma WalkedOne(view: seq<Cell>, p: Bytes, k: nat, rest: seq<Cell>, keys: seq<Bytes>, vals: seq<Bytes>)
    requires Walked(view, p, k, rest, keys, vals) && rest != [] && p <= rest[0].key
    ensures k < |view| && Walked(view, p, k + 1, rest[1..], keys + [rest[0].key], vals + [AsRead(rest[0].val)])
  {
    hide AsRead;
    assert view[..k + 1] == view[..k] + [view[k]];
  }

  lemma WalkedAll(view: seq<Cell>, p: Bytes, k: nat, rest: seq<Cell>, keys: seq<Bytes>, vals: seq<Bytes>)
    requires Walked(view, p, k, rest, keys, vals) && (rest == [] || !(p <= rest[0].key))
    ensures keys == KeysOf(Head(view, p)) && vals == ValuesOf(Head(view, p))
  {
    hide AsRead;
    HeadIs(view, p, k);
  }

  lemma SameHead(a: seq<Cell>, b: seq<Cell>)
    requires |a| == |b| ==> a == b
    ensures KeysOf(a) == KeysOf(b) <==> a == b
  {
    assert a != b ==> |KeysOf(a)| != |KeysOf(b)|;
  }

  /** Seeks a prefix and reads on while keys start with it.  The keys and values
      are those of the tree's cells with that prefix, in order and all of them,
      if and only if no empty leaf hides one. */
  method ScanPrefix(c: Cursor, p: Bytes) returns (keys: seq<Bytes>, vals: seq<Bytes>)
    requires c.Positioned()
    modifies c
    ensures c.Positioned()
    ensures keys == KeysOf(Head(SeekView(c.tree.shape, p), p)) && vals == ValuesOf(Head(SeekView(c.tree.shape, p), p))
    ensures keys == KeysOf(Scan(TreeCells(c.tree.shape), p)) <==> InSight(c.tree.shape, p)
  {
    hide *;
    ghost var t := c.tree.shape;
    TreeOfCursor(c);
    ghost var view, k := SeekView(t, p), 0;
    var more := c.Seek(p);
    keys, vals := [], [];
    RestValid(c);
    NoneWalked(view, p);
    while more
      invariant c.Positioned() && more == c.valid && more == (c.Rest() != [])
      invariant Walked(view, p, k, c.Rest(), keys, vals)
      decreases |c.Rest()|
    {
      var key := c.Key();
      if !(p <= key) {
        break;
      }
      var val := c.Value();
      WalkedOne(view, p, k, c.Rest(), keys, vals);
      keys, vals, k := keys + [key], vals + [val], k + 1;
      more := c.Next();
      RestValid(c);
    }
    WalkedAll(view, p, k, c.Rest(), keys, vals);
    WalkIsScan(t, p);
    WalkAlongScan(t, p);
    SameHead(Head(view, p), Scan(TreeCells(t), p));
  }
}
