/** Runs that never delete, as those of an event store: no leaf is ever empty, so
    that cursors see every key, whatever the sizes of keys and values. */
module PutRuns {
  import opened Bytes
  import opened TreeModel
  import opened TreeView
  import opened TreeSurgery
  import opened TreeInsert
  import opened TreeOps
  import opened TreePacked
  import opened TreeRoom
  import opened LeafList
  import opened ReadFacts
  import opened Runs
  import opened Cursors
  import opened StoreFacts
  import opened Scans

  // ---------- no leaf is emptied ----------

  /** No leaf at all is empty, not even a root. */
  ghost predicate Peopled(t: Shape) {
    t.Root? ==> NoEmptyLeaf(t.node)
  }

  ghost predicate PeopledResult(r: Inserted) {
    r.Inserted? ==> NoEmptyLeaf(r.node) && (r.right.Some? ==> NoEmptyLeaf(r.right.value.1))
  }

  lemma SplitPeopled(n: Node, av: seq<PageId>)
    requires n.Leaf? && |n.cells| >= 2
    ensures PeopledResult(SplitLeaf(n, av))
  {
    hide Used;
  }

  lemma LeafPeopled(n: Node, key: Bytes, val: Bytes, av: seq<PageId>)
    requires n.Leaf? && |key| <= MAX_KEY_SIZE && ChainLen(val) <= |av|
    ensures PeopledResult(InsertLeaf(n, key, val, av))
  {
    hide *;
    var c := NewCell(key, val, av);
    NewCellIs(key, val, av);
    var left := InsertLeafIs(n, key, val, av);
    var all := PutCell(n.cells, c);
    if Used(all) > MAX_CELL_AREA {
      TooManyForOne(n, c);
      SplitPeopled(Leaf(n.id, all, n.next), left);
    } else {
      WholePeopled(Leaf(n.id, all, n.next), left);
    }
  }

  lemma WholePeopled(n: Node, av: seq<PageId>)
    requires n.Leaf? && n.cells != []
    ensures PeopledResult(Inserted(n, None, av))
  {
  }

  lemma TooManyForOne(n: Node, c: Cell)
    requires n.Leaf? && |c.key| <= MAX_KEY_SIZE && Used(PutCell(n.cells, c)) > MAX_CELL_AREA
    ensures |PutCell(n.cells, c)| >= 2
  {
    WithCellIsPut(n, c);
    UsedInsertAt(RestCells(n.cells, c.key), Slot(n.cells, c.key), c);
    hide Used, Slot, RestCells, CellSize, Rank;
    SplitHasTwo(n, c);
  }

  lemma AbsorbPeopled(n: Node, i: nat, r: Inserted)
    requires n.Inner? && |n.kids| == |n.keys| + 1 && i < |n.kids| && NoEmptyLeaf(n) && r.Inserted? && PeopledResult(r)
    ensures PeopledResult(Absorb(n, i, r))
  {
    AbsorbUnfold(n, i, r);
    hide Absorb, UsedKeys, KeySlot;
    match r.right
    case None =>
    case Some((sep, right)) =>
      ExpandPeopled(n, i, KeySlot(n.keys, sep), r.node, sep, right);
      SplitInnerPeopled(Expand(n, i, KeySlot(n.keys, sep), r.node, sep, right), r.av);
  }

  lemma ExpandPeopled(n: Node, i: nat, j: nat, l: Node, sep: Bytes, r: Node)
    requires n.Inner? && |n.kids| == |n.keys| + 1 && i < |n.kids| && j <= |n.keys|
    requires NoEmptyLeaf(n) && NoEmptyLeaf(l) && NoEmptyLeaf(r)
    ensures NoEmptyLeaf(Expand(n, i, j, l, sep, r))
  {
    var kids := n.kids[i := l];
    var more := InsertAt(kids, j + 1, r);
    forall k | 0 <= k < |more| ensures NoEmptyLeaf(more[k]) {
      assert more[k] == if k <= j then kids[k] else if k == j + 1 then r else kids[k - 1];
    }
  }

  lemma SplitInnerPeopled(n: Node, av: seq<PageId>)
    requires n.Inner? && |n.kids| == |n.keys| + 1 && |n.keys| > 0 && NoEmptyLeaf(n)
    ensures PeopledResult(SplitInner(n, av)) && PeopledResult(Inserted(n, None, av))
  {
    hide UsedKeys;
  }

  lemma {:induction false} InsertPeopled(n: Node, h: nat, key: Bytes, val: Bytes, av: seq<PageId>)
    requires Shaped(n, h) && |key| <= MAX_KEY_SIZE && (n.Inner? ==> NoEmptyLeaf(n))
    ensures PeopledResult(Insert(n, h, key, val, av))
    decreases h
  {
    hide *;
    if n.Leaf? {
      InsertIntoLeaf(n, h, key, val, av);
      LeafOrNoPages(n, key, val, av);
      if ChainLen(val) <= |av| {
        LeafPeopled(n, key, val, av);
      } else {
        NothingPeopled(NoPages);
      }
    } else {
      InsertInner(n, h, key, val, av);
      var i := Route(n.keys, key);
      KidPeopled(n, i);
      InsertPeopled(n.kids[i], h - 1, key, val, av);
      var r := Insert(n.kids[i], h - 1, key, val, av);
      if r.Inserted? {
        AbsorbPeopled(n, i, r);
      }
    }
  }

  lemma NothingPeopled(s: Status)
    ensures PeopledResult(NotInserted(s))
  {
  }

  lemma KidPeopled(n: Node, i: nat)
    requires n.Inner? && NoEmptyLeaf(n) && i < |n.kids|
    ensures NoEmptyLeaf(n.kids[i])
  {
  }

  lemma StartPeopled(t: Shape, av: seq<PageId>)
    requires ShapedTree(t) && Peopled(t) && (t.Empty? ==> av != [])
    ensures Shaped(StartRoot(t, av), Height(t)) && (StartRoot(t, av).Inner? ==> NoEmptyLeaf(StartRoot(t, av)))
  {
  }

  lemma InsertFails(n: Node, h: nat, key: Bytes, val: Bytes, av: seq<PageId>)
    requires Shaped(n, h)
    ensures Insert(n, h, key, val, av).NotInserted? ==> !Usable(Insert(n, h, key, val, av).status)
  {
    InsertRoom(n, h, key, val, av);
    hide Insert, SomeBurst, Rising, Spare, NewCell;
  }

  lemma FinishPeopled(t: Shape, h: nat, r: Inserted, av: seq<PageId>)
    requires PeopledResult(r) && (r.NotInserted? ==> !Usable(r.status))
    ensures Finish(t, h, r, av).status == Done ==> r.Inserted? && Peopled(Finish(t, h, r, av).tree)
    ensures r.NotInserted? ==> Finish(t, h, r, av).status == r.status
  {
  }

  lemma PutPeopled(t: Shape, key: Bytes, val: Bytes, av: seq<PageId>)
    requires WellFormed(t) && Peopled(t)
    ensures ShapedTree(t)
    ensures var o := Put(t, key, val, av); Usable(o.status) ==> Peopled(o.tree)
  {
    PutCorrect(t, key, val, av);
    PutRefused(t, key, val, av);
    hide *;
    PutIs(t, key, val, av);
    if key != [] && |key| <= MAX_KEY_SIZE && !(t.Empty? && av == []) {
      var n, h, pages := StartRoot(t, av), Height(t), StartPages(t, av);
      StartPeopled(t, av);
      InsertPeopled(n, h, key, val, pages);
      InsertFails(n, h, key, val, pages);
      FinishPeopled(t, h, Insert(n, h, key, val, pages), av);
    }
  }

  /** A refused key changes nothing. */
  lemma PutRefused(t: Shape, key: Bytes, val: Bytes, av: seq<PageId>)
    requires ShapedTree(t)
    ensures var o := Put(t, key, val, av);
            && (key == [] || |key| > MAX_KEY_SIZE ==> o.tree == t && (o.status == EmptyKey || o.status == KeyTooLarge))
            && (Usable(o.status) && key != [] && |key| <= MAX_KEY_SIZE ==> o.status == Done)
  {
    hide Insert;
    if key != [] && |key| <= MAX_KEY_SIZE && (t.Empty? ==> av != []) {
      InsertFails(StartRoot(t, av), Height(t), key, val, StartPages(t, av));
    }
  }

  // ---------- trees and lists of cells ----------

  /** Cells without the pages of their values. */
  function Bare(cells: seq<Cell>): (r: seq<Cell>)
    ensures |r| == |cells|
    ensures forall i :: 0 <= i < |r| ==> r[i] == Cell(cells[i].key, cells[i].val, [])
  {
    seq(|cells|, i requires 0 <= i < |cells| => Cell(cells[i].key, cells[i].val, []))
  }

  lemma {:induction false} SlotBare(cells: seq<Cell>, key: Bytes)
    ensures Slot(Bare(cells), key) == Slot(cells, key)
    ensures forall i: nat :: HasKeyAt(Bare(cells), i, key) == HasKeyAt(cells, i, key)
  {
    hide Rank;
    if cells != [] {
      SlotBare(cells[1..], key);
      assert Bare(cells)[1..] == Bare(cells[1..]);
    }
  }

  lemma PutBare(cells: seq<Cell>, c: Cell)
    ensures Bare(PutCell(cells, c)) == PutCell(Bare(cells), Cell(c.key, c.val, []))
  {
    SlotBare(cells, c.key);
    hide Slot;
    var i, d := Slot(cells, c.key), Cell(c.key, c.val, []);
    if HasKeyAt(cells, i, c.key) {
      assert Bare(cells[i := c]) == Bare(cells)[i := d];
    } else {
      assert Bare(InsertAt(cells, i, c)) == InsertAt(Bare(cells), i, d);
    }
  }

  lemma DropBare(cells: seq<Cell>, key: Bytes)
    ensures Bare(DropCell(cells, key)) == DropCell(Bare(cells), key)
  {
    SlotBare(cells, key);
    hide Slot;
    var i := Slot(cells, key);
    if HasKeyAt(cells, i, key) {
      assert Bare(RemoveAt(cells, i)) == RemoveAt(Bare(cells), i);
    }
  }

  lemma ScanBare(cells: seq<Cell>, p: Bytes)
    ensures Bare(Scan(cells, p)) == Scan(Bare(cells), p)
  {
    SlotBare(cells, p);
    hide Slot;
    var a := Slot(cells, p);
    var b := ScanEnd(cells, p, a);
    ScanEndBare(cells, p, a);
    assert Bare(cells)[a..b] == Bare(cells[a..b]);
  }

  lemma {:induction false} ScanEndBare(cells: seq<Cell>, p: Bytes, i: nat)
    requires i <= |cells|
    ensures ScanEnd(Bare(cells), p, i) == ScanEnd(cells, p, i)
    decreases |cells| - i
  {
    if i < |cells| && p <= cells[i].key {
      ScanEndBare(cells, p, i + 1);
    }
  }

  /** What an operation does to a list of cells, as the event store keeps one. */
  function StoredStep(cells: seq<Cell>, op: Op): seq<Cell> {
    match op
    case PutOp(key, val) => if key == [] || |key| > MAX_KEY_SIZE then cells else PutCell(cells, Cell(key, val, []))
    case DeleteOp(key) => if key == [] then cells else DropCell(cells, key)
    case ReorderOp(_) => cells
  }

  function Stored(cells: seq<Cell>, ops: seq<Op>): seq<Cell>
    decreases |ops|
  {
    if ops == [] then cells else Stored(StoredStep(cells, ops[0]), ops[1..])
  }

  lemma PutStored(t: Shape, key: Bytes, val: Bytes, av: seq<PageId>)
    requires WellFormed(t)
    ensures ShapedTree(t)
    ensures var o := Put(t, key, val, av);
            Usable(o.status) ==> Bare(TreeCells(o.tree)) == StoredStep(Bare(TreeCells(t)), PutOp(key, val))
  {
    PutRefused(t, key, val, av);
    hide Put, WellFormed, PutCell, NewCell, TreeCells, Bare, ChainLen;
    if Put(t, key, val, av).status == Done {
      PutCorrect(t, key, val, av);
      PutDone(t, key, val, av);
      var c := NewCell(key, val, StartPages(t, av));
      NewCellIs(key, val, StartPages(t, av));
      PutBare(TreeCells(t), c);
    }
  }

  lemma RemoveStored(t: Shape, key: Bytes, av: seq<PageId>)
    requires WellFormed(t)
    ensures ShapedTree(t)
    ensures var o := Remove(t, key, av);
            Usable(o.status) ==> Bare(TreeCells(o.tree)) == StoredStep(Bare(TreeCells(t)), DeleteOp(key))
  {
    RemoveCorrect(t, key, av);
    RemoveRefused(t, key, av);
    hide Remove, WellFormed, TreeCells, Bare;
    DropBare(TreeCells(t), key);
  }

  /** Removing an absent key changes nothing; nor does dropping it. */
  lemma RemoveRefused(t: Shape, key: Bytes, av: seq<PageId>)
    requires WellFormed(t)
    ensures ShapedTree(t)
    ensures var o := Remove(t, key, av);
            Usable(o.status) && o.status != Done ==> o.tree == t && (key == [] || DropCell(TreeCells(t), key) == TreeCells(t))
  {
    TreeSorted(t);
    RemoveCorrect(t, key, av);
    RemoveStops(t, key, av);
    SlotContents(TreeCells(t), key);
    hide Remove, WellFormed, Slot, TreeCells, Rank;
  }

  lemma RemoveStops(t: Shape, key: Bytes, av: seq<PageId>)
    requires ShapedTree(t)
    ensures var o := Remove(t, key, av);
            o.status == EmptyKey || o.status == KeyNotFound ==> o.tree == t
  {
    hide Delete;
  }

  lemma StepStored(o: Outcome, op: Op)
    requires WellFormed(o.tree)
    ensures ShapedTree(o.tree)
    ensures Usable(Step(o, op).status) ==> Bare(TreeCells(Step(o, op).tree)) == StoredStep(Bare(TreeCells(o.tree)), op)
  {
    TreeSorted(o.tree);
    hide Put, Remove, WellFormed, TreeCells, Bare, StoredStep;
    match op
    case PutOp(key, val) =>
      PutStored(o.tree, key, val, o.av);
    case DeleteOp(key) =>
      RemoveStored(o.tree, key, o.av);
    case ReorderOp(_) =>
  }

  /** Whatever its operations, a run of the tree does to its cells in key order
      what the same run does to a sorted list. */
  lemma {:induction false} RunIsListRun(o: Outcome, ops: seq<Op>)
    requires WellFormed(o.tree) && Usable(o.status)
    ensures var r := Run(o, ops);
            Usable(r.status) ==> Bare(TreeCells(r.tree)) == Stored(Bare(TreeCells(o.tree)), ops)
    decreases |ops|
  {
    hide Bare, TreeCells, StoredStep, Step;
    if ops != [] {
      StepStored(o, ops[0]);
      StepCorrect(o, ops[0]);
      hide WellFormed;
      var o' := Step(o, ops[0]);
      if Usable(o'.status) {
        RunIsListRun(o', ops[1..]);
      }
    }
  }

  // ---------- runs that never delete ----------

  lemma StepPeopled(o: Outcome, op: Op)
    requires WellFormed(o.tree) && Peopled(o.tree) && !op.DeleteOp?
    ensures ShapedTree(o.tree)
    ensures Usable(Step(o, op).status) ==> Peopled(Step(o, op).tree)
  {
    TreeSorted(o.tree);
    hide Put, WellFormed, Peopled;
    match op
    case PutOp(key, val) =>
      PutPeopled(o.tree, key, val, o.av);
    case ReorderOp(_) =>
  }

  lemma {:induction false} RunPeopled(o: Outcome, ops: seq<Op>)
    requires WellFormed(o.tree) && Peopled(o.tree) && Usable(o.status) && forall op :: op in ops ==> !op.DeleteOp?
    ensures Usable(Run(o, ops).status) ==> Peopled(Run(o, ops).tree)
    decreases |ops|
  {
    hide Peopled, Step;
    if ops != [] {
      assert ops[0] in ops;
      StepPeopled(o, ops[0]);
      StepCorrect(o, ops[0]);
      hide WellFormed;
      var o' := Step(o, ops[0]);
      if Usable(o'.status) {
        RunPeopled(o', ops[1..]);
      }
    }
  }

  /** In a tree without empty leaves every walk and every scan is exact. */
  lemma PeopledIsExact(t: Shape, p: Bytes)
    requires WellFormed(t) && Peopled(t)
    ensures AllLeaves(AllOf(t)) && ShapedTree(t)
    ensures Visible(AllOf(t)) == TreeCells(t) && InSight(t, p) && Head(SeekView(t, p), p) == Scan(TreeCells(t), p)
  {
    TreeSorted(t);
    WalkIsScan(t, p);
    hide *;
    if t.Empty? {
      EmptyScan(t, p);
      EmptyVisible(t);
    } else {
      PeopledRoot(t);
      CursorsAreExact(t, p);
      HeadIsScan(TreeCells(t), p);
    }
  }

  lemma EmptyVisible(t: Shape)
    requires t.Empty? && AllLeaves(AllOf(t))
    ensures Visible(AllOf(t)) == TreeCells(t)
  {
  }

  lemma PeopledRoot(t: Shape)
    requires t.Root? && Peopled(t)
    ensures NoEmptyLeaf(t.node)
  {
  }

  lemma NewTree(av: seq<PageId>)
    ensures WellFormed(Empty) && Peopled(Empty) && Usable(Done) && Bare(TreeCells(Empty)) == []
  {
  }

  /** After any run of puts on a new tree, with keys and values of any sizes, a
      cursor sees every key, and from `Seek(p)` on, while keys start with `p`,
      it yields exactly the scan of the list that the same puts make. */
  lemma PutRunsAreExact(av: seq<PageId>, ops: seq<Op>, p: Bytes)
    requires forall op :: op in ops ==> !op.DeleteOp?
    ensures WellFormed(Empty)
    ensures var r := Run(Outcome(Done, Empty, av), ops);
            Usable(r.status) ==>
              && AllLeaves(AllOf(r.tree)) && ShapedTree(r.tree)
              && Visible(AllOf(r.tree)) == TreeCells(r.tree) && Bare(TreeCells(r.tree)) == Stored([], ops)
              && Bare(Head(SeekView(r.tree, p), p)) == Scan(Stored([], ops), p)
  {
    hide *;
    NewTree(av);
    var o := Outcome(Done, Empty, av);
    RunPeopled(o, ops);
    RunIsListRun(o, ops);
    var r := Run(o, ops);
    if Usable(r.status) {
      PeopledIsExact(r.tree, p);
      ScanBare(TreeCells(r.tree), p);
    }
  }
}
