/** Whole runs of `Put` and `Delete`, and two runs that show the limits of the
    tree for keys of different widths. */
module Runs {
  import opened Bytes
  import opened TreeModel
  import opened TreeView
  import opened TreeOps
  import opened LeafList
  import opened ReadFacts
  import opened TreePacked
  import opened TreeUniform
  import opened TreeRoom

  /** An operation on the tree, or the allocator putting its free pages in
      another order, the one in which it will hand them out. */
  datatype Op = PutOp(key: Bytes, val: Bytes) | DeleteOp(key: Bytes) | ReorderOp(av: seq<PageId>)

  ghost predicate SamePages(a: seq<PageId>, b: seq<PageId>) {
    forall p: PageId :: Occ(a, p) == Occ(b, p)
  }

  ghost function Step(o: Outcome, op: Op): Outcome
    requires ShapedTree(o.tree)
  {
    match op
    case PutOp(key, val) => Put(o.tree, key, val, o.av)
    case DeleteOp(key) => Remove(o.tree, key, o.av)
    case ReorderOp(av) => Outcome(Done, o.tree, if SamePages(o.av, av) then av else o.av)
  }

  /** The operations that leave the tree usable: all but those that ran out of
      pages or overflowed one. */
  predicate Usable(s: Status) {
    s != NoPages && s != Panic
  }

  /** A run: the operations one after the other, up to the first that fails for
      want of pages or of room. */
  ghost function Run(o: Outcome, ops: seq<Op>): (r: Outcome)
    requires WellFormed(o.tree)
    ensures Usable(r.status) ==> WellFormed(r.tree)
    decreases |ops|
  {
    if ops == [] || !Usable(o.status) then o
    else
      var o' := Step(o, ops[0]);
      StepCorrect(o, ops[0]);
      if Usable(o'.status) then Run(o', ops[1..]) else o'
  }

  /** What an operation means for the map. */
  function Effect(m: map<Bytes, Bytes>, op: Op): map<Bytes, Bytes> {
    match op
    case PutOp(key, val) => if key == [] || |key| > MAX_KEY_SIZE then m else m[key := val]
    case DeleteOp(key) => if key == [] then m else m - {key}
    case ReorderOp(_) => m
  }

  function Effects(m: map<Bytes, Bytes>, ops: seq<Op>): map<Bytes, Bytes>
    decreases |ops|
  {
    if ops == [] then m else Effects(Effect(m, ops[0]), ops[1..])
  }

  lemma StepCorrect(o: Outcome, op: Op)
    requires WellFormed(o.tree)
    ensures var r := Step(o, op);
            Usable(r.status) ==>
              && WellFormed(r.tree)
              && TreeMap(r.tree) == Effect(TreeMap(o.tree), op)
              && forall p :: TreeUses(r.tree, p) + Occ(r.av, p) == TreeUses(o.tree, p) + Occ(o.av, p)
  {
    hide Insert, Delete, WellFormed, Contents, Uses, Occ, PutOverflows, PutStarves, RemoveOverflows;
    match op
    case PutOp(key, val) =>
      PutCorrect(o.tree, key, val, o.av);
    case DeleteOp(key) =>
      RemoveCorrect(o.tree, key, o.av);
      if key != [] && key !in TreeMap(o.tree) {
        assert TreeMap(o.tree) - {key} == TreeMap(o.tree);
      }
    case ReorderOp(_) =>
  }

  /** Any run of `Put` and `Delete` that does not run out of pages or
      room keeps the tree well formed, acts on its contents as the same
      updates act on a map, and loses or doubles no page; whatever the order in
      which the allocator hands out its pages. */
  lemma {:induction false} RunIsMapRun(o: Outcome, ops: seq<Op>)
    requires WellFormed(o.tree) && Usable(o.status)
    ensures var r := Run(o, ops);
            Usable(r.status) ==>
              && WellFormed(r.tree)
              && TreeMap(r.tree) == Effects(TreeMap(o.tree), ops)
              && forall p :: TreeUses(r.tree, p) + Occ(r.av, p) == TreeUses(o.tree, p) + Occ(o.av, p)
    decreases |ops|
  {
    hide TreeMap, Effect, TreeUses, Occ, Step;
    if ops != [] {
      StepCorrect(o, ops[0]);
      var o' := Step(o, ops[0]);
      hide WellFormed;
      if Usable(o'.status) {
        RunIsMapRun(o', ops[1..]);
      }
    }
  }

  lemma {:induction false} RunConcat(o: Outcome, a: seq<Op>, b: seq<Op>)
    requires WellFormed(o.tree) && Usable(o.status) && Usable(Run(o, a).status)
    ensures Run(o, a + b) == Run(Run(o, a), b)
    decreases |a|
  {
    if a == [] {
      assert a + b == b;
    } else {
      assert (a + b)[1..] == a[1..] + b;
      StepCorrect(o, a[0]);
      RunConcat(Step(o, a[0]), a[1..], b);
    }
  }

  // ---------- runs with fixed-width cells ----------

  /** The operations of the free-page allocator: 8-byte keys, empty values. */
  predicate FixedOp(op: Op) {
    match op
    case PutOp(key, val) => |key| == KEY_WIDTH && val == []
    case DeleteOp(key) => key != []
    case ReorderOp(_) => true
  }

  ghost predicate UsedOnce(o: Outcome) {
    forall p: PageId :: TreeUses(o.tree, p) + Occ(o.av, p) <= 1
  }

  lemma FixedStep(o: Outcome, op: Op)
    requires WellFormed(o.tree) && PackedTree(o.tree) && UsedOnce(o) && FixedOp(op)
    ensures var r := Step(o, op);
            && r.status != Panic
            && (r.status != NoPages ==> WellFormed(r.tree) && PackedTree(r.tree) && UsedOnce(r))
  {
    StepCorrect(o, op);
    hide WellFormed, PackedTree, Occ, TreeMap, Effect;
    match op
    case PutOp(key, val) =>
      hide TreeUses;
      PutPacked(o.tree, key, o.av);
    case DeleteOp(key) =>
      RootInUse(o);
      hide TreeUses;
      RemovePacked(o.tree, key, o.av);
      NotFoundKeepsTree(o.tree, key, o.av);
    case ReorderOp(_) =>
  }

  lemma RootInUse(o: Outcome)
    requires UsedOnce(o)
    ensures o.tree.Root? ==> Uses(o.tree.node, o.tree.node.id) == 1
  {
    hide Occ;
    if o.tree.Root? {
      assert TreeUses(o.tree, o.tree.node.id) <= 1;
    }
  }

  lemma NotFoundKeepsTree(t: Shape, key: Bytes, av: seq<PageId>)
    requires ShapedTree(t)
    ensures Remove(t, key, av).status == KeyNotFound ==> Remove(t, key, av).tree == t
  {
    hide Delete;
  }

  /** Whatever the order of the operations, with fixed-width cells no page ever
      overflows, and every tree on the way is packed: 85 to 338 cells in each
      leaf below the root, 57 to 225 separators in each internal node below it. */
  lemma {:induction false} FixedRunsStayPacked(o: Outcome, ops: seq<Op>)
    requires WellFormed(o.tree) && PackedTree(o.tree) && UsedOnce(o) && Usable(o.status)
    requires forall op :: op in ops ==> FixedOp(op)
    ensures var r := Run(o, ops);
            && r.status != Panic
            && (r.status != NoPages ==> WellFormed(r.tree) && PackedTree(r.tree) && UsedOnce(r))
    decreases |ops|
  {
    hide PackedTree, UsedOnce, FixedOp, Step;
    if ops != [] {
      FixedStep(o, ops[0]);
      StepCorrect(o, ops[0]);
      hide WellFormed;
      var o' := Step(o, ops[0]);
      if Usable(o'.status) {
        FixedRunsStayPacked(o', ops[1..]);
      }
    }
  }

  // ---------- runs with cells of one width ----------

  predicate UniformOp(op: Op, w: Widths) {
    match op
    case PutOp(key, val) => |key| == w.key && StoredWidth(val) == w.val
    case _ => true
  }

  lemma UniformStep(o: Outcome, op: Op, w: Widths)
    requires WellFormed(o.tree) && UniformTree(o.tree, w) && Possible(w) && UniformOp(op, w)
    ensures var r := Step(o, op);
            r.status != Panic && (r.status != NoPages ==> UniformTree(r.tree, w))
  {
    hide UniformTree, WellFormed, Put, Remove, StoredWidth;
    match op
    case PutOp(key, val) =>
      PutUniform(o.tree, key, val, o.av, w);
    case DeleteOp(key) =>
      if key == [] {
        NoKey(o.tree, o.av);
      } else {
        RemoveUniform(o.tree, key, o.av, w);
      }
    case ReorderOp(_) =>
  }

  lemma NoKey(t: Shape, av: seq<PageId>)
    requires WellFormed(t)
    ensures ShapedTree(t)
    ensures Remove(t, [], av) == Outcome(EmptyKey, t, av)
  {
  }

  /** With keys of one width and stored values of one width, whatever they are,
      no run overflows a page. */
  lemma {:induction false} UniformRunsNeverOverflow(o: Outcome, ops: seq<Op>, w: Widths)
    requires WellFormed(o.tree) && UniformTree(o.tree, w) && Possible(w) && Usable(o.status)
    requires forall op :: op in ops ==> UniformOp(op, w)
    ensures var r := Run(o, ops); r.status != Panic && (r.status != NoPages ==> UniformTree(r.tree, w))
    decreases |ops|
  {
    hide UniformTree, UniformOp, Step, Possible;
    if ops != [] {
      UniformStep(o, ops[0], w);
      StepCorrect(o, ops[0]);
      hide WellFormed;
      var o' := Step(o, ops[0]);
      if Usable(o'.status) {
        UniformRunsNeverOverflow(o', ops[1..], w);
      }
    }
  }

  // ---------- two runs with wide keys ----------

  /** A key of `n` bytes, `b` followed by zeros, and cells for it. */
  function Key(b: byte, n: nat): (k: Bytes)
    requires n > 0
    ensures |k| == n && k[0] == b
  {
    seq(n, i requires 0 <= i < n => if i == 0 then b else 0)
  }

  const VALUE: Bytes := [0, 0, 0, 0, 0, 0]

  function Wide(b: byte): (c: Cell)
    ensures CellSize(c) == 2031 && |c.key| == MAX_KEY_SIZE && c.val == VALUE && c.chain == []
  {
    Cell(Key(b, MAX_KEY_SIZE), VALUE, [])
  }

  lemma WideOrder(a: byte, b: byte)
    requires a < b
    ensures Rank(Wide(a).key) < Rank(Wide(b).key) && Wide(a).key != Wide(b).key
  {
    KeyOrder(a, MAX_KEY_SIZE, b, MAX_KEY_SIZE);
  }

  lemma KeyOrder(a: byte, m: nat, b: byte, n: nat)
    requires m > 0 && n > 0
    ensures a < b ==> Rank(Key(a, m)) < Rank(Key(b, n))
  {
    if a < b {
      assert a as real + 1.0 <= b as real;
      assert Rank(Key(a, m)) == (a as real + 1.0 + Rank(Key(a, m)[1..])) / 257.0;
      assert Rank(Key(b, n)) == (b as real + 1.0 + Rank(Key(b, n)[1..])) / 257.0;
    }
  }

  lemma SlotIs(cells: seq<Cell>, key: Bytes, i: nat)
    requires Sorted(cells) && i <= |cells|
    requires i > 0 ==> Rank(cells[i - 1].key) < Rank(key)
    requires i < |cells| ==> Rank(key) <= Rank(cells[i].key)
    ensures Slot(cells, key) == i
  {
    hide Rank, Slot;
    forall j | 0 <= j < i ensures Rank(cells[j].key) < Rank(key) {
      assert j < i - 1 ==> Rank(cells[j].key) < Rank(cells[i - 1].key);
    }
    SlotUnique(cells, key, i);
  }

  /** An insertion at the end of a leaf. */
  lemma InlineInLeaf(n: Node, c: Cell, av: seq<PageId>)
    requires n.Leaf? && Sorted(n.cells) && |c.val| <= OVERFLOW_THRESHOLD && c.chain == []
    requires n.cells != [] ==> Rank(n.cells[|n.cells| - 1].key) < Rank(c.key)
    ensures InsertLeaf(n, c.key, c.val, av) ==
            if Used(n.cells) + CellSize(c) <= MAX_CELL_AREA then Inserted(Leaf(n.id, n.cells + [c], n.next), None, av)
            else SplitLeaf(Leaf(n.id, n.cells + [c], n.next), av)
    ensures Sorted(n.cells + [c])
  {
    hide Rank, Used;
    SlotIs(n.cells, c.key, |n.cells|);
    hide Slot;
    assert TakePages(av, 0) == [] && NewCell(c.key, c.val, av) == c;
    assert av[..|av| - 0] + [] == av;
    assert RestCells(n.cells, c.key) == n.cells;
    assert InsertAt(n.cells, |n.cells|, c) == n.cells + [c];
    assert WithCell(n, c) == Leaf(n.id, n.cells + [c], n.next);
  }

  lemma UsedOne(c: Cell)
    ensures Used([c]) == CellSize(c)
  {
    assert [c][1..] == [] && Used([]) == 0;
  }

  lemma UsedTwo(c: Cell, d: Cell)
    ensures Used([c, d]) == CellSize(c) + CellSize(d)
  {
    assert [c, d][1..] == [d];
    UsedOne(d);
  }

  /** Four wide keys, the second of which is deleted again. */
  function HidingRun(): seq<Op> {
    [PutOp(Wide(1).key, VALUE), PutOp(Wide(2).key, VALUE), PutOp(Wide(3).key, VALUE), PutOp(Wide(4).key, VALUE),
     DeleteOp(Wide(2).key)]
  }

  ghost function After1(): Outcome { Outcome(Done, Root(Leaf(1, [Wide(1)], 0), 0), [5, 4, 3, 2]) }

  ghost function After2(): Outcome { Outcome(Done, Root(Leaf(1, [Wide(1), Wide(2)], 0), 0), [5, 4, 3, 2]) }

  ghost function After3(): Outcome {
    Outcome(Done, Root(Inner(3, [Wide(2).key], [Leaf(1, [Wide(1)], 2), Leaf(2, [Wide(2), Wide(3)], 0)]), 1), [5, 4])
  }

  ghost function After4(): Outcome {
    Outcome(Done, Root(Inner(3, [Wide(2).key, Wide(3).key],
                             [Leaf(1, [Wide(1)], 2), Leaf(2, [Wide(2)], 4), Leaf(4, [Wide(3), Wide(4)], 0)]), 1), [5])
  }

  ghost function After5(): Outcome {
    Outcome(Done, Root(Inner(3, [Wide(2).key, Wide(3).key],
                             [Leaf(1, [Wide(1)], 2), Leaf(2, [], 4), Leaf(4, [Wide(3), Wide(4)], 0)]), 1), [5])
  }

  lemma First()
    ensures Put(Empty, Wide(1).key, VALUE, [5, 4, 3, 2, 1]) == After1()
  {
    var n := Leaf(1, [], 0);
    assert [5, 4, 3, 2, 1][..4] == [5, 4, 3, 2];
    InlineInLeaf(n, Wide(1), [5, 4, 3, 2]);
    assert [] + [Wide(1)] == [Wide(1)];
  }

  lemma Second()
    ensures Put(After1().tree, Wide(2).key, VALUE, After1().av) == After2()
  {
    hide Wide, Rank, CellSize, Used, Sorted, Put, InlineCell, VALUE;
    var n := Leaf(1, [Wide(1)], 0);
    assert After1() == Outcome(Done, Root(n, 0), [5, 4, 3, 2]);
    assert After2() == Outcome(Done, Root(Leaf(1, [Wide(1), Wide(2)], 0), 0), [5, 4, 3, 2]);
    WideOrder(1, 2);
    SortedTwo(Wide(1), Wide(2));
    UsedOne(Wide(1));
    WideIsFine(2);
    assert [Wide(1)] + [Wide(2)] == [Wide(1), Wide(2)];
    PutInline(n, Wide(2), [5, 4, 3, 2]);
  }

  lemma SortedTwo(a: Cell, b: Cell)
    requires Rank(a.key) < Rank(b.key)
    ensures Sorted([a, b])
  {
    hide Rank;
  }

  /** Three wide cells do not fit one page. */
  lemma SplitThree(id: PageId, a: Cell, b: Cell, c: Cell, next: PageId, av: seq<PageId>, right: PageId)
    requires CellSize(a) == CellSize(b) == CellSize(c) == 2031
    ensures SplitLeaf(Leaf(id, [a, b, c], next), av + [right]) ==
            Inserted(Leaf(id, [a], right), Some((b.key, Leaf(right, [b, c], next))), av)
  {
    UsedOne(a);
    UsedTwo(b, c);
    hide Used, CellSize;
    assert [a, b, c][..1] == [a] && [a, b, c][1..] == [b, c];
    assert (av + [right])[..|av|] == av;
  }

  /** Inserting a third wide cell into a leaf of two. */
  lemma ThirdCell(id: PageId, a: Cell, b: Cell, c: Cell, next: PageId, av: seq<PageId>, right: PageId)
    requires CellSize(a) == CellSize(b) == CellSize(c) == 2031
    requires |c.val| <= OVERFLOW_THRESHOLD && c.chain == []
    requires Rank(a.key) < Rank(b.key) < Rank(c.key)
    ensures InsertLeaf(Leaf(id, [a, b], next), c.key, c.val, av + [right]) ==
            Inserted(Leaf(id, [a], right), Some((b.key, Leaf(right, [b, c], next))), av)
  {
    UsedTwo(a, b);
    hide Rank, Used, CellSize, InsertLeaf, SplitLeaf;
    InlineInLeaf(Leaf(id, [a, b], next), c, av + [right]);
    SplitThree(id, a, b, c, next, av, right);
    assert [a, b] + [c] == [a, b, c];
  }

  lemma PutSplitsLeaf(n: Node, key: Bytes, val: Bytes, av: seq<PageId>,
                      l: Node, sep: Bytes, r: Node, rest: seq<PageId>, top: PageId)
    requires n.Leaf? && key != [] && |key| <= MAX_KEY_SIZE && |sep| <= MAX_KEY_SIZE
    requires InsertLeaf(n, key, val, av) == Inserted(l, Some((sep, r)), rest + [top])
    ensures Put(Root(n, 0), key, val, av) == Outcome(Done, Root(Inner(top, [sep], [l, r]), 1), rest)
  {
    hide InsertLeaf;
    assert (rest + [top])[..|rest|] == rest;
  }

  lemma ThirdOf(a: Cell, b: Cell, c: Cell)
    requires InlineCell(a) && InlineCell(b) && InlineCell(c) && CellSize(a) == CellSize(b) == CellSize(c) == 2031
    requires Rank(a.key) < Rank(b.key) < Rank(c.key)
    ensures Put(Root(Leaf(1, [a, b], 0), 0), c.key, c.val, [5, 4, 3, 2]) ==
            Outcome(Done, Root(Inner(3, [b.key], [Leaf(1, [a], 2), Leaf(2, [b, c], 0)]), 1), [5, 4])
    ensures InsertLeaf(Leaf(2, [a, b], 0), c.key, c.val, [5, 4]) ==
            Inserted(Leaf(2, [a], 4), Some((b.key, Leaf(4, [b, c], 0))), [5])
  {
    assert |c.val| <= OVERFLOW_THRESHOLD && c.chain == [];
    assert c.key != [] && |c.key| <= MAX_KEY_SIZE && |b.key| <= MAX_KEY_SIZE;
    hide *;
    ThirdCell(1, a, b, c, 0, [5, 4, 3], 2);
    ThirdCell(2, a, b, c, 0, [5], 4);
    assert [5, 4, 3] + [2] == [5, 4, 3, 2] && [5, 4] + [3] == [5, 4, 3] && [5] + [4] == [5, 4];
    PutSplitsLeaf(Leaf(1, [a, b], 0), c.key, c.val, [5, 4, 3, 2], Leaf(1, [a], 2), b.key, Leaf(2, [b, c], 0), [5, 4], 3);
  }

  lemma Third()
    ensures Put(After2().tree, Wide(3).key, VALUE, After2().av) == After3()
  {
    hide Wide, Rank, CellSize, InlineCell, Put;
    WideIsFine(1);
    WideIsFine(2);
    WideIsFine(3);
    WideOrder(1, 2);
    WideOrder(2, 3);
    ThirdOf(Wide(1), Wide(2), Wide(3));
  }

  lemma FourthSlots()
    ensures Route([Wide(2).key], Wide(4).key) == 1 && KeySlot([Wide(2).key], Wide(3).key) == 1
    ensures UsedKeys([Wide(2).key]) == 2031
  {
    hide Rank, Wide, Route, KeySlot, UsedKeys, Key;
    WideOrder(2, 3);
    WideOrder(2, 4);
    OneSeparator(Wide(2).key, Wide(3).key);
    OneSeparator(Wide(2).key, Wide(4).key);
  }

  lemma OneSeparator(sep: Bytes, key: Bytes)
    requires Rank(sep) < Rank(key)
    ensures Route([sep], key) == 1 && KeySlot([sep], key) == 1 && UsedKeys([sep]) == INNER_CELL_OVERHEAD + |sep|
  {
    SlotAfterOne(sep, key);
    hide *;
    UsedByOne(sep);
  }

  lemma SlotAfterOne(sep: Bytes, key: Bytes)
    requires Rank(sep) < Rank(key)
    ensures Route([sep], key) == 1 && KeySlot([sep], key) == 1
  {
    hide Rank, Route, KeySlot;
    var i, j := Route([sep], key), KeySlot([sep], key);
    assert [sep][0] == sep && i != 0 && j != 0;
  }

  lemma UsedByOne(sep: Bytes)
    ensures UsedKeys([sep]) == INNER_CELL_OVERHEAD + |sep|
  {
    assert [sep][1..] == [];
  }

  lemma PutSplitsKid(n: Node, i: nat, key: Bytes, val: Bytes, av: seq<PageId>, l: Node, sep: Bytes, r: Node, rest: seq<PageId>)
    requires Shaped(n, 1) && i == Route(n.keys, key) && n.kids[i].Leaf?
    requires key != [] && |key| <= MAX_KEY_SIZE
    requires UsedKeys(n.keys) + INNER_CELL_OVERHEAD + |sep| <= MAX_CELL_AREA
    requires InsertLeaf(n.kids[i], key, val, av) == Inserted(l, Some((sep, r)), rest)
    ensures Put(Root(n, 1), key, val, av) ==
            Outcome(Done, Root(Expand(n, i, KeySlot(n.keys, sep), l, sep, r), 1), rest)
  {
    hide InsertLeaf, Expand, Route, KeySlot, UsedKeys, SplitInner;
    assert Insert(n.kids[i], 0, key, val, av) == Inserted(l, Some((sep, r)), rest);
  }

  lemma Grown(l: Node, m: Node)
    ensures Expand(After3().tree.node, 1, 1, l, Wide(3).key, m) ==
            Inner(3, [Wide(2).key, Wide(3).key], [Leaf(1, [Wide(1)], 2), l, m])
  {
    hide Wide;
    var n := After3().tree.node;
    var kids := n.kids[1 := l];
    assert kids[..2] == [Leaf(1, [Wide(1)], 2), l] && kids[2..] == [];
    assert kids[..2] + [m] + kids[2..] == [Leaf(1, [Wide(1)], 2), l, m];
    assert n.keys[..1] == [Wide(2).key] && n.keys[1..] == [];
    assert n.keys[..1] + [Wide(3).key] + n.keys[1..] == [Wide(2).key, Wide(3).key];
  }

  lemma FourthLeaf()
    ensures InsertLeaf(Leaf(2, [Wide(2), Wide(3)], 0), Wide(4).key, VALUE, [5, 4]) ==
            Inserted(Leaf(2, [Wide(2)], 4), Some((Wide(3).key, Leaf(4, [Wide(3), Wide(4)], 0))), [5])
  {
    hide Wide, Rank, CellSize, InlineCell, Put, InsertLeaf;
    WideIsFine(2);
    WideIsFine(3);
    WideIsFine(4);
    WideOrder(2, 3);
    WideOrder(3, 4);
    ThirdOf(Wide(2), Wide(3), Wide(4));
  }

  /** The tree that the fourth insertion meets. */
  lemma FourthStart(n: Node)
    requires n == After3().tree.node
    ensures After3().tree == Root(n, 1) && After3().av == [5, 4]
    ensures Shaped(n, 1) && n.keys == [Wide(2).key] && n.kids[1] == Leaf(2, [Wide(2), Wide(3)], 0)
    ensures After4() == Outcome(Done, Root(After4().tree.node, 1), [5])
    ensures After4().tree.node == Inner(3, [Wide(2).key, Wide(3).key],
                                        [Leaf(1, [Wide(1)], 2), Leaf(2, [Wide(2)], 4), Leaf(4, [Wide(3), Wide(4)], 0)])
    ensures Wide(4).key != [] && |Wide(4).key| <= MAX_KEY_SIZE
    ensures INNER_CELL_OVERHEAD + |Wide(3).key| == 2031 && MAX_CELL_AREA == 4062
  {
    hide Wide;
  }

  lemma Fourth()
    ensures Put(After3().tree, Wide(4).key, VALUE, After3().av) == After4()
  {
    var l, m := Leaf(2, [Wide(2)], 4), Leaf(4, [Wide(3), Wide(4)], 0);
    var n := After3().tree.node;
    hide *;
    FourthStart(n);
    FourthSlots();
    FourthLeaf();
    Grown(l, m);
    PutSplitsKid(n, 1, Wide(4).key, VALUE, [5, 4], l, Wide(3).key, m, [5]);
  }

  lemma FifthSlots()
    ensures Route([Wide(2).key, Wide(3).key], Wide(2).key) == 1
    ensures Slot([Wide(2)], Wide(2).key) == 0
  {
    hide Rank, Wide, Key;
    WideOrder(2, 3);
    assert [Wide(2).key, Wide(3).key][1..] == [Wide(3).key];
  }

  lemma RemoveFromKid(n: Node, i: nat, key: Bytes, av: seq<PageId>, leaf: Node, rest: seq<PageId>)
    requires Shaped(n, 1) && i == Route(n.keys, key) && n.kids[i].Leaf? && n.keys != [] && key != []
    requires DeleteLeaf(n.kids[i], key, av, n.id) == Deleted(leaf, false, rest)
    ensures Remove(Root(n, 1), key, av) == Outcome(Done, Root(Replace(n, i, leaf), 1), rest)
  {
    hide DeleteLeaf, Route;
    assert Delete(n.kids[i], 0, key, av, n.id) == Deleted(leaf, false, rest);
  }

  lemma FifthLeaf()
    ensures DeleteLeaf(Leaf(2, [Wide(2)], 4), Wide(2).key, [5], 3) == Deleted(Leaf(2, [], 4), false, [5])
  {
    FifthSlots();
    hide Wide, Slot;
    assert RemoveAt([Wide(2)], 0) == [];
    assert [5] + [] == [5];
  }

  lemma Fifth()
    ensures Remove(After4().tree, Wide(2).key, After4().av) == After5()
  {
    FifthSlots();
    FifthLeaf();
    hide Rank, Wide, Route, Slot, DeleteLeaf, Remove;
    RemoveFromKid(After4().tree.node, 1, Wide(2).key, [5], Leaf(2, [], 4), [5]);
    assert After4().tree.node.kids[1 := Leaf(2, [], 4)] == After5().tree.node.kids;
  }

  lemma Shapes()
    ensures ShapedTree(After1().tree) && ShapedTree(After2().tree) && ShapedTree(After3().tree) && ShapedTree(After4().tree)
    ensures After1().status == After2().status == After3().status == After4().status == After5().status == Done
    ensures WellFormed(Empty) && ShapedTree(Empty)
  {
    hide Wide;
  }

  /** Wide keys can leave a leaf of one cell; deleting it leaves an empty leaf,
      which no rebalancing touches, and a cursor stops there: of the three keys
      still in the tree it yields the first. */
  lemma DeletingHidesKeys()
    ensures var r := Run(Outcome(Done, Empty, [5, 4, 3, 2, 1]), HidingRun());
            && r.status == Done && AllLeaves(AllOf(r.tree))
            && TreeCells(r.tree) == [Wide(1), Wide(3), Wide(4)]
            && Visible(AllOf(r.tree)) == [Wide(1)]
  {
    hide *;
    var o, ops := Outcome(Done, Empty, [5, 4, 3, 2, 1]), HidingRun();
    FinalLeaves();
    Shapes();
    TheOps();
    First();
    Second();
    Third();
    Fourth();
    Fifth();
    PutStep(o, Wide(1).key);
    PutStep(After1(), Wide(2).key);
    PutStep(After2(), Wide(3).key);
    PutStep(After3(), Wide(4).key);
    DeleteStep(After4(), Wide(2).key);
    FiveSteps(o, ops, After1(), After2(), After3(), After4(), After5());
  }

  lemma TheOps()
    ensures var ops := HidingRun();
            && |ops| == 5
            && ops[0] == PutOp(Wide(1).key, VALUE) && ops[1] == PutOp(Wide(2).key, VALUE)
            && ops[2] == PutOp(Wide(3).key, VALUE) && ops[3] == PutOp(Wide(4).key, VALUE)
            && ops[4] == DeleteOp(Wide(2).key)
  {
    hide Wide;
  }

  lemma PutStep(o: Outcome, key: Bytes)
    requires ShapedTree(o.tree)
    ensures Step(o, PutOp(key, VALUE)) == Put(o.tree, key, VALUE, o.av)
  {
  }

  lemma DeleteStep(o: Outcome, key: Bytes)
    requires ShapedTree(o.tree)
    ensures Step(o, DeleteOp(key)) == Remove(o.tree, key, o.av)
  {
  }

  lemma FiveSteps(o: Outcome, ops: seq<Op>, o1: Outcome, o2: Outcome, o3: Outcome, o4: Outcome, o5: Outcome)
    requires WellFormed(o.tree) && ShapedTree(o.tree) && |ops| == 5
    requires o.status == o1.status == o2.status == o3.status == o4.status == o5.status == Done
    requires Step(o, ops[0]) == o1
    requires ShapedTree(o1.tree) && Step(o1, ops[1]) == o2
    requires ShapedTree(o2.tree) && Step(o2, ops[2]) == o3
    requires ShapedTree(o3.tree) && Step(o3, ops[3]) == o4
    requires ShapedTree(o4.tree) && Step(o4, ops[4]) == o5
    ensures Run(o, ops) == o5
  {
    hide Step, WellFormed, ShapedTree;
    OneStep(o, ops);
    OneStep(o1, ops[1..]);
    OneStep(o2, ops[1..][1..]);
    OneStep(o3, ops[1..][1..][1..]);
    OneStep(o4, ops[1..][1..][1..][1..]);
    assert ops[1..][1..][1..][1..][1..] == [];
  }

  lemma OneStep(o: Outcome, ops: seq<Op>)
    requires WellFormed(o.tree) && ops != [] && o.status == Done
    requires ShapedTree(o.tree) && Step(o, ops[0]).status == Done
    ensures WellFormed(Step(o, ops[0]).tree) && Run(o, ops) == Run(Step(o, ops[0]), ops[1..])
  {
    StepCorrect(o, ops[0]);
  }

  lemma FinalLeaves()
    ensures var t := After5().tree;
            && AllLeaves(AllOf(t))
            && TreeCells(t) == [Wide(1), Wide(3), Wide(4)]
            && Visible(AllOf(t)) == [Wide(1)]
  {
    var n := After5().tree.node;
    var a, b, c := n.kids[0], n.kids[1], n.kids[2];
    assert n.kids[1..] == [b, c] && [b, c][1..] == [c] && [c][1..] == [];
    assert LeavesOf([c]) == [c] + LeavesOf([]) == [c];
    assert LeavesOf([b, c]) == [b] + [c] == [b, c];
    assert AllOf(After5().tree) == [a, b, c];
    assert [a, b, c][1..] == [b, c] && Visible([b, c]) == [];
    EntriesPair(b, c);
    assert Entries(n) == a.cells + EntriesOf([b, c]);
  }

  // ---------- a split that does not fit ----------

  predicate InlineCell(c: Cell) {
    c.key != [] && |c.key| <= MAX_KEY_SIZE && |c.val| <= OVERFLOW_THRESHOLD && c.chain == []
  }

  function Puts(cells: seq<Cell>): (ops: seq<Op>)
    ensures |ops| == |cells|
  {
    seq(|cells|, i requires 0 <= i < |cells| => PutOp(cells[i].key, cells[i].val))
  }

  lemma PutInline(n: Node, c: Cell, av: seq<PageId>)
    requires n.Leaf? && Sorted(n.cells + [c]) && InlineCell(c)
    requires Used(n.cells) + CellSize(c) <= MAX_CELL_AREA
    ensures Put(Root(n, 0), c.key, c.val, av) == Outcome(Done, Root(Leaf(n.id, n.cells + [c], n.next), 0), av)
  {
    hide Rank, Used, CellSize;
    assert forall i :: 0 <= i < |n.cells| ==> n.cells[i] == (n.cells + [c])[i];
    assert (n.cells + [c])[|n.cells|] == c;
    InlineInLeaf(n, c, av);
  }

  lemma FirstPut(c: Cell, id: PageId, av: seq<PageId>)
    requires InlineCell(c) && CellSize(c) <= MAX_CELL_AREA
    ensures Put(Empty, c.key, c.val, av + [id]) == Outcome(Done, Root(Leaf(id, [c], 0), 0), av)
  {
    assert (av + [id])[..|av|] == av;
    InlineInLeaf(Leaf(id, [], 0), c, av);
    assert [] + [c] == [c];
  }

  lemma OneMorePut(o: Outcome, ops: seq<Op>, c: Cell)
    requires WellFormed(o.tree) && Usable(o.status) && Run(o, ops).status == Done
    ensures WellFormed(Run(o, ops).tree)
    ensures var r := Run(o, ops);
            Run(o, ops + [PutOp(c.key, c.val)]) == Put(r.tree, c.key, c.val, r.av)
  {
    hide WellFormed, Put;
    RunConcat(o, ops, [PutOp(c.key, c.val)]);
    assert [PutOp(c.key, c.val)][1..] == [];
  }

  /** Inserting in key order fills one leaf as long as the cells fit. */
  lemma {:induction false} FillsOneLeaf(cells: seq<Cell>, id: PageId, av: seq<PageId>)
    requires cells != [] && Sorted(cells) && Used(cells) <= MAX_CELL_AREA
    requires forall i :: 0 <= i < |cells| ==> InlineCell(cells[i])
    ensures Run(Outcome(Done, Empty, av + [id]), Puts(cells)) ==
            Outcome(Done, Root(Leaf(id, cells, 0), 0), av)
  {
    hide *;
    var n := |cells| - 1;
    var c, rest := cells[n], cells[..n];
    var o := Outcome(Done, Empty, av + [id]);
    LastOff(cells);
    EmptyStarts(o);
    if rest == [] {
      FirstPut(c, id, av);
      OneMorePut(o, Puts(rest), c);
    } else {
      FillsOneLeaf(rest, id, av);
      PutInline(Leaf(id, rest, 0), c, av);
      OneMorePut(o, Puts(rest), c);
    }
  }

  /** All but the last of a list of cells that fit one leaf. */
  lemma LastOff(cells: seq<Cell>)
    requires cells != [] && Sorted(cells) && Used(cells) <= MAX_CELL_AREA
    requires forall i :: 0 <= i < |cells| ==> InlineCell(cells[i])
    ensures var n := |cells| - 1;
            var c, rest := cells[n], cells[..n];
            && cells == rest + [c] && Sorted(rest) && Used(rest) + CellSize(c) <= MAX_CELL_AREA && CellSize(c) <= MAX_CELL_AREA
            && Used(rest) <= MAX_CELL_AREA && InlineCell(c)
            && Puts(cells) == Puts(rest) + [PutOp(c.key, c.val)]
            && (rest == [] ==> Puts(rest) == [])
  {
    hide *;
    var n := |cells| - 1;
    var c, rest := cells[n], cells[..n];
    assert cells == rest + [c];
    UsedConcat(rest, [c]);
    UsedOne(c);
    InitIsSorted(cells);
    PutsLast(rest, c);
    PutsNone();
  }

  lemma InitIsSorted(cells: seq<Cell>)
    requires cells != [] && Sorted(cells)
    ensures Sorted(cells[..|cells| - 1])
  {
    hide Rank;
  }

  lemma PutsLast(rest: seq<Cell>, c: Cell)
    ensures Puts(rest + [c]) == Puts(rest) + [PutOp(c.key, c.val)]
  {
  }

  lemma PutsNone()
    ensures Puts([]) == []
  {
  }

  lemma EmptyStarts(o: Outcome)
    requires o.status == Done && o.tree.Empty?
    ensures WellFormed(o.tree) && Usable(o.status) && Usable(Done) && Run(o, []) == o
  {
  }

  /** Two wide cells next to three narrow ones: 4,036 of the 4,062 bytes. */
  function Uneven(): seq<Cell> {
    [Wide(2), Cell(Key(3, 1980), VALUE, []), Cell(Key(4, 1), [], []), Cell(Key(5, 1), [], []), Cell(Key(6, 1), [], [])]
  }

  lemma UnevenCells()
    ensures var u := Uneven();
            && u == [u[0], u[1], u[2], u[3], u[4]] && u[0] == Wide(2)
            && CellSize(u[1]) == 1990 && CellSize(u[2]) == CellSize(u[3]) == CellSize(u[4]) == 5
            && Rank(u[0].key) < Rank(u[1].key) < Rank(u[2].key) < Rank(u[3].key) < Rank(u[4].key)
            && InlineCell(u[1]) && InlineCell(u[2]) && InlineCell(u[3]) && InlineCell(u[4])
  {
    hide Rank, Key;
    KeyOrder(2, MAX_KEY_SIZE, 3, 1980);
    KeyOrder(3, 1980, 4, 1);
    KeyOrder(4, 1, 5, 1);
    KeyOrder(5, 1, 6, 1);
  }

  lemma WideIsFine(b: byte)
    ensures InlineCell(Wide(b)) && CellSize(Wide(b)) == 2031
  {
  }

  lemma UnevenIsFine()
    ensures Sorted(Uneven()) && Used(Uneven()) == 4036
    ensures forall i :: 0 <= i < |Uneven()| ==> InlineCell(Uneven()[i])
  {
    UnevenCells();
    WideIsFine(2);
    var u := Uneven();
    UnevenIsFineAs(u);
  }

  lemma UnevenIsFineAs(u: seq<Cell>)
    requires |u| == 5 && u == [u[0], u[1], u[2], u[3], u[4]]
    requires CellSize(u[0]) == 2031 && CellSize(u[1]) == 1990 && CellSize(u[2]) == CellSize(u[3]) == CellSize(u[4]) == 5
    requires Rank(u[0].key) < Rank(u[1].key) < Rank(u[2].key) < Rank(u[3].key) < Rank(u[4].key)
    requires InlineCell(u[0]) && InlineCell(u[1]) && InlineCell(u[2]) && InlineCell(u[3]) && InlineCell(u[4])
    ensures Sorted(u) && Used(u) == 4036
    ensures forall i :: 0 <= i < |u| ==> InlineCell(u[i])
  {
    hide *;
    SortedFive(u[0], u[1], u[2], u[3], u[4]);
    UsedFive(u[0], u[1], u[2], u[3], u[4]);
  }

  lemma SortedFive(a: Cell, b: Cell, c: Cell, d: Cell, e: Cell)
    requires Rank(a.key) < Rank(b.key) < Rank(c.key) < Rank(d.key) < Rank(e.key)
    ensures Sorted([a, b, c, d, e])
  {
    hide Rank;
  }

  lemma UsedFive(a: Cell, b: Cell, c: Cell, d: Cell, e: Cell)
    ensures Used([a, b, c, d, e]) == CellSize(a) + CellSize(b) + CellSize(c) + CellSize(d) + CellSize(e)
  {
    hide CellSize;
    UsedTwo(d, e);
    assert [c, d, e][1..] == [d, e];
    assert Used([c, d, e]) == CellSize(c) + CellSize(d) + CellSize(e);
    assert [b, c, d, e][1..] == [c, d, e];
    assert Used([b, c, d, e]) == CellSize(b) + Used([c, d, e]);
    assert [a, b, c, d, e][1..] == [b, c, d, e];
  }

  /** Cutting by count may not cut by size: after those five, inserting one more
      wide cell in front makes a left half of 6,052 bytes, and the split writes
      past its page. */
  lemma SplitByCountOverflows(av: seq<PageId>, id: PageId, right: PageId)
    ensures var o := Outcome(Done, Empty, av + [right] + [id]);
            Run(o, Puts(Uneven())).status == Done
            && Run(o, Puts(Uneven()) + [PutOp(Wide(1).key, VALUE)]).status == Panic
  {
    var u, o := Uneven(), Outcome(Done, Empty, av + [right] + [id]);
    var ops := [PutOp(Wide(1).key, VALUE)];
    assert ops[1..] == [];
    assert WellFormed(o.tree);
    hide *;
    UnevenIsFine();
    WideIsFine(1);
    FillsOneLeaf(u, id, av + [right]);
    FrontCell(id, av + [right]);
    OneMorePut(o, Puts(u), Wide(1));
  }

  lemma FrontCell(id: PageId, av: seq<PageId>)
    requires av != []
    ensures Put(Root(Leaf(id, Uneven(), 0), 0), Wide(1).key, VALUE, av).status == Panic
  {
    UnevenIsFine();
    UnevenCells();
    WideIsFine(1);
    WideIsFine(2);
    WideOrder(1, 2);
    var u := Uneven();
    hide *;
    FrontCellOf(Wide(1), u, id, av);
  }

  /** An insertion at the front of a leaf that cannot take the cell. */
  lemma PrependSplits(n: Node, c: Cell, av: seq<PageId>)
    requires n.Leaf? && Sorted(n.cells) && n.cells != [] && InlineCell(c)
    requires Rank(c.key) < Rank(n.cells[0].key) && Used(n.cells) + CellSize(c) > MAX_CELL_AREA
    ensures InsertLeaf(n, c.key, c.val, av) == SplitLeaf(Leaf(n.id, [c] + n.cells, n.next), av)
  {
    SlotIs(n.cells, c.key, 0);
    assert !HasKeyAt(n.cells, 0, c.key);
    hide Rank, Slot, Sorted, Used, CellSize, SplitLeaf;
    assert TakePages(av, 0) == [] && NewCell(c.key, c.val, av) == c;
    assert av[..|av| - 0] + [] == av;
    assert InsertAt(n.cells, 0, c) == [c] + n.cells;
    assert WithCell(n, c) == Leaf(n.id, [c] + n.cells, n.next);
  }

  lemma LeafPutPanics(n: Node, key: Bytes, val: Bytes, av: seq<PageId>)
    requires n.Leaf? && key != [] && |key| <= MAX_KEY_SIZE
    requires InsertLeaf(n, key, val, av) == NotInserted(Panic)
    ensures Put(Root(n, 0), key, val, av).status == Panic
  {
    hide InsertLeaf;
  }

  lemma FrontCellOf(c: Cell, u: seq<Cell>, id: PageId, av: seq<PageId>)
    requires av != [] && |u| == 5 && Sorted(u) && Used(u) == 4036 && CellSize(u[0]) == 2031 && CellSize(u[1]) == 1990
    requires CellSize(c) == 2031 && InlineCell(c) && Rank(c.key) < Rank(u[0].key)
    ensures Put(Root(Leaf(id, u, 0), 0), c.key, c.val, av).status == Panic
  {
    hide Rank, Used, CellSize, Sorted, InsertLeaf, Put;
    PrependSplits(Leaf(id, u, 0), c, av);
    LeftHalf(c, u);
    LeafPutPanics(Leaf(id, u, 0), c.key, c.val, av);
  }

  lemma LeftHalf(c: Cell, u: seq<Cell>)
    requires |u| == 5 && CellSize(c) == CellSize(u[0]) == 2031 && CellSize(u[1]) == 1990
    ensures Used(([c] + u)[..3]) == 6052
  {
    hide CellSize;
    assert ([c] + u)[..3] == [c, u[0], u[1]] && [c, u[0], u[1]][1..] == [u[0], u[1]];
    UsedTwo(u[0], u[1]);
  }

  // ---------- a deletion that does not fit ----------

  function Narrow(b: byte): Cell {
    Cell(Key(b, 1), [], [])
  }

  lemma NarrowIsFine(b: byte)
    ensures InlineCell(Narrow(b)) && CellSize(Narrow(b)) == 5
  {
    hide Rank;
  }

  /** Four narrow cells and two wide ones, in the order they are put. */
  function Lopsided(): seq<Cell> {
    [Narrow(1), Wide(5), Wide(6)] + [Narrow(2), Narrow(3), Narrow(4)]
  }

  /** A root with two leaves, the second of which holds `e` and `f`. */
  ghost function TwoLeaves(top: PageId, id: PageId, right: PageId, left: seq<Cell>, e: Cell, f: Cell): Shape {
    Root(Inner(top, [e.key], [Leaf(id, left, right), Leaf(right, [e, f], 0)]), 1)
  }

  /** The third cell, a wide one, splits the leaf: one narrow cell to the left,
      two wide ones, which fill a page, to the right. */
  lemma WideSplits(top: PageId, id: PageId, right: PageId, a: Cell, e: Cell, f: Cell, av: seq<PageId>)
    requires CellSize(a) == 5 && CellSize(e) == CellSize(f) == 2031 && InlineCell(f) && InlineCell(e)
    requires Rank(a.key) < Rank(e.key) < Rank(f.key)
    ensures Put(Root(Leaf(id, [a, e], 0), 0), f.key, f.val, av + [top] + [right]) ==
            Outcome(Done, TwoLeaves(top, id, right, [a], e, f), av)
  {
    InlineParts(e);
    InlineParts(f);
    hide *;
    SortedTwo(a, e);
    UsedTwo(a, e);
    InlineInLeaf(Leaf(id, [a, e], 0), f, av + [top] + [right]);
    AppendThird(a, e, f);
    SplitAfterOne(id, right, a, e, f, av + [top]);
    PutSplitsLeaf(Leaf(id, [a, e], 0), f.key, f.val, av + [top] + [right],
                  Leaf(id, [a], right), e.key, Leaf(right, [e, f], 0), av, top);
    TwoLeavesIs(top, id, right, [a], e, f);
  }

  lemma InlineParts(c: Cell)
    requires InlineCell(c)
    ensures c.key != [] && |c.key| <= MAX_KEY_SIZE && |c.val| <= OVERFLOW_THRESHOLD && c.chain == []
    ensures MAX_CELL_AREA == 4062
  {
  }

  lemma TwoLeavesIs(top: PageId, id: PageId, right: PageId, left: seq<Cell>, e: Cell, f: Cell)
    ensures TwoLeaves(top, id, right, left, e, f) ==
            Root(Inner(top, [e.key], [Leaf(id, left, right), Leaf(right, [e, f], 0)]), 1)
    ensures ShapedTree(TwoLeaves(top, id, right, left, e, f))
    ensures Shaped(Inner(top, [e.key], [Leaf(id, left, right), Leaf(right, [e, f], 0)]), 1)
  {
  }

  lemma SplitAfterOne(id: PageId, right: PageId, a: Cell, e: Cell, f: Cell, av: seq<PageId>)
    requires CellSize(a) == 5 && CellSize(e) == CellSize(f) == 2031
    ensures SplitLeaf(Leaf(id, [a, e, f], 0), av + [right]) ==
            Inserted(Leaf(id, [a], right), Some((e.key, Leaf(right, [e, f], 0))), av)
  {
    UsedOne(a);
    UsedTwo(e, f);
    hide Used, CellSize;
    assert [a, e, f][..1] == [a] && [a, e, f][1..] == [e, f];
    assert (av + [right])[..|av|] == av;
  }

  /** The left leaf takes one more narrow cell at its end. */
  lemma PutLeft(top: PageId, id: PageId, right: PageId, left: seq<Cell>, e: Cell, f: Cell, c: Cell, av: seq<PageId>)
    requires Sorted(left) && left != [] && Rank(left[|left| - 1].key) < Rank(c.key) < Rank(e.key)
    requires InlineCell(c) && Used(left) + CellSize(c) <= MAX_CELL_AREA
    ensures Put(TwoLeaves(top, id, right, left, e, f), c.key, c.val, av) ==
            Outcome(Done, TwoLeaves(top, id, right, left + [c], e, f), av)
  {
    InlineParts(c);
    hide *;
    TwoLeavesIs(top, id, right, left, e, f);
    TwoLeavesIs(top, id, right, left + [c], e, f);
    RouteLeft(e.key, c.key);
    InlineInLeaf(Leaf(id, left, right), c, av);
    PutInFirstKid(Inner(top, [e.key], [Leaf(id, left, right), Leaf(right, [e, f], 0)]), c.key, c.val, av,
                  Leaf(id, left + [c], right));
  }

  lemma RouteLeft(sep: Bytes, key: Bytes)
    requires Rank(key) < Rank(sep)
    ensures Route([sep], key) == 0
  {
    hide Rank;
  }

  lemma PutInFirstKid(n: Node, key: Bytes, val: Bytes, av: seq<PageId>, leaf: Node)
    requires Shaped(n, 1) && |n.keys| == 1 && n.kids[0].Leaf? && Route(n.keys, key) == 0
    requires key != [] && |key| <= MAX_KEY_SIZE && InsertLeaf(n.kids[0], key, val, av) == Inserted(leaf, None, av)
    ensures Put(Root(n, 1), key, val, av) == Outcome(Done, Root(Inner(n.id, n.keys, [leaf, n.kids[1]]), 1), av)
  {
    hide InsertLeaf, Route;
    assert |n.kids| == 2 && Insert(n.kids[0], 0, key, val, av) == Inserted(leaf, None, av);
    assert n.kids[0 := leaf] == [leaf, n.kids[1]];
  }

  lemma SortedFour(a: Cell, b: Cell, c: Cell, d: Cell)
    requires Rank(a.key) < Rank(b.key) < Rank(c.key) < Rank(d.key)
    ensures Sorted([a, b, c, d])
  {
    hide Rank;
  }

  lemma UsedThree(a: Cell, b: Cell, c: Cell)
    ensures Used([a, b, c]) == CellSize(a) + CellSize(b) + CellSize(c)
  {
    assert [a, b, c][1..] == [b, c];
    UsedTwo(b, c);
    hide CellSize;
  }

  /** Dropping the last of four narrow cells leaves 15 bytes, too few; with the
      4,062 bytes of the sibling they need two pages, and dealt out by count the
      right one would have to hold 4,067. */
  lemma DealingJams(top: PageId, id: PageId, right: PageId, a: Cell, b: Cell, c: Cell, d: Cell, e: Cell, f: Cell)
    requires id != top && CellSize(a) == CellSize(b) == CellSize(c) == 5 && CellSize(e) == CellSize(f) == 2031
    requires Rank(a.key) < Rank(b.key) < Rank(c.key) < Rank(d.key) < Rank(e.key) && d.key != []
    ensures ShapedTree(TwoLeaves(top, id, right, [a, b, c, d], e, f))
    ensures RemoveOverflows(TwoLeaves(top, id, right, [a, b, c, d], e, f), d.key)
  {
    var leaf := Leaf(id, [a, b, c, d], right);
    var n := Inner(top, [e.key], [leaf, Leaf(right, [e, f], 0)]);
    TwoLeavesIs(top, id, right, [a, b, c, d], e, f);
    assert Shaped(leaf, 0) && Shaped(n.kids[1], 0) && Shaped(n, 1);
    LastDropped(a, b, c, d);
    RouteLeft(e.key, d.key);
    DealtOut(a, b, c, e, f, e.key);
    hide Rank, Route, Slot, DropCell, PairJams, LeafUnderflow, HasKeyAt, CellSize;
    assert OnRoute(n, 1, d.key, 0) == leaf && OnRoute(n, 1, d.key, 1) == n;
    assert ItemsAfter(leaf, 0, d.key, top) == Cells([a, b, c]) && ShortAfter(leaf, 0, d.key, top);
    assert KidAfter(n, 1, d.key, top, 0) == Cells([a, b, c]) && KidAfter(n, 1, d.key, top, 1) == Cells([e, f]);
    assert JamsAt(OnRoute(n, 1, d.key, 1), 1, d.key, top);
  }

  lemma LastDropped(a: Cell, b: Cell, c: Cell, d: Cell)
    requires Rank(a.key) < Rank(b.key) < Rank(c.key) < Rank(d.key)
    ensures var cells := [a, b, c, d];
            && HasKeyAt(cells, Slot(cells, d.key), d.key) && DropCell(cells, d.key) == [a, b, c]
  {
    SortedFour(a, b, c, d);
    SlotIs([a, b, c, d], d.key, 3);
    hide Rank, Slot;
  }

  lemma DealtOut(a: Cell, b: Cell, c: Cell, e: Cell, f: Cell, sep: Bytes)
    requires CellSize(a) == CellSize(b) == CellSize(c) == 5 && CellSize(e) == CellSize(f) == 2031
    ensures LeafUnderflow([a, b, c]) && PairJams([sep], 0, Cells([a, b, c]), Cells([e, f]))
  {
    UsedThree(a, b, c);
    UsedTwo(e, f);
    UsedThree(c, e, f);
    var all := [a, b, c] + [e, f];
    hide Used, CellSize, UsedKeys;
    assert |all| / 2 == 2 && all[2..] == [c, e, f];
  }

  lemma OneMoreDelete(o: Outcome, ops: seq<Op>, key: Bytes)
    requires WellFormed(o.tree) && Usable(o.status) && Run(o, ops).status == Done
    ensures WellFormed(Run(o, ops).tree)
    ensures var r := Run(o, ops);
            Run(o, ops + [DeleteOp(key)]).status == Remove(r.tree, key, r.av).status
  {
    hide WellFormed, Remove;
    RunConcat(o, ops, [DeleteOp(key)]);
    assert [DeleteOp(key)][1..] == [];
  }

  /** The first three puts. */
  lemma WideStart(top: PageId, id: PageId, right: PageId, av: seq<PageId>, a: Cell, e: Cell, f: Cell)
    requires InlineCell(a) && InlineCell(e) && InlineCell(f) && CellSize(a) == 5 && CellSize(e) == CellSize(f) == 2031
    requires Rank(a.key) < Rank(e.key) < Rank(f.key)
    ensures var o := Outcome(Done, Empty, av + [top] + [right] + [id]);
            && WellFormed(o.tree) && Run(o, Puts([a, e, f])) == Outcome(Done, TwoLeaves(top, id, right, [a], e, f), av)
  {
    InlineParts(a);
    hide *;
    var o := Outcome(Done, Empty, av + [top] + [right] + [id]);
    EmptyStarts(o);
    SortedTwo(a, e);
    UsedTwo(a, e);
    FillsOneLeaf([a, e], id, av + [top] + [right]);
    WideSplits(top, id, right, a, e, f, av);
    Another(o, [a, e], f, TwoLeaves(top, id, right, [a], e, f), av);
    AppendThird(a, e, f);
  }

  lemma AppendThird(a: Cell, b: Cell, c: Cell)
    ensures [a, b] + [c] == [a, b, c]
  {
  }

  /** Puts into the left leaf, in key order. */
  lemma {:induction false} LeftFills(o: Outcome, cells: seq<Cell>, top: PageId, id: PageId, right: PageId, av: seq<PageId>,
                                     left: seq<Cell>, more: seq<Cell>, e: Cell, f: Cell)
    requires WellFormed(o.tree) && Usable(o.status)
    requires Run(o, Puts(cells)) == Outcome(Done, TwoLeaves(top, id, right, left, e, f), av)
    requires left != [] && Sorted(left + more) && Used(left + more) <= MAX_CELL_AREA
    requires forall i :: 0 <= i < |more| ==> InlineCell(more[i]) && Rank(more[i].key) < Rank(e.key)
    ensures Run(o, Puts(cells + more)) == Outcome(Done, TwoLeaves(top, id, right, left + more, e, f), av)
  {
    hide *;
    if more == [] {
      assert left + more == left && cells + more == cells;
    } else {
      var n := |more| - 1;
      var c, rest := more[n], more[..n];
      var all := left + rest;
      assert left + more == all + [c] && cells + more == (cells + rest) + [c];
      UsedConcat(all, [c]);
      UsedOne(c);
      LastAbove(all, c);
      LeftFills(o, cells, top, id, right, av, left, rest, e, f);
      PutLeft(top, id, right, all, e, f, c, av);
      Another(o, cells + rest, c, TwoLeaves(top, id, right, all + [c], e, f), av);
    }
  }

  lemma LastAbove(cells: seq<Cell>, c: Cell)
    requires Sorted(cells + [c]) && cells != []
    ensures Sorted(cells) && Rank(cells[|cells| - 1].key) < Rank(c.key)
  {
    hide Rank;
    var all := cells + [c];
    assert forall i :: 0 <= i < |cells| ==> all[i] == cells[i];
    assert all[|cells|] == c;
  }

  /** What the last three puts have to meet. */
  lemma NarrowCells(a: Cell, b: Cell, c: Cell, d: Cell, e: Cell)
    requires InlineCell(b) && InlineCell(c) && InlineCell(d) && CellSize(a) == CellSize(b) == CellSize(c) == CellSize(d) == 5
    requires Rank(a.key) < Rank(b.key) < Rank(c.key) < Rank(d.key) < Rank(e.key)
    ensures [a] + [b, c, d] == [a, b, c, d] && Sorted([a] + [b, c, d]) && Used([a] + [b, c, d]) <= MAX_CELL_AREA
    ensures var more := [b, c, d];
            forall i :: 0 <= i < |more| ==> InlineCell(more[i]) && Rank(more[i].key) < Rank(e.key)
  {
    SortedFour(a, b, c, d);
    UsedThree(b, c, d);
    UsedConcat([a], [b, c, d]);
    UsedOne(a);
    hide Rank, Used, CellSize, InlineCell, Sorted;
  }

  lemma Another(o: Outcome, cells: seq<Cell>, c: Cell, t: Shape, av: seq<PageId>)
    requires WellFormed(o.tree) && Usable(o.status) && Run(o, Puts(cells)).status == Done
    requires WellFormed(Run(o, Puts(cells)).tree) ==>
               Put(Run(o, Puts(cells)).tree, c.key, c.val, Run(o, Puts(cells)).av) == Outcome(Done, t, av)
    ensures Run(o, Puts(cells + [c])) == Outcome(Done, t, av)
  {
    hide Run, Put, Puts, WellFormed;
    OneMorePut(o, Puts(cells), c);
    PutsLast(cells, c);
  }

  /** Dealing out by count may not fit either: a run of six puts, after which a
      deletion writes past a page. */
  lemma DealingByCountOverflows(av: seq<PageId>, id: PageId, right: PageId, top: PageId)
    requires id != top
    ensures var o := Outcome(Done, Empty, av + [top] + [right] + [id]);
            Run(o, Puts(Lopsided())).status == Done
            && Run(o, Puts(Lopsided()) + [DeleteOp(Narrow(4).key)]).status == Panic
  {
    var a, b, c, d, e, f := Narrow(1), Narrow(2), Narrow(3), Narrow(4), Wide(5), Wide(6);
    assert Lopsided() == [a, e, f] + [b, c, d];
    LopsidedOrder();
    hide *;
    var o := Outcome(Done, Empty, av + [top] + [right] + [id]);
    EmptyStarts(o);
    InlineParts(d);
    WideStart(top, id, right, av, a, e, f);
    NarrowCells(a, b, c, d, e);
    LeftFills(o, [a, e, f], top, id, right, av, [a], [b, c, d], e, f);
    OneMoreDelete(o, Puts(Lopsided()), d.key);
    DealingJams(top, id, right, a, b, c, d, e, f);
    RemovePanics(TwoLeaves(top, id, right, [a, b, c, d], e, f), d.key, av);
  }

  lemma LopsidedOrder()
    ensures Rank(Narrow(1).key) < Rank(Narrow(2).key) < Rank(Narrow(3).key) < Rank(Narrow(4).key) < Rank(Wide(5).key) < Rank(Wide(6).key)
    ensures InlineCell(Narrow(1)) && InlineCell(Narrow(2)) && InlineCell(Narrow(3)) && InlineCell(Narrow(4))
    ensures InlineCell(Wide(5)) && InlineCell(Wide(6)) && CellSize(Wide(5)) == CellSize(Wide(6)) == 2031
    ensures CellSize(Narrow(1)) == CellSize(Narrow(2)) == CellSize(Narrow(3)) == CellSize(Narrow(4)) == 5
  {
    hide Rank, Key, CellSize, InlineCell;
    NarrowIsFine(1);
    NarrowIsFine(2);
    NarrowIsFine(3);
    NarrowIsFine(4);
    WideIsFine(5);
    WideIsFine(6);
    KeyOrder(1, 1, 2, 1);
    KeyOrder(2, 1, 3, 1);
    KeyOrder(3, 1, 4, 1);
    KeyOrder(4, 1, 5, MAX_KEY_SIZE);
    KeyOrder(5, MAX_KEY_SIZE, 6, MAX_KEY_SIZE);
  }
}
