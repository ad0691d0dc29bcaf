/** The B+tree as a value.

    A `Node` is the tree of pages hanging below one page ID: what the pages of
    a subtree hold, with child page IDs followed.  The functions `Insert`,
    `Delete`, `Put` and `Remove` say what the operations of `btree.go`,
    `split.go` and `merge.go` do to such a tree, branch by branch; the class
    `BTree.Tree` is proved to do exactly that to its pages. */
module TreeModel {
  import opened Bytes

  /** Page IDs; 0 stands for "no page". */
  type PageId = nat

  const MAX_CELL_AREA: nat := 4062
  const LEAF_CELL_OVERHEAD: nat := 4
  const INNER_CELL_OVERHEAD: nat := 10
  const MAX_KEY_SIZE: nat := 2021
  const OVERFLOW_THRESHOLD: nat := 6
  const OVERFLOW_PAYLOAD: nat := 4064
  const UNDERFLOW_THRESHOLD: nat := 1015

  datatype Option<+T> = None | Some(value: T)

  /** A leaf cell.  `chain` lists the overflow pages that hold the value, in
      chain order; it is empty when the value is stored inline. */
  datatype Cell = Cell(key: Bytes, val: Bytes, chain: seq<PageId>)

  datatype Node =
    | Leaf(id: PageId, cells: seq<Cell>, next: PageId)
    | Inner(id: PageId, keys: seq<Bytes>, kids: seq<Node>)

  /** How an operation can end.  `NoPages`: the allocator had no page left.
      `Panic`: a rewritten page would not hold its cells, where the Go code
      slices beyond the page buffer. */
  datatype Status = Done | EmptyKey | KeyTooLarge | KeyNotFound | NoPages | Panic

  // ---------- sizes ----------

  function InlineLen(c: Cell): nat {
    if |c.val| <= OVERFLOW_THRESHOLD then |c.val| else 12
  }

  function CellSize(c: Cell): nat {
    LEAF_CELL_OVERHEAD + |c.key| + InlineLen(c)
  }

  function Used(cells: seq<Cell>): nat {
    if cells == [] then 0 else CellSize(cells[0]) + Used(cells[1..])
  }

  function UsedKeys(keys: seq<Bytes>): nat {
    if keys == [] then 0 else INNER_CELL_OVERHEAD + |keys[0]| + UsedKeys(keys[1..])
  }

  // ---------- searching ----------

  /** The first cell whose key is not below `key`. */
  function Slot(cells: seq<Cell>, key: Bytes): (i: nat)
    ensures i <= |cells|
    ensures forall j :: 0 <= j < i ==> Rank(cells[j].key) < Rank(key)
    ensures i < |cells| ==> Rank(key) <= Rank(cells[i].key)
  {
    if cells == [] || Rank(key) <= Rank(cells[0].key) then 0 else 1 + Slot(cells[1..], key)
  }

  predicate HasKeyAt(cells: seq<Cell>, i: nat, key: Bytes) {
    i < |cells| && cells[i].key == key
  }

  /** The first separator not below `key`: where a promoted key goes. */
  function KeySlot(keys: seq<Bytes>, key: Bytes): (i: nat)
    ensures i <= |keys|
    ensures forall j :: 0 <= j < i ==> Rank(keys[j]) < Rank(key)
    ensures i < |keys| ==> Rank(key) <= Rank(keys[i])
  {
    if keys == [] || Rank(key) <= Rank(keys[0]) then 0 else 1 + KeySlot(keys[1..], key)
  }

  /** The first separator above `key`: the child that may hold `key`. */
  function Route(keys: seq<Bytes>, key: Bytes): (i: nat)
    ensures i <= |keys|
    ensures forall j :: 0 <= j < i ==> Rank(keys[j]) <= Rank(key)
    ensures i < |keys| ==> Rank(key) < Rank(keys[i])
  {
    if keys == [] || Rank(key) < Rank(keys[0]) then 0 else 1 + Route(keys[1..], key)
  }

  // ---------- shape ----------

  /** Every path to a leaf has `h` edges, and an internal node has one child
      more than it has separators. */
  ghost predicate Shaped(n: Node, h: nat)
    decreases h
  {
    match n
    case Leaf(_, _, _) => h == 0
    case Inner(_, keys, kids) =>
      h > 0 && |kids| == |keys| + 1 && forall i :: 0 <= i < |kids| ==> Shaped(kids[i], h - 1)
  }

  function InsertAt<T>(s: seq<T>, i: nat, x: T): seq<T>
    requires i <= |s|
  {
    s[..i] + [x] + s[i..]
  }

  function RemoveAt<T>(s: seq<T>, i: nat): seq<T>
    requires i < |s|
  {
    s[..i] + s[i + 1..]
  }

  // ---------- overflow pages ----------

  /** Pages an overflow chain for a value of `n` bytes takes. */
  function PagesFor(n: nat): nat {
    (n + OVERFLOW_PAYLOAD - 1) / OVERFLOW_PAYLOAD
  }

  function ChainLen(val: Bytes): nat {
    if |val| <= OVERFLOW_THRESHOLD then 0 else PagesFor(|val|)
  }

  /** The last `n` pages of a reserve, in the order the allocator hands them
      out. */
  function TakePages(av: seq<PageId>, n: nat): (ids: seq<PageId>)
    requires n <= |av|
    ensures |ids| == n
    ensures forall i :: 0 <= i < n ==> ids[i] == av[|av| - 1 - i]
  {
    if n == 0 then [] else [av[|av| - 1]] + TakePages(av[..|av| - 1], n - 1)
  }

  // ---------- insertion ----------

  datatype Inserted =
    | Inserted(node: Node, right: Option<(Bytes, Node)>, av: seq<PageId>)
    | NotInserted(status: Status)

  /** `splitLeaf`: the cells, the new one included, are cut in two by count. */
  ghost function SplitLeaf(n: Node, av: seq<PageId>): Inserted
    requires n.Leaf? && |n.cells| > 0
  {
    var mid := |n.cells| / 2;
    if av == [] then NotInserted(NoPages)
    else if Used(n.cells[..mid]) > MAX_CELL_AREA || Used(n.cells[mid..]) > MAX_CELL_AREA then NotInserted(Panic)
    else
      var rightId := av[|av| - 1];
      Inserted(Leaf(n.id, n.cells[..mid], rightId),
               Some((n.cells[mid].key, Leaf(rightId, n.cells[mid..], n.next))),
               av[..|av| - 1])
  }

  /** The cell that an insertion stores. */
  function NewCell(key: Bytes, val: Bytes, av: seq<PageId>): Cell
    requires ChainLen(val) <= |av|
  {
    Cell(key, val, TakePages(av, ChainLen(val)))
  }

  /** A leaf's cells without the one for `key`. */
  function RestCells(cells: seq<Cell>, key: Bytes): (rest: seq<Cell>)
    ensures Slot(cells, key) <= |rest|
  {
    var i := Slot(cells, key);
    if HasKeyAt(cells, i, key) then RemoveAt(cells, i) else cells
  }

  /** The overflow pages that the value stored for `key` occupies. */
  function ChainAt(cells: seq<Cell>, key: Bytes): seq<PageId> {
    var i := Slot(cells, key);
    if HasKeyAt(cells, i, key) then cells[i].chain else []
  }

  function WithCell(n: Node, c: Cell): Node
    requires n.Leaf?
  {
    Leaf(n.id, InsertAt(RestCells(n.cells, c.key), Slot(n.cells, c.key), c), n.next)
  }

  /** `insertLeaf`: the value goes to overflow pages first, an old value's
      pages are released next, and only then is the room checked. */
  ghost function InsertLeaf(n: Node, key: Bytes, val: Bytes, av: seq<PageId>): Inserted
    requires n.Leaf?
  {
    var k := ChainLen(val);
    if k > |av| then NotInserted(NoPages) else
    var c := NewCell(key, val, av);
    var av' := av[..|av| - k] + ChainAt(n.cells, key);
    if Used(RestCells(n.cells, key)) + CellSize(c) <= MAX_CELL_AREA then Inserted(WithCell(n, c), None, av')
    else SplitLeaf(WithCell(n, c), av')
  }

  /** The parts of an internal node left and right of separator `mid`. */
  ghost function LeftPart(n: Node, mid: nat): Node
    requires n.Inner? && |n.kids| == |n.keys| + 1 && mid < |n.keys|
  {
    Inner(n.id, n.keys[..mid], n.kids[..mid + 1])
  }

  ghost function RightPart(n: Node, mid: nat, id: PageId): Node
    requires n.Inner? && |n.kids| == |n.keys| + 1 && mid < |n.keys|
  {
    Inner(id, n.keys[mid + 1..], n.kids[mid + 1..])
  }

  /** `splitInternal`: the middle separator moves up. */
  ghost function SplitInner(n: Node, av: seq<PageId>): Inserted
    requires n.Inner? && |n.kids| == |n.keys| + 1 && |n.keys| > 0
  {
    var mid := |n.keys| / 2;
    if av == [] then NotInserted(NoPages)
    else if UsedKeys(n.keys[..mid]) > MAX_CELL_AREA || UsedKeys(n.keys[mid + 1..]) > MAX_CELL_AREA then
      NotInserted(Panic)
    else
      Inserted(LeftPart(n, mid), Some((n.keys[mid], RightPart(n, mid, av[|av| - 1]))), av[..|av| - 1])
  }

  /** Child `i` rewritten as `l`, and `r` put in after separator `j`. */
  ghost function Expand(n: Node, i: nat, j: nat, l: Node, sep: Bytes, r: Node): Node
    requires n.Inner? && |n.kids| == |n.keys| + 1 && i < |n.kids| && j <= |n.keys|
  {
    Inner(n.id, InsertAt(n.keys, j, sep), InsertAt(n.kids[i := l], j + 1, r))
  }

  ghost function Replace(n: Node, i: nat, c: Node): Node
    requires n.Inner? && i < |n.kids|
  {
    Inner(n.id, n.keys, n.kids[i := c])
  }

  /** The second half of `insertInternal`: child `i` has become `r.node`, and
      the node it split off, if any, gets a separator here. */
  ghost function Absorb(n: Node, i: nat, r: Inserted): Inserted
    requires n.Inner? && |n.kids| == |n.keys| + 1 && i < |n.kids| && r.Inserted?
  {
    match r.right
    case None => Inserted(Replace(n, i, r.node), None, r.av)
    case Some((sep, right)) =>
      var n' := Expand(n, i, KeySlot(n.keys, sep), r.node, sep, right);
      if UsedKeys(n.keys) + INNER_CELL_OVERHEAD + |sep| <= MAX_CELL_AREA then Inserted(n', None, r.av)
      else SplitInner(n', r.av)
  }

  ghost function Insert(n: Node, h: nat, key: Bytes, val: Bytes, av: seq<PageId>): Inserted
    requires Shaped(n, h)
    decreases h
  {
    match n
    case Leaf(_, _, _) => InsertLeaf(n, key, val, av)
    case Inner(_, keys, kids) =>
      var i := Route(keys, key);
      var r := Insert(kids[i], h - 1, key, val, av);
      if r.NotInserted? then r else Absorb(n, i, r)
  }

  /** A tree: nothing, or a root node of some height. */
  datatype Shape = Empty | Root(node: Node, height: nat)

  ghost predicate ShapedTree(t: Shape) {
    t.Root? ==> Shaped(t.node, t.height)
  }

  datatype Outcome = Outcome(status: Status, tree: Shape, av: seq<PageId>)

  /** The root that `Put` inserts into, and the free pages it then has. */
  ghost function StartRoot(t: Shape, av: seq<PageId>): Node
    requires t.Empty? ==> av != []
  {
    if t.Empty? then Leaf(av[|av| - 1], [], 0) else t.node
  }

  ghost function StartPages(t: Shape, av: seq<PageId>): seq<PageId>
    requires t.Empty? ==> av != []
  {
    if t.Empty? then av[..|av| - 1] else av
  }

  ghost function Height(t: Shape): nat {
    if t.Root? then t.height else 0
  }

  /** A root that was split gets a new root above it. */
  ghost function Finish(t: Shape, h: nat, r: Inserted, av: seq<PageId>): Outcome {
    match r
    case NotInserted(s) => Outcome(s, t, av)
    case Inserted(node, None, av') => Outcome(Done, Root(node, h), av')
    case Inserted(node, Some((sep, right)), av') =>
      if av' == [] then Outcome(NoPages, t, av)
      else if INNER_CELL_OVERHEAD + |sep| > MAX_CELL_AREA then Outcome(Panic, t, av)
      else Outcome(Done, Root(Inner(av'[|av'| - 1], [sep], [node, right]), h + 1), av'[..|av'| - 1])
  }

  /** `Put`.  Unless the status is `Done` the tree part says nothing. */
  ghost function Put(t: Shape, key: Bytes, val: Bytes, av: seq<PageId>): Outcome
    requires ShapedTree(t)
  {
    if key == [] then Outcome(EmptyKey, t, av)
    else if |key| > MAX_KEY_SIZE then Outcome(KeyTooLarge, t, av)
    else if t.Empty? && av == [] then Outcome(NoPages, t, av)
    else Finish(t, Height(t), Insert(StartRoot(t, av), Height(t), key, val, StartPages(t, av)), av)
  }

  // ---------- deletion ----------

  datatype Deleted =
    | Deleted(node: Node, underflow: bool, av: seq<PageId>)
    | NotDeleted(status: Status)

  predicate LeafUnderflow(cells: seq<Cell>) {
    |cells| > 0 && Used(cells) < UNDERFLOW_THRESHOLD
  }

  predicate InnerUnderflow(keys: seq<Bytes>) {
    |keys| > 0 && UsedKeys(keys) < UNDERFLOW_THRESHOLD
  }

  /** A parent whose children `s` and `s + 1` have been merged into `m`. */
  ghost function Contract(n: Node, s: nat, m: Node): Node
    requires n.Inner? && |n.kids| == |n.keys| + 1 && s < |n.keys|
  {
    Inner(n.id, RemoveAt(n.keys, s), RemoveAt(n.kids[s := m], s + 1))
  }

  /** A parent whose children `s` and `s + 1` have been rewritten around a new
      separator. */
  ghost function Respace(n: Node, s: nat, l: Node, sep: Bytes, r: Node): Node
    requires n.Inner? && |n.kids| == |n.keys| + 1 && s < |n.keys|
  {
    Inner(n.id, n.keys[s := sep], n.kids[s := l][s + 1 := r])
  }

  ghost function Merged(n: Node, av: seq<PageId>): Deleted
    requires n.Inner?
  {
    Deleted(n, InnerUnderflow(n.keys), av)
  }

  /** `updateParentSeparator`, which replaces the separator without asking
      whether the new one fits. */
  ghost function Respaced(n: Node, av: seq<PageId>): Deleted
    requires n.Inner?
  {
    if UsedKeys(n.keys) > MAX_CELL_AREA then NotDeleted(Panic) else Deleted(n, false, av)
  }

  /** `tryLeafMergeOrRedist` on children `s` and `s + 1`. */
  ghost function FixLeaves(n: Node, s: nat, av: seq<PageId>): Deleted
    requires n.Inner? && |n.kids| == |n.keys| + 1 && s < |n.keys|
    requires n.kids[s].Leaf? && n.kids[s + 1].Leaf?
  {
    var l, r := n.kids[s], n.kids[s + 1];
    var all := l.cells + r.cells;
    if Used(l.cells) + Used(r.cells) <= MAX_CELL_AREA then
      Merged(Contract(n, s, Leaf(l.id, all, r.next)), av + [r.id])
    else
      var mid := |all| / 2;
      if Used(all[..mid]) > MAX_CELL_AREA || Used(all[mid..]) > MAX_CELL_AREA then NotDeleted(Panic)
      else Respaced(Respace(n, s, Leaf(l.id, all[..mid], l.next), all[mid].key, Leaf(r.id, all[mid..], r.next)), av)
  }

  /** `tryInternalMergeOrRedist` on children `s` and `s + 1`: the separator
      between them comes down, and the middle one goes back up. */
  ghost function FixInners(n: Node, s: nat, av: seq<PageId>): Deleted
    requires n.Inner? && |n.kids| == |n.keys| + 1 && s < |n.keys|
    requires n.kids[s].Inner? && n.kids[s + 1].Inner?
    requires |n.kids[s].kids| == |n.kids[s].keys| + 1
    requires |n.kids[s + 1].kids| == |n.kids[s + 1].keys| + 1
  {
    var l, r := n.kids[s], n.kids[s + 1];
    var all := Inner(l.id, l.keys + [n.keys[s]] + r.keys, l.kids + r.kids);
    if UsedKeys(l.keys) + UsedKeys(r.keys) + INNER_CELL_OVERHEAD + |n.keys[s]| <= MAX_CELL_AREA then
      Merged(Contract(n, s, all), av + [r.id])
    else
      var mid := |all.keys| / 2;
      if UsedKeys(all.keys[..mid]) > MAX_CELL_AREA || UsedKeys(all.keys[mid + 1..]) > MAX_CELL_AREA then
        NotDeleted(Panic)
      else Respaced(Respace(n, s, LeftPart(all, mid), all.keys[mid], RightPart(all, mid, r.id)), av)
  }

  /** `rebalanceLeaf` and `rebalanceInternal`: the right sibling is tried
      first, then the left one. */
  ghost function Rebalance(n: Node, h: nat, i: nat, av: seq<PageId>): Deleted
    requires Shaped(n, h) && n.Inner? && i < |n.kids|
  {
    if |n.keys| == 0 then Deleted(n, false, av)
    else
      var s := if i < |n.keys| then i else i - 1;
      assert Shaped(n.kids[s], h - 1) && Shaped(n.kids[s + 1], h - 1);
      if h == 1 then FixLeaves(n, s, av) else FixInners(n, s, av)
  }

  lemma ContractShaped(n: Node, h: nat, s: nat, m: Node)
    requires Shaped(n, h) && n.Inner? && s < |n.keys| && Shaped(m, h - 1)
    ensures Shaped(Contract(n, s, m), h)
  {
  }

  lemma RespaceShaped(n: Node, h: nat, s: nat, l: Node, sep: Bytes, r: Node)
    requires Shaped(n, h) && n.Inner? && s < |n.keys| && Shaped(l, h - 1) && Shaped(r, h - 1)
    ensures Shaped(Respace(n, s, l, sep, r), h)
  {
  }

  lemma FixLeavesShaped(n: Node, s: nat, av: seq<PageId>)
    requires Shaped(n, 1) && s < |n.keys|
    requires n.kids[s].Leaf? && n.kids[s + 1].Leaf?
    ensures var d := FixLeaves(n, s, av); d.Deleted? ==> Shaped(d.node, 1) && d.node.id == n.id
  {
    var l, r := n.kids[s], n.kids[s + 1];
    var all := l.cells + r.cells;
    var mid := |all| / 2;
    ContractShaped(n, 1, s, Leaf(l.id, all, r.next));
    RespaceShaped(n, 1, s, Leaf(l.id, all[..mid], l.next), if mid < |all| then all[mid].key else [],
                  Leaf(r.id, all[mid..], r.next));
  }

  lemma FixInnersShaped(n: Node, h: nat, s: nat, av: seq<PageId>)
    requires Shaped(n, h) && n.Inner? && s < |n.keys| && h > 1
    requires Shaped(n.kids[s], h - 1) && Shaped(n.kids[s + 1], h - 1)
    ensures var d := FixInners(n, s, av); d.Deleted? ==> Shaped(d.node, h) && d.node.id == n.id
  {
    var l, r := n.kids[s], n.kids[s + 1];
    var all := Inner(l.id, l.keys + [n.keys[s]] + r.keys, l.kids + r.kids);
    assert Shaped(all, h - 1);
    var mid := |all.keys| / 2;
    ContractShaped(n, h, s, all);
    RespaceShaped(n, h, s, LeftPart(all, mid), all.keys[mid], RightPart(all, mid, r.id));
  }

  lemma RebalanceShaped(n: Node, h: nat, i: nat, av: seq<PageId>)
    requires Shaped(n, h) && n.Inner? && i < |n.kids|
    ensures var d := Rebalance(n, h, i, av); d.Deleted? ==> Shaped(d.node, h) && d.node.id == n.id
  {
    if |n.keys| != 0 {
      var s := if i < |n.keys| then i else i - 1;
      assert Shaped(n.kids[s], h - 1) && Shaped(n.kids[s + 1], h - 1);
      if h == 1 {
        FixLeavesShaped(n, s, av);
      } else {
        FixInnersShaped(n, h, s, av);
      }
    }
  }

  ghost function DeleteLeaf(n: Node, key: Bytes, av: seq<PageId>, root: PageId): Deleted
    requires n.Leaf?
  {
    var i := Slot(n.cells, key);
    if !HasKeyAt(n.cells, i, key) then NotDeleted(KeyNotFound)
    else
      var cells := RemoveAt(n.cells, i);
      Deleted(Leaf(n.id, cells, n.next), n.id != root && LeafUnderflow(cells), av + n.cells[i].chain)
  }

  ghost function Delete(n: Node, h: nat, key: Bytes, av: seq<PageId>, root: PageId): (d: Deleted)
    requires Shaped(n, h)
    ensures d.Deleted? ==> Shaped(d.node, h) && d.node.id == n.id
    decreases h
  {
    match n
    case Leaf(_, _, _) => DeleteLeaf(n, key, av, root)
    case Inner(id, keys, kids) =>
      var i := Route(keys, key);
      var r := Delete(kids[i], h - 1, key, av, root);
      if r.NotDeleted? then r
      else
        var n' := Replace(n, i, r.node);
        assert Shaped(n', h);
        if !r.underflow then Deleted(n', false, r.av)
        else
          RebalanceShaped(n', h, i, r.av);
          Rebalance(n', h, i, r.av)
  }

  /** `Delete` of the tree, with `collapseRoot`. */
  ghost function Remove(t: Shape, key: Bytes, av: seq<PageId>): Outcome
    requires ShapedTree(t)
  {
    if key == [] then Outcome(EmptyKey, t, av)
    else if t.Empty? then Outcome(KeyNotFound, t, av)
    else
      var d := Delete(t.node, t.height, key, av, t.node.id);
      match d
      case NotDeleted(s) => Outcome(s, t, av)
      case Deleted(node, _, av') =>
        if node.Inner? && node.keys == [] then Outcome(Done, Root(node.kids[0], t.height - 1), av' + [node.id])
        else Outcome(Done, Root(node, t.height), av')
  }
}
