/** What a tree of pages stands for, and what makes it well formed. */
module TreeView {
  import opened Bytes
  import opened TreeModel

  /** A sequence around one of its elements. */
  lemma Around<T>(s: seq<T>, i: nat)
    requires i < |s|
    ensures s[..i] + [s[i]] == s[..i + 1]
    ensures s[..i + 1] + s[i + 1..] == s
    ensures [s[i]] + s[i + 1..] == s[i..]
    ensures s[..i] + s[i..] == s
  {
  }

  // ---------- contents ----------

  /** The cells of a tree in leaf order. */
  ghost function Entries(n: Node): seq<Cell> {
    match n
    case Leaf(_, cells, _) => cells
    case Inner(_, _, kids) => EntriesOf(kids)
  }

  ghost function EntriesOf(kids: seq<Node>): seq<Cell> {
    if kids == [] then [] else Entries(kids[0]) + EntriesOf(kids[1..])
  }

  lemma {:induction false} EntriesConcat(a: seq<Node>, b: seq<Node>)
    ensures EntriesOf(a + b) == EntriesOf(a) + EntriesOf(b)
  {
    if a == [] {
      assert a + b == b;
    } else {
      assert (a + b)[1..] == a[1..] + b;
      EntriesConcat(a[1..], b);
    }
  }

  /** The entries around child `i`. */
  lemma EntriesSplit(kids: seq<Node>, i: nat)
    requires i < |kids|
    ensures EntriesOf(kids) == EntriesOf(kids[..i]) + Entries(kids[i]) + EntriesOf(kids[i + 1..])
  {
    assert kids == kids[..i] + kids[i..];
    EntriesConcat(kids[..i], kids[i..]);
    assert kids[i..][1..] == kids[i + 1..];
  }

  lemma EntriesPair(a: Node, b: Node)
    ensures EntriesOf([a, b]) == Entries(a) + Entries(b)
  {
    assert [a, b][1..] == [b] && [b][1..] == [];
    assert EntriesOf([b]) == Entries(b) + EntriesOf([]);
  }

  // ---------- order ----------

  predicate Sorted(cells: seq<Cell>) {
    forall i, j :: 0 <= i < j < |cells| ==> Rank(cells[i].key) < Rank(cells[j].key)
  }

  predicate Within(cells: seq<Cell>, lo: real, hi: real) {
    forall i :: 0 <= i < |cells| ==> lo <= Rank(cells[i].key) < hi
  }

  predicate SortedKeys(keys: seq<Bytes>) {
    forall i, j :: 0 <= i < j < |keys| ==> Rank(keys[i]) < Rank(keys[j])
  }

  predicate StrictlyWithin(keys: seq<Bytes>, lo: real, hi: real) {
    forall i :: 0 <= i < |keys| ==> lo < Rank(keys[i]) < hi
  }

  /** The bounds that the separators put on child `i`. */
  function Low(keys: seq<Bytes>, lo: real, i: nat): real
    requires i <= |keys|
  {
    if i == 0 then lo else Rank(keys[i - 1])
  }

  function High(keys: seq<Bytes>, hi: real, i: nat): real
    requires i <= |keys|
  {
    if i == |keys| then hi else Rank(keys[i])
  }

  /** Cells and separators are strictly sorted, and each separator bounds the
      subtrees on its two sides: what lies left of it is below it, what lies
      right of it is not. */
  ghost predicate Ordered(n: Node, lo: real, hi: real) {
    match n
    case Leaf(_, cells, _) => Sorted(cells) && Within(cells, lo, hi)
    case Inner(_, keys, kids) =>
      && |kids| == |keys| + 1
      && SortedKeys(keys) && StrictlyWithin(keys, lo, hi)
      && forall i :: 0 <= i < |kids| ==> Ordered(kids[i], Low(keys, lo, i), High(keys, hi, i))
  }

  /** Entries of the first `i` children lie below separator `i - 1`. */
  lemma {:induction false} PrefixOrdered(n: Node, lo: real, hi: real, i: nat)
    requires n.Inner? && Ordered(n, lo, hi) && i <= |n.keys|
    ensures Sorted(EntriesOf(n.kids[..i]))
    ensures Within(EntriesOf(n.kids[..i]), lo, Low(n.keys, lo, i))
    decreases n, 0, i
  {
    if i > 0 {
      PrefixOrdered(n, lo, hi, i - 1);
      EntriesOrdered(n.kids[i - 1], Low(n.keys, lo, i - 1), High(n.keys, hi, i - 1));
      EntriesSplit(n.kids[..i], i - 1);
      assert n.kids[..i][..i - 1] == n.kids[..i - 1] && n.kids[..i][i..] == [];
      assert EntriesOf(n.kids[..i]) == EntriesOf(n.kids[..i - 1]) + Entries(n.kids[i - 1]);
      LowRises(n, lo, hi, i);
      SortedConcat(EntriesOf(n.kids[..i - 1]), Entries(n.kids[i - 1]),
                   lo, Low(n.keys, lo, i - 1), Low(n.keys, lo, i));
    } else {
      assert n.kids[..0] == [];
    }
  }

  lemma LowRises(n: Node, lo: real, hi: real, i: nat)
    requires n.Inner? && Ordered(n, lo, hi) && 0 < i <= |n.keys|
    ensures lo <= Low(n.keys, lo, i - 1) <= Low(n.keys, lo, i) == High(n.keys, hi, i - 1)
  {
    hide Rank;
  }

  lemma SortedConcat(a: seq<Cell>, b: seq<Cell>, lo: real, mid: real, hi: real)
    requires Sorted(a) && Within(a, lo, mid) && Sorted(b) && Within(b, mid, hi) && lo <= mid <= hi
    ensures Sorted(a + b) && Within(a + b, lo, hi)
  {
    hide Rank;
  }

  /** A tree in order has its entries strictly sorted and within its bounds. */
  lemma {:induction false} EntriesOrdered(n: Node, lo: real, hi: real)
    requires Ordered(n, lo, hi)
    ensures Sorted(Entries(n)) && Within(Entries(n), lo, hi)
    decreases n, 1
  {
    if n.Inner? {
      var i := |n.keys|;
      PrefixOrdered(n, lo, hi, i);
      EntriesOrdered(n.kids[i], Low(n.keys, lo, i), High(n.keys, hi, i));
      EntriesSplit(n.kids, i);
      assert n.kids[i + 1..] == [];
      assert Entries(n) == EntriesOf(n.kids[..i]) + Entries(n.kids[i]);
      assert lo <= Low(n.keys, lo, i);
      if i > 0 {
        SortedConcat(EntriesOf(n.kids[..i]), Entries(n.kids[i]), lo, Low(n.keys, lo, i), hi);
      } else {
        assert n.kids[..i] == [];
      }
    }
  }

  /** Entries of the children after `i` are not below separator `i`. */
  lemma SuffixOrdered(n: Node, lo: real, hi: real, i: nat)
    requires n.Inner? && Ordered(n, lo, hi) && i <= |n.keys|
    ensures Within(EntriesOf(n.kids[i + 1..]), High(n.keys, hi, i), hi)
    decreases |n.keys| - i
  {
    if i < |n.keys| {
      SuffixOrdered(n, lo, hi, i + 1);
      EntriesOrdered(n.kids[i + 1], Low(n.keys, lo, i + 1), High(n.keys, hi, i + 1));
      assert n.kids[i + 1..][1..] == n.kids[i + 2..];
    } else {
      assert n.kids[i + 1..] == [];
    }
  }

  // ---------- the leaf list ----------

  ghost function FirstLeaf(n: Node): PageId {
    match n
    case Leaf(id, _, _) => id
    case Inner(_, _, kids) => if kids == [] then 0 else FirstLeaf(kids[0])
  }

  /** The leaf that follows child `i`, when `after` follows the last child. */
  ghost function After(kids: seq<Node>, i: nat, after: PageId): PageId {
    if i + 1 < |kids| then FirstLeaf(kids[i + 1]) else after
  }

  /** Following the next-leaf pointers from the first leaf visits the leaves in
      order and then reaches `after`. */
  ghost predicate Chained(n: Node, after: PageId) {
    match n
    case Leaf(_, _, next) => next == after
    case Inner(_, _, kids) => forall i :: 0 <= i < |kids| ==> Chained(kids[i], After(kids, i, after))
  }

  // ---------- pages ----------

  /** How often `p` occurs in a sequence. */
  function Occ(s: seq<PageId>, p: PageId): nat {
    if s == [] then 0 else (if s[0] == p then 1 else 0) + Occ(s[1..], p)
  }

  lemma {:induction false} OccConcat(a: seq<PageId>, b: seq<PageId>, p: PageId)
    ensures Occ(a + b, p) == Occ(a, p) + Occ(b, p)
  {
    if a == [] {
      assert a + b == b;
    } else {
      assert (a + b)[1..] == a[1..] + b;
      OccConcat(a[1..], b, p);
    }
  }

  lemma OccLast(s: seq<PageId>, p: PageId)
    requires s != []
    ensures Occ(s, p) == Occ(s[..|s| - 1], p) + if s[|s| - 1] == p then 1 else 0
  {
    var a, b := s[..|s| - 1], [s[|s| - 1]];
    assert a + b == s;
    OccConcat(a, b, p);
    assert b[1..] == [] && Occ(b[1..], p) == 0;
  }

  function ChainUses(cells: seq<Cell>, p: PageId): nat {
    if cells == [] then 0 else Occ(cells[0].chain, p) + ChainUses(cells[1..], p)
  }

  lemma {:induction false} ChainUsesConcat(a: seq<Cell>, b: seq<Cell>, p: PageId)
    ensures ChainUses(a + b, p) == ChainUses(a, p) + ChainUses(b, p)
  {
    if a == [] {
      assert a + b == b;
    } else {
      assert (a + b)[1..] == a[1..] + b;
      ChainUsesConcat(a[1..], b, p);
    }
  }

  lemma ChainUsesSplit(cells: seq<Cell>, i: nat, p: PageId)
    requires i < |cells|
    ensures ChainUses(cells, p) == ChainUses(cells[..i], p) + Occ(cells[i].chain, p) + ChainUses(cells[i + 1..], p)
  {
    assert cells == cells[..i] + cells[i..];
    ChainUsesConcat(cells[..i], cells[i..], p);
    assert cells[i..][1..] == cells[i + 1..];
  }

  /** How often a tree uses page `p`, as a node or in an overflow chain. */
  ghost function Uses(n: Node, p: PageId): nat {
    match n
    case Leaf(id, cells, _) => (if id == p then 1 else 0) + ChainUses(cells, p)
    case Inner(id, _, kids) => (if id == p then 1 else 0) + UsesOf(kids, p)
  }

  ghost function UsesOf(kids: seq<Node>, p: PageId): nat {
    if kids == [] then 0 else Uses(kids[0], p) + UsesOf(kids[1..], p)
  }

  lemma {:induction false} UsesConcat(a: seq<Node>, b: seq<Node>, p: PageId)
    ensures UsesOf(a + b, p) == UsesOf(a, p) + UsesOf(b, p)
  {
    if a == [] {
      assert a + b == b;
    } else {
      assert (a + b)[1..] == a[1..] + b;
      UsesConcat(a[1..], b, p);
    }
  }

  lemma UsesSplit(kids: seq<Node>, i: nat, p: PageId)
    requires i < |kids|
    ensures UsesOf(kids, p) == UsesOf(kids[..i], p) + Uses(kids[i], p) + UsesOf(kids[i + 1..], p)
  {
    assert kids == kids[..i] + kids[i..];
    UsesConcat(kids[..i], kids[i..], p);
    assert kids[i..][1..] == kids[i + 1..];
  }

  // ---------- sizes ----------

  /** Every node's cells fit on its page. */
  ghost predicate Fits(n: Node) {
    match n
    case Leaf(_, cells, _) => Used(cells) <= MAX_CELL_AREA
    case Inner(_, keys, kids) =>
      UsedKeys(keys) <= MAX_CELL_AREA && forall i :: 0 <= i < |kids| ==> Fits(kids[i])
  }

  lemma {:induction false} UsedConcat(a: seq<Cell>, b: seq<Cell>)
    ensures Used(a + b) == Used(a) + Used(b)
  {
    if a == [] {
      assert a + b == b;
    } else {
      assert (a + b)[1..] == a[1..] + b;
      UsedConcat(a[1..], b);
    }
  }

  lemma {:induction false} UsedKeysConcat(a: seq<Bytes>, b: seq<Bytes>)
    ensures UsedKeys(a + b) == UsedKeys(a) + UsedKeys(b)
  {
    if a == [] {
      assert a + b == b;
    } else {
      assert (a + b)[1..] == a[1..] + b;
      UsedKeysConcat(a[1..], b);
    }
  }

  lemma UsedRemoveAt(cells: seq<Cell>, i: nat)
    requires i < |cells|
    ensures Used(RemoveAt(cells, i)) + CellSize(cells[i]) == Used(cells)
  {
    assert cells == cells[..i] + cells[i..];
    UsedConcat(cells[..i], cells[i..]);
    UsedConcat(cells[..i], cells[i + 1..]);
    assert cells[i..][1..] == cells[i + 1..];
  }

  lemma UsedKeysRemoveAt(keys: seq<Bytes>, i: nat)
    requires i < |keys|
    ensures UsedKeys(RemoveAt(keys, i)) + INNER_CELL_OVERHEAD + |keys[i]| == UsedKeys(keys)
  {
    assert keys == keys[..i] + keys[i..];
    UsedKeysConcat(keys[..i], keys[i..]);
    UsedKeysConcat(keys[..i], keys[i + 1..]);
    assert keys[i..][1..] == keys[i + 1..];
  }

  // ---------- the map ----------

  /** Inserting or replacing a cell in a sorted sequence. */
  function PutCell(cells: seq<Cell>, c: Cell): seq<Cell> {
    var i := Slot(cells, c.key);
    if HasKeyAt(cells, i, c.key) then cells[i := c] else InsertAt(cells, i, c)
  }

  function DropCell(cells: seq<Cell>, key: Bytes): seq<Cell> {
    var i := Slot(cells, key);
    if HasKeyAt(cells, i, key) then RemoveAt(cells, i) else cells
  }

  ghost function Contents(cells: seq<Cell>): map<Bytes, Bytes> {
    if cells == [] then map[] else Contents(cells[..|cells| - 1])[cells[|cells| - 1].key := cells[|cells| - 1].val]
  }

  /** In a sorted sequence the map has exactly the cells. */
  lemma {:induction false} ContentsAt(cells: seq<Cell>)
    requires Sorted(cells)
    ensures forall c :: c in cells ==> c.key in Contents(cells) && Contents(cells)[c.key] == c.val
    ensures forall k :: k in Contents(cells) ==> exists c :: c in cells && c.key == k
  {
    if cells != [] {
      var n := |cells| - 1;
      ContentsAt(cells[..n]);
      assert cells == cells[..n] + [cells[n]];
    }
  }

  lemma ContentsEqual(cells: seq<Cell>, m: map<Bytes, Bytes>)
    requires Sorted(cells)
    requires forall c :: c in cells ==> c.key in m && m[c.key] == c.val
    requires forall k :: k in m ==> exists c :: c in cells && c.key == k
    ensures Contents(cells) == m
  {
    ContentsAt(cells);
  }

  /** The slot of a key is the only place that separates smaller keys from the
      others. */
  lemma SlotUnique(cells: seq<Cell>, key: Bytes, i: nat)
    requires i <= |cells|
    requires forall j :: 0 <= j < i ==> Rank(cells[j].key) < Rank(key)
    requires i < |cells| ==> Rank(key) <= Rank(cells[i].key)
    ensures Slot(cells, key) == i
  {
    hide Rank, Slot;
  }

  /** The slot of a key tells whether the map has it. */
  lemma SlotContents(cells: seq<Cell>, key: Bytes)
    requires Sorted(cells)
    ensures HasKeyAt(cells, Slot(cells, key), key) <==> key in Contents(cells)
    ensures key in Contents(cells) ==> Contents(cells)[key] == cells[Slot(cells, key)].val
  {
    ContentsAt(cells);
    if key in Contents(cells) {
      var c :| c in cells && c.key == key;
      var i :| 0 <= i < |cells| && cells[i] == c;
      SlotUnique(cells, key, i);
    }
  }

  lemma PutCellSorted(cells: seq<Cell>, c: Cell)
    requires Sorted(cells)
    ensures Sorted(PutCell(cells, c))
  {
    var i := Slot(cells, c.key);
    if i < |cells| {
      RankInjective(cells[i].key, c.key);
    }
    hide Rank;
    var r := PutCell(cells, c);
    var skip := if HasKeyAt(cells, i, c.key) then 1 else 0;
    var a, b := cells[..i], cells[i + skip..];
    assert r == a + [c] + b;
    forall j, k | 0 <= j < k < |r| ensures Rank(r[j].key) < Rank(r[k].key) {
      ConcatAt(a, [c], b, j);
      ConcatAt(a, [c], b, k);
    }
  }

  lemma PutCellMembers(cells: seq<Cell>, c: Cell)
    requires Sorted(cells)
    ensures Sorted(PutCell(cells, c))
    ensures forall x :: x in PutCell(cells, c) <==> x == c || (x in cells && x.key != c.key)
  {
    hide Rank, Slot;
    PutCellSorted(cells, c);
    var i := Slot(cells, c.key);
    var r := PutCell(cells, c);
    if HasKeyAt(cells, i, c.key) {
      assert cells == cells[..i] + [cells[i]] + cells[i + 1..];
      assert r == cells[..i] + [c] + cells[i + 1..];
    } else {
      assert cells == cells[..i] + cells[i..];
      assert r == cells[..i] + [c] + cells[i..];
      KeyAbsent(cells, c.key);
    }
  }

  /** A key that is not at its slot is nowhere. */
  lemma KeyAbsent(cells: seq<Cell>, key: Bytes)
    requires Sorted(cells) && !HasKeyAt(cells, Slot(cells, key), key)
    ensures forall x :: x in cells ==> x.key != key
  {
    var i := Slot(cells, key);
    if i < |cells| {
      RankInjective(cells[i].key, key);
    }
  }

  lemma DropCellMembers(cells: seq<Cell>, key: Bytes)
    requires Sorted(cells)
    ensures Sorted(DropCell(cells, key))
    ensures forall x :: x in DropCell(cells, key) <==> x in cells && x.key != key
  {
    hide Rank;
    var i := Slot(cells, key);
    if HasKeyAt(cells, i, key) {
      assert cells == cells[..i] + [cells[i]] + cells[i + 1..];
    } else {
      KeyAbsent(cells, key);
    }
  }

  /** `PutCell` is map update. */
  lemma PutCellIsUpdate(cells: seq<Cell>, c: Cell)
    requires Sorted(cells)
    ensures Sorted(PutCell(cells, c))
    ensures Contents(PutCell(cells, c)) == Contents(cells)[c.key := c.val]
  {
    var m := Contents(cells)[c.key := c.val];
    ContentsAt(cells);
    PutCellMembers(cells, c);
    forall k | k in m ensures exists x :: x in PutCell(cells, c) && x.key == k {
      if k == c.key {
        assert c in PutCell(cells, c);
      }
    }
    ContentsEqual(PutCell(cells, c), m);
  }

  /** `DropCell` is map removal. */
  lemma DropCellIsRemoval(cells: seq<Cell>, key: Bytes)
    requires Sorted(cells)
    ensures Sorted(DropCell(cells, key))
    ensures Contents(DropCell(cells, key)) == Contents(cells) - {key}
  {
    ContentsAt(cells);
    DropCellMembers(cells, key);
    ContentsEqual(DropCell(cells, key), Contents(cells) - {key});
  }

  predicate AllBelow(cells: seq<Cell>, key: Bytes) {
    forall i :: 0 <= i < |cells| ==> Rank(cells[i].key) < Rank(key)
  }

  predicate AllAbove(cells: seq<Cell>, key: Bytes) {
    forall i :: 0 <= i < |cells| ==> Rank(key) < Rank(cells[i].key)
  }

  lemma {:induction false} SlotPrefix(a: seq<Cell>, s: seq<Cell>, key: Bytes)
    requires AllBelow(a, key)
    ensures Slot(a + s, key) == |a| + Slot(s, key)
  {
    hide Rank;
    if a == [] {
      assert a + s == s;
    } else {
      assert (a + s)[1..] == a[1..] + s;
      SlotPrefix(a[1..], s, key);
    }
  }

  lemma {:induction false} SlotSuffix(e: seq<Cell>, b: seq<Cell>, key: Bytes)
    requires AllAbove(b, key)
    ensures Slot(e + b, key) == Slot(e, key)
  {
    hide Rank;
    if e == [] {
      assert e + b == b;
    } else {
      assert (e + b)[1..] == e[1..] + b;
      SlotSuffix(e[1..], b, key);
    }
  }

  /** Entries that all lie below, or all lie above, the key stay where they
      are. */
  lemma SlotInside(a: seq<Cell>, e: seq<Cell>, b: seq<Cell>, key: Bytes)
    requires AllBelow(a, key) && AllAbove(b, key)
    ensures Slot(a + e + b, key) == |a| + Slot(e, key)
  {
    hide Rank, Slot, AllBelow, AllAbove;
    assert a + e + b == a + (e + b);
    SlotPrefix(a, e + b, key);
    SlotSuffix(e, b, key);
  }

  lemma HasKeyInside(a: seq<Cell>, e: seq<Cell>, b: seq<Cell>, j: nat, key: Bytes)
    requires j <= |e| && (b == [] || b[0].key != key)
    ensures HasKeyAt(a + e + b, |a| + j, key) == HasKeyAt(e, j, key)
  {
    if |a| + j < |a| + |e| + |b| {
      ConcatAt(a, e, b, |a| + j);
    }
  }

  lemma AboveDiffers(b: seq<Cell>, key: Bytes)
    requires AllAbove(b, key)
    ensures b == [] || b[0].key != key
  {
  }

  lemma ConcatAt<T>(a: seq<T>, e: seq<T>, b: seq<T>, k: nat)
    requires k < |a| + |e| + |b|
    ensures (a + e + b)[k] == if k < |a| then a[k] else if k < |a| + |e| then e[k - |a|] else b[k - |a| - |e|]
  {
  }

  lemma InsertInside<T>(a: seq<T>, e: seq<T>, b: seq<T>, j: nat, x: T)
    requires j <= |e|
    ensures InsertAt(a + e + b, |a| + j, x) == a + InsertAt(e, j, x) + b
  {
    assert (a + e + b)[..|a| + j] == a + e[..j];
    assert (a + e + b)[|a| + j..] == e[j..] + b;
  }

  lemma RemoveInside<T>(a: seq<T>, e: seq<T>, b: seq<T>, j: nat)
    requires j < |e|
    ensures RemoveAt(a + e + b, |a| + j) == a + RemoveAt(e, j) + b
  {
    assert (a + e + b)[..|a| + j] == a + e[..j];
    assert (a + e + b)[|a| + j + 1..] == e[j + 1..] + b;
  }

  lemma UpdateInside<T>(a: seq<T>, e: seq<T>, b: seq<T>, j: nat, x: T)
    requires j < |e|
    ensures (a + e + b)[|a| + j := x] == a + e[j := x] + b
  {
  }

  lemma PutCellInside(a: seq<Cell>, e: seq<Cell>, b: seq<Cell>, c: Cell)
    requires AllBelow(a, c.key) && AllAbove(b, c.key)
    ensures PutCell(a + e + b, c) == a + PutCell(e, c) + b
  {
    hide Rank, Slot, AllBelow, AllAbove, InsertAt, HasKeyAt;
    SlotInside(a, e, b, c.key);
    AboveDiffers(b, c.key);
    var j := Slot(e, c.key);
    HasKeyInside(a, e, b, j, c.key);
    if HasKeyAt(e, j, c.key) {
      HasKeyInRange(e, j, c.key);
      UpdateInside(a, e, b, j, c);
    } else {
      InsertInside(a, e, b, j, c);
    }
  }

  lemma HasKeyInRange(cells: seq<Cell>, i: nat, key: Bytes)
    requires HasKeyAt(cells, i, key)
    ensures i < |cells|
  {
  }

  lemma DropCellInside(a: seq<Cell>, e: seq<Cell>, b: seq<Cell>, key: Bytes)
    requires AllBelow(a, key) && AllAbove(b, key)
    ensures DropCell(a + e + b, key) == a + DropCell(e, key) + b
  {
    hide Rank, Slot, AllBelow, AllAbove, RemoveAt, HasKeyAt;
    SlotInside(a, e, b, key);
    AboveDiffers(b, key);
    var j := Slot(e, key);
    HasKeyInside(a, e, b, j, key);
    if HasKeyAt(e, j, key) {
      HasKeyInRange(e, j, key);
      RemoveInside(a, e, b, j);
    }
  }
}
