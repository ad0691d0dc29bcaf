/** Pages, and when a heap of pages holds a tree. */
module Pages {
  import opened Bytes
  import opened TreeModel
  import opened TreeView
  import opened TreeSurgery
  import opened TreeDelete

  /** A stored value: inline, or the first overflow page and the length, which
      the page keeps in 32 bits. */
  datatype Stored = Inline(val: Bytes) | Overflow(first: PageId, len: nat)

  datatype LeafCell = LeafCell(key: Bytes, val: Stored)

  datatype InnerCell = InnerCell(key: Bytes, child: PageId)

  datatype Page =
    | LeafPage(cells: seq<LeafCell>, next: PageId)
    | InnerPage(first: PageId, seps: seq<InnerCell>)
    | OverflowPage(link: PageId, data: Bytes)

  type Heap = map<PageId, Page>

  const LEN_LIMIT: nat := 0x1_0000_0000

  // ---------- pages as cells ----------

  function LeafKeys(cells: seq<LeafCell>): (keys: seq<Bytes>)
    ensures |keys| == |cells|
  {
    seq(|cells|, i requires 0 <= i < |cells| => cells[i].key)
  }

  function InnerKeys(seps: seq<InnerCell>): (keys: seq<Bytes>)
    ensures |keys| == |seps|
  {
    seq(|seps|, i requires 0 <= i < |seps| => seps[i].key)
  }

  function StoredLen(v: Stored): nat {
    match v case Inline(b) => |b| case Overflow(_, _) => 12
  }

  function LeafCellSize(c: LeafCell): nat {
    LEAF_CELL_OVERHEAD + |c.key| + StoredLen(c.val)
  }

  function LeafUsed(cells: seq<LeafCell>): nat {
    if cells == [] then 0 else LeafCellSize(cells[0]) + LeafUsed(cells[1..])
  }

  /** The cell a leaf page keeps for `c`. */
  function Store(c: Cell): LeafCell {
    LeafCell(c.key, if |c.val| <= OVERFLOW_THRESHOLD then Inline(c.val)
                    else Overflow(if c.chain == [] then 0 else c.chain[0], |c.val| % LEN_LIMIT))
  }

  function StoreAll(cells: seq<Cell>): (r: seq<LeafCell>)
    ensures |r| == |cells|
  {
    seq(|cells|, i requires 0 <= i < |cells| => Store(cells[i]))
  }

  ghost function Seps(keys: seq<Bytes>, kids: seq<Node>): (r: seq<InnerCell>)
    requires |kids| == |keys| + 1
    ensures |r| == |keys|
  {
    seq(|keys|, i requires 0 <= i < |keys| => InnerCell(keys[i], kids[i + 1].id))
  }

  /** The page of a node. */
  ghost function PageOf(n: Node): Page
    requires n.Inner? ==> |n.kids| == |n.keys| + 1
  {
    match n
    case Leaf(_, cells, next) => LeafPage(StoreAll(cells), next)
    case Inner(_, keys, kids) => InnerPage(kids[0].id, Seps(keys, kids))
  }

  lemma {:induction false} StoreUsed(cells: seq<Cell>)
    ensures LeafUsed(StoreAll(cells)) == Used(cells)
  {
    if cells != [] {
      assert StoreAll(cells)[1..] == StoreAll(cells[1..]);
      StoreUsed(cells[1..]);
    }
  }

  lemma StoreKeys(cells: seq<Cell>, key: Bytes)
    ensures KeySlot(LeafKeys(StoreAll(cells)), key) == Slot(cells, key)
  {
    var i, j := Slot(cells, key), KeySlot(LeafKeys(StoreAll(cells)), key);
    assert forall k :: 0 <= k < |cells| ==> LeafKeys(StoreAll(cells))[k] == cells[k].key;
    assert !(i < j) && !(j < i);
  }

  lemma StoreConcat(a: seq<Cell>, b: seq<Cell>)
    ensures StoreAll(a + b) == StoreAll(a) + StoreAll(b)
  {
  }

  lemma StoreSlices(cells: seq<Cell>, i: nat)
    requires i <= |cells|
    ensures StoreAll(cells[..i]) == StoreAll(cells)[..i] && StoreAll(cells[i..]) == StoreAll(cells)[i..]
  {
  }

  lemma StoreInsertAt(cells: seq<Cell>, i: nat, c: Cell)
    requires i <= |cells|
    ensures StoreAll(InsertAt(cells, i, c)) == InsertAt(StoreAll(cells), i, Store(c))
  {
  }

  lemma StoreRemoveAt(cells: seq<Cell>, i: nat)
    requires i < |cells|
    ensures StoreAll(RemoveAt(cells, i)) == RemoveAt(StoreAll(cells), i)
  {
  }

  lemma SepsKeys(keys: seq<Bytes>, kids: seq<Node>)
    requires |kids| == |keys| + 1
    ensures InnerKeys(Seps(keys, kids)) == keys
  {
  }

  lemma ReplacePage(n: Node, i: nat, c: Node)
    requires n.Inner? && |n.kids| == |n.keys| + 1 && i < |n.kids| && c.id == n.kids[i].id
    ensures PageOf(Replace(n, i, c)) == PageOf(n)
  {
  }

  lemma ExpandPage(n: Node, i: nat, j: nat, l: Node, sep: Bytes, r: Node)
    requires n.Inner? && |n.kids| == |n.keys| + 1 && i < |n.kids| && j <= |n.keys| && l.id == n.kids[i].id
    ensures var m := Expand(n, i, j, l, sep, r);
            && |m.kids| == |m.keys| + 1
            && PageOf(m) == InnerPage(n.kids[0].id, InsertAt(Seps(n.keys, n.kids), j, InnerCell(sep, r.id)))
  {
    var m := Expand(n, i, j, l, sep, r);
    var a, b := Seps(m.keys, m.kids), InsertAt(Seps(n.keys, n.kids), j, InnerCell(sep, r.id));
    var kids := n.kids[i := l];
    forall k | 0 <= k < |a| ensures a[k] == b[k] {
      assert m.keys[k] == if k < j then n.keys[k] else if k == j then sep else n.keys[k - 1];
      assert m.kids[k + 1] == if k < j then kids[k + 1] else if k == j then r else kids[k];
    }
  }

  lemma PartsPage(n: Node, mid: nat, id: PageId)
    requires n.Inner? && |n.kids| == |n.keys| + 1 && mid < |n.keys|
    ensures var seps := Seps(n.keys, n.kids);
            && PageOf(LeftPart(n, mid)) == InnerPage(n.kids[0].id, seps[..mid])
            && PageOf(RightPart(n, mid, id)) == InnerPage(seps[mid].child, seps[mid + 1..])
  {
  }

  lemma ContractPage(n: Node, s: nat, m: Node)
    requires Siblings(n, s) && m.id == n.kids[s].id
    ensures var c := Contract(n, s, m);
            && |c.kids| == |c.keys| + 1
            && PageOf(c) == InnerPage(n.kids[0].id, RemoveAt(Seps(n.keys, n.kids), s))
  {
    var c := Contract(n, s, m);
    var a, b := Seps(c.keys, c.kids), RemoveAt(Seps(n.keys, n.kids), s);
    forall k | 0 <= k < |a| ensures a[k] == b[k] {
      ContractKid(n, s, m, k + 1);
    }
    ContractKid(n, s, m, 0);
  }

  lemma RespacePage(n: Node, s: nat, l: Node, sep: Bytes, r: Node)
    requires Siblings(n, s) && l.id == n.kids[s].id && r.id == n.kids[s + 1].id
    ensures var m := Respace(n, s, l, sep, r);
            PageOf(m) == InnerPage(n.kids[0].id, Seps(n.keys, n.kids)[s := InnerCell(sep, r.id)])
  {
    var m := Respace(n, s, l, sep, r);
    var a, b := Seps(m.keys, m.kids), Seps(n.keys, n.kids)[s := InnerCell(sep, r.id)];
    forall k | 0 <= k < |a| ensures a[k] == b[k] {
    }
  }

  lemma JoinPage(l: Node, sep: Bytes, r: Node)
    requires Joinable(l, r)
    ensures PageOf(Join(l, sep, r)) ==
            InnerPage(l.kids[0].id,
                      Seps(l.keys, l.kids) + [InnerCell(sep, r.kids[0].id)] + Seps(r.keys, r.kids))
  {
    var m := Join(l, sep, r);
    var a := Seps(m.keys, m.kids);
    var b := Seps(l.keys, l.kids) + [InnerCell(sep, r.kids[0].id)] + Seps(r.keys, r.kids);
    forall k | 0 <= k < |a| ensures a[k] == b[k] {
      JoinKey(l.keys, sep, r.keys, k);
      if k > |l.keys| {
        assert m.kids[k + 1] == r.kids[k - |l.keys|];
      }
    }
  }

  // ---------- overflow chains ----------

  function Chunk(val: Bytes, j: nat): Bytes
    requires j * OVERFLOW_PAYLOAD <= |val|
  {
    if (j + 1) * OVERFLOW_PAYLOAD <= |val| then val[j * OVERFLOW_PAYLOAD..(j + 1) * OVERFLOW_PAYLOAD]
    else val[j * OVERFLOW_PAYLOAD..]
  }

  function LinkAfter(chain: seq<PageId>, j: nat): PageId
    requires j < |chain|
  {
    if j + 1 < |chain| then chain[j + 1] else 0
  }

  /** The pages of `chain` are linked in order and hold `val`, a full payload
      at a time. */
  ghost predicate HoldsChain(pages: Heap, chain: seq<PageId>, val: Bytes) {
    && |chain| == PagesFor(|val|)
    && forall j :: 0 <= j < |chain| ==> HoldsChunk(pages, chain, val, j)
  }

  ghost predicate HoldsChunk(pages: Heap, chain: seq<PageId>, val: Bytes, j: nat)
    requires j < |chain|
  {
    && chain[j] in pages
    && pages[chain[j]].OverflowPage?
    && pages[chain[j]].link == LinkAfter(chain, j)
    && |pages[chain[j]].data| == OVERFLOW_PAYLOAD
    && j * OVERFLOW_PAYLOAD <= |val|
    && Chunk(val, j) <= pages[chain[j]].data
  }

  ghost predicate HoldsValue(pages: Heap, c: Cell) {
    if |c.val| <= OVERFLOW_THRESHOLD then c.chain == [] else HoldsChain(pages, c.chain, c.val)
  }

  ghost predicate HoldsValues(pages: Heap, cells: seq<Cell>) {
    forall c :: c in cells ==> HoldsValue(pages, c)
  }

  // ---------- trees ----------

  /** The heap holds the tree `n`: its nodes are on their pages, and so are the
      values kept in overflow chains. */
  ghost predicate Holds(pages: Heap, n: Node) {
    && (n.Inner? ==> |n.kids| == |n.keys| + 1)
    && n.id in pages && pages[n.id] == PageOf(n)
    && match n
       case Leaf(_, cells, _) => HoldsValues(pages, cells)
       case Inner(_, _, kids) => forall i :: 0 <= i < |kids| ==> Holds(pages, kids[i])
  }

  /** Two heaps agree on every page a tree uses. */
  ghost predicate Agree(a: Heap, b: Heap, n: Node) {
    forall p :: Uses(n, p) > 0 && p in a ==> p in b && b[p] == a[p]
  }

  lemma {:induction false} OccIn(s: seq<PageId>, i: nat)
    requires i < |s|
    ensures Occ(s, s[i]) > 0
  {
    if i > 0 {
      OccIn(s[1..], i - 1);
    }
  }

  lemma ChainIn(cells: seq<Cell>, c: Cell, p: PageId)
    requires c in cells
    ensures ChainUses(cells, p) >= Occ(c.chain, p)
  {
    var i :| 0 <= i < |cells| && cells[i] == c;
    ChainUsesSplit(cells, i, p);
  }

  lemma KidUses(n: Node, i: nat, p: PageId)
    requires n.Inner? && i < |n.kids|
    ensures Uses(n, p) >= Uses(n.kids[i], p) + if n.id == p then 1 else 0
  {
    UsesSplit(n.kids, i, p);
  }

  lemma TwoKidsUse(n: Node, i: nat, j: nat, p: PageId)
    requires n.Inner? && i < j < |n.kids|
    ensures Uses(n, p) >= Uses(n.kids[i], p) + Uses(n.kids[j], p)
  {
    UsesSplit(n.kids, j, p);
    UsesSplit(n.kids[..j], i, p);
  }

  lemma HoldsValueFrame(a: Heap, b: Heap, c: Cell)
    requires HoldsValue(a, c)
    requires forall p :: Occ(c.chain, p) > 0 && p in a ==> p in b && b[p] == a[p]
    ensures HoldsValue(b, c)
  {
    forall j | 0 <= j < |c.chain| && |c.val| > OVERFLOW_THRESHOLD ensures HoldsChunk(b, c.chain, c.val, j) {
      assert HoldsChunk(a, c.chain, c.val, j);
      OccIn(c.chain, j);
    }
  }

  lemma {:induction false} HoldsFrame(a: Heap, b: Heap, n: Node)
    requires Holds(a, n) && Agree(a, b, n)
    ensures Holds(b, n)
    decreases n
  {
    match n
    case Leaf(id, cells, _) =>
      forall c | c in cells ensures HoldsValue(b, c) {
        forall p | Occ(c.chain, p) > 0 && p in a ensures p in b && b[p] == a[p] {
          ChainIn(cells, c, p);
          assert Uses(n, p) > 0;
        }
        HoldsValueFrame(a, b, c);
      }
      assert Uses(n, id) > 0;
    case Inner(id, _, kids) =>
      forall i | 0 <= i < |kids| ensures Holds(b, kids[i]) {
        forall p | Uses(kids[i], p) > 0 && p in a ensures p in b && b[p] == a[p] {
          KidUses(n, i, p);
        }
        HoldsFrame(a, b, kids[i]);
      }
      assert Uses(n, id) > 0;
  }

  // ---------- separation ----------

  /** No page of the tree is used twice or free, and page 0 is neither. */
  ghost predicate Separate(n: Node, av: seq<PageId>) {
    && (forall p :: Uses(n, p) + Occ(av, p) <= 1)
    && Uses(n, 0) == 0 && Occ(av, 0) == 0
  }

  /** Nothing outside the tree and the free pages has changed. */
  ghost predicate Untouched(a: Heap, b: Heap, n: Node, av: seq<PageId>) {
    forall p :: p in a && Uses(n, p) == 0 && Occ(av, p) == 0 ==> p in b && b[p] == a[p]
  }

  lemma {:induction false} OccTwice(s: seq<PageId>, i: nat, j: nat)
    requires i < j < |s| && s[i] == s[j]
    ensures Occ(s, s[i]) >= 2
  {
    if i == 0 {
      OccIn(s[1..], j - 1);
    } else {
      OccTwice(s[1..], i - 1, j - 1);
    }
  }

  lemma TakePagesMore(av: seq<PageId>, n: nat)
    requires n < |av|
    ensures TakePages(av, n + 1) == TakePages(av, n) + [av[|av| - 1 - n]]
  {
  }

  lemma KidSeparate(n: Node, i: nat, av: seq<PageId>)
    requires n.Inner? && i < |n.kids| && Separate(n, av)
    ensures Separate(n.kids[i], av) && Uses(n.kids[i], n.id) == 0 && Occ(av, n.id) == 0 && n.id != 0
    ensures forall j, p :: 0 <= j < |n.kids| && j != i && Uses(n.kids[j], p) > 0 ==>
                             Uses(n.kids[i], p) == 0 && Occ(av, p) == 0
  {
    forall p ensures Uses(n, p) >= Uses(n.kids[i], p) + if n.id == p then 1 else 0 {
      KidUses(n, i, p);
    }
    forall j, p | 0 <= j < |n.kids| && j != i && Uses(n.kids[j], p) > 0
      ensures Uses(n.kids[i], p) == 0 && Occ(av, p) == 0
    {
      if i < j {
        TwoKidsUse(n, i, j, p);
      } else {
        TwoKidsUse(n, j, i, p);
      }
    }
    assert Uses(n, n.id) >= 1;
  }

  /** The other children after child `i` has been worked on. */
  lemma OtherKidsHold(a: Heap, b: Heap, n: Node, i: nat, av: seq<PageId>)
    requires n.Inner? && i < |n.kids| && Separate(n, av) && Holds(a, n)
    requires Untouched(a, b, n.kids[i], av)
    ensures forall j :: 0 <= j < |n.kids| && j != i ==> Holds(b, n.kids[j])
    ensures n.id in b && b[n.id] == a[n.id]
  {
    KidSeparate(n, i, av);
    forall j | 0 <= j < |n.kids| && j != i ensures Holds(b, n.kids[j]) {
      HoldsFrame(a, b, n.kids[j]);
    }
  }

  lemma UntouchedUp(a: Heap, b: Heap, n: Node, i: nat, av: seq<PageId>)
    requires n.Inner? && i < |n.kids| && Untouched(a, b, n.kids[i], av)
    ensures Untouched(a, b, n, av)
  {
    forall p | p in a && Uses(n, p) == 0 && Occ(av, p) == 0 ensures p in b && b[p] == a[p] {
      KidUses(n, i, p);
    }
  }
}
