/** What `Delete` keeps and what it does to the contents. */
module TreeDelete {
  import opened Bytes
  import opened TreeModel
  import opened TreeView
  import opened TreeSurgery
  import TreeInsert

  // ---------- two siblings as one ----------

  ghost predicate Siblings(n: Node, s: nat) {
    n.Inner? && |n.kids| == |n.keys| + 1 && s < |n.keys|
  }

  lemma ContractKid(n: Node, s: nat, m: Node, j: nat)
    requires Siblings(n, s) && j < |n.keys|
    ensures var c := Contract(n, s, m);
            && |c.kids| == |n.keys|
            && c.kids[j] == (if j < s then n.kids[j] else if j == s then m else n.kids[j + 1])
  {
  }

  lemma ContractBounds(n: Node, s: nat, lo: real, hi: real, m: Node, j: nat)
    requires Siblings(n, s) && j < |n.keys|
    ensures var c := Contract(n, s, m);
            && |c.keys| == |n.keys| - 1
            && Low(c.keys, lo, j) == (if j <= s then Low(n.keys, lo, j) else Low(n.keys, lo, j + 1))
            && High(c.keys, hi, j) == (if j < s then High(n.keys, hi, j) else High(n.keys, hi, j + 1))
  {
    hide Rank;
    var keys := RemoveAt(n.keys, s);
    if 0 < j {
      assert keys[j - 1] == if j - 1 < s then n.keys[j - 1] else n.keys[j];
    }
    if j < |keys| {
      assert keys[j] == if j < s then n.keys[j] else n.keys[j + 1];
    }
  }

  lemma ContractOrdered(n: Node, s: nat, m: Node, lo: real, hi: real)
    requires Siblings(n, s) && Ordered(n, lo, hi)
    requires Ordered(m, Low(n.keys, lo, s), High(n.keys, hi, s + 1))
    ensures Ordered(Contract(n, s, m), lo, hi)
  {
    hide Rank;
    var c := Contract(n, s, m);
    forall j | 0 <= j < |c.kids| ensures Ordered(c.kids[j], Low(c.keys, lo, j), High(c.keys, hi, j)) {
      ContractKid(n, s, m, j);
      ContractBounds(n, s, lo, hi, m, j);
    }
  }

  lemma ContractEntries(n: Node, s: nat, m: Node)
    requires Siblings(n, s) && Entries(m) == Entries(n.kids[s]) + Entries(n.kids[s + 1])
    ensures Entries(Contract(n, s, m)) == Entries(n)
  {
    var l, r := n.kids[s], n.kids[s + 1];
    var a, b := n.kids[..s], n.kids[s + 2..];
    assert n.kids == a + [l, r] + b;
    assert Contract(n, s, m).kids == a + [m] + b;
    EntriesConcat(a + [l, r], b);
    EntriesConcat(a, [l, r]);
    EntriesConcat(a + [m], b);
    EntriesConcat(a, [m]);
    EntriesPair(l, r);
    EntriesSingle(m);
  }

  lemma EntriesSingle(m: Node)
    ensures EntriesOf([m]) == Entries(m)
  {
    assert [m][1..] == [] && EntriesOf([m][1..]) == [];
  }

  lemma ContractChained(n: Node, s: nat, m: Node, after: PageId)
    requires Siblings(n, s) && Chained(n, after)
    requires Chained(m, After(n.kids, s + 1, after)) && FirstLeaf(m) == FirstLeaf(n.kids[s])
    ensures Chained(Contract(n, s, m), after) && FirstLeaf(Contract(n, s, m)) == FirstLeaf(n)
  {
    var kids := Contract(n, s, m).kids;
    forall j | 0 <= j < |kids| ensures Chained(kids[j], After(kids, j, after)) {
      ContractKid(n, s, m, j);
      if j + 1 < |kids| {
        ContractKid(n, s, m, j + 1);
      }
      if j < s {
        assert Chained(n.kids[j], After(n.kids, j, after));
      } else if j > s {
        assert Chained(n.kids[j + 1], After(n.kids, j + 1, after));
      }
    }
    ContractKid(n, s, m, 0);
  }

  lemma ContractUses(n: Node, s: nat, m: Node, p: PageId)
    requires Siblings(n, s)
    ensures Uses(Contract(n, s, m), p) + Uses(n.kids[s], p) + Uses(n.kids[s + 1], p) == Uses(n, p) + Uses(m, p)
  {
    var l, r := n.kids[s], n.kids[s + 1];
    var a, b := n.kids[..s], n.kids[s + 2..];
    assert n.kids == a + [l, r] + b;
    assert Contract(n, s, m).kids == a + [m] + b;
    UsesConcat(a + [l, r], b, p);
    UsesConcat(a, [l, r], p);
    UsesConcat(a + [m], b, p);
    UsesConcat(a, [m], p);
    UsesPair(l, r, p);
    UsesSingle(m, p);
  }

  lemma UsesSingle(m: Node, p: PageId)
    ensures UsesOf([m], p) == Uses(m, p)
  {
    assert [m][1..] == [] && UsesOf([m][1..], p) == 0;
  }

  lemma UsesPair(l: Node, r: Node, p: PageId)
    ensures UsesOf([l, r], p) == Uses(l, p) + Uses(r, p)
  {
    assert [l, r][1..] == [r];
    UsesSingle(r, p);
  }

  // ---------- two siblings rewritten ----------

  lemma RespaceOrdered(n: Node, s: nat, l: Node, sep: Bytes, r: Node, lo: real, hi: real)
    requires Siblings(n, s) && Ordered(n, lo, hi)
    requires Low(n.keys, lo, s) < Rank(sep) < High(n.keys, hi, s + 1)
    requires Ordered(l, Low(n.keys, lo, s), Rank(sep)) && Ordered(r, Rank(sep), High(n.keys, hi, s + 1))
    requires lo < Rank(sep) < hi
    ensures Ordered(Respace(n, s, l, sep, r), lo, hi)
  {
    hide Rank;
    var m := Respace(n, s, l, sep, r);
    forall j | 0 <= j < |m.kids| ensures Ordered(m.kids[j], Low(m.keys, lo, j), High(m.keys, hi, j)) {
      if j < s || j > s + 1 {
        assert Ordered(n.kids[j], Low(n.keys, lo, j), High(n.keys, hi, j));
      }
    }
  }

  lemma RespaceEntries(n: Node, s: nat, l: Node, sep: Bytes, r: Node)
    requires Siblings(n, s) && Entries(l) + Entries(r) == Entries(n.kids[s]) + Entries(n.kids[s + 1])
    ensures Entries(Respace(n, s, l, sep, r)) == Entries(n)
  {
    var a, b := n.kids[..s], n.kids[s + 2..];
    var l0, r0 := n.kids[s], n.kids[s + 1];
    assert n.kids == a + [l0, r0] + b;
    assert Respace(n, s, l, sep, r).kids == a + [l, r] + b;
    EntriesConcat(a + [l0, r0], b);
    EntriesConcat(a, [l0, r0]);
    EntriesConcat(a + [l, r], b);
    EntriesConcat(a, [l, r]);
    EntriesPair(l0, r0);
    EntriesPair(l, r);
  }

  lemma RespaceChained(n: Node, s: nat, l: Node, sep: Bytes, r: Node, after: PageId)
    requires Siblings(n, s) && Chained(n, after)
    requires Chained(l, FirstLeaf(r)) && Chained(r, After(n.kids, s + 1, after))
    requires FirstLeaf(l) == FirstLeaf(n.kids[s])
    ensures Chained(Respace(n, s, l, sep, r), after) && FirstLeaf(Respace(n, s, l, sep, r)) == FirstLeaf(n)
  {
    var kids := Respace(n, s, l, sep, r).kids;
    forall j | 0 <= j < |kids| ensures Chained(kids[j], After(kids, j, after)) {
      if j < s || j > s + 1 {
        assert Chained(n.kids[j], After(n.kids, j, after));
      }
    }
  }

  lemma RespaceUses(n: Node, s: nat, l: Node, sep: Bytes, r: Node, p: PageId)
    requires Siblings(n, s)
    ensures Uses(Respace(n, s, l, sep, r), p) + Uses(n.kids[s], p) + Uses(n.kids[s + 1], p) ==
            Uses(n, p) + Uses(l, p) + Uses(r, p)
  {
    var a, b := n.kids[..s], n.kids[s + 2..];
    var l0, r0 := n.kids[s], n.kids[s + 1];
    assert n.kids == a + [l0, r0] + b;
    assert Respace(n, s, l, sep, r).kids == a + [l, r] + b;
    UsesConcat(a + [l0, r0], b, p);
    UsesConcat(a, [l0, r0], p);
    UsesConcat(a + [l, r], b, p);
    UsesConcat(a, [l, r], p);
    UsesPair(l0, r0, p);
    UsesPair(l, r, p);
  }

  // ---------- two internal siblings and their separator as one node ----------

  ghost function Join(l: Node, sep: Bytes, r: Node): Node
    requires l.Inner? && r.Inner?
  {
    Inner(l.id, l.keys + [sep] + r.keys, l.kids + r.kids)
  }

  ghost predicate Joinable(l: Node, r: Node) {
    l.Inner? && r.Inner? && |l.kids| == |l.keys| + 1 && |r.kids| == |r.keys| + 1
  }

  /** A separator of the joined node, by where it came from. */
  lemma JoinKey(lk: seq<Bytes>, sep: Bytes, rk: seq<Bytes>, j: nat)
    requires j < |lk| + 1 + |rk|
    ensures (lk + [sep] + rk)[j] == if j < |lk| then lk[j] else if j == |lk| then sep else rk[j - |lk| - 1]
  {
  }

  lemma JoinKeysSorted(lk: seq<Bytes>, sep: Bytes, rk: seq<Bytes>, lo: real, hi: real)
    requires SortedKeys(lk) && StrictlyWithin(lk, lo, Rank(sep))
    requires SortedKeys(rk) && StrictlyWithin(rk, Rank(sep), hi)
    requires lo < Rank(sep) < hi
    ensures SortedKeys(lk + [sep] + rk) && StrictlyWithin(lk + [sep] + rk, lo, hi)
  {
    var keys := lk + [sep] + rk;
    forall i, j | 0 <= i < j < |keys| ensures Rank(keys[i]) < Rank(keys[j]) {
      JoinKeysLess(lk, sep, rk, lo, hi, i, j);
    }
    forall i | 0 <= i < |keys| ensures lo < Rank(keys[i]) < hi {
      hide Rank;
      JoinKey(lk, sep, rk, i);
    }
  }

  lemma JoinKeysLess(lk: seq<Bytes>, sep: Bytes, rk: seq<Bytes>, lo: real, hi: real, i: nat, j: nat)
    requires SortedKeys(lk) && StrictlyWithin(lk, lo, Rank(sep))
    requires SortedKeys(rk) && StrictlyWithin(rk, Rank(sep), hi)
    requires lo < Rank(sep) < hi && i < j < |lk| + 1 + |rk|
    ensures Rank((lk + [sep] + rk)[i]) < Rank((lk + [sep] + rk)[j])
  {
    hide Rank;
    JoinKey(lk, sep, rk, i);
    JoinKey(lk, sep, rk, j);
  }

  lemma JoinLow(lk: seq<Bytes>, sep: Bytes, rk: seq<Bytes>, lo: real, j: nat)
    requires j <= |lk| + 1 + |rk|
    ensures Low(lk + [sep] + rk, lo, j) ==
            if j <= |lk| then Low(lk, lo, j) else Low(rk, Rank(sep), j - |lk| - 1)
  {
    hide Rank;
    if 0 < j {
      JoinKey(lk, sep, rk, j - 1);
    }
  }

  lemma JoinHigh(lk: seq<Bytes>, sep: Bytes, rk: seq<Bytes>, hi: real, j: nat)
    requires j <= |lk| + 1 + |rk|
    ensures High(lk + [sep] + rk, hi, j) ==
            if j <= |lk| then High(lk, Rank(sep), j) else High(rk, hi, j - |lk| - 1)
  {
    hide Rank;
    if j < |lk| + 1 + |rk| {
      JoinKey(lk, sep, rk, j);
    }
  }

  lemma JoinOrdered(l: Node, sep: Bytes, r: Node, lo: real, hi: real)
    requires Joinable(l, r) && Ordered(l, lo, Rank(sep)) && Ordered(r, Rank(sep), hi) && lo < Rank(sep) < hi
    ensures Ordered(Join(l, sep, r), lo, hi)
  {
    hide Rank;
    var m := Join(l, sep, r);
    JoinKeysSorted(l.keys, sep, r.keys, lo, hi);
    forall j | 0 <= j < |m.kids| ensures Ordered(m.kids[j], Low(m.keys, lo, j), High(m.keys, hi, j)) {
      JoinLow(l.keys, sep, r.keys, lo, j);
      JoinHigh(l.keys, sep, r.keys, hi, j);
      if j < |l.kids| {
        assert m.kids[j] == l.kids[j];
      } else {
        assert m.kids[j] == r.kids[j - |l.kids|];
      }
    }
  }

  lemma JoinEntries(l: Node, sep: Bytes, r: Node)
    requires Joinable(l, r)
    ensures Entries(Join(l, sep, r)) == Entries(l) + Entries(r)
  {
    EntriesConcat(l.kids, r.kids);
  }

  lemma JoinChained(l: Node, sep: Bytes, r: Node, after: PageId)
    requires Joinable(l, r) && Chained(l, FirstLeaf(r)) && Chained(r, after)
    ensures Chained(Join(l, sep, r), after) && FirstLeaf(Join(l, sep, r)) == FirstLeaf(l)
  {
    var kids := Join(l, sep, r).kids;
    forall j | 0 <= j < |kids| ensures Chained(kids[j], After(kids, j, after)) {
      if j < |l.kids| {
        assert Chained(l.kids[j], After(l.kids, j, FirstLeaf(r)));
      } else {
        var k := j - |l.kids|;
        assert Chained(r.kids[k], After(r.kids, k, after));
      }
    }
  }

  lemma JoinUses(l: Node, sep: Bytes, r: Node, p: PageId)
    requires Joinable(l, r)
    ensures Uses(Join(l, sep, r), p) + (if r.id == p then 1 else 0) == Uses(l, p) + Uses(r, p)
  {
    UsesConcat(l.kids, r.kids, p);
  }

  // ---------- rebalancing ----------

  /** Everything rebalancing has to keep: order, contents, leaf list, pages. */
  ghost predicate Keeps(n: Node, av: seq<PageId>, d: Deleted, lo: real, hi: real, after: PageId) {
    d.Deleted? ==>
      && Ordered(d.node, lo, hi)
      && Entries(d.node) == Entries(n)
      && Chained(d.node, after) && FirstLeaf(d.node) == FirstLeaf(n)
      && forall p :: Uses(d.node, p) + Occ(d.av, p) == Uses(n, p) + Occ(av, p)
  }

  lemma OccAppend(av: seq<PageId>, id: PageId, p: PageId)
    ensures Occ(av + [id], p) == Occ(av, p) + if id == p then 1 else 0
  {
    OccConcat(av, [id], p);
    assert [id][1..] == [] && Occ([id][1..], p) == 0;
  }

  /** A merge: `m` stands for children `s` and `s + 1`, and the right one's
      page is free again. */
  lemma ContractKeeps(n: Node, s: nat, m: Node, av: seq<PageId>, lo: real, hi: real, after: PageId)
    requires Siblings(n, s) && Ordered(n, lo, hi) && Chained(n, after)
    requires Ordered(m, Low(n.keys, lo, s), High(n.keys, hi, s + 1))
    requires Entries(m) == Entries(n.kids[s]) + Entries(n.kids[s + 1])
    requires Chained(m, After(n.kids, s + 1, after)) && FirstLeaf(m) == FirstLeaf(n.kids[s])
    requires forall p :: Uses(m, p) + (if n.kids[s + 1].id == p then 1 else 0) ==
                         Uses(n.kids[s], p) + Uses(n.kids[s + 1], p)
    ensures Keeps(n, av, Merged(Contract(n, s, m), av + [n.kids[s + 1].id]), lo, hi, after)
  {
    ContractOrdered(n, s, m, lo, hi);
    ContractEntries(n, s, m);
    ContractChained(n, s, m, after);
    forall p ensures Uses(Contract(n, s, m), p) + Occ(av + [n.kids[s + 1].id], p) == Uses(n, p) + Occ(av, p) {
      ContractUses(n, s, m, p);
      OccAppend(av, n.kids[s + 1].id, p);
    }
  }

  lemma RespaceKeeps(n: Node, s: nat, l: Node, sep: Bytes, r: Node, av: seq<PageId>, lo: real, hi: real, after: PageId)
    requires Siblings(n, s) && Ordered(n, lo, hi) && Chained(n, after)
    requires Low(n.keys, lo, s) < Rank(sep) < High(n.keys, hi, s + 1) && lo < Rank(sep) < hi
    requires Ordered(l, Low(n.keys, lo, s), Rank(sep)) && Ordered(r, Rank(sep), High(n.keys, hi, s + 1))
    requires Entries(l) + Entries(r) == Entries(n.kids[s]) + Entries(n.kids[s + 1])
    requires Chained(l, FirstLeaf(r)) && Chained(r, After(n.kids, s + 1, after)) && FirstLeaf(l) == FirstLeaf(n.kids[s])
    requires forall p :: Uses(l, p) + Uses(r, p) == Uses(n.kids[s], p) + Uses(n.kids[s + 1], p)
    ensures Keeps(n, av, Respaced(Respace(n, s, l, sep, r), av), lo, hi, after)
  {
    RespaceOrdered(n, s, l, sep, r, lo, hi);
    RespaceEntries(n, s, l, sep, r);
    RespaceChained(n, s, l, sep, r, after);
    forall p ensures Uses(Respace(n, s, l, sep, r), p) == Uses(n, p) {
      RespaceUses(n, s, l, sep, r, p);
    }
  }

  /** The bounds around two siblings. */
  lemma PairBounds(n: Node, s: nat, lo: real, hi: real)
    requires Siblings(n, s) && Ordered(n, lo, hi)
    ensures lo <= Low(n.keys, lo, s) < Rank(n.keys[s]) < High(n.keys, hi, s + 1) <= hi
    ensures Ordered(n.kids[s], Low(n.keys, lo, s), Rank(n.keys[s]))
    ensures Ordered(n.kids[s + 1], Rank(n.keys[s]), High(n.keys, hi, s + 1))
  {
    hide Rank;
    assert Ordered(n.kids[s], Low(n.keys, lo, s), High(n.keys, hi, s));
    assert Ordered(n.kids[s + 1], Low(n.keys, lo, s + 1), High(n.keys, hi, s + 1));
  }

  lemma PairChained(n: Node, s: nat, after: PageId)
    requires Siblings(n, s) && Chained(n, after)
    ensures Chained(n.kids[s], FirstLeaf(n.kids[s + 1]))
    ensures Chained(n.kids[s + 1], After(n.kids, s + 1, after))
  {
    assert Chained(n.kids[s], After(n.kids, s, after));
  }

  lemma MergeLeavesKeeps(n: Node, s: nat, av: seq<PageId>, lo: real, hi: real, after: PageId)
    requires Siblings(n, s) && Ordered(n, lo, hi) && Chained(n, after)
    requires n.kids[s].Leaf? && n.kids[s + 1].Leaf?
    ensures var l, r := n.kids[s], n.kids[s + 1];
            Keeps(n, av, Merged(Contract(n, s, Leaf(l.id, l.cells + r.cells, r.next)), av + [r.id]), lo, hi, after)
  {
    var l, r := n.kids[s], n.kids[s + 1];
    var m := Leaf(l.id, l.cells + r.cells, r.next);
    PairBounds(n, s, lo, hi);
    PairChained(n, s, after);
    SortedConcat(l.cells, r.cells, Low(n.keys, lo, s), Rank(n.keys[s]), High(n.keys, hi, s + 1));
    forall p ensures Uses(m, p) + (if r.id == p then 1 else 0) == Uses(l, p) + Uses(r, p) {
      ChainUsesConcat(l.cells, r.cells, p);
    }
    ContractKeeps(n, s, m, av, lo, hi, after);
  }

  /** Cutting the cells of two leaves anew. */
  lemma CutCells(all: seq<Cell>, mid: nat, lo: real, hi: real)
    requires Sorted(all) && Within(all, lo, hi) && 0 < mid < |all|
    ensures Sorted(all[..mid]) && Within(all[..mid], lo, Rank(all[mid].key))
    ensures Sorted(all[mid..]) && Within(all[mid..], Rank(all[mid].key), hi)
    ensures lo < Rank(all[mid].key) < hi
  {
    hide Rank;
    assert lo <= Rank(all[0].key);
  }

  lemma RedistributeLeavesKeeps(n: Node, s: nat, mid: nat, av: seq<PageId>, lo: real, hi: real, after: PageId)
    requires Siblings(n, s) && Ordered(n, lo, hi) && Chained(n, after)
    requires n.kids[s].Leaf? && n.kids[s + 1].Leaf?
    requires 0 < mid < |n.kids[s].cells| + |n.kids[s + 1].cells|
    ensures var l, r := n.kids[s], n.kids[s + 1];
            var all := l.cells + r.cells;
            Keeps(n, av, Respaced(Respace(n, s, Leaf(l.id, all[..mid], l.next), all[mid].key,
                                          Leaf(r.id, all[mid..], r.next)), av), lo, hi, after)
  {
    hide *;
    SiblingsAre(n, s);
    var l, r := n.kids[s], n.kids[s + 1];
    var all := l.cells + r.cells;
    var l', r' := Leaf(l.id, all[..mid], l.next), Leaf(r.id, all[mid..], r.next);
    PairBounds(n, s, lo, hi);
    PairChained(n, s, after);
    CutPair(l, r, mid, Low(n.keys, lo, s), Rank(n.keys[s]), High(n.keys, hi, s + 1));
    CutChained(l, r, mid, After(n.kids, s + 1, after));
    forall p ensures Uses(l', p) + Uses(r', p) == Uses(l, p) + Uses(r, p) {
      CutUses(l, r, mid, p);
    }
    RespaceKeeps(n, s, l', all[mid].key, r', av, lo, hi, after);
  }

  lemma SiblingsAre(n: Node, s: nat)
    requires Siblings(n, s)
    ensures n.Inner? && |n.kids| == |n.keys| + 1 && s < |n.keys|
  {
  }

  /** The order of two leaves whose cells are dealt out anew. */
  lemma CutPair(l: Node, r: Node, mid: nat, lo: real, sep: real, hi: real)
    requires l.Leaf? && r.Leaf? && Ordered(l, lo, sep) && Ordered(r, sep, hi) && lo < sep < hi
    requires 0 < mid < |l.cells| + |r.cells|
    ensures var all := l.cells + r.cells;
            && lo < Rank(all[mid].key) < hi
            && Ordered(Leaf(l.id, all[..mid], l.next), lo, Rank(all[mid].key))
            && Ordered(Leaf(r.id, all[mid..], r.next), Rank(all[mid].key), hi)
            && Entries(Leaf(l.id, all[..mid], l.next)) + Entries(Leaf(r.id, all[mid..], r.next)) == Entries(l) + Entries(r)
  {
    hide Rank, Sorted, Within;
    SortedConcat(l.cells, r.cells, lo, sep, hi);
    CutCells(l.cells + r.cells, mid, lo, hi);
  }

  lemma CutChained(l: Node, r: Node, mid: nat, after: PageId)
    requires l.Leaf? && r.Leaf? && Chained(l, FirstLeaf(r)) && Chained(r, after) && mid <= |l.cells| + |r.cells|
    ensures var all := l.cells + r.cells;
            var l', r' := Leaf(l.id, all[..mid], l.next), Leaf(r.id, all[mid..], r.next);
            Chained(l', FirstLeaf(r')) && Chained(r', after) && FirstLeaf(l') == FirstLeaf(l)
  {
  }

  lemma CutUses(l: Node, r: Node, mid: nat, p: PageId)
    requires l.Leaf? && r.Leaf? && mid <= |l.cells| + |r.cells|
    ensures var all := l.cells + r.cells;
            Uses(Leaf(l.id, all[..mid], l.next), p) + Uses(Leaf(r.id, all[mid..], r.next), p) == Uses(l, p) + Uses(r, p)
  {
    hide ChainUses;
    var all := l.cells + r.cells;
    assert all == all[..mid] + all[mid..];
    ChainUsesConcat(l.cells, r.cells, p);
    ChainUsesConcat(all[..mid], all[mid..], p);
  }

  /** Two leaves that do not fit on one page have at least two cells. */
  lemma TwoCells(a: seq<Cell>, b: seq<Cell>)
    requires Used(a) <= MAX_CELL_AREA && Used(b) <= MAX_CELL_AREA && Used(a) + Used(b) > MAX_CELL_AREA
    ensures |a + b| >= 2
  {
    assert a != [] && b != [];
  }

  lemma FixLeavesKeeps(n: Node, s: nat, av: seq<PageId>, lo: real, hi: real, after: PageId)
    requires Siblings(n, s) && Ordered(n, lo, hi) && Chained(n, after)
    requires n.kids[s].Leaf? && n.kids[s + 1].Leaf?
    requires Used(n.kids[s].cells) <= MAX_CELL_AREA && Used(n.kids[s + 1].cells) <= MAX_CELL_AREA
    ensures Keeps(n, av, FixLeaves(n, s, av), lo, hi, after)
  {
    hide Keeps, Ordered, Chained, Used, UsedKeys, Merged, Respaced;
    var l, r := n.kids[s], n.kids[s + 1];
    if Used(l.cells) + Used(r.cells) <= MAX_CELL_AREA {
      MergeLeavesKeeps(n, s, av, lo, hi, after);
    } else {
      TwoCells(l.cells, r.cells);
      RedistributeLeavesKeeps(n, s, |l.cells + r.cells| / 2, av, lo, hi, after);
      NotDeletedKeeps(n, av, Panic, lo, hi, after);
    }
  }

  lemma NotDeletedKeeps(n: Node, av: seq<PageId>, st: Status, lo: real, hi: real, after: PageId)
    ensures Keeps(n, av, NotDeleted(st), lo, hi, after)
  {
  }

  lemma JoinPair(n: Node, s: nat, lo: real, hi: real, after: PageId)
    requires Siblings(n, s) && Ordered(n, lo, hi) && Chained(n, after) && Joinable(n.kids[s], n.kids[s + 1])
    ensures var m := Join(n.kids[s], n.keys[s], n.kids[s + 1]);
            && |m.kids| == |m.keys| + 1
            && Ordered(m, Low(n.keys, lo, s), High(n.keys, hi, s + 1))
            && Chained(m, After(n.kids, s + 1, after)) && FirstLeaf(m) == FirstLeaf(n.kids[s])
            && Entries(m) == Entries(n.kids[s]) + Entries(n.kids[s + 1])
  {
    var l, r := n.kids[s], n.kids[s + 1];
    PairBounds(n, s, lo, hi);
    PairChained(n, s, after);
    JoinOrdered(l, n.keys[s], r, Low(n.keys, lo, s), High(n.keys, hi, s + 1));
    JoinChained(l, n.keys[s], r, After(n.kids, s + 1, after));
    JoinEntries(l, n.keys[s], r);
  }

  lemma MergeInnersKeeps(n: Node, s: nat, av: seq<PageId>, lo: real, hi: real, after: PageId)
    requires Siblings(n, s) && Ordered(n, lo, hi) && Chained(n, after) && Joinable(n.kids[s], n.kids[s + 1])
    ensures var l, r := n.kids[s], n.kids[s + 1];
            Keeps(n, av, Merged(Contract(n, s, Join(l, n.keys[s], r)), av + [r.id]), lo, hi, after)
  {
    var l, r := n.kids[s], n.kids[s + 1];
    var m := Join(l, n.keys[s], r);
    JoinPair(n, s, lo, hi, after);
    forall p ensures Uses(m, p) + (if r.id == p then 1 else 0) == Uses(l, p) + Uses(r, p) {
      JoinUses(l, n.keys[s], r, p);
    }
    ContractKeeps(n, s, m, av, lo, hi, after);
  }

  lemma RedistributeInnersKeeps(n: Node, s: nat, mid: nat, av: seq<PageId>, lo: real, hi: real, after: PageId)
    requires Siblings(n, s) && Ordered(n, lo, hi) && Chained(n, after) && Joinable(n.kids[s], n.kids[s + 1])
    requires mid < |n.kids[s].keys| + 1 + |n.kids[s + 1].keys|
    ensures var l, r := n.kids[s], n.kids[s + 1];
            var m := Join(l, n.keys[s], r);
            && |m.kids| == |m.keys| + 1 && mid < |m.keys|
            && Keeps(n, av, Respaced(Respace(n, s, LeftPart(m, mid), m.keys[mid], RightPart(m, mid, r.id)), av),
                     lo, hi, after)
  {
    var l, r := n.kids[s], n.kids[s + 1];
    var m := Join(l, n.keys[s], r);
    var klo, khi := Low(n.keys, lo, s), High(n.keys, hi, s + 1);
    JoinPair(n, s, lo, hi, after);
    PairBounds(n, s, lo, hi);
    PartsOrdered(m, klo, khi, mid, r.id);
    PartsEntries(m, mid, r.id);
    PartsChained(m, mid, r.id, After(n.kids, s + 1, after));
    KeyWithin(m, klo, khi, mid);
    var l', r' := LeftPart(m, mid), RightPart(m, mid, r.id);
    forall p ensures Uses(l', p) + Uses(r', p) == Uses(l, p) + Uses(r, p) {
      JoinUses(l, n.keys[s], r, p);
      PartsUses(m, mid, r.id, p);
    }
    RespaceKeeps(n, s, l', m.keys[mid], r', av, lo, hi, after);
  }

  lemma KeyWithin(n: Node, lo: real, hi: real, i: nat)
    requires n.Inner? && Ordered(n, lo, hi) && i < |n.keys|
    ensures lo < Rank(n.keys[i]) < hi
  {
  }

  lemma FixInnersKeeps(n: Node, s: nat, av: seq<PageId>, lo: real, hi: real, after: PageId)
    requires Siblings(n, s) && Ordered(n, lo, hi) && Chained(n, after) && Joinable(n.kids[s], n.kids[s + 1])
    ensures Keeps(n, av, FixInners(n, s, av), lo, hi, after)
  {
    hide Keeps, Ordered, Chained, UsedKeys, Merged, Respaced;
    MergeInnersKeeps(n, s, av, lo, hi, after);
    RedistributeInnersKeeps(n, s, |Join(n.kids[s], n.keys[s], n.kids[s + 1]).keys| / 2, av, lo, hi, after);
    NotDeletedKeeps(n, av, Panic, lo, hi, after);
  }

  lemma RebalanceKeeps(n: Node, h: nat, i: nat, av: seq<PageId>, lo: real, hi: real, after: PageId)
    requires Shaped(n, h) && n.Inner? && i < |n.kids| && Ordered(n, lo, hi) && Chained(n, after) && Fits(n)
    ensures Keeps(n, av, Rebalance(n, h, i, av), lo, hi, after)
  {
    if |n.keys| != 0 {
      var s := if i < |n.keys| then i else i - 1;
      assert Shaped(n.kids[s], h - 1) && Shaped(n.kids[s + 1], h - 1);
      assert Fits(n.kids[s]) && Fits(n.kids[s + 1]);
      hide Keeps, Ordered, Chained, FixLeaves, FixInners;
      if h == 1 {
        FixLeavesKeeps(n, s, av, lo, hi, after);
      } else {
        FixInnersKeeps(n, s, av, lo, hi, after);
      }
    }
  }

  // ---------- deletion ----------

  lemma DropCellWithin(cells: seq<Cell>, key: Bytes, lo: real, hi: real)
    requires Sorted(cells) && Within(cells, lo, hi)
    ensures Sorted(DropCell(cells, key)) && Within(DropCell(cells, key), lo, hi)
  {
    DropCellMembers(cells, key);
    var r := DropCell(cells, key);
    forall i | 0 <= i < |r| ensures lo <= Rank(r[i].key) < hi {
      assert r[i] in r;
    }
  }

  /** Deletion takes out exactly the cell of `key`, or reports that there is
      none; it keeps order and leaf list, and every page that leaves the tree
      is free afterwards. */
  ghost predicate Drops(n: Node, key: Bytes, av: seq<PageId>, d: Deleted, lo: real, hi: real, after: PageId) {
    match d
    case NotDeleted(s) =>
      if HasKeyAt(Entries(n), Slot(Entries(n), key), key) then s == Panic else s == KeyNotFound
    case Deleted(node, _, av') =>
      && HasKeyAt(Entries(n), Slot(Entries(n), key), key)
      && Ordered(node, lo, hi)
      && Entries(node) == DropCell(Entries(n), key)
      && Chained(node, after) && FirstLeaf(node) == FirstLeaf(n)
      && forall p :: Uses(node, p) + Occ(av', p) == Uses(n, p) + Occ(av, p)
  }

  lemma DeleteLeafDrops(n: Node, key: Bytes, av: seq<PageId>, root: PageId, lo: real, hi: real, after: PageId)
    requires n.Leaf? && Ordered(n, lo, hi) && Chained(n, after)
    ensures Drops(n, key, av, DeleteLeaf(n, key, av, root), lo, hi, after)
  {
    hide Rank, Slot, Used;
    var i := Slot(n.cells, key);
    if HasKeyAt(n.cells, i, key) {
      DropCellWithin(n.cells, key, lo, hi);
      forall p ensures ChainUses(RemoveAt(n.cells, i), p) + Occ(av + n.cells[i].chain, p) ==
                       ChainUses(n.cells, p) + Occ(av, p) {
        ChainUsesSplit(n.cells, i, p);
        ChainUsesConcat(n.cells[..i], n.cells[i + 1..], p);
        OccConcat(av, n.cells[i].chain, p);
      }
    }
  }

  /** The entries around the child that `key` is routed to. */
  lemma DropCellBelow(n: Node, lo: real, hi: real, i: nat, key: Bytes)
    requires n.Inner? && Ordered(n, lo, hi) && i == Route(n.keys, key)
    ensures DropCell(Entries(n), key) ==
            EntriesOf(n.kids[..i]) + DropCell(Entries(n.kids[i]), key) + EntriesOf(n.kids[i + 1..])
    ensures HasKeyAt(Entries(n), Slot(Entries(n), key), key) ==
            HasKeyAt(Entries(n.kids[i]), Slot(Entries(n.kids[i]), key), key)
  {
    AroundRoute(n, lo, hi, i, key);
    EntriesSplit(n.kids, i);
    hide Rank, Slot, AllBelow, AllAbove, HasKeyAt, DropCell, Route;
    var a, e, b := EntriesOf(n.kids[..i]), Entries(n.kids[i]), EntriesOf(n.kids[i + 1..]);
    DropCellInside(a, e, b, key);
    SlotInside(a, e, b, key);
    AboveDiffers(b, key);
    HasKeyInside(a, e, b, Slot(e, key), key);
  }

  lemma AroundRoute(n: Node, lo: real, hi: real, i: nat, key: Bytes)
    requires n.Inner? && Ordered(n, lo, hi) && i == Route(n.keys, key)
    ensures AllBelow(EntriesOf(n.kids[..i]), key) && AllAbove(EntriesOf(n.kids[i + 1..]), key)
  {
    hide Rank, Route;
    PrefixOrdered(n, lo, hi, i);
    SuffixOrdered(n, lo, hi, i);
    if i == 0 {
      assert n.kids[..i] == [];
    }
    if i == |n.keys| {
      assert n.kids[i + 1..] == [];
    }
  }

  /** What the child's deletion makes of this node, before rebalancing. */
  lemma ReplaceDrops(n: Node, i: nat, key: Bytes, av: seq<PageId>, c: Node, av': seq<PageId>,
                     under: bool, lo: real, hi: real, after: PageId)
    requires n.Inner? && Ordered(n, lo, hi) && Chained(n, after) && i == Route(n.keys, key) && i < |n.kids|
    requires Drops(n.kids[i], key, av, Deleted(c, under, av'), Low(n.keys, lo, i), High(n.keys, hi, i),
                   After(n.kids, i, after))
    ensures Drops(n, key, av, Deleted(Replace(n, i, c), false, av'), lo, hi, after)
  {
    hide Rank, Slot, Route;
    ReplaceOrdered(n, lo, hi, i, c);
    ReplaceChained(n, i, c, after);
    DropCellBelow(n, lo, hi, i, key);
    ReplaceEntries(n, i, c);
    forall p ensures Uses(Replace(n, i, c), p) + Occ(av', p) == Uses(n, p) + Occ(av, p) {
      ReplaceUses(n, i, c, p);
    }
  }

  lemma KeepsAfterDrops(n: Node, key: Bytes, av: seq<PageId>, m: Node, av': seq<PageId>, d: Deleted,
                        lo: real, hi: real, after: PageId)
    requires Drops(n, key, av, Deleted(m, false, av'), lo, hi, after)
    requires Keeps(m, av', d, lo, hi, after) && (d.NotDeleted? ==> d.status == Panic)
    ensures Drops(n, key, av, d, lo, hi, after)
  {
    hide Rank, Slot, DropCell;
  }

  lemma NotFoundBelow(n: Node, i: nat, key: Bytes, av: seq<PageId>, st: Status, lo: real, hi: real, after: PageId)
    requires n.Inner? && Ordered(n, lo, hi) && i == Route(n.keys, key) && i < |n.kids|
    requires Drops(n.kids[i], key, av, NotDeleted(st), Low(n.keys, lo, i), High(n.keys, hi, i), After(n.kids, i, after))
    ensures Drops(n, key, av, NotDeleted(st), lo, hi, after)
  {
    DropCellBelow(n, lo, hi, i, key);
  }

  lemma RebalancePanics(n: Node, h: nat, i: nat, av: seq<PageId>)
    requires Shaped(n, h) && n.Inner? && i < |n.kids|
    ensures var d := Rebalance(n, h, i, av); d.NotDeleted? ==> d.status == Panic
  {
    hide Used, UsedKeys;
  }

  lemma ContractFits(n: Node, s: nat, m: Node)
    requires Siblings(n, s) && Fits(n) && Fits(m)
    ensures Fits(Contract(n, s, m))
  {
    var c := Contract(n, s, m);
    UsedKeysRemoveAt(n.keys, s);
    forall j | 0 <= j < |c.kids| ensures Fits(c.kids[j]) {
      ContractKid(n, s, m, j);
    }
  }

  lemma RespaceFits(n: Node, s: nat, l: Node, sep: Bytes, r: Node)
    requires Siblings(n, s) && Fits(n) && Fits(l) && Fits(r)
    requires UsedKeys(Respace(n, s, l, sep, r).keys) <= MAX_CELL_AREA
    ensures Fits(Respace(n, s, l, sep, r))
  {
    hide UsedKeys;
  }

  lemma FixLeavesFits(n: Node, s: nat, av: seq<PageId>)
    requires Siblings(n, s) && Fits(n) && n.kids[s].Leaf? && n.kids[s + 1].Leaf?
    ensures var d := FixLeaves(n, s, av); d.Deleted? ==> Fits(d.node)
  {
    var l, r := n.kids[s], n.kids[s + 1];
    assert Fits(l) && Fits(r);
    hide UsedKeys, Used, Contract, Respace;
    var all := l.cells + r.cells;
    var mid := |all| / 2;
    if Used(l.cells) + Used(r.cells) <= MAX_CELL_AREA {
      UsedConcat(l.cells, r.cells);
      ContractFits(n, s, Leaf(l.id, all, r.next));
    } else if FixLeaves(n, s, av).Deleted? {
      TwoCells(l.cells, r.cells);
      RespaceFits(n, s, Leaf(l.id, all[..mid], l.next), all[mid].key, Leaf(r.id, all[mid..], r.next));
    }
  }

  lemma JoinFits(l: Node, sep: Bytes, r: Node)
    requires Joinable(l, r) && Fits(l) && Fits(r)
    requires UsedKeys(l.keys) + UsedKeys(r.keys) + INNER_CELL_OVERHEAD + |sep| <= MAX_CELL_AREA
    ensures Fits(Join(l, sep, r))
  {
    UsedKeysConcat(l.keys + [sep], r.keys);
    UsedKeysConcat(l.keys, [sep]);
    assert [sep][1..] == [] && UsedKeys([sep][1..]) == 0;
    assert forall x :: x in l.kids + r.kids ==> x in l.kids || x in r.kids;
  }

  lemma FixInnersFits(n: Node, s: nat, av: seq<PageId>)
    requires Siblings(n, s) && Fits(n) && Joinable(n.kids[s], n.kids[s + 1])
    ensures var d := FixInners(n, s, av); d.Deleted? ==> Fits(d.node)
  {
    hide *;
    FixInnersIs(n, s, av);
    PairIs(n, s);
    var l, r := n.kids[s], n.kids[s + 1];
    var all := Join(l, n.keys[s], r);
    var mid := |all.keys| / 2;
    TreeInsert.FitsBelow(n, s);
    TreeInsert.FitsBelow(n, s + 1);
    KidsFit(l, n.keys[s], r);
    if UsedKeys(l.keys) + UsedKeys(r.keys) + INNER_CELL_OVERHEAD + |n.keys[s]| <= MAX_CELL_AREA {
      JoinFits(l, n.keys[s], r);
      ContractFits(n, s, all);
    } else if FixInners(n, s, av).Deleted? {
      PartsFit(all, mid, r.id);
      RespaceFits(n, s, LeftPart(all, mid), all.keys[mid], RightPart(all, mid, r.id));
    }
  }

  lemma PairIs(n: Node, s: nat)
    requires Siblings(n, s)
    ensures n.Inner? && |n.kids| == |n.keys| + 1 && s < |n.keys|
    ensures var l, r := n.kids[s], n.kids[s + 1];
            Joinable(l, r) ==> l.Inner? && r.Inner? && |l.kids| == |l.keys| + 1 && |r.kids| == |r.keys| + 1
  {
  }

  lemma KidsFit(l: Node, sep: Bytes, r: Node)
    requires Joinable(l, r) && Fits(l) && Fits(r)
    ensures forall x :: x in Join(l, sep, r).kids ==> Fits(x)
  {
    forall x | x in Join(l, sep, r).kids ensures x in l.kids || x in r.kids {
    }
  }

  lemma PartsFit(n: Node, mid: nat, id: PageId)
    requires n.Inner? && |n.kids| == |n.keys| + 1 && mid < |n.keys| && forall x :: x in n.kids ==> Fits(x)
    requires UsedKeys(n.keys[..mid]) <= MAX_CELL_AREA && UsedKeys(n.keys[mid + 1..]) <= MAX_CELL_AREA
    ensures Fits(LeftPart(n, mid)) && Fits(RightPart(n, mid, id))
  {
    hide UsedKeys;
  }

  /** The two ways that rebalancing two internal nodes goes. */
  lemma FixInnersIs(n: Node, s: nat, av: seq<PageId>)
    requires Siblings(n, s) && Joinable(n.kids[s], n.kids[s + 1])
    ensures var l, r := n.kids[s], n.kids[s + 1];
            var all := Join(l, n.keys[s], r);
            var mid, d := |all.keys| / 2, FixInners(n, s, av);
            && all.Inner? && |all.kids| == |all.keys| + 1 && mid < |all.keys|
            && if UsedKeys(l.keys) + UsedKeys(r.keys) + INNER_CELL_OVERHEAD + |n.keys[s]| <= MAX_CELL_AREA then
                 d.Deleted? && d.node == Contract(n, s, all)
               else d.Deleted? ==>
                 && UsedKeys(all.keys[..mid]) <= MAX_CELL_AREA && UsedKeys(all.keys[mid + 1..]) <= MAX_CELL_AREA
                 && d.node == Respace(n, s, LeftPart(all, mid), all.keys[mid], RightPart(all, mid, r.id))
                 && UsedKeys(d.node.keys) <= MAX_CELL_AREA
  {
    hide UsedKeys, Contract, Respace;
  }

  lemma RebalanceFits(n: Node, h: nat, i: nat, av: seq<PageId>)
    requires Shaped(n, h) && n.Inner? && i < |n.kids| && Fits(n)
    ensures var d := Rebalance(n, h, i, av); d.Deleted? ==> Fits(d.node)
  {
    if |n.keys| != 0 {
      var s := if i < |n.keys| then i else i - 1;
      assert Shaped(n.kids[s], h - 1) && Shaped(n.kids[s + 1], h - 1);
      hide Fits, FixLeaves, FixInners;
      if h == 1 {
        FixLeavesFits(n, s, av);
      } else {
        FixInnersFits(n, s, av);
      }
    }
  }

  /** Cells keep fitting their pages when something is deleted. */
  lemma {:induction false} DeleteFits(n: Node, h: nat, key: Bytes, av: seq<PageId>, root: PageId)
    requires Shaped(n, h) && Fits(n)
    ensures var d := Delete(n, h, key, av, root); d.Deleted? ==> Fits(d.node)
    decreases h
  {
    hide Rank, Rebalance, Slot, Route;
    match n
    case Leaf(_, cells, _) =>
      var i := Slot(cells, key);
      if HasKeyAt(cells, i, key) {
        UsedRemoveAt(cells, i);
      }
    case Inner(_, keys, kids) =>
      var i := Route(keys, key);
      DeleteFits(kids[i], h - 1, key, av, root);
      var r := Delete(kids[i], h - 1, key, av, root);
      if r.Deleted? {
        ReplaceFits(n, i, r.node);
        RebalanceFits(Replace(n, i, r.node), h, i, r.av);
      }
  }

  lemma {:induction false} DeleteDrops(n: Node, h: nat, key: Bytes, av: seq<PageId>, root: PageId,
                                       lo: real, hi: real, after: PageId)
    requires Shaped(n, h) && Ordered(n, lo, hi) && Chained(n, after) && Fits(n)
    ensures Drops(n, key, av, Delete(n, h, key, av, root), lo, hi, after)
    decreases h
  {
    match n
    case Leaf(_, _, _) =>
      DeleteLeafDrops(n, key, av, root, lo, hi, after);
    case Inner(_, keys, kids) =>
      DeleteInnerDrops(n, h, key, av, root, lo, hi, after);
  }

  /** Deletion in an internal node, one level down. */
  lemma DeleteInner(n: Node, h: nat, key: Bytes, av: seq<PageId>, root: PageId)
    requires Shaped(n, h) && n.Inner?
    ensures h > 0 && |n.kids| == |n.keys| + 1 && Route(n.keys, key) < |n.kids|
    ensures var i := Route(n.keys, key);
            && Shaped(n.kids[i], h - 1)
            && var r := Delete(n.kids[i], h - 1, key, av, root);
               match r
               case NotDeleted(_) => Delete(n, h, key, av, root) == r
               case Deleted(c, under, av') =>
                 var n' := Replace(n, i, c);
                 && n'.Inner? && n'.id == n.id && |n'.keys| == |n.keys| && i < |n'.kids| && Shaped(n', h)
                 && Delete(n, h, key, av, root) == (if under then Rebalance(n', h, i, av') else Deleted(n', false, av'))
  {
    hide Rebalance, DeleteLeaf;
    var r := Delete(n.kids[Route(n.keys, key)], h - 1, key, av, root);
    if r.Deleted? {
      ReplaceShaped(n, h, Route(n.keys, key), r.node);
    }
  }

  lemma {:induction false} DeleteInnerDrops(n: Node, h: nat, key: Bytes, av: seq<PageId>, root: PageId,
                                            lo: real, hi: real, after: PageId)
    requires Shaped(n, h) && n.Inner? && Ordered(n, lo, hi) && Chained(n, after) && Fits(n)
    ensures Drops(n, key, av, Delete(n, h, key, av, root), lo, hi, after)
    decreases h, 0
  {
    hide *;
    DeleteInner(n, h, key, av, root);
    var i := Route(n.keys, key);
    var r := Delete(n.kids[i], h - 1, key, av, root);
    var klo, khi, knext := Low(n.keys, lo, i), High(n.keys, hi, i), After(n.kids, i, after);
    TreeInsert.FitsBelow(n, i);
    TreeInsert.OrderedBelow(n, lo, hi, i);
    TreeInsert.ChainedBelow(n, after, i);
    DeleteDrops(n.kids[i], h - 1, key, av, root, klo, khi, knext);
    match r
    case NotDeleted(s) =>
      NotFoundBelow(n, i, key, av, s, lo, hi, after);
    case Deleted(c, under, av') =>
      var n' := Replace(n, i, c);
      ReplaceDrops(n, i, key, av, c, av', under, lo, hi, after);
      if under {
        DeleteFits(n.kids[i], h - 1, key, av, root);
        ReplaceFits(n, i, c);
        DropsOrdered(n, key, av, n', av', lo, hi, after);
        RebalanceKeeps(n', h, i, av', lo, hi, after);
        RebalancePanics(n', h, i, av');
        KeepsAfterDrops(n, key, av, n', av', Rebalance(n', h, i, av'), lo, hi, after);
      }
  }

  lemma DropsOrdered(n: Node, key: Bytes, av: seq<PageId>, m: Node, av': seq<PageId>, lo: real, hi: real, after: PageId)
    requires Drops(n, key, av, Deleted(m, false, av'), lo, hi, after)
    ensures Ordered(m, lo, hi) && Chained(m, after)
  {
  }

  lemma {:induction false} DeleteStatus(n: Node, h: nat, key: Bytes, av: seq<PageId>, root: PageId)
    requires Shaped(n, h)
    ensures var d := TreeModel.Delete(n, h, key, av, root);
            d.NotDeleted? ==> d.status == KeyNotFound || d.status == Panic
    decreases h
  {
    hide Rank, Slot, Route, Rebalance, Used;
    if n.Inner? {
      var i := Route(n.keys, key);
      DeleteStatus(n.kids[i], h - 1, key, av, root);
      var r := TreeModel.Delete(n.kids[i], h - 1, key, av, root);
      if r.Deleted? {
        RebalancePanics(Replace(n, i, r.node), h, i, r.av);
      }
    }
  }
}
