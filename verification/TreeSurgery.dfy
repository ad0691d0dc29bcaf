/** What rewriting one node does to each part of the invariant: replacing a
    child, giving a child a right neighbour, and cutting a node in two. */
module TreeSurgery {
  import opened Bytes
  import opened TreeModel
  import opened TreeView

  // ---------- shape ----------

  lemma ReplaceShaped(n: Node, h: nat, i: nat, c: Node)
    requires Shaped(n, h) && n.Inner? && i < |n.kids| && Shaped(c, h - 1)
    ensures Shaped(Replace(n, i, c), h)
  {
  }

  lemma ExpandShaped(n: Node, h: nat, i: nat, j: nat, l: Node, sep: Bytes, r: Node)
    requires Shaped(n, h) && n.Inner? && i < |n.kids| && j <= |n.keys|
    requires Shaped(l, h - 1) && Shaped(r, h - 1)
    ensures Shaped(Expand(n, i, j, l, sep, r), h)
  {
    var kids := n.kids[i := l];
    var kids' := InsertAt(kids, j + 1, r);
    forall k | 0 <= k < |kids'| ensures Shaped(kids'[k], h - 1) {
      assert kids'[k] == if k <= j then kids[k] else if k == j + 1 then r else kids[k - 1];
    }
  }

  lemma PartsShaped(n: Node, h: nat, mid: nat, id: PageId)
    requires Shaped(n, h) && n.Inner? && mid < |n.keys|
    ensures Shaped(LeftPart(n, mid), h) && Shaped(RightPart(n, mid, id), h)
  {
  }

  // ---------- order ----------

  lemma ReplaceOrdered(n: Node, lo: real, hi: real, i: nat, c: Node)
    requires n.Inner? && Ordered(n, lo, hi) && i < |n.kids|
    requires Ordered(c, Low(n.keys, lo, i), High(n.keys, hi, i))
    ensures Ordered(Replace(n, i, c), lo, hi)
  {
    var m := Replace(n, i, c);
    forall j | 0 <= j < |m.kids| ensures Ordered(m.kids[j], Low(m.keys, lo, j), High(m.keys, hi, j)) {
      if j != i {
        assert Ordered(n.kids[j], Low(n.keys, lo, j), High(n.keys, hi, j));
      }
    }
  }

  /** The promoted key of child `i` belongs at index `i`. */
  lemma KeySlotUnique(keys: seq<Bytes>, sep: Bytes, i: nat)
    requires SortedKeys(keys) && i <= |keys|
    requires i > 0 ==> Rank(keys[i - 1]) < Rank(sep)
    requires i < |keys| ==> Rank(sep) < Rank(keys[i])
    ensures KeySlot(keys, sep) == i
  {
    var j := KeySlot(keys, sep);
    assert !(i < j);
  }

  lemma ExpandSorted(keys: seq<Bytes>, i: nat, sep: Bytes)
    requires SortedKeys(keys) && i <= |keys|
    requires i > 0 ==> Rank(keys[i - 1]) < Rank(sep)
    requires i < |keys| ==> Rank(sep) < Rank(keys[i])
    ensures SortedKeys(InsertAt(keys, i, sep))
  {
    hide Rank;
    var r := InsertAt(keys, i, sep);
    assert forall j :: 0 <= j < i ==> Rank(keys[j]) < Rank(sep);
    assert forall j :: i <= j < |keys| ==> Rank(sep) < Rank(keys[j]);
    forall a, b | 0 <= a < b < |r| ensures Rank(r[a]) < Rank(r[b]) {
      assert r[a] == if a < i then keys[a] else if a == i then sep else keys[a - 1];
      assert r[b] == if b < i then keys[b] else if b == i then sep else keys[b - 1];
    }
  }

  lemma ExpandWithin(keys: seq<Bytes>, lo: real, hi: real, i: nat, sep: Bytes)
    requires StrictlyWithin(keys, lo, hi) && i <= |keys| && lo < Rank(sep) < hi
    ensures StrictlyWithin(InsertAt(keys, i, sep), lo, hi)
  {
    var r := InsertAt(keys, i, sep);
    forall a | 0 <= a < |r| ensures lo < Rank(r[a]) < hi {
      assert r[a] == if a < i then keys[a] else if a == i then sep else keys[a - 1];
    }
  }

  /** The bounds on child `j` after a separator has been put in at `i`. */
  lemma ExpandBounds(keys: seq<Bytes>, lo: real, hi: real, i: nat, sep: Bytes, j: nat)
    requires i <= |keys| && j <= |keys| + 1
    ensures var keys' := InsertAt(keys, i, sep);
            && Low(keys', lo, j) == (if j <= i then Low(keys, lo, j)
                                     else if j == i + 1 then Rank(sep) else Low(keys, lo, j - 1))
            && High(keys', hi, j) == (if j < i then High(keys, hi, j)
                                      else if j == i then Rank(sep) else High(keys, hi, j - 1))
  {
    hide Rank;
    var keys' := InsertAt(keys, i, sep);
    if 0 < j {
      assert keys'[j - 1] == if j - 1 < i then keys[j - 1] else if j - 1 == i then sep else keys[j - 2];
    }
    if j < |keys'| {
      assert keys'[j] == if j < i then keys[j] else if j == i then sep else keys[j - 1];
    }
  }

  lemma ExpandKid(n: Node, i: nat, l: Node, sep: Bytes, r: Node, j: nat)
    requires n.Inner? && |n.kids| == |n.keys| + 1 && i < |n.kids| && j <= |n.kids|
    ensures var kids := Expand(n, i, i, l, sep, r).kids;
            && |kids| == |n.kids| + 1
            && kids[j] == (if j < i then n.kids[j] else if j == i then l
                           else if j == i + 1 then r else n.kids[j - 1])
  {
  }

  lemma ExpandOrdered(n: Node, lo: real, hi: real, i: nat, l: Node, sep: Bytes, r: Node)
    requires n.Inner? && Ordered(n, lo, hi) && i < |n.kids|
    requires Low(n.keys, lo, i) < Rank(sep) < High(n.keys, hi, i) && lo < Rank(sep) < hi
    requires Ordered(l, Low(n.keys, lo, i), Rank(sep)) && Ordered(r, Rank(sep), High(n.keys, hi, i))
    ensures Ordered(Expand(n, i, i, l, sep, r), lo, hi)
  {
    var m := Expand(n, i, i, l, sep, r);
    ExpandSorted(n.keys, i, sep);
    ExpandWithin(n.keys, lo, hi, i, sep);
    forall j | 0 <= j < |m.kids| ensures Ordered(m.kids[j], Low(m.keys, lo, j), High(m.keys, hi, j)) {
      ExpandBounds(n.keys, lo, hi, i, sep, j);
      ExpandKid(n, i, l, sep, r, j);
    }
  }

  lemma PartsOrdered(n: Node, lo: real, hi: real, mid: nat, id: PageId)
    requires n.Inner? && Ordered(n, lo, hi) && mid < |n.keys|
    ensures Ordered(LeftPart(n, mid), lo, Rank(n.keys[mid]))
    ensures Ordered(RightPart(n, mid, id), Rank(n.keys[mid]), hi)
  {
    var l, r := LeftPart(n, mid), RightPart(n, mid, id);
    var sep := Rank(n.keys[mid]);
    forall j | 0 <= j < |l.kids| ensures Ordered(l.kids[j], Low(l.keys, lo, j), High(l.keys, sep, j)) {
      assert Ordered(n.kids[j], Low(n.keys, lo, j), High(n.keys, hi, j));
    }
    forall j | 0 <= j < |r.kids| ensures Ordered(r.kids[j], Low(r.keys, sep, j), High(r.keys, hi, j)) {
      var k := mid + 1 + j;
      assert Ordered(n.kids[k], Low(n.keys, lo, k), High(n.keys, hi, k));
    }
  }

  // ---------- contents ----------

  lemma ReplaceEntries(n: Node, i: nat, c: Node)
    requires n.Inner? && i < |n.kids|
    ensures Entries(Replace(n, i, c)) == EntriesOf(n.kids[..i]) + Entries(c) + EntriesOf(n.kids[i + 1..])
  {
    var kids := n.kids[i := c];
    EntriesSplit(kids, i);
    assert kids[..i] == n.kids[..i] && kids[i + 1..] == n.kids[i + 1..];
  }

  lemma ExpandEntries(n: Node, i: nat, l: Node, sep: Bytes, r: Node)
    requires n.Inner? && |n.kids| == |n.keys| + 1 && i < |n.kids|
    ensures Entries(Expand(n, i, i, l, sep, r)) ==
            EntriesOf(n.kids[..i]) + (Entries(l) + Entries(r)) + EntriesOf(n.kids[i + 1..])
  {
    var kids := Expand(n, i, i, l, sep, r).kids;
    assert kids == n.kids[..i] + [l, r] + n.kids[i + 1..];
    EntriesConcat(n.kids[..i] + [l, r], n.kids[i + 1..]);
    EntriesConcat(n.kids[..i], [l, r]);
    EntriesPair(l, r);
  }

  lemma PartsEntries(n: Node, mid: nat, id: PageId)
    requires n.Inner? && |n.kids| == |n.keys| + 1 && mid < |n.keys|
    ensures Entries(LeftPart(n, mid)) + Entries(RightPart(n, mid, id)) == Entries(n)
  {
    EntriesConcat(n.kids[..mid + 1], n.kids[mid + 1..]);
    assert n.kids == n.kids[..mid + 1] + n.kids[mid + 1..];
  }

  // ---------- the leaf list ----------

  lemma ReplaceChained(n: Node, i: nat, c: Node, after: PageId)
    requires n.Inner? && Chained(n, after) && i < |n.kids|
    requires Chained(c, After(n.kids, i, after)) && FirstLeaf(c) == FirstLeaf(n.kids[i])
    ensures Chained(Replace(n, i, c), after) && FirstLeaf(Replace(n, i, c)) == FirstLeaf(n)
  {
    var kids := n.kids[i := c];
    forall j | 0 <= j < |kids| ensures Chained(kids[j], After(kids, j, after)) {
      assert Chained(n.kids[j], After(n.kids, j, after));
      assert After(kids, j, after) == After(n.kids, j, after);
    }
  }

  lemma ExpandChained(n: Node, i: nat, l: Node, sep: Bytes, r: Node, after: PageId)
    requires n.Inner? && |n.kids| == |n.keys| + 1 && Chained(n, after) && i < |n.kids|
    requires Chained(l, FirstLeaf(r)) && Chained(r, After(n.kids, i, after)) && FirstLeaf(l) == FirstLeaf(n.kids[i])
    ensures Chained(Expand(n, i, i, l, sep, r), after) && FirstLeaf(Expand(n, i, i, l, sep, r)) == FirstLeaf(n)
  {
    var kids := Expand(n, i, i, l, sep, r).kids;
    forall j | 0 <= j < |kids| ensures Chained(kids[j], After(kids, j, after)) {
      ExpandChainedAt(n, i, l, sep, r, after, j);
    }
    ExpandKid(n, i, l, sep, r, 0);
  }

  lemma ExpandChainedAt(n: Node, i: nat, l: Node, sep: Bytes, r: Node, after: PageId, j: nat)
    requires n.Inner? && |n.kids| == |n.keys| + 1 && Chained(n, after) && i < |n.kids| && j <= |n.kids|
    requires Chained(l, FirstLeaf(r)) && Chained(r, After(n.kids, i, after)) && FirstLeaf(l) == FirstLeaf(n.kids[i])
    ensures var kids := Expand(n, i, i, l, sep, r).kids; |kids| == |n.kids| + 1 && Chained(kids[j], After(kids, j, after))
  {
    var kids := Expand(n, i, i, l, sep, r).kids;
    hide InsertAt;
    ExpandKid(n, i, l, sep, r, j);
    if j < |n.kids| {
      ExpandKid(n, i, l, sep, r, j + 1);
    }
    if j < i {
      assert Chained(n.kids[j], After(n.kids, j, after));
    } else if j > i {
      assert Chained(n.kids[j - 1], After(n.kids, j - 1, after));
    }
  }

  lemma PartsChained(n: Node, mid: nat, id: PageId, after: PageId)
    requires n.Inner? && |n.kids| == |n.keys| + 1 && Chained(n, after) && mid < |n.keys|
    ensures var l, r := LeftPart(n, mid), RightPart(n, mid, id);
            Chained(l, FirstLeaf(r)) && Chained(r, after) && FirstLeaf(l) == FirstLeaf(n)
  {
    var l, r := LeftPart(n, mid), RightPart(n, mid, id);
    forall j | 0 <= j < |l.kids| ensures Chained(l.kids[j], After(l.kids, j, FirstLeaf(r))) {
      assert Chained(n.kids[j], After(n.kids, j, after));
    }
    forall j | 0 <= j < |r.kids| ensures Chained(r.kids[j], After(r.kids, j, after)) {
      assert Chained(n.kids[mid + 1 + j], After(n.kids, mid + 1 + j, after));
    }
  }

  // ---------- pages ----------

  lemma ReplaceUses(n: Node, i: nat, c: Node, p: PageId)
    requires n.Inner? && i < |n.kids|
    ensures Uses(Replace(n, i, c), p) + Uses(n.kids[i], p) == Uses(n, p) + Uses(c, p)
  {
    var kids := n.kids[i := c];
    UsesSplit(kids, i, p);
    UsesSplit(n.kids, i, p);
    assert kids[..i] == n.kids[..i] && kids[i + 1..] == n.kids[i + 1..];
  }

  lemma InsertAtUses(kids: seq<Node>, j: nat, r: Node, p: PageId)
    requires j <= |kids|
    ensures UsesOf(InsertAt(kids, j, r), p) == UsesOf(kids, p) + Uses(r, p)
  {
    var a, b := kids[..j], kids[j..];
    assert kids == a + b;
    UsesConcat(a, b, p);
    UsesConcat(a + [r], b, p);
    UsesConcat(a, [r], p);
    assert [r][1..] == [] && UsesOf([r][1..], p) == 0;
  }

  lemma ExpandUses(n: Node, i: nat, j: nat, l: Node, sep: Bytes, r: Node, p: PageId)
    requires n.Inner? && |n.kids| == |n.keys| + 1 && i < |n.kids| && j <= |n.keys|
    ensures Uses(Expand(n, i, j, l, sep, r), p) + Uses(n.kids[i], p) == Uses(n, p) + Uses(l, p) + Uses(r, p)
  {
    ReplaceUses(n, i, l, p);
    InsertAtUses(n.kids[i := l], j + 1, r, p);
  }

  lemma PartsUses(n: Node, mid: nat, id: PageId, p: PageId)
    requires n.Inner? && |n.kids| == |n.keys| + 1 && mid < |n.keys|
    ensures Uses(LeftPart(n, mid), p) + Uses(RightPart(n, mid, id), p) == Uses(n, p) + if id == p then 1 else 0
  {
    UsesConcat(n.kids[..mid + 1], n.kids[mid + 1..], p);
    assert n.kids == n.kids[..mid + 1] + n.kids[mid + 1..];
  }

  // ---------- sizes ----------

  lemma ReplaceFits(n: Node, i: nat, c: Node)
    requires n.Inner? && Fits(n) && i < |n.kids| && Fits(c)
    ensures Fits(Replace(n, i, c))
  {
  }

  lemma RemoveInserted<T>(s: seq<T>, i: nat, x: T)
    requires i <= |s|
    ensures RemoveAt(InsertAt(s, i, x), i) == s
  {
    assert s == s[..i] + s[i..];
  }

  lemma UsedKeysInsertAt(keys: seq<Bytes>, i: nat, key: Bytes)
    requires i <= |keys|
    ensures UsedKeys(InsertAt(keys, i, key)) == UsedKeys(keys) + INNER_CELL_OVERHEAD + |key|
  {
    UsedKeysRemoveAt(InsertAt(keys, i, key), i);
    RemoveInserted(keys, i, key);
  }

  lemma UsedInsertAt(cells: seq<Cell>, i: nat, c: Cell)
    requires i <= |cells|
    ensures Used(InsertAt(cells, i, c)) == Used(cells) + CellSize(c)
  {
    UsedRemoveAt(InsertAt(cells, i, c), i);
    RemoveInserted(cells, i, c);
  }

  lemma ExpandFits(n: Node, i: nat, j: nat, l: Node, sep: Bytes, r: Node)
    requires n.Inner? && |n.kids| == |n.keys| + 1 && i < |n.kids| && j <= |n.keys|
    requires Fits(n) && Fits(l) && Fits(r)
    ensures var m := Expand(n, i, j, l, sep, r);
            && UsedKeys(m.keys) == UsedKeys(n.keys) + INNER_CELL_OVERHEAD + |sep|
            && forall k :: 0 <= k < |m.kids| ==> Fits(m.kids[k])
  {
    var m := Expand(n, i, j, l, sep, r);
    UsedKeysInsertAt(n.keys, j, sep);
    var kids := n.kids[i := l];
    forall k | 0 <= k < |m.kids| ensures Fits(m.kids[k]) {
      assert m.kids[k] == if k <= j then kids[k] else if k == j + 1 then r else kids[k - 1];
    }
  }
}
