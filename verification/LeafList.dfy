/** The leaves of a tree in order, and what a walk along their next-leaf
    pointers sees. */
module LeafList {
  import opened Bytes
  import opened TreeModel
  import opened TreeView
  import opened TreeDelete
  import opened TreeInsert
  import opened TreePacked
  import opened Pages

  ghost function Leaves(n: Node): seq<Node> {
    match n
    case Leaf(_, _, _) => [n]
    case Inner(_, _, kids) => LeavesOf(kids)
  }

  ghost function LeavesOf(kids: seq<Node>): seq<Node> {
    if kids == [] then [] else Leaves(kids[0]) + LeavesOf(kids[1..])
  }

  /** All cells of a list of leaves. */
  ghost function Flatten(leaves: seq<Node>): seq<Cell>
    requires AllLeaves(leaves)
  {
    if leaves == [] then [] else leaves[0].cells + Flatten(leaves[1..])
  }

  /** The cells that a cursor walking along the leaves yields: it takes an
      empty leaf for the end. */
  ghost function Visible(leaves: seq<Node>): seq<Cell>
    requires AllLeaves(leaves)
  {
    if leaves == [] || leaves[0].cells == [] then [] else leaves[0].cells + Visible(leaves[1..])
  }

  ghost predicate AllLeaves(leaves: seq<Node>) {
    forall i :: 0 <= i < |leaves| ==> leaves[i].Leaf?
  }

  /** The leaf that a search for `key` ends in. */
  ghost function LeafIndex(n: Node, h: nat, key: Bytes): nat
    requires Shaped(n, h)
    decreases h
  {
    match n
    case Leaf(_, _, _) => 0
    case Inner(_, keys, kids) =>
      var i := Route(keys, key);
      |LeavesOf(kids[..i])| + LeafIndex(kids[i], h - 1, key)
  }

  // ---------- the list as a whole ----------

  lemma {:induction false} LeavesConcat(a: seq<Node>, b: seq<Node>)
    ensures LeavesOf(a + b) == LeavesOf(a) + LeavesOf(b)
  {
    if a == [] {
      assert a + b == b;
    } else {
      assert (a + b)[1..] == a[1..] + b;
      LeavesConcat(a[1..], b);
    }
  }

  lemma LeavesSplit(kids: seq<Node>, i: nat)
    requires i < |kids|
    ensures LeavesOf(kids) == LeavesOf(kids[..i]) + Leaves(kids[i]) + LeavesOf(kids[i + 1..])
  {
    assert kids == kids[..i] + kids[i..];
    LeavesConcat(kids[..i], kids[i..]);
    assert kids[i..][1..] == kids[i + 1..];
  }

  lemma {:induction false} FlattenConcat(a: seq<Node>, b: seq<Node>)
    requires AllLeaves(a) && AllLeaves(b)
    ensures AllLeaves(a + b) && Flatten(a + b) == Flatten(a) + Flatten(b)
  {
    if a == [] {
      assert a + b == b;
    } else {
      assert (a + b)[1..] == a[1..] + b;
      FlattenConcat(a[1..], b);
    }
  }

  /** The leaves hold exactly the entries, in order. */
  lemma {:induction false} LeavesFlatten(n: Node)
    ensures AllLeaves(Leaves(n)) && Flatten(Leaves(n)) == Entries(n)
    decreases n, 1
  {
    match n
    case Leaf(_, cells, _) =>
      assert [n][1..] == [] && Flatten([n][1..]) == [];
    case Inner(_, _, kids) =>
      LeavesOfFlatten(kids);
  }

  lemma {:induction false} LeavesOfFlatten(kids: seq<Node>)
    ensures AllLeaves(LeavesOf(kids)) && Flatten(LeavesOf(kids)) == EntriesOf(kids)
    decreases kids, 0
  {
    if kids != [] {
      LeavesFlatten(kids[0]);
      LeavesOfFlatten(kids[1..]);
      FlattenConcat(Leaves(kids[0]), LeavesOf(kids[1..]));
    }
  }

  function NextOf(leaves: seq<Node>, i: nat, after: PageId): PageId
    requires i < |leaves|
  {
    if i + 1 < |leaves| then leaves[i + 1].id else after
  }

  /** Each leaf points to the next, and the last one to `after`. */
  ghost predicate Threaded(leaves: seq<Node>, after: PageId) {
    && AllLeaves(leaves)
    && forall i :: 0 <= i < |leaves| ==> leaves[i].next == NextOf(leaves, i, after)
  }

  lemma ThreadedConcat(a: seq<Node>, b: seq<Node>, after: PageId)
    requires b != [] && Threaded(a, b[0].id) && Threaded(b, after)
    ensures Threaded(a + b, after)
  {
    var c := a + b;
    forall i | 0 <= i < |c| ensures c[i].Leaf? && c[i].next == NextOf(c, i, after) {
      if i < |a| {
        assert a[i].next == NextOf(a, i, b[0].id);
      } else {
        assert b[i - |a|].next == NextOf(b, i - |a|, after);
      }
    }
  }

  lemma {:induction false} LeavesThreaded(n: Node, h: nat, after: PageId)
    requires Shaped(n, h) && Chained(n, after)
    ensures Threaded(Leaves(n), after)
    ensures Leaves(n) != [] && Leaves(n)[0].id == FirstLeaf(n)
    decreases h, 1
  {
    match n
    case Leaf(_, _, _) =>
    case Inner(_, _, kids) =>
      LeavesOfThreaded(kids, h - 1, after, 0);
      assert kids[0..] == kids;
  }

  lemma {:induction false} LeavesOfThreaded(kids: seq<Node>, h: nat, after: PageId, i: nat)
    requires i < |kids| && forall j :: 0 <= j < |kids| ==> Shaped(kids[j], h) && Chained(kids[j], After(kids, j, after))
    ensures LeavesOf(kids[i..]) != []
    ensures Threaded(LeavesOf(kids[i..]), after)
    ensures LeavesOf(kids[i..])[0].id == FirstLeaf(kids[i])
    decreases h, 2, |kids| - i
  {
    assert Shaped(kids[i], h) && Chained(kids[i], After(kids, i, after));
    LeavesThreaded(kids[i], h, After(kids, i, after));
    assert kids[i..][1..] == kids[i + 1..];
    if i + 1 < |kids| {
      LeavesOfThreaded(kids, h, after, i + 1);
      ThreadedConcat(Leaves(kids[i]), LeavesOf(kids[i + 1..]), after);
    } else {
      assert LeavesOf(kids[i + 1..]) == [];
      assert LeavesOf(kids[i..]) == Leaves(kids[i]);
    }
  }

  // ---------- searching ----------

  /** One step of a search down the tree. */
  lemma LeafIndexBelow(n: Node, h: nat, key: Bytes)
    requires Shaped(n, h) && n.Inner?
    ensures var i := Route(n.keys, key);
            && LeafIndex(n, h, key) == |LeavesOf(n.kids[..i])| + LeafIndex(n.kids[i], h - 1, key)
            && Leaves(n) == LeavesOf(n.kids[..i]) + Leaves(n.kids[i]) + LeavesOf(n.kids[i + 1..])
  {
    LeavesSplit(n.kids, Route(n.keys, key));
  }

  /** A search that has reached `n`, whose leaves start at position `before`
      of the whole list, goes on to child `i`. */
  lemma Descend(ls: seq<Node>, before: nat, n: Node, h: nat, i: nat)
    requires Shaped(n, h) && n.Inner? && i < |n.kids|
    requires before + |Leaves(n)| <= |ls| && ls[before..before + |Leaves(n)|] == Leaves(n)
    ensures var b := before + |LeavesOf(n.kids[..i])|;
            && b + |Leaves(n.kids[i])| <= |ls|
            && ls[b..b + |Leaves(n.kids[i])|] == Leaves(n.kids[i])
  {
    LeavesSplit(n.kids, i);
    hide Leaves, LeavesOf, Shaped;
    SliceWithin(ls, before, LeavesOf(n.kids[..i]), Leaves(n.kids[i]), LeavesOf(n.kids[i + 1..]));
  }

  lemma SliceWithin<T>(ls: seq<T>, before: nat, a: seq<T>, m: seq<T>, b: seq<T>)
    requires before + |a| + |m| + |b| <= |ls| && ls[before..before + |a| + |m| + |b|] == a + m + b
    ensures ls[before + |a|..before + |a| + |m|] == m
  {
    var w := a + m + b;
    assert w[|a|..|a| + |m|] == m;
    forall k | 0 <= k < |m| ensures ls[before + |a| + k] == m[k] {
      assert w[|a| + k] == m[k];
    }
  }

  /** What lies left of the leaf found is below the key, what lies right of it
      is above. */
  lemma {:induction false} LeafIndexSplits(n: Node, h: nat, key: Bytes, lo: real, hi: real)
    requires Shaped(n, h) && Ordered(n, lo, hi)
    ensures var ls, j := Leaves(n), LeafIndex(n, h, key);
            && AllLeaves(ls) && j < |ls|
            && AllBelow(Flatten(ls[..j]), key) && AllAbove(Flatten(ls[j + 1..]), key)
            && Sorted(ls[j].cells)
    decreases h
  {
    hide Rank, Sorted, AllBelow, AllAbove, Flatten, Ordered, Route;
    match n
    case Leaf(_, _, _) =>
      LeafAlone(n, h, key, lo, hi);
    case Inner(_, keys, kids) =>
      var i := Route(keys, key);
      OrderedBelow(n, lo, hi, i);
      LeafIndexSplits(kids[i], h - 1, key, Low(keys, lo, i), High(keys, hi, i));
      LeafIndexSplitsUp(n, h, key, lo, hi, i);
  }

  lemma LeafAlone(n: Node, h: nat, key: Bytes, lo: real, hi: real)
    requires Shaped(n, h) && n.Leaf? && Ordered(n, lo, hi)
    ensures var ls, j := Leaves(n), LeafIndex(n, h, key);
            && AllLeaves(ls) && j < |ls|
            && AllBelow(Flatten(ls[..j]), key) && AllAbove(Flatten(ls[j + 1..]), key)
            && Sorted(ls[j].cells)
  {
    assert [n][..0] == [] && [n][1..] == [];
  }

  lemma LeafIndexSplitsUp(n: Node, h: nat, key: Bytes, lo: real, hi: real, i: nat)
    requires Shaped(n, h) && n.Inner? && Ordered(n, lo, hi) && i == Route(n.keys, key)
    requires var ls, j := Leaves(n.kids[i]), LeafIndex(n.kids[i], h - 1, key);
             && AllLeaves(ls) && j < |ls|
             && AllBelow(Flatten(ls[..j]), key) && AllAbove(Flatten(ls[j + 1..]), key)
             && Sorted(ls[j].cells)
    ensures var ls, j := Leaves(n), LeafIndex(n, h, key);
            && AllLeaves(ls) && j < |ls|
            && AllBelow(Flatten(ls[..j]), key) && AllAbove(Flatten(ls[j + 1..]), key)
            && Sorted(ls[j].cells)
  {
    hide Ordered, Rank, Route, Sorted, AllBelow, AllAbove, Flatten;
    var a, m, b := LeavesOf(n.kids[..i]), Leaves(n.kids[i]), LeavesOf(n.kids[i + 1..]);
    var k := LeafIndex(n.kids[i], h - 1, key);
    LeafIndexBelow(n, h, key);
    AroundRoute(n, lo, hi, i, key);
    LeavesFlatten(n);
    LeavesOfFlatten(n.kids[..i]);
    LeavesOfFlatten(n.kids[i + 1..]);
    hide Shaped, LeafIndex, Leaves, LeavesOf;
    SplitList(a, m, b, k);
    FlattenConcat(a, m[..k]);
    FlattenConcat(m[k + 1..], b);
    BelowConcat(Flatten(a), Flatten(m[..k]), key);
    AboveConcat(Flatten(m[k + 1..]), Flatten(b), key);
  }

  lemma SplitList<T>(a: seq<T>, m: seq<T>, b: seq<T>, k: nat)
    requires k < |m|
    ensures (a + m + b)[..|a| + k] == a + m[..k]
    ensures (a + m + b)[|a| + k + 1..] == m[k + 1..] + b
    ensures (a + m + b)[|a| + k] == m[k]
  {
  }

  lemma BelowConcat(a: seq<Cell>, b: seq<Cell>, key: Bytes)
    requires AllBelow(a, key) && AllBelow(b, key)
    ensures AllBelow(a + b, key)
  {
    hide Rank;
  }

  lemma AboveConcat(a: seq<Cell>, b: seq<Cell>, key: Bytes)
    requires AllAbove(a, key) && AllAbove(b, key)
    ensures AllAbove(a + b, key)
  {
    hide Rank;
  }

  /** The entries around leaf `j`. */
  lemma FlattenAround(leaves: seq<Node>, j: nat)
    requires AllLeaves(leaves) && j < |leaves|
    ensures AllLeaves(leaves[..j]) && AllLeaves(leaves[j + 1..])
    ensures Flatten(leaves) == Flatten(leaves[..j]) + leaves[j].cells + Flatten(leaves[j + 1..])
  {
    hide *;
    assert leaves == leaves[..j] + leaves[j..];
    SomeLeaves(leaves, j);
    FlattenConcat(leaves[..j], leaves[j..]);
    FlattenStep(leaves, j);
  }

  lemma SomeLeaves(leaves: seq<Node>, j: nat)
    requires AllLeaves(leaves) && j < |leaves|
    ensures AllLeaves(leaves[..j]) && AllLeaves(leaves[j..]) && AllLeaves(leaves[j + 1..]) && leaves[j].Leaf?
  {
  }

  lemma FlattenStep(leaves: seq<Node>, j: nat)
    requires AllLeaves(leaves) && j < |leaves|
    ensures AllLeaves(leaves[j..]) && AllLeaves(leaves[j + 1..])
    ensures Flatten(leaves[j..]) == leaves[j].cells + Flatten(leaves[j + 1..])
  {
    assert leaves[j..][1..] == leaves[j + 1..];
  }

  /** A key is in the tree exactly when it is in the leaf that the search ends
      in, and there it has its cell. */
  lemma LeafHasKey(n: Node, h: nat, key: Bytes, lo: real, hi: real)
    requires Shaped(n, h) && Ordered(n, lo, hi)
    ensures var ls, j := Leaves(n), LeafIndex(n, h, key);
            && AllLeaves(ls) && j < |ls|
            && var i, k := Slot(Entries(n), key), Slot(ls[j].cells, key);
               && HasKeyAt(Entries(n), i, key) == HasKeyAt(ls[j].cells, k, key)
               && (HasKeyAt(ls[j].cells, k, key) ==> Entries(n)[i] == ls[j].cells[k])
               && Entries(n)[i..] == ls[j].cells[k..] + Flatten(ls[j + 1..])
  {
    hide Rank, Slot, AllBelow, AllAbove, HasKeyAt, Ordered, Flatten, Sorted;
    var ls, j := Leaves(n), LeafIndex(n, h, key);
    LeafIndexSplits(n, h, key, lo, hi);
    LeavesFlatten(n);
    FlattenAround(ls, j);
    var a, e, b := Flatten(ls[..j]), ls[j].cells, Flatten(ls[j + 1..]);
    hide Leaves, LeafIndex, Shaped;
    SlotInside(a, e, b, key);
    AboveDiffers(b, key);
    var k := Slot(e, key);
    HasKeyInside(a, e, b, k, key);
    if HasKeyAt(e, k, key) {
      HasKeyInRange(e, k, key);
    }
    DropPrefix(a, e, b, k);
  }

  lemma DropPrefix<T>(a: seq<T>, e: seq<T>, b: seq<T>, k: nat)
    requires k <= |e|
    ensures (a + e + b)[|a| + k..] == e[k..] + b
    ensures k < |e| ==> (a + e + b)[|a| + k] == e[k]
  {
  }

  // ---------- empty leaves ----------

  /** No leaf with cells comes after an empty one. */
  ghost predicate EmptyOnlyAtEnd(leaves: seq<Node>)
    requires AllLeaves(leaves)
  {
    forall i, j :: 0 <= i < j < |leaves| && leaves[i].cells == [] ==> leaves[j].cells == []
  }

  lemma {:induction false} FlattenEmpty(leaves: seq<Node>)
    requires AllLeaves(leaves)
    ensures Flatten(leaves) == [] <==> forall i :: 0 <= i < |leaves| ==> leaves[i].cells == []
  {
    if leaves != [] {
      FlattenEmpty(leaves[1..]);
      if Flatten(leaves) == [] {
        forall i | 0 <= i < |leaves| ensures leaves[i].cells == [] {
          if i > 0 {
            assert leaves[i] == leaves[1..][i - 1];
          }
        }
      }
    }
  }

  /** A walk along the leaves sees every cell exactly when no leaf with cells
      comes after an empty one. */
  lemma {:induction false} VisibleIsAll(leaves: seq<Node>)
    requires AllLeaves(leaves)
    ensures Visible(leaves) == Flatten(leaves) <==> EmptyOnlyAtEnd(leaves)
  {
    if leaves != [] {
      VisibleIsAll(leaves[1..]);
      FlattenEmpty(leaves[1..]);
      if leaves[0].cells == [] {
        if EmptyOnlyAtEnd(leaves) {
          assert forall i :: 0 <= i < |leaves[1..]| ==> leaves[1..][i] == leaves[i + 1];
        } else {
          var i, j :| 0 <= i < j < |leaves| && leaves[i].cells == [] && leaves[j].cells != [];
          assert leaves[1..][j - 1] == leaves[j];
        }
      } else {
        EmptyTail(leaves);
        assert Visible(leaves) == leaves[0].cells + Visible(leaves[1..]);
        assert Flatten(leaves) == leaves[0].cells + Flatten(leaves[1..]);
        SamePrefix(leaves[0].cells, Visible(leaves[1..]), Flatten(leaves[1..]));
      }
    }
  }

  lemma EmptyTail(leaves: seq<Node>)
    requires AllLeaves(leaves) && leaves != [] && leaves[0].cells != []
    ensures EmptyOnlyAtEnd(leaves) <==> EmptyOnlyAtEnd(leaves[1..])
  {
    if EmptyOnlyAtEnd(leaves) {
      forall i, j | 0 <= i < j < |leaves[1..]| && leaves[1..][i].cells == [] ensures leaves[1..][j].cells == [] {
        assert leaves[i + 1].cells == [];
      }
    }
    if EmptyOnlyAtEnd(leaves[1..]) {
      forall i, j | 0 <= i < j < |leaves| && leaves[i].cells == [] ensures leaves[j].cells == [] {
        assert leaves[1..][i - 1] == leaves[i] && leaves[1..][j - 1] == leaves[j];
      }
    }
  }

  lemma SamePrefix<T>(a: seq<T>, b: seq<T>, c: seq<T>)
    ensures a + b == a + c <==> b == c
  {
    if a + b == a + c {
      assert (a + b)[|a|..] == b && (a + c)[|a|..] == c;
    }
  }

  /** Leaves of a tree without empty leaves. */
  lemma {:induction false} NoEmptyLeaves(n: Node)
    requires NoEmptyLeaf(n)
    ensures forall i :: 0 <= i < |Leaves(n)| ==> Leaves(n)[i].Leaf? && Leaves(n)[i].cells != []
    decreases n, 1
  {
    if n.Inner? {
      NoEmptyLeavesOf(n.kids);
    }
  }

  lemma {:induction false} NoEmptyLeavesOf(kids: seq<Node>)
    requires forall i :: 0 <= i < |kids| ==> NoEmptyLeaf(kids[i])
    ensures forall i :: 0 <= i < |LeavesOf(kids)| ==> LeavesOf(kids)[i].Leaf? && LeavesOf(kids)[i].cells != []
    decreases kids, 0
  {
    if kids != [] {
      NoEmptyLeaves(kids[0]);
      NoEmptyLeavesOf(kids[1..]);
    }
  }
}
