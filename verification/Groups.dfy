/** Scans that meet the versions of several ids: the versions of one id stand
    together, from the first to the last. */
module Groups {
  import opened Bytes
  import opened TreeModel
  import opened TreeView
  import opened Keys
  import opened Codec
  import opened StoreFacts

  /** A position of a scan: version `i + 1` of `c`. */
  datatype Owner = Owner(c: ChainId, i: nat)

  ghost predicate Owns(chains: Chains, sel: set<ChainId>, x: Cell, o: Owner) {
    && o.c in sel && o.c in chains && o.i < |chains[o.c]| && IsVersion(o.c, o.i, x.key)
    && Decode(x.val, o.c.id) == Success(chains[o.c][o.i])
    && GoodVersion(o.c, o.i, chains[o.c][o.i])
    && ParseKey(x.key) == Ok(ParsedKey(o.c.kind, o.c.id, o.i + 1))
  }

  /** Position `j` goes on with the id before it, or starts a new one after the
      last version of that. */
  ghost predicate GoesOn(chains: Chains, owners: seq<Owner>, j: nat)
    requires 0 < j < |owners| && owners[j - 1].c in chains
  {
    if owners[j].c == owners[j - 1].c then owners[j].i == owners[j - 1].i + 1
    else
      && owners[j].i == 0
      && owners[j - 1].i + 1 == |chains[owners[j - 1].c]|
      && forall k :: 0 <= k < j ==> owners[k].c != owners[j].c
  }

  /** The scan `s` yields exactly the versions of the ids in `sel`, id by id. */
  ghost predicate Grouped(s: seq<Cell>, chains: Chains, sel: set<ChainId>, owners: seq<Owner>) {
    && |owners| == |s|
    && (forall j :: 0 <= j < |s| ==> Owns(chains, sel, s[j], owners[j]))
    && (s != [] ==> owners[0].i == 0)
    && (forall j :: 0 < j < |s| ==> GoesOn(chains, owners, j))
    && (s != [] ==> owners[|s| - 1].i + 1 == |chains[owners[|s| - 1].c]|)
    && (forall c :: c in sel ==> exists j :: 0 <= j < |owners| && owners[j].c == c)
  }

  /** The stored keys that start with `p` are the versions of the ids in `sel`. */
  ghost predicate Selects(chains: Chains, p: Bytes, sel: set<ChainId>) {
    && (forall c :: c in sel ==> c in chains)
    && (forall c, i: nat, key :: c in chains && i < |chains[c]| && IsVersion(c, i, key) ==> (p <= key <==> c in sel))
    && (forall key :: IsReverseKey(chains, key) ==> !(p <= key))
  }

  lemma OwnerOf(cells: seq<Cell>, chains: Chains, p: Bytes, sel: set<ChainId>, x: Cell) returns (o: Owner)
    requires Sorted(cells) && Holding(Contents(cells), chains) && Selects(chains, p, sel) && x in Scan(cells, p)
    ensures Owns(chains, sel, x, o)
  {
    hide *;
    ScanIsExact(cells, p);
    CellsAreEntries(cells, x);
    KeyIsEither(Contents(cells), chains, x.key);
    o := SelectedVersion(chains, p, sel, x.key);
    OwnsIt(Contents(cells), chains, sel, x, o);
  }

  lemma SelectedVersion(chains: Chains, p: Bytes, sel: set<ChainId>, key: Bytes) returns (o: Owner)
    requires Selects(chains, p, sel) && p <= key && (IsVersionKey(chains, key) || IsReverseKey(chains, key))
    ensures o.c in sel && o.c in chains && o.i < |chains[o.c]| && IsVersion(o.c, o.i, key)
  {
    hide IsVersion, IsReverseKey;
    var c, i: nat :| c in chains && i < |chains[c]| && IsVersion(c, i, key);
    o := Owner(c, i);
  }

  lemma OwnsIt(m: map<Bytes, Bytes>, chains: Chains, sel: set<ChainId>, x: Cell, o: Owner)
    requires Holding(m, chains) && x.key in m && m[x.key] == x.val
    requires o.c in sel && o.c in chains && o.i < |chains[o.c]| && IsVersion(o.c, o.i, x.key)
    ensures Owns(chains, sel, x, o)
  {
    hide Holding, Decode, ParseKey, GoodVersion, BuildKey;
    VersionsFit(m, chains, o.c);
    VersionStored(m, chains, o.c, o.i);
    VersionReads(m, chains, o.c, o.i);
    ParseKeyInverts(o.c.kind, o.c.id, o.i + 1);
  }

  lemma OwnersOf(cells: seq<Cell>, chains: Chains, p: Bytes, sel: set<ChainId>, s: seq<Cell>) returns (owners: seq<Owner>)
    requires Sorted(cells) && Holding(Contents(cells), chains) && Selects(chains, p, sel)
    requires forall x :: x in s ==> x in Scan(cells, p)
    ensures |owners| == |s| && forall j :: 0 <= j < |s| ==> Owns(chains, sel, s[j], owners[j])
  {
    hide Scan, Contents, Holding, Owns, Selects, Sorted;
    owners := [];
    while |owners| < |s|
      invariant |owners| <= |s| && forall j :: 0 <= j < |owners| ==> Owns(chains, sel, s[j], owners[j])
    {
      var x := s[|owners|];
      assert x in s;
      var o := OwnerOf(cells, chains, p, sel, x);
      owners := owners + [o];
    }
  }

  /** Positions of one id come in the order of the versions. */
  lemma SameOwnerOrder(s: seq<Cell>, chains: Chains, sel: set<ChainId>, owners: seq<Owner>, j: nat, k: nat)
    requires Sorted(s) && |owners| == |s| && j < k < |s|
    requires Owns(chains, sel, s[j], owners[j]) && Owns(chains, sel, s[k], owners[k])
    requires GoodChains(chains) && owners[j].c == owners[k].c
    ensures owners[j].i < owners[k].i
  {
    var c := owners[j].c;
    assert GoodChain(c, chains[c]);
    hide Rank, GoodVersion, Decode, ParseKey, BuildKey;
    assert Rank(s[j].key) < Rank(s[k].key);
    VersionOrder(c.kind, c.id, owners[j].i + 1, owners[k].i + 1);
  }

  /** Between two keys that start with a prefix there are only such keys. */
  lemma Between(s: seq<Cell>, p: Bytes, j: nat, l: nat, k: nat)
    requires Sorted(s) && j <= l <= k < |s| && p <= s[j].key && p <= s[k].key
    ensures p <= s[l].key
  {
    PrefixIsLower(p, s[j].key);
    hide Rank;
    assert Rank(s[j].key) <= Rank(s[l].key) <= Rank(s[k].key);
    PrefixConvex(p, s[l].key, s[k].key);
  }

  lemma OwnedPrefix(chains: Chains, sel: set<ChainId>, x: Cell, o: Owner, c: ChainId)
    requires Owns(chains, sel, x, o) && GoodChains(chains) && GoodChainId(c)
    ensures ChainPrefix(c.kind, c.id).value <= x.key <==> o.c == c
  {
    assert GoodChain(o.c, chains[o.c]);
    hide GoodVersion, Decode, ParseKey, ChainPrefix, BuildKey;
    VersionHasPrefix(c, 0, o.c, o.i, x.key);
  }

  /** Positions of one id have nothing of another between them. */
  lemma SameOwnerBetween(s: seq<Cell>, chains: Chains, sel: set<ChainId>, owners: seq<Owner>, j: nat, l: nat, k: nat)
    requires Sorted(s) && |owners| == |s| && j <= l <= k < |s| && GoodChains(chains)
    requires Owns(chains, sel, s[j], owners[j]) && Owns(chains, sel, s[k], owners[k]) && Owns(chains, sel, s[l], owners[l])
    requires owners[j].c == owners[k].c
    ensures owners[l].c == owners[j].c
  {
    var c := owners[j].c;
    assert GoodChain(c, chains[c]);
    var p := ChainPrefix(c.kind, c.id).value;
    hide *;
    OwnedPrefix(chains, sel, s[j], owners[j], c);
    OwnedPrefix(chains, sel, s[k], owners[k], c);
    OwnedPrefix(chains, sel, s[l], owners[l], c);
    Between(s, p, j, l, k);
  }

  /** Every version of a selected id has its position. */
  ghost predicate Covers(chains: Chains, sel: set<ChainId>, owners: seq<Owner>) {
    forall c, i: nat :: c in sel && c in chains && i < |chains[c]| ==> Owner(c, i) in owners
  }

  lemma CoversAll(cells: seq<Cell>, chains: Chains, p: Bytes, sel: set<ChainId>, owners: seq<Owner>)
    requires Sorted(cells) && Holding(Contents(cells), chains) && Selects(chains, p, sel)
    requires |owners| == |Scan(cells, p)|
    requires forall j :: 0 <= j < |owners| ==> Owns(chains, sel, Scan(cells, p)[j], owners[j])
    ensures Covers(chains, sel, owners)
  {
    var m, s := Contents(cells), Scan(cells, p);
    ScanIsExact(cells, p);
    hide Scan, Contents, Holding, Sorted, Selects, Owns;
    forall c, i: nat | c in sel && c in chains && i < |chains[c]| ensures Owner(c, i) in owners {
      var j := PositionOf(cells, chains, p, sel, c, i);
      OneOwner(cells, chains, sel, s[j], owners[j], c, i);
      assert owners[j] == Owner(c, i);
    }
  }

  lemma PositionOf(cells: seq<Cell>, chains: Chains, p: Bytes, sel: set<ChainId>, c: ChainId, i: nat) returns (j: nat)
    requires Sorted(cells) && Holding(Contents(cells), chains) && Selects(chains, p, sel)
    requires c in sel && c in chains && i < |chains[c]|
    ensures j < |Scan(cells, p)| && IsVersion(c, i, Scan(cells, p)[j].key)
  {
    var m, s := Contents(cells), Scan(cells, p);
    ScanIsExact(cells, p);
    VersionsFit(m, chains, c);
    VersionKnown(m, chains, c, i);
    hide Scan, Contents, Holding, Sorted, BuildKey;
    var key := KeyOf(c, i + 1);
    assert IsVersion(c, i, key) && p <= key;
    EntriesAreCells(cells, key);
    var x :| x in cells && x.key == key && x.val == m[key];
    assert x in s;
    j :| 0 <= j < |s| && s[j] == x;
  }

  lemma VersionKnown(m: map<Bytes, Bytes>, chains: Chains, c: ChainId, i: nat)
    requires Holding(m, chains) && c in chains && i < |chains[c]|
    ensures GoodChainId(c) && KeyOf(c, i + 1) in m
  {
    assert GoodChain(c, chains[c]);
    hide Holding, GoodVersion, Decode;
    VersionStored(m, chains, c, i);
    VersionReads(m, chains, c, i);
  }

  lemma OneOwner(cells: seq<Cell>, chains: Chains, sel: set<ChainId>, x: Cell, o: Owner, c: ChainId, i: nat)
    requires Holding(Contents(cells), chains) && Owns(chains, sel, x, o) && IsVersion(c, i, x.key)
    requires c in chains && i < |chains[c]|
    ensures o == Owner(c, i)
  {
    hide Decode, ParseKey, GoodVersion, BuildKey, Holding;
    VersionsFit(Contents(cells), chains, o.c);
    VersionsFit(Contents(cells), chains, c);
    KeysDiffer(c.kind, c.id, i + 1, o.c.kind, o.c.id, o.i + 1);
  }

  /** What follows position `j` in its group. */
  ghost predicate InOrder(owners: seq<Owner>) {
    forall j, k :: 0 <= j < k < |owners| && owners[j].c == owners[k].c ==>
                     owners[j].i < owners[k].i && forall l :: j <= l <= k ==> owners[l].c == owners[j].c
  }

  ghost predicate Ranged(chains: Chains, sel: set<ChainId>, owners: seq<Owner>) {
    forall j :: 0 <= j < |owners| ==> owners[j].c in sel && owners[j].c in chains && owners[j].i < |chains[owners[j].c]|
  }

  lemma InOrderAt(owners: seq<Owner>, j: nat, k: nat)
    requires InOrder(owners) && j < k < |owners| && owners[j].c == owners[k].c
    ensures owners[j].i < owners[k].i && forall l :: j <= l <= k ==> owners[l].c == owners[j].c
  {
  }

  lemma Apart(owners: seq<Owner>, k: nat, j: nat)
    requires InOrder(owners) && k < j < |owners| && owners[j - 1].c != owners[j].c
    ensures owners[k].c != owners[j].c
  {
    if owners[k].c == owners[j].c {
      InOrderAt(owners, k, j);
    }
  }

  /** The first position of an id has its first version. */
  lemma GroupStarts(chains: Chains, sel: set<ChainId>, owners: seq<Owner>, j: nat)
    requires InOrder(owners) && Ranged(chains, sel, owners) && Covers(chains, sel, owners) && j < |owners|
    requires j == 0 || owners[j - 1].c != owners[j].c
    ensures owners[j].i == 0 && forall k :: 0 <= k < j ==> owners[k].c != owners[j].c
  {
    var c := owners[j].c;
    assert Owner(c, 0) in owners;
    var l: nat :| l < |owners| && owners[l] == Owner(c, 0);
    hide InOrder;
    forall k | 0 <= k < j ensures owners[k].c != c {
      Apart(owners, k, j);
    }
    if l > j {
      InOrderAt(owners, j, l);
    }
  }

  /** The last position of an id has its last version. */
  lemma GroupEnds(chains: Chains, sel: set<ChainId>, owners: seq<Owner>, j: nat)
    requires InOrder(owners) && Ranged(chains, sel, owners) && Covers(chains, sel, owners) && j < |owners|
    requires j + 1 == |owners| || owners[j + 1].c != owners[j].c
    ensures owners[j].i + 1 == |chains[owners[j].c]|
  {
    var c := owners[j].c;
    var n := |chains[c]|;
    assert Owner(c, n - 1) in owners;
    var l: nat :| l < |owners| && owners[l] == Owner(c, n - 1);
    hide InOrder;
    if l > j {
      InOrderAt(owners, j, l);
    } else if l < j {
      InOrderAt(owners, l, j);
    }
  }

  lemma GroupGoesOn(chains: Chains, sel: set<ChainId>, owners: seq<Owner>, j: nat)
    requires InOrder(owners) && Ranged(chains, sel, owners) && Covers(chains, sel, owners) && j + 1 < |owners|
    requires owners[j + 1].c == owners[j].c
    ensures owners[j + 1].i == owners[j].i + 1
  {
    var c := owners[j].c;
    InOrderAt(owners, j, j + 1);
    assert Owner(c, owners[j].i + 1) in owners;
    var l: nat :| l < |owners| && owners[l] == Owner(c, owners[j].i + 1);
    hide InOrder;
    if l < j {
      InOrderAt(owners, l, j);
    } else if l > j + 1 {
      InOrderAt(owners, j + 1, l);
    }
  }

  /** A scan that selects whole ids is grouped by id. */
  lemma ScanIsGrouped(cells: seq<Cell>, chains: Chains, p: Bytes, sel: set<ChainId>) returns (owners: seq<Owner>)
    requires Sorted(cells) && Holding(Contents(cells), chains) && Selects(chains, p, sel)
    ensures Grouped(Scan(cells, p), chains, sel, owners)
  {
    var s := Scan(cells, p);
    ScanIsExact(cells, p);
    owners := OwnersOf(cells, chains, p, sel, s);
    CoversAll(cells, chains, p, sel, owners);
    OwnersInOrder(s, chains, sel, owners);
    hide Scan, Holding, Contents, Selects, Owns, Sorted;
    OwnersGrouped(s, chains, sel, owners);
  }

  lemma OwnersInOrder(s: seq<Cell>, chains: Chains, sel: set<ChainId>, owners: seq<Owner>)
    requires Sorted(s) && |owners| == |s| && GoodChains(chains)
    requires forall l :: 0 <= l < |s| ==> Owns(chains, sel, s[l], owners[l])
    ensures InOrder(owners) && Ranged(chains, sel, owners)
  {
    assert Ranged(chains, sel, owners) by {
      hide IsVersion, Decode, GoodVersion, ParseKey;
      forall j | 0 <= j < |owners|
        ensures owners[j].c in sel && owners[j].c in chains && owners[j].i < |chains[owners[j].c]|
      {
        assert Owns(chains, sel, s[j], owners[j]);
      }
    }
    hide Sorted, GoodChains, Owns;
    forall j, k | 0 <= j < k < |owners| && owners[j].c == owners[k].c
      ensures owners[j].i < owners[k].i && forall l :: j <= l <= k ==> owners[l].c == owners[j].c
    {
      SameOwnerOrder(s, chains, sel, owners, j, k);
      forall l | j <= l <= k ensures owners[l].c == owners[j].c {
        SameOwnerBetween(s, chains, sel, owners, j, l, k);
      }
    }
  }

  lemma OwnersGrouped(s: seq<Cell>, chains: Chains, sel: set<ChainId>, owners: seq<Owner>)
    requires |owners| == |s| && forall l :: 0 <= l < |s| ==> Owns(chains, sel, s[l], owners[l])
    requires InOrder(owners) && Ranged(chains, sel, owners) && Covers(chains, sel, owners)
    requires forall c :: c in sel ==> c in chains && chains[c] != []
    ensures Grouped(s, chains, sel, owners)
  {
    hide Owns, InOrder, Covers;
    forall j | 0 < j < |s| ensures GoesOn(chains, owners, j) {
      if owners[j].c == owners[j - 1].c {
        GroupGoesOn(chains, sel, owners, j - 1);
      } else {
        GroupStarts(chains, sel, owners, j);
        GroupEnds(chains, sel, owners, j - 1);
      }
    }
    if s != [] {
      GroupStarts(chains, sel, owners, 0);
      GroupEnds(chains, sel, owners, |s| - 1);
    }
    forall c | c in sel ensures exists j :: 0 <= j < |owners| && owners[j].c == c {
      HasPosition(chains, sel, owners, c);
    }
  }

  lemma HasPosition(chains: Chains, sel: set<ChainId>, owners: seq<Owner>, c: ChainId)
    requires Covers(chains, sel, owners) && c in sel && c in chains && chains[c] != []
    ensures exists j :: 0 <= j < |owners| && owners[j].c == c
  {
    assert Owner(c, 0) in owners;
    var j :| 0 <= j < |owners| && owners[j] == Owner(c, 0);
  }
}
