/** What an event store holds: sorted cells whose keys are versions of events
    and entries of the reverse-link index. */
module StoreFacts {
  import opened Bytes
  import opened TreeModel
  import opened TreeView
  import opened PageKeys
  import opened Keys
  import opened Codec

  /** The versions of one logical id. */
  datatype ChainId = ChainId(kind: Kind, id: Bytes)

  type Chains = map<ChainId, seq<Event>>

  // ---------- prefix scans ----------

  /** Strings between a prefix and a string that starts with it start with it
      too. */
  lemma {:induction false} PrefixConvex(p: Bytes, x: Bytes, y: Bytes)
    requires p <= y && Rank(p) <= Rank(x) <= Rank(y)
    ensures p <= x
  {
    if p != [] {
      assert x != [];
      assert p[0] == y[0] && p[1..] <= y[1..];
      FirstByte(p, x);
      FirstByte(x, y);
      PrefixConvex(p[1..], x[1..], y[1..]);
      assert x == [x[0]] + x[1..] && p == [p[0]] + p[1..];
    }
  }

  lemma FirstByte(a: Bytes, b: Bytes)
    requires a != [] && b != [] && Rank(a) <= Rank(b)
    ensures a[0] <= b[0] && (a[0] == b[0] ==> Rank(a[1..]) <= Rank(b[1..]))
  {
    if a[0] != b[0] {
      TopByteDecides(a, b);
      TopByteDecides(b, a);
    }
  }

  lemma {:induction false} PrefixIsLower(p: Bytes, y: Bytes)
    requires p <= y
    ensures Rank(p) <= Rank(y)
  {
    if p != [] {
      assert p[0] == y[0] && p[1..] <= y[1..];
      PrefixIsLower(p[1..], y[1..]);
    }
  }

  /** Where a scan of the cells that start with `p` ends. */
  function ScanEnd(cells: seq<Cell>, p: Bytes, i: nat): (j: nat)
    requires i <= |cells|
    ensures i <= j <= |cells|
    ensures forall k :: i <= k < j ==> p <= cells[k].key
    ensures j < |cells| ==> !(p <= cells[j].key)
    decreases |cells| - i
  {
    if i < |cells| && p <= cells[i].key then ScanEnd(cells, p, i + 1) else i
  }

  /** The cells that a cursor yields from `Seek(p)` while they start with `p`. */
  function Scan(cells: seq<Cell>, p: Bytes): seq<Cell> {
    cells[Slot(cells, p)..ScanEnd(cells, p, Slot(cells, p))]
  }

  /** A scan misses no cell: it yields exactly the cells that start with `p`, in
      order. */
  lemma ScanIsExact(cells: seq<Cell>, p: Bytes)
    requires Sorted(cells)
    ensures Sorted(Scan(cells, p))
    ensures forall c :: c in Scan(cells, p) <==> c in cells && p <= c.key
  {
    hide Rank, Slot;
    var a := Slot(cells, p);
    var b := ScanEnd(cells, p, a);
    forall c | c in cells && p <= c.key ensures c in Scan(cells, p) {
      var i :| 0 <= i < |cells| && cells[i] == c;
      PrefixIsLower(p, c.key);
      assert i >= a;
      if b <= i {
        assert Rank(cells[a].key) <= Rank(cells[b].key) <= Rank(cells[i].key);
        PrefixConvex(p, cells[b].key, c.key);
      }
      assert Scan(cells, p)[i - a] == c;
    }
  }

  // ---------- sorted sequences with the same keys ----------

  predicate SameKeys(s: seq<Cell>, t: seq<Bytes>) {
    && (forall c :: c in s ==> c.key in t)
    && (forall k :: k in t ==> exists c :: c in s && c.key == k)
  }

  /** Two sorted lists of the same keys are the same list. */
  lemma {:induction false} SortedMatch(s: seq<Cell>, t: seq<Bytes>)
    requires Sorted(s) && SortedKeys(t) && SameKeys(s, t)
    ensures |s| == |t| && forall i :: 0 <= i < |s| ==> s[i].key == t[i]
    decreases |s|
  {
    hide Rank, SameKeys, Sorted, SortedKeys;
    BothEmpty(s, t);
    if s != [] {
      LastMatch(s, t);
      InitMatch(s, t);
      InitSorted(s, t);
      var m, n := |s| - 1, |t| - 1;
      SortedMatch(s[..m], t[..n]);
      forall i | 0 <= i < |s| ensures s[i].key == t[i] {
        if i < m {
          assert s[..m][i] == s[i] && t[..n][i] == t[i];
        }
      }
    }
  }

  lemma InitSorted(s: seq<Cell>, t: seq<Bytes>)
    requires Sorted(s) && SortedKeys(t) && s != [] && t != []
    ensures Sorted(s[..|s| - 1]) && SortedKeys(t[..|t| - 1])
  {
    hide Rank;
  }

  lemma BothEmpty(s: seq<Cell>, t: seq<Bytes>)
    requires SameKeys(s, t)
    ensures s == [] <==> t == []
  {
    if t != [] {
      assert t[0] in t;
      var c :| c in s && c.key == t[0];
    }
    if s != [] {
      assert s[0] in s;
    }
  }

  lemma LastIsMost(s: seq<Cell>, c: Cell)
    requires Sorted(s) && c in s
    ensures Rank(c.key) <= Rank(s[|s| - 1].key)
  {
    hide Rank;
    var i :| 0 <= i < |s| && s[i] == c;
  }

  lemma LastKeyIsMost(t: seq<Bytes>, k: Bytes)
    requires SortedKeys(t) && k in t
    ensures Rank(k) <= Rank(t[|t| - 1])
  {
    hide Rank;
    var i :| 0 <= i < |t| && t[i] == k;
  }

  lemma LastMatch(s: seq<Cell>, t: seq<Bytes>)
    requires Sorted(s) && SortedKeys(t) && SameKeys(s, t) && s != []
    ensures t != [] && s[|s| - 1].key == t[|t| - 1]
  {
    hide Rank, Sorted, SortedKeys;
    var a := s[|s| - 1];
    assert a in s && a.key in t;
    var b := t[|t| - 1];
    assert b in t;
    var c :| c in s && c.key == b;
    LastIsMost(s, c);
    LastKeyIsMost(t, a.key);
    RankInjective(a.key, b);
  }

  lemma InitMatch(s: seq<Cell>, t: seq<Bytes>)
    requires Sorted(s) && SortedKeys(t) && SameKeys(s, t) && s != [] && t != []
    requires s[|s| - 1].key == t[|t| - 1]
    ensures SameKeys(s[..|s| - 1], t[..|t| - 1])
  {
    var m, n := |s| - 1, |t| - 1;
    CellsDiffer(s);
    KeysDifferFromLast(t);
    hide Rank, Sorted, SortedKeys;
    forall c | c in s[..m] ensures c.key in t[..n] {
      var i :| 0 <= i < m && s[i] == c;
      InitHas(t, c.key);
    }
    forall k | k in t[..n] ensures exists c :: c in s[..m] && c.key == k {
      var j :| 0 <= j < n && t[j] == k;
      assert t[j] in t;
      var c :| c in s && c.key == k;
      InitHas(s, c);
    }
  }

  lemma CellsDiffer(s: seq<Cell>)
    requires Sorted(s) && s != []
    ensures forall i :: 0 <= i < |s| - 1 ==> s[i].key != s[|s| - 1].key
  {
    hide Rank;
  }

  lemma KeysDifferFromLast(t: seq<Bytes>)
    requires SortedKeys(t) && t != []
    ensures forall i :: 0 <= i < |t| - 1 ==> t[i] != t[|t| - 1]
  {
    hide Rank;
  }

  lemma InitHas<T>(s: seq<T>, x: T)
    requires x in s && x != s[|s| - 1]
    ensures x in s[..|s| - 1]
  {
    var i :| 0 <= i < |s| && s[i] == x;
    assert s[..|s| - 1][i] == x;
  }

  // ---------- what a store holds ----------

  predicate GoodChainId(c: ChainId) {
    ValidKind(c.kind) && c.id != []
  }

  /** The key of version `v` of an id. */
  function KeyOf(c: ChainId, v: nat): Bytes
    requires GoodChainId(c)
  {
    BuildKey(c.kind, c.id, v).value
  }

  function ChainOf(e: Event): ChainId {
    ChainId(KindOf(e.body), EventID(e))
  }

  /** Version `i + 1` of `c` names version `i` as the one it supersedes. */
  ghost predicate GoodVersion(c: ChainId, i: nat, e: Event)
    requires GoodChainId(c)
  {
    && ChainOf(e) == c
    && e.hdr.version == i + 1
    && e.hdr.supersedes == (if i == 0 then [] else KeyOf(c, i))
    && ValidEnum(e.hdr.lifecycle)
    && (e.body.Link? ==> e.name == [])
  }

  ghost predicate GoodChain(c: ChainId, events: seq<Event>) {
    && GoodChainId(c) && 0 < |events| < MAX_VERSIONS
    && forall i :: 0 <= i < |events| ==> GoodVersion(c, i, events[i])
  }

  /** The chain of a link. */
  function LinkChain(src: Bytes, edge: Bytes, dst: Bytes): ChainId {
    ChainId(LINK, LinkID(src, edge, dst))
  }

  /** Version `i + 1` of `c` is stored, and reads as the event it should. */
  ghost predicate Stores(m: map<Bytes, Bytes>, c: ChainId, i: nat, e: Event)
    requires GoodChainId(c)
  {
    ReadsAs(m, KeyOf(c, i + 1), c.id, e)
  }

  ghost predicate ReadsAs(m: map<Bytes, Bytes>, key: Bytes, id: Bytes, e: Event) {
    key in m && Decode(m[key], id) == Success(e)
  }

  lemma ReadsKept(m: map<Bytes, Bytes>, key: Bytes, id: Bytes, e: Event, other: Bytes, val: Bytes)
    requires ReadsAs(m, key, id, e) && key != other
    ensures ReadsAs(m[other := val], key, id, e)
  {
    hide Decode;
  }

  /** The reverse-link entry of a link holds the key of its newest version. */
  ghost predicate Indexes(m: map<Bytes, Bytes>, chains: Chains, src: Bytes, edge: Bytes, dst: Bytes)
    requires src != [] && edge != [] && dst != [] && LinkChain(src, edge, dst) in chains
  {
    var rk, c := BuildReverseLinkKey(dst, edge, src).value, LinkChain(src, edge, dst);
    GoodChainId(c) && rk in m && m[rk] == KeyOf(c, |chains[c]|)
  }

  /** `key` is that of version `i + 1` of `c`. */
  predicate IsVersion(c: ChainId, i: nat, key: Bytes) {
    GoodChainId(c) && key == KeyOf(c, i + 1)
  }

  ghost predicate IsVersionKey(chains: Chains, key: Bytes) {
    exists c: ChainId, i: nat :: c in chains && i < |chains[c]| && IsVersion(c, i, key)
  }

  ghost predicate IsReverseKey(chains: Chains, key: Bytes) {
    exists src, edge, dst ::
      src != [] && edge != [] && dst != [] && LinkChain(src, edge, dst) in chains && key == BuildReverseLinkKey(dst, edge, src).value
  }

  ghost predicate GoodChains(chains: Chains) {
    forall c :: c in chains ==> GoodChain(c, chains[c])
  }

  ghost predicate AllStored(m: map<Bytes, Bytes>, chains: Chains) {
    forall c, i: nat :: c in chains && i < |chains[c]| ==> StoredVersion(m, chains, c, i)
  }

  ghost predicate StoredVersion(m: map<Bytes, Bytes>, chains: Chains, c: ChainId, i: nat)
    requires c in chains && i < |chains[c]|
  {
    GoodChainId(c) && Stores(m, c, i, chains[c][i])
  }

  /** Every link but `except` is indexed. */
  ghost predicate IndexedBut(m: map<Bytes, Bytes>, chains: Chains, except: Option<ChainId>) {
    forall src, edge, dst ::
      (src != [] && edge != [] && dst != [] && LinkChain(src, edge, dst) in chains && except != Some(LinkChain(src, edge, dst)))
      ==> Indexes(m, chains, src, edge, dst)
  }

  ghost predicate OnlyKnown(m: map<Bytes, Bytes>, chains: Chains) {
    forall key :: key in m ==> IsVersionKey(chains, key) || IsReverseKey(chains, key)
  }

  /** The store holds exactly the versions of `chains` and, for each link whose
      ends and type are all given, its reverse entry. */
  ghost predicate Holding(m: map<Bytes, Bytes>, chains: Chains) {
    GoodChains(chains) && AllStored(m, chains) && IndexedBut(m, chains, None) && OnlyKnown(m, chains)
  }

  function VersionsOf(chains: Chains, c: ChainId): seq<Event> {
    if c in chains then chains[c] else []
  }

  /** The chains with one more version of `c`. */
  function Extended(chains: Chains, c: ChainId, e: Event): Chains {
    chains[c := VersionsOf(chains, c) + [e]]
  }

  // ---------- scanning one chain ----------

  function ChainKeys(c: ChainId, n: nat): (keys: seq<Bytes>)
    requires GoodChainId(c)
    ensures |keys| == n
  {
    seq(n, i requires 0 <= i < n => KeyOf(c, i + 1))
  }

  lemma ChainKeysSorted(c: ChainId, n: nat)
    requires GoodChainId(c) && n < MAX_VERSIONS
    ensures SortedKeys(ChainKeys(c, n))
  {
    hide Rank, BuildKey;
    forall i, j | 0 <= i < j < n ensures Rank(ChainKeys(c, n)[i]) < Rank(ChainKeys(c, n)[j]) {
      VersionOrder(c.kind, c.id, i + 1, j + 1);
    }
  }

  ghost predicate SomeVersion(c: ChainId, n: nat, key: Bytes) {
    exists i: nat :: i < n && IsVersion(c, i, key)
  }

  /** A version's key starts with the chain prefix of its own id only. */
  lemma VersionHasPrefix(c: ChainId, n: nat, c': ChainId, i: nat, key: Bytes)
    requires GoodChainId(c) && IsVersion(c', i, key) && i + 1 < MAX_VERSIONS && n < MAX_VERSIONS
    ensures ChainPrefix(c.kind, c.id).value <= key <==> c == c'
    ensures c != c' ==> !SomeVersion(c, n, key)
  {
    ChainPrefixIsExact(c.kind, c.id, c'.kind, c'.id, i + 1);
    forall j: nat | j < n && IsVersion(c, j, key) ensures c == c' {
      KeysDiffer(c.kind, c.id, j + 1, c'.kind, c'.id, i + 1);
    }
  }

  lemma ReverseHasNoPrefix(c: ChainId, n: nat, chains: Chains, key: Bytes)
    requires GoodChainId(c) && IsReverseKey(chains, key)
    ensures !(ChainPrefix(c.kind, c.id).value <= key) && !SomeVersion(c, n, key)
  {
    hide Composite;
    var src, edge, dst :| src != [] && edge != [] && dst != [] && LinkChain(src, edge, dst) in chains
                          && key == BuildReverseLinkKey(dst, edge, src).value;
    var p := ChainPrefix(c.kind, c.id).value;
    assert Prefix(c.kind) <= p && REVERSE_LINK_PREFIX <= key;
    ReverseKeyIsNotEvent(dst, edge, src, c.kind, p);
    forall j: nat ensures !IsVersion(c, j, key) {
      EventKeyIsNotReverse(c.kind, c.id, j + 1, key);
    }
  }

  /** Which stored keys start with a chain's prefix. */
  lemma ChainPrefixFinds(m: map<Bytes, Bytes>, chains: Chains, c: ChainId, key: Bytes)
    requires Holding(m, chains) && GoodChainId(c) && key in m
    ensures ChainPrefix(c.kind, c.id).value <= key <==> SomeVersion(c, |VersionsOf(chains, c)|, key)
  {
    VersionsFit(m, chains, c);
    KeyIsEither(m, chains, key);
    hide Holding, ChainPrefix, IsVersion, IsReverseKey;
    if IsVersionKey(chains, key) {
      var c', i: nat :| c' in chains && i < |chains[c']| && IsVersion(c', i, key);
      VersionsFit(m, chains, c');
      VersionHasPrefix(c, |VersionsOf(chains, c)|, c', i, key);
      if c == c' {
        assert i < |VersionsOf(chains, c)| && IsVersion(c, i, key);
      }
    } else {
      ReverseHasNoPrefix(c, |VersionsOf(chains, c)|, chains, key);
    }
  }

  lemma KeyIsEither(m: map<Bytes, Bytes>, chains: Chains, key: Bytes)
    requires Holding(m, chains) && key in m
    ensures IsVersionKey(chains, key) || IsReverseKey(chains, key)
  {
    hide GoodChains, AllStored, IndexedBut, IsVersionKey, IsReverseKey;
  }

  lemma CellsAreEntries(cells: seq<Cell>, c: Cell)
    requires Sorted(cells) && c in cells
    ensures c.key in Contents(cells) && Contents(cells)[c.key] == c.val
  {
    ContentsAt(cells);
  }

  lemma EntriesAreCells(cells: seq<Cell>, key: Bytes)
    requires Sorted(cells) && key in Contents(cells)
    ensures exists c :: c in cells && c.key == key && c.val == Contents(cells)[key]
  {
    ContentsAt(cells);
    var c :| c in cells && c.key == key;
    assert Contents(cells)[c.key] == c.val;
  }

  /** A scan of a chain's prefix yields its versions from first to last, and
      nothing else. */
  lemma ChainScan(cells: seq<Cell>, chains: Chains, c: ChainId)
    requires Sorted(cells) && Holding(Contents(cells), chains) && GoodChainId(c)
    ensures var s, events := Scan(cells, ChainPrefix(c.kind, c.id).value), VersionsOf(chains, c);
            && |s| == |events| < MAX_VERSIONS
            && forall i :: 0 <= i < |s| ==>
                 s[i].key == KeyOf(c, i + 1) && Decode(s[i].val, c.id) == Success(events[i]) && GoodVersion(c, i, events[i])
  {
    var p := ChainPrefix(c.kind, c.id).value;
    hide *;
    var m, events := Contents(cells), VersionsOf(chains, c);
    var s := Scan(cells, p);
    ChainScanKeys(cells, chains, c);
    VersionsFit(m, chains, c);
    forall i | 0 <= i < |s|
      ensures s[i].key == KeyOf(c, i + 1) && Decode(s[i].val, c.id) == Success(events[i]) && GoodVersion(c, i, events[i])
    {
      CellsAreEntries(cells, s[i]);
      VersionStored(m, chains, c, i);
      VersionReads(m, chains, c, i);
    }
  }

  lemma VersionReads(m: map<Bytes, Bytes>, chains: Chains, c: ChainId, i: nat)
    requires GoodChainId(c) && i < |VersionsOf(chains, c)| && Stores(m, c, i, VersionsOf(chains, c)[i])
    ensures KeyOf(c, i + 1) in m && Decode(m[KeyOf(c, i + 1)], c.id) == Success(VersionsOf(chains, c)[i])
  {
    hide Decode;
  }

  lemma ChainScanKeys(cells: seq<Cell>, chains: Chains, c: ChainId)
    requires Sorted(cells) && Holding(Contents(cells), chains) && GoodChainId(c)
    ensures var s := Scan(cells, ChainPrefix(c.kind, c.id).value);
            && |s| == |VersionsOf(chains, c)|
            && forall i :: 0 <= i < |s| ==> s[i] in cells && s[i].key == KeyOf(c, i + 1)
  {
    var p, n := ChainPrefix(c.kind, c.id).value, |VersionsOf(chains, c)|;
    hide *;
    var s, t := Scan(cells, p), ChainKeys(c, n);
    ScanIsExact(cells, p);
    VersionsFit(Contents(cells), chains, c);
    ChainKeysSorted(c, n);
    ScanKeysAre(cells, chains, c);
    SortedMatch(s, t);
    forall i | 0 <= i < |s| ensures s[i] in cells && s[i].key == KeyOf(c, i + 1) {
      assert s[i] in s;
      ChainKeyAt(c, n, i);
    }
  }

  lemma ChainKeyAt(c: ChainId, n: nat, i: nat)
    requires GoodChainId(c) && i < n
    ensures ChainKeys(c, n)[i] == KeyOf(c, i + 1)
  {
    hide KeyOf;
  }

  lemma VersionsFit(m: map<Bytes, Bytes>, chains: Chains, c: ChainId)
    requires Holding(m, chains)
    ensures |VersionsOf(chains, c)| < MAX_VERSIONS
  {
    hide Stores, Indexes, IsVersionKey, IsReverseKey, AllStored, IndexedBut, OnlyKnown;
    if c in chains {
      assert GoodChain(c, chains[c]);
    }
  }

  lemma VersionStored(m: map<Bytes, Bytes>, chains: Chains, c: ChainId, i: nat)
    requires Holding(m, chains) && GoodChainId(c) && i < |VersionsOf(chains, c)|
    ensures Stores(m, c, i, VersionsOf(chains, c)[i]) && GoodVersion(c, i, VersionsOf(chains, c)[i])
  {
    hide Stores, Indexes, IsVersionKey, IsReverseKey, GoodVersion, IndexedBut, OnlyKnown;
    assert GoodChain(c, chains[c]) && StoredVersion(m, chains, c, i);
  }

  lemma ScanKeysAre(cells: seq<Cell>, chains: Chains, c: ChainId)
    requires Sorted(cells) && Holding(Contents(cells), chains) && GoodChainId(c)
    ensures SameKeys(Scan(cells, ChainPrefix(c.kind, c.id).value), ChainKeys(c, |VersionsOf(chains, c)|))
  {
    hide Decode, Scan, Contents, Rank, Holding, Sorted, BuildKey;
    var p, m, events := ChainPrefix(c.kind, c.id).value, Contents(cells), VersionsOf(chains, c);
    var s, t := Scan(cells, p), ChainKeys(c, |events|);
    ScanIsExact(cells, p);
    forall x | x in s ensures x.key in t {
      CellsAreEntries(cells, x);
      ChainPrefixFinds(m, chains, c, x.key);
      var i: nat :| i < |events| && IsVersion(c, i, x.key);
      assert t[i] == x.key;
    }
    forall k | k in t ensures exists x :: x in s && x.key == k {
      var i :| 0 <= i < |t| && t[i] == k;
      VersionStored(m, chains, c, i);
      EntriesAreCells(cells, k);
      ChainPrefixFinds(m, chains, c, k);
      var x :| x in cells && x.key == k && x.val == m[k];
      assert i < |events| && IsVersion(c, i, k);
      assert x in s;
    }
  }

  // ---------- appending ----------

  lemma ExtendedIsGood(chains: Chains, c: ChainId, e: Event)
    requires GoodChains(chains) && GoodChainId(c) && |VersionsOf(chains, c)| + 1 < MAX_VERSIONS
    requires GoodVersion(c, |VersionsOf(chains, c)|, e)
    ensures GoodChains(Extended(chains, c, e))
  {
    hide GoodVersion;
    var x := Extended(chains, c, e);
    forall d | d in x ensures GoodChain(d, x[d]) {
      assert d in chains ==> GoodChain(d, chains[d]);
    }
  }

  lemma OtherVersionKey(c: ChainId, i: nat, d: ChainId, j: nat)
    requires GoodChainId(c) && GoodChainId(d) && i + 1 < MAX_VERSIONS && j + 1 < MAX_VERSIONS && (c != d || i != j)
    ensures KeyOf(c, i + 1) != KeyOf(d, j + 1)
  {
    KeysDiffer(c.kind, c.id, i + 1, d.kind, d.id, j + 1);
  }

  lemma VersionKeyKept(m: map<Bytes, Bytes>, c: ChainId, i: nat, e: Event, d: ChainId, j: nat, val: Bytes)
    requires GoodChainId(c) && GoodChainId(d) && Stores(m, c, i, e) && i + 1 < MAX_VERSIONS && j + 1 < MAX_VERSIONS
    requires c != d || i != j
    ensures Stores(m[KeyOf(d, j + 1) := val], c, i, e)
  {
    OtherVersionKey(c, i, d, j);
    hide ReadsAs, KeyOf, GoodChainId;
    ReadsKept(m, KeyOf(c, i + 1), c.id, e, KeyOf(d, j + 1), val);
  }

  lemma StoredMore(m: map<Bytes, Bytes>, chains: Chains, c: ChainId, e: Event, val: Bytes)
    requires GoodChains(chains) && AllStored(m, chains) && GoodChainId(c) && |VersionsOf(chains, c)| + 1 < MAX_VERSIONS
    requires Decode(val, c.id) == Success(e)
    ensures AllStored(m[KeyOf(c, |VersionsOf(chains, c)| + 1) := val], Extended(chains, c, e))
  {
    hide GoodVersion, Decode, BuildKey;
    var n, x := |VersionsOf(chains, c)|, Extended(chains, c, e);
    var m' := m[KeyOf(c, n + 1) := val];
    forall d, i: nat | d in x && i < |x[d]| ensures StoredVersion(m', x, d, i) {
      if d != c || i < n {
        assert GoodChain(d, chains[d]) && StoredVersion(m, chains, d, i);
        hide Stores;
        VersionKeyKept(m, d, i, chains[d][i], c, n, val);
      }
    }
  }

  lemma ExtendedKeepsKeys(chains: Chains, c: ChainId, e: Event, key: Bytes)
    ensures IsVersionKey(chains, key) ==> IsVersionKey(Extended(chains, c, e), key)
    ensures IsReverseKey(chains, key) ==> IsReverseKey(Extended(chains, c, e), key)
  {
    hide IsVersion, BuildReverseLinkKey, LinkChain;
    var x := Extended(chains, c, e);
    if IsVersionKey(chains, key) {
      var d, i: nat :| d in chains && i < |chains[d]| && IsVersion(d, i, key);
      assert d in x && i < |x[d]|;
    }
  }

  lemma KnownMore(m: map<Bytes, Bytes>, chains: Chains, c: ChainId, e: Event, val: Bytes)
    requires OnlyKnown(m, chains) && GoodChainId(c)
    ensures OnlyKnown(m[KeyOf(c, |VersionsOf(chains, c)| + 1) := val], Extended(chains, c, e))
  {
    hide IsVersionKey, IsReverseKey, BuildKey;
    var n, x := |VersionsOf(chains, c)|, Extended(chains, c, e);
    var m' := m[KeyOf(c, n + 1) := val];
    forall key | key in m' ensures IsVersionKey(x, key) || IsReverseKey(x, key) {
      if key == KeyOf(c, n + 1) {
        NewKeyKnown(chains, c, e);
      } else {
        ExtendedKeepsKeys(chains, c, e, key);
      }
    }
  }

  lemma NewKeyKnown(chains: Chains, c: ChainId, e: Event)
    requires GoodChainId(c)
    ensures IsVersionKey(Extended(chains, c, e), KeyOf(c, |VersionsOf(chains, c)| + 1))
  {
    hide BuildKey;
    var n, x := |VersionsOf(chains, c)|, Extended(chains, c, e);
    assert c in x && n < |x[c]| && IsVersion(c, n, KeyOf(c, n + 1));
  }

  lemma IndexKept(m: map<Bytes, Bytes>, chains: Chains, c: ChainId, e: Event, val: Bytes, src: Bytes, edge: Bytes, dst: Bytes)
    requires GoodChainId(c) && src != [] && edge != [] && dst != [] && LinkChain(src, edge, dst) in chains
    requires LinkChain(src, edge, dst) != c && Indexes(m, chains, src, edge, dst)
    ensures Indexes(m[KeyOf(c, |VersionsOf(chains, c)| + 1) := val], Extended(chains, c, e), src, edge, dst)
  {
    hide LinkChain;
    var rk := BuildReverseLinkKey(dst, edge, src).value;
    assert REVERSE_LINK_PREFIX <= rk;
    EventKeyIsNotReverse(c.kind, c.id, |VersionsOf(chains, c)| + 1, rk);
  }

  lemma IndexedMore(m: map<Bytes, Bytes>, chains: Chains, c: ChainId, e: Event, val: Bytes)
    requires IndexedBut(m, chains, None) && GoodChainId(c)
    ensures IndexedBut(m[KeyOf(c, |VersionsOf(chains, c)| + 1) := val], Extended(chains, c, e), Some(c))
  {
    hide BuildKey, LinkChain, Indexes;
    var x := Extended(chains, c, e);
    var m' := m[KeyOf(c, |VersionsOf(chains, c)| + 1) := val];
    forall src, edge, dst | src != [] && edge != [] && dst != [] && LinkChain(src, edge, dst) in x
                            && Some(c) != Some(LinkChain(src, edge, dst))
      ensures Indexes(m', x, src, edge, dst)
    {
      assert LinkChain(src, edge, dst) in chains;
      IndexKept(m, chains, c, e, val, src, edge, dst);
    }
  }

  /** After the forward record of a version has been written, only the reverse
      entry of its link can be behind. */
  lemma ForwardWritten(m: map<Bytes, Bytes>, chains: Chains, c: ChainId, e: Event, val: Bytes)
    requires Holding(m, chains) && GoodChainId(c) && |VersionsOf(chains, c)| + 1 < MAX_VERSIONS
    requires GoodVersion(c, |VersionsOf(chains, c)|, e) && Decode(val, c.id) == Success(e)
    ensures var m', x := m[KeyOf(c, |VersionsOf(chains, c)| + 1) := val], Extended(chains, c, e);
            GoodChains(x) && AllStored(m', x) && OnlyKnown(m', x) && IndexedBut(m', x, Some(c))
  {
    hide *;
    HoldingParts(m, chains);
    ExtendedIsGood(chains, c, e);
    StoredMore(m, chains, c, e, val);
    KnownMore(m, chains, c, e, val);
    IndexedMore(m, chains, c, e, val);
  }

  lemma HoldingParts(m: map<Bytes, Bytes>, chains: Chains)
    requires Holding(m, chains)
    ensures GoodChains(chains) && AllStored(m, chains) && IndexedBut(m, chains, None) && OnlyKnown(m, chains)
  {
  }

  /** A chain that belongs to no complete link needs no reverse entry. */
  lemma NoIndexNeeded(m: map<Bytes, Bytes>, chains: Chains, c: ChainId)
    requires GoodChains(chains) && AllStored(m, chains) && OnlyKnown(m, chains) && IndexedBut(m, chains, Some(c))
    requires forall src, edge, dst :: c == LinkChain(src, edge, dst) ==> src == [] || edge == [] || dst == []
    ensures Holding(m, chains)
  {
    hide GoodChains, AllStored, OnlyKnown, Indexes, LinkChain;
  }

  lemma VersionKeptByIndex(m: map<Bytes, Bytes>, c: ChainId, i: nat, e: Event, rk: Bytes, val: Bytes)
    requires GoodChainId(c) && Stores(m, c, i, e) && REVERSE_LINK_PREFIX <= rk
    ensures Stores(m[rk := val], c, i, e)
  {
    EventKeyIsNotReverse(c.kind, c.id, i + 1, rk);
    hide ReadsAs, BuildKey;
    ReadsKept(m, KeyOf(c, i + 1), c.id, e, rk, val);
  }

  lemma StoredAfterIndex(m: map<Bytes, Bytes>, chains: Chains, rk: Bytes, val: Bytes)
    requires AllStored(m, chains) && REVERSE_LINK_PREFIX <= rk
    ensures AllStored(m[rk := val], chains)
  {
    hide Stores, GoodChainId;
    var m' := m[rk := val];
    forall c, i: nat | c in chains && i < |chains[c]| ensures StoredVersion(m', chains, c, i) {
      assert StoredVersion(m, chains, c, i);
      VersionKeptByIndex(m, c, i, chains[c][i], rk, val);
    }
  }

  lemma KnownAfterIndex(m: map<Bytes, Bytes>, chains: Chains, src: Bytes, edge: Bytes, dst: Bytes, val: Bytes)
    requires OnlyKnown(m, chains) && src != [] && edge != [] && dst != [] && LinkChain(src, edge, dst) in chains
    ensures OnlyKnown(m[BuildReverseLinkKey(dst, edge, src).value := val], chains)
  {
    hide IsVersionKey;
    var rk := BuildReverseLinkKey(dst, edge, src).value;
    hide BuildReverseLinkKey, LinkChain;
    assert IsReverseKey(chains, rk);
  }

  lemma OtherIndexKept(m: map<Bytes, Bytes>, chains: Chains, src: Bytes, edge: Bytes, dst: Bytes, val: Bytes,
                       src': Bytes, edge': Bytes, dst': Bytes)
    requires src != [] && edge != [] && dst != [] && src' != [] && edge' != [] && dst' != []
    requires LinkChain(src', edge', dst') in chains && LinkChain(src', edge', dst') != LinkChain(src, edge, dst)
    requires Indexes(m, chains, src', edge', dst')
    ensures Indexes(m[BuildReverseLinkKey(dst, edge, src).value := val], chains, src', edge', dst')
  {
    CompositeInjective(dst, edge, src, dst', edge', src');
    hide Composite;
    var a, b := Composite(dst, edge, src), Composite(dst', edge', src');
    assert a != b;
    assert (REVERSE_LINK_PREFIX + a)[3..] == a && (REVERSE_LINK_PREFIX + b)[3..] == b;
  }

  /** Writing the reverse entry completes an append. */
  lemma IndexWritten(m: map<Bytes, Bytes>, chains: Chains, src: Bytes, edge: Bytes, dst: Bytes)
    requires src != [] && edge != [] && dst != [] && LinkChain(src, edge, dst) in chains
    requires var c := LinkChain(src, edge, dst);
             GoodChains(chains) && AllStored(m, chains) && OnlyKnown(m, chains) && IndexedBut(m, chains, Some(c))
    ensures var c := LinkChain(src, edge, dst);
            && GoodChainId(c)
            && Holding(m[BuildReverseLinkKey(dst, edge, src).value := KeyOf(c, |chains[c]|)], chains)
  {
    var c := LinkChain(src, edge, dst);
    assert GoodChain(c, chains[c]);
    var val := KeyOf(c, |chains[c]|);
    var rk := BuildReverseLinkKey(dst, edge, src).value;
    var m' := m[rk := val];
    assert REVERSE_LINK_PREFIX <= rk;
    StoredAfterIndex(m, chains, rk, val);
    KnownAfterIndex(m, chains, src, edge, dst, val);
    assert Indexes(m', chains, src, edge, dst);
    hide GoodChains, AllStored, OnlyKnown, Indexes, LinkChain, BuildReverseLinkKey, KeyOf, GoodChainId;
    forall s, e, d | s != [] && e != [] && d != [] && LinkChain(s, e, d) in chains ensures Indexes(m', chains, s, e, d) {
      if LinkChain(s, e, d) != c {
        OtherIndexKept(m, chains, src, edge, dst, val, s, e, d);
      } else {
        SameLink(src, edge, dst, s, e, d);
      }
    }
  }

  lemma SameLink(src: Bytes, edge: Bytes, dst: Bytes, src': Bytes, edge': Bytes, dst': Bytes)
    ensures LinkChain(src, edge, dst) == LinkChain(src', edge', dst') <==> src == src' && edge == edge' && dst == dst'
  {
    CompositeInjective(src, edge, dst, src', edge', dst');
    hide Composite;
  }
}
